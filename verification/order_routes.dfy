/**
 * The orders API (backend/routes/orders.js): placing an order, reading one
 * order with its access rule, listing a user's orders, and the status
 * update. The database is a pair of maps; each route is a function from
 * the database before the request to the reply and the database after.
 */
module OrderRoutes {
  import opened Common
  import opened MedicineModel
  import opened OrderModel

  /** The authenticated caller: the user id and role the auth middleware
      attaches to the request. */
  datatype Caller = Caller(id: Id, role: string)

  predicate IsAdmin(c: Caller)
  {
    c.role == "admin"
  }

  type OrderStore = map<Id, Order>

  datatype Db = Db(medicines: Catalog, orders: OrderStore)

  /** The body of `POST /`. */
  datatype OrderRequest = OrderRequest(items: seq<LineItem>, delivery: Option<Delivery>, payment: Option<PaymentForm>)

  // ---------------------------------------------------------------------
  // The create loop

  /** Where the create loop ends: after the last item with the running
      total, or at a rejected item with its 400 message. Either way the
      catalog holds every stock decrement saved so far. */
  datatype Draw = Reached(total: int, catalog: Catalog) | Stopped(message: string, catalog: Catalog)

  /** `medicine.stock -= item.quantity; await medicine.save()`: only the
      stock of the item's medicine changes, by the quantity. */
  function Take(cat: Catalog, item: LineItem): (r: Catalog)
    requires item.medicine in cat
    ensures r.Keys == cat.Keys
    ensures r[item.medicine].stock == cat[item.medicine].stock - item.quantity
    ensures r[item.medicine] == cat[item.medicine].(stock := r[item.medicine].stock)
    ensures forall k :: k in cat && k != item.medicine ==> r[k] == cat[k]
  {
    cat[item.medicine := cat[item.medicine].(stock := cat[item.medicine].stock - item.quantity)]
  }

  function NotFoundMessage(id: Id): string
  {
    "Medicine " + id + " not found"
  }

  function InsufficientStockMessage(m: Medicine): string
  {
    "Insufficient stock for " + m.name
  }

  /** The `for (const item of items)` loop: look the medicine up, reject a
      missing one or one whose current stock is below the quantity, add
      live price times quantity to the total, and save the decrement
      before moving on. Nothing is undone when a later item is rejected. */
  function Reserve(cat: Catalog, items: seq<LineItem>): (r: Draw)
    ensures r.catalog.Keys == cat.Keys
    ensures forall k :: k in cat ==> r.catalog[k] == cat[k].(stock := r.catalog[k].stock)
    ensures ValidCatalog(cat) ==> ValidCatalog(r.catalog)
    decreases |items|
  {
    if items == [] then Reached(0, cat)
    else
      var item := items[0];
      if item.medicine !in cat then Stopped(NotFoundMessage(item.medicine), cat)
      else
        var m := cat[item.medicine];
        if m.stock < item.quantity then Stopped(InsufficientStockMessage(m), cat)
        else
          match Reserve(Take(cat, item), items[1..])
          case Reached(t, c) => Reached(m.price * item.quantity + t, c)
          case Stopped(msg, c) => Stopped(msg, c)
  }

  // ---------------------------------------------------------------------
  // Reference definitions of what the loop computes

  /** The total quantity the items request of medicine `k`. */
  function QtyOf(items: seq<LineItem>, k: Id): int
    decreases |items|
  {
    if items == [] then 0
    else (if items[0].medicine == k then items[0].quantity else 0) + QtyOf(items[1..], k)
  }

  /** Item `j` passes its checks: the medicine exists, and its original
      stock covers everything items `0..j` request of it, because the
      earlier items' decrements are already saved when item `j` is
      checked. */
  predicate LinePasses(cat: Catalog, items: seq<LineItem>, j: int)
    requires 0 <= j < |items|
  {
    var id := items[j].medicine;
    id in cat && QtyOf(items[..j + 1], id) <= cat[id].stock
  }

  predicate AllLinesPass(cat: Catalog, items: seq<LineItem>)
  {
    forall j :: 0 <= j < |items| ==> LinePasses(cat, items, j)
  }

  /** The catalog with every requested quantity subtracted from the
      original stock. */
  function Drawn(cat: Catalog, items: seq<LineItem>): Catalog
  {
    map k | k in cat :: cat[k].(stock := cat[k].stock - QtyOf(items, k))
  }

  /** The sum, in list order, of catalog price times requested quantity. */
  function Bill(cat: Catalog, items: seq<LineItem>): int
    requires forall i :: 0 <= i < |items| ==> items[i].medicine in cat
    decreases |items|
  {
    if items == [] then 0
    else cat[items[0].medicine].price * items[0].quantity + Bill(cat, items[1..])
  }

  /** The 400 message for the first item that fails its checks. */
  function StopMessage(cat: Catalog, item: LineItem): string
  {
    if item.medicine !in cat then NotFoundMessage(item.medicine)
    else InsufficientStockMessage(cat[item.medicine])
  }

  // ---------------------------------------------------------------------
  // One step of the loop, related to the reference definitions

  lemma FirstLinePasses(cat: Catalog, items: seq<LineItem>)
    requires |items| > 0
    ensures LinePasses(cat, items, 0) <==>
      items[0].medicine in cat && items[0].quantity <= cat[items[0].medicine].stock
  {
    var head := items[..1];
    assert head[0] == items[0] && head[1..] == [];
    assert QtyOf(head, items[0].medicine) == items[0].quantity + QtyOf([], items[0].medicine);
  }

  /** After the first decrement, item `j + 1` of the whole list is checked
      exactly as item `j` of the rest is checked against the new catalog. */
  lemma PassesShift(cat: Catalog, items: seq<LineItem>, j: int)
    requires |items| > 0 && items[0].medicine in cat
    requires 0 <= j < |items| - 1
    ensures LinePasses(Take(cat, items[0]), items[1..], j) <==> LinePasses(cat, items, j + 1)
  {
    var id := items[j + 1].medicine;
    assert items[1..][j] == items[j + 1];
    assert items[..j + 2][1..] == items[1..][..j + 1];
  }

  lemma AllPassShift(cat: Catalog, items: seq<LineItem>)
    requires |items| > 0 && items[0].medicine in cat
    ensures AllLinesPass(cat, items) <==>
      LinePasses(cat, items, 0) && AllLinesPass(Take(cat, items[0]), items[1..])
  {
    forall j | 0 <= j < |items| - 1
      ensures LinePasses(Take(cat, items[0]), items[1..], j) <==> LinePasses(cat, items, j + 1)
    {
      PassesShift(cat, items, j);
    }
    if LinePasses(cat, items, 0) && AllLinesPass(Take(cat, items[0]), items[1..]) {
      forall j | 0 <= j < |items|
        ensures LinePasses(cat, items, j)
      {
        if j > 0 {
          assert LinePasses(Take(cat, items[0]), items[1..], j - 1);
        }
      }
    }
  }

  lemma DrawnStep(cat: Catalog, items: seq<LineItem>)
    requires |items| > 0 && items[0].medicine in cat
    ensures Drawn(Take(cat, items[0]), items[1..]) == Drawn(cat, items)
  {
  }

  lemma DrawnNothing(cat: Catalog)
    ensures Drawn(cat, []) == cat
  {
  }

  /** The bill only reads prices, which decrements do not touch. */
  lemma {:induction false} BillReadsOnlyPrices(cat: Catalog, cat': Catalog, items: seq<LineItem>)
    requires cat'.Keys == cat.Keys
    requires forall k :: k in cat ==> cat'[k].price == cat[k].price
    requires forall i :: 0 <= i < |items| ==> items[i].medicine in cat
    ensures Bill(cat', items) == Bill(cat, items)
    decreases |items|
  {
    if items != [] {
      BillReadsOnlyPrices(cat, cat', items[1..]);
    }
  }

  // ---------------------------------------------------------------------
  // What the loop computes

  /** When every item passes, the loop reaches the end with the catalog
      total of the items and every stock reduced by its total request. */
  lemma {:induction false} ReserveWhenAllPass(cat: Catalog, items: seq<LineItem>)
    requires AllLinesPass(cat, items)
    ensures forall i :: 0 <= i < |items| ==> items[i].medicine in cat
    ensures Reserve(cat, items) == Reached(Bill(cat, items), Drawn(cat, items))
    decreases |items|
  {
    if items == [] {
      DrawnNothing(cat);
    } else {
      assert LinePasses(cat, items, 0);
      FirstLinePasses(cat, items);
      var next := Take(cat, items[0]);
      AllPassShift(cat, items);
      ReserveWhenAllPass(next, items[1..]);
      DrawnStep(cat, items);
      BillReadsOnlyPrices(cat, next, items[1..]);
      PassingItemsExist(cat, items);
    }
  }

  lemma PassingItemsExist(cat: Catalog, items: seq<LineItem>)
    requires AllLinesPass(cat, items)
    ensures forall i :: 0 <= i < |items| ==> items[i].medicine in cat
  {
    forall i | 0 <= i < |items|
      ensures items[i].medicine in cat
    {
      assert LinePasses(cat, items, i);
    }
  }

  /** When item `k` is the first to fail, the loop stops there with its
      message, the catalog holds the decrements of items `0..k-1`, and
      nothing after item `k` is looked at. */
  lemma {:induction false} ReserveStopsAtFirstFailure(cat: Catalog, items: seq<LineItem>, k: int)
    requires 0 <= k < |items|
    requires forall j :: 0 <= j < k ==> LinePasses(cat, items, j)
    requires !LinePasses(cat, items, k)
    ensures Reserve(cat, items) == Stopped(StopMessage(Drawn(cat, items[..k]), items[k]), Drawn(cat, items[..k]))
    ensures StopMessage(Drawn(cat, items[..k]), items[k]) == StopMessage(cat, items[k])
    decreases k
  {
    FirstLinePasses(cat, items);
    if k == 0 {
      DrawnNothing(cat);
      assert items[..0] == [];
    } else {
      assert LinePasses(cat, items, 0);
      var next := Take(cat, items[0]);
      var rest := items[1..];
      forall j | 0 <= j < k - 1
        ensures LinePasses(next, rest, j)
      {
        PassesShift(cat, items, j);
      }
      PassesShift(cat, items, k - 1);
      ReserveStopsAtFirstFailure(next, rest, k - 1);
      assert rest[k - 1] == items[k];
      assert items[..k][1..] == rest[..k - 1];
      DrawnStep(cat, items[..k]);
    }
  }

  /** The loop reaches the end exactly when every item passes. */
  lemma {:induction false} ReserveReachedIff(cat: Catalog, items: seq<LineItem>)
    ensures Reserve(cat, items).Reached? <==> AllLinesPass(cat, items)
    decreases |items|
  {
    if items != [] {
      FirstLinePasses(cat, items);
      if items[0].medicine in cat {
        AllPassShift(cat, items);
        if items[0].quantity <= cat[items[0].medicine].stock {
          ReserveReachedIff(Take(cat, items[0]), items[1..]);
        }
      }
    }
  }

  /** Stock never becomes negative, for any quantities: an item is only
      applied when the current stock covers it. A non-positive quantity
      passes the check and raises (or keeps) the stock. */
  lemma StockBounds(cat: Catalog, items: seq<LineItem>, k: Id)
    requires k in cat && cat[k].stock >= 0
    requires AllLinesPass(cat, items)
    ensures Reserve(cat, items).catalog[k].stock == cat[k].stock - QtyOf(items, k) >= 0
  {
    StockNeverNegative(cat, items, k);
    ReserveWhenAllPass(cat, items);
  }

  /** The per-medicine form of the stock bound, proved on the loop itself:
      whether the loop reaches the end or stops, a medicine whose stock was
      not negative still has a stock that is not negative. */
  lemma {:induction false} StockNeverNegative(cat: Catalog, items: seq<LineItem>, k: Id)
    requires k in cat && cat[k].stock >= 0
    ensures Reserve(cat, items).catalog[k].stock >= 0
    decreases |items|
  {
    if items != [] && items[0].medicine in cat && cat[items[0].medicine].stock >= items[0].quantity {
      StockNeverNegative(Take(cat, items[0]), items[1..], k);
    }
  }

  // ---------------------------------------------------------------------
  // POST /

  /** `POST /`: run the loop; a rejected item is a 400 with the decrements
      so far already saved; otherwise build the order from the caller, the
      items exactly as sent and the computed total, and save it. The save
      runs the line-item validators, so an item with quantity below 1 or
      without a price turns into a 500 after all the stock has been
      taken. */
  function CreateOrder(db: Db, caller: Caller, req: OrderRequest, freshId: Id): (r: (Reply<Order>, Db))
    requires freshId !in db.orders
    ensures r.0.Ok? ==>
      && r.0.code == 201
      && r.0.body.user == caller.id && r.0.body.items == req.items
      && r.0.body.status == Pending && ValidOrder(r.0.body)
      && r.1.orders == db.orders[freshId := r.0.body]
    ensures r.0.Err? ==> r.0.code in {400, 500} && r.1.orders == db.orders
    ensures r.1.medicines.Keys == db.medicines.Keys
    ensures ValidCatalog(db.medicines) ==> ValidCatalog(r.1.medicines)
  {
    match Reserve(db.medicines, req.items)
    case Stopped(msg, c) => (Err(400, msg), db.(medicines := c))
    case Reached(total, c) =>
      var o := NewOrder(caller.id, req.items, total, req.delivery, req.payment);
      if !ValidOrder(o) then (Err(500, "Error creating order"), db.(medicines := c))
      else (Ok(201, o), Db(c, db.orders[freshId := o]))
  }

  /** Success: when every item passes and is well-formed, the reply is a
      201 with the caller's order, whose total is the catalog price sum and
      whose items are the request's own (with the client's prices), and
      every stock drops by its total request. */
  lemma CreateOrderSucceeds(db: Db, caller: Caller, req: OrderRequest, freshId: Id)
    requires freshId !in db.orders
    requires AllLinesPass(db.medicines, req.items)
    requires forall i :: 0 <= i < |req.items| ==> ItemValid(req.items[i])
    ensures forall i :: 0 <= i < |req.items| ==> req.items[i].medicine in db.medicines
    ensures var o := NewOrder(caller.id, req.items, Bill(db.medicines, req.items), req.delivery, req.payment);
      CreateOrder(db, caller, req, freshId) == (Ok(201, o), Db(Drawn(db.medicines, req.items), db.orders[freshId := o]))
  {
    ReserveWhenAllPass(db.medicines, req.items);
  }

  /** Failure on item `k`: a 400 naming the missing id or the short
      medicine, no order, and the stock of items `0..k-1` already taken. */
  lemma CreateOrderStopsAt(db: Db, caller: Caller, req: OrderRequest, freshId: Id, k: int)
    requires freshId !in db.orders
    requires 0 <= k < |req.items|
    requires forall j :: 0 <= j < k ==> LinePasses(db.medicines, req.items, j)
    requires !LinePasses(db.medicines, req.items, k)
    ensures CreateOrder(db, caller, req, freshId) ==
      (Err(400, StopMessage(db.medicines, req.items[k])), db.(medicines := Drawn(db.medicines, req.items[..k])))
  {
    ReserveStopsAtFirstFailure(db.medicines, req.items, k);
  }

  /** A malformed item that passes the stock check (a quantity of 0 or
      less, or a missing price) still has its stock change saved; the
      order save then fails with a 500. */
  lemma CreateOrderInvalidItem(db: Db, caller: Caller, req: OrderRequest, freshId: Id, j: int)
    requires freshId !in db.orders
    requires AllLinesPass(db.medicines, req.items)
    requires 0 <= j < |req.items| && !ItemValid(req.items[j])
    ensures CreateOrder(db, caller, req, freshId) ==
      (Err(500, "Error creating order"), db.(medicines := Drawn(db.medicines, req.items)))
  {
    ReserveWhenAllPass(db.medicines, req.items);
  }

  /** The order is only created when every item passes its checks. */
  lemma CreatedOrdersPassedEveryCheck(db: Db, caller: Caller, req: OrderRequest, freshId: Id)
    requires freshId !in db.orders
    requires CreateOrder(db, caller, req, freshId).0.Ok?
    ensures AllLinesPass(db.medicines, req.items)
    ensures forall i :: 0 <= i < |req.items| ==> ItemValid(req.items[i])
    ensures forall i :: 0 <= i < |req.items| ==> req.items[i].medicine in db.medicines
    ensures CreateOrder(db, caller, req, freshId).0.body.total == Bill(db.medicines, req.items)
  {
    ReserveReachedIff(db.medicines, req.items);
    ReserveWhenAllPass(db.medicines, req.items);
  }

  // ---------------------------------------------------------------------
  // GET /:id, GET /user

  /** `GET /:id`: 404 for an unknown id; a 500 when the owning user no
      longer exists (the populated `order.user` is null and reading its id
      throws); 403 unless the caller owns the order or is an admin. */
  function GetOrder(orders: OrderStore, users: set<Id>, caller: Caller, id: Id): (r: Reply<Order>)
    ensures r.Ok? <==> id in orders && orders[id].user in users && (orders[id].user == caller.id || IsAdmin(caller))
    ensures r.Ok? ==> r == Ok(200, orders[id])
    ensures id !in orders ==> r == Err(404, "Order not found")
    ensures id in orders && orders[id].user !in users ==> r == Err(500, "Error fetching order")
    ensures r == Err(403, "Access denied") <==>
      id in orders && orders[id].user in users && orders[id].user != caller.id && !IsAdmin(caller)
  {
    if id !in orders then Err(404, "Order not found")
    else if orders[id].user !in users then Err(500, "Error fetching order")
    else if orders[id].user != caller.id && !IsAdmin(caller) then Err(403, "Access denied")
    else Ok(200, orders[id])
  }

  /** `GET /user`: the orders whose `user` is the caller. */
  function UserOrders(orders: OrderStore, caller: Caller): (r: OrderStore)
    ensures forall k :: k in r <==> k in orders && orders[k].user == caller.id
    ensures forall k :: k in r ==> r[k] == orders[k]
  {
    map k | k in orders && orders[k].user == caller.id :: orders[k]
  }

  /** Every order in a caller's own listing can also be fetched by that
      caller, and two different users' listings never share an order. */
  lemma ListedOrdersAreReadable(orders: OrderStore, users: set<Id>, caller: Caller, other: Caller, k: Id)
    requires k in UserOrders(orders, caller)
    requires caller.id in users
    ensures GetOrder(orders, users, caller, k) == Ok(200, orders[k])
    ensures other.id != caller.id ==> k !in UserOrders(orders, other)
  {
  }

  // ---------------------------------------------------------------------
  // PATCH /:id/status

  /** `PATCH /:id/status` (`findByIdAndUpdate` with `runValidators`): the
      enum validator runs before the lookup, so an unknown status is a
      500; an unknown id is a 404; otherwise the status, and nothing else,
      is replaced, whatever it was before. */
  function UpdateStatus(orders: OrderStore, id: Id, status: string): (r: (Reply<Order>, OrderStore))
    ensures ParseStatus(status).None? ==> r == (Err(500, "Error updating order status"), orders)
    ensures ParseStatus(status).Some? && id !in orders ==> r == (Err(404, "Order not found"), orders)
    ensures r.0.Ok? <==> ParseStatus(status).Some? && id in orders
    ensures r.0.Ok? ==>
      && r.0.code == 200
      && StatusName(r.0.body.status) == status
      && r.0.body == orders[id].(status := r.0.body.status)
      && r.1 == orders[id := r.0.body]
  {
    match ParseStatus(status)
    case None => (Err(500, "Error updating order status"), orders)
    case Some(s) =>
      if id !in orders then (Err(404, "Order not found"), orders)
      else
        var o := orders[id].(status := s);
        (Ok(200, o), orders[id := o])
  }

  /** No transition graph: every status can be set from every status. */
  lemma AnyStatusToAny(orders: OrderStore, id: Id, target: Status)
    requires id in orders
    ensures UpdateStatus(orders, id, StatusName(target)).0 == Ok(200, orders[id].(status := target))
  {
    StatusRoundTrip(target);
  }

  /** A status update keeps every stored order valid. */
  lemma UpdateStatusKeepsOrdersValid(orders: OrderStore, id: Id, status: string)
    requires forall k :: k in orders ==> ValidOrder(orders[k])
    ensures forall k :: k in UpdateStatus(orders, id, status).1 ==> ValidOrder(UpdateStatus(orders, id, status).1[k])
  {
  }
}
