/**
 * Two defects of the create route, each shown on a concrete request, and
 * a corrected create that validates every item before it writes anything.
 */
module AtomicOrders {
  import opened Common
  import opened MedicineModel
  import opened OrderModel
  import opened OrderRoutes

  function Sample(name: string, price: int, stock: int): Medicine
  {
    Medicine(name, "tablets", price, OTC, "500 mg", "Acme", 0, stock, DefaultImage, false)
  }

  const TwoShelves: Catalog := map["A" := Sample("Aspirin", 10, 5), "B" := Sample("Benadryl", 20, 0)]

  const ShortSecond: seq<LineItem> := [LineItem("A", 2, Some(10)), LineItem("B", 1, Some(20))]

  /** The first item is covered; the second is not. */
  lemma ShortSecondFailsAtOne()
    ensures LinePasses(TwoShelves, ShortSecond, 0)
    ensures !LinePasses(TwoShelves, ShortSecond, 1)
    ensures Drawn(TwoShelves, ShortSecond[..1])["A"].stock == 3
    ensures StopMessage(TwoShelves, ShortSecond[1]) == "Insufficient stock for Benadryl"
  {
    var items := ShortSecond;
    assert items[..1] == [items[0]] && items[..2] == items;
    assert QtyOf(items[..1], "A") == 2;
    assert QtyOf(items[..2], "B") == 1;
  }

  /** As written: the second item is short, the request is rejected with
      no order, and yet the first item's two units are gone from stock. */
  lemma RejectedOrderKeepsEarlierDecrements()
    ensures var r := CreateOrder(Db(TwoShelves, map[]), Caller("u1", "user"), OrderRequest(ShortSecond, None, None), "o1");
      && r.0 == Err(400, "Insufficient stock for Benadryl")
      && r.1.orders == map[]
      && r.1.medicines["A"].stock == 3
  {
    var db := Db(TwoShelves, map[]);
    var req := OrderRequest(ShortSecond, None, None);
    ShortSecondFailsAtOne();
    CreateOrderStopsAt(db, Caller("u1", "user"), req, "o1", 1);
  }

  /** As written: a negative quantity passes the stock check, its
      "decrement" adds three units to stock, and only then does the order
      save reject the item. */
  lemma NegativeQuantityRaisesStock()
    ensures var db := Db(map["A" := Sample("Aspirin", 10, 5)], map[]);
      var req := OrderRequest([LineItem("A", -3, Some(10))], None, None);
      var r := CreateOrder(db, Caller("u1", "user"), req, "o1");
      && r.0 == Err(500, "Error creating order")
      && r.1.medicines["A"].stock == 8
  {
    var db := Db(map["A" := Sample("Aspirin", 10, 5)], map[]);
    var items := [LineItem("A", -3, Some(10))];
    assert items[..1] == items;
    assert QtyOf(items, "A") == -3;
    assert AllLinesPass(db.medicines, items);
    CreateOrderInvalidItem(db, Caller("u1", "user"), OrderRequest(items, None, None), "o1", 0);
  }

  lemma {:induction false} QtyOfNonNegative(items: seq<LineItem>, k: Id)
    requires forall i :: 0 <= i < |items| ==> ItemValid(items[i])
    ensures QtyOf(items, k) >= 0
    decreases |items|
  {
    if items != [] {
      QtyOfNonNegative(items[1..], k);
    }
  }

  /** The corrected create: reject a malformed item with a 400 before
      touching stock, run the checks against a snapshot, and write the
      decrements and the order together only when every item passes. */
  function CreateOrderAtomic(db: Db, caller: Caller, req: OrderRequest, freshId: Id): (r: (Reply<Order>, Db))
    requires freshId !in db.orders
    ensures r.0.Err? ==> r.0.code == 400 && r.1 == db
    ensures r.0.Ok? <==>
      AllLinesPass(db.medicines, req.items) && forall i :: 0 <= i < |req.items| ==> ItemValid(req.items[i])
    ensures r.0.Ok? ==> r == CreateOrder(db, caller, req, freshId)
    ensures r.1.medicines.Keys == db.medicines.Keys
    ensures forall k :: k in db.medicines && db.medicines[k].stock >= 0 ==>
      0 <= r.1.medicines[k].stock <= db.medicines[k].stock
  {
    ReserveReachedIff(db.medicines, req.items);
    if exists i :: 0 <= i < |req.items| && !ItemValid(req.items[i]) then
      (Err(400, "Invalid order item"), db)
    else
      match Reserve(db.medicines, req.items)
      case Stopped(msg, _) => (Err(400, msg), db)
      case Reached(total, c) =>
        ReserveWhenAllPass(db.medicines, req.items);
        var o := NewOrder(caller.id, req.items, total, req.delivery, req.payment);
        assert forall k :: k in db.medicines ==> QtyOf(req.items, k) >= 0 by {
          forall k | k in db.medicines {
            QtyOfNonNegative(req.items, k);
          }
        }
        assert forall k :: k in db.medicines && db.medicines[k].stock >= 0 ==> c[k].stock >= 0 by {
          forall k | k in db.medicines && db.medicines[k].stock >= 0 {
            StockNeverNegative(db.medicines, req.items, k);
          }
        }
        (Ok(201, o), Db(c, db.orders[freshId := o]))
  }

  /** The corrected create never leaves a trace of a rejected request. */
  lemma AtomicRejectionLeavesNoTrace(db: Db, caller: Caller, req: OrderRequest, freshId: Id)
    requires freshId !in db.orders
    requires !AllLinesPass(db.medicines, req.items)
    ensures CreateOrderAtomic(db, caller, req, freshId).1 == db
  {
  }
}
