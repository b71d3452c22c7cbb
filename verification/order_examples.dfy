/**
 * Worked requests against a one-medicine catalog: the totals, stock
 * levels and messages the create and status routes produce.
 */
module OrderExamples {
  import opened Common
  import opened MedicineModel
  import opened OrderModel
  import opened OrderRoutes

  const M1: Medicine := Medicine("Paracetamol", "tablets", 50, OTC, "500 mg", "Acme", 0, 3, DefaultImage, false)

  const Shop: Db := Db(map["M1" := M1], map[])

  /** Two of three units: a 201 with total 100, status pending, stock 1. */
  lemma TwoOfThreeUnits()
    ensures var r := CreateOrder(Shop, Caller("u1", "user"), OrderRequest([LineItem("M1", 2, Some(50))], None, None), "o1");
      && r.0.Ok? && r.0.code == 201
      && r.0.body.total == 100 && r.0.body.status == Pending
      && r.1.medicines["M1"].stock == 1
  {
    var items := [LineItem("M1", 2, Some(50))];
    assert items[..1] == items;
    assert QtyOf(items, "M1") == 2;
    assert AllLinesPass(Shop.medicines, items);
    CreateOrderSucceeds(Shop, Caller("u1", "user"), OrderRequest(items, None, None), "o1");
  }

  /** Exactly the whole stock is accepted and leaves it at zero. */
  lemma AllThreeUnits()
    ensures var r := CreateOrder(Shop, Caller("u1", "user"), OrderRequest([LineItem("M1", 3, Some(50))], None, None), "o1");
      r.0.Ok? && r.1.medicines["M1"].stock == 0
  {
    var items := [LineItem("M1", 3, Some(50))];
    assert items[..1] == items;
    assert QtyOf(items, "M1") == 3;
    assert AllLinesPass(Shop.medicines, items);
    CreateOrderSucceeds(Shop, Caller("u1", "user"), OrderRequest(items, None, None), "o1");
  }

  /** Five of three units: a 400 naming the medicine, stock untouched. */
  lemma FiveOfThreeUnits()
    ensures var r := CreateOrder(Shop, Caller("u1", "user"), OrderRequest([LineItem("M1", 5, Some(50))], None, None), "o1");
      && r.0 == Err(400, "Insufficient stock for Paracetamol")
      && r.1 == Shop
  {
  }

  /** An unknown id: a 400 naming the id. */
  lemma UnknownMedicine()
    ensures var r := CreateOrder(Shop, Caller("u1", "user"), OrderRequest([LineItem("M9", 1, Some(50))], None, None), "o1");
      && r.0 == Err(400, "Medicine M9 not found")
      && r.1 == Shop
  {
  }

  /** Marking an order delivered, and a status update on an unknown id. */
  lemma DeliverOrder(o: Order)
    ensures UpdateStatus(map["o1" := o], "o1", "delivered").0 == Ok(200, o.(status := Delivered))
    ensures UpdateStatus(map["o1" := o], "o2", "delivered").0 == Err(404, "Order not found")
  {
  }
}
