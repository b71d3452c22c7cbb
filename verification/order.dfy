/**
 * The Order document (backend/models/Order.js): line items, the status
 * enum and its default, the delivery and payment sub-documents, and the
 * validators that run when an order is saved.
 */
module OrderModel {
  import opened Common

  /** The `status` enum. */
  datatype Status = Pending | Processing | Delivered | Cancelled

  function StatusName(s: Status): string
  {
    match s
    case Pending => "pending"
    case Processing => "processing"
    case Delivered => "delivered"
    case Cancelled => "cancelled"
  }

  /** The enum validator: exactly the four lower-case names are accepted. */
  function ParseStatus(s: string): (r: Option<Status>)
    ensures r.Some? ==> StatusName(r.value) == s
  {
    if s == "pending" then Some(Pending)
    else if s == "processing" then Some(Processing)
    else if s == "delivered" then Some(Delivered)
    else if s == "cancelled" then Some(Cancelled)
    else None
  }

  /** Every status name parses back to its status. */
  lemma StatusRoundTrip(s: Status)
    ensures ParseStatus(StatusName(s)) == Some(s)
  {
  }

  /** The status a new order gets when none is given. */
  const DefaultStatus: Status := Pending

  /** A line item as the client sends it and as it is stored: the medicine
      id, the quantity, and the client's own unit price, which may be
      missing. */
  datatype LineItem = LineItem(medicine: Id, quantity: int, price: Option<int>)

  /** Delivery details, stored as given. */
  datatype Delivery = Delivery(
    address: string, city: string, state: string, zipCode: string,
    phone: string, deliveryDate: string, deliveryTime: string)

  /** Payment details as the checkout form sends them, card code included. */
  datatype PaymentForm = PaymentForm(cardNumber: string, expiryDate: string, cvv: string, nameOnCard: string)

  /** Payment details as the schema stores them: there is no `cvv` path. */
  datatype Payment = Payment(cardNumber: string, expiryDate: string, nameOnCard: string)

  /** Strict-mode casting of the payment form onto the schema: the three
      declared paths are kept and the card code is dropped. */
  function StorePayment(p: Option<PaymentForm>): (r: Option<Payment>)
    ensures r.Some? <==> p.Some?
    ensures r.Some? ==>
      && r.value.cardNumber == p.value.cardNumber
      && r.value.expiryDate == p.value.expiryDate
      && r.value.nameOnCard == p.value.nameOnCard
  {
    match p
    case None => None
    case Some(f) => Some(Payment(f.cardNumber, f.expiryDate, f.nameOnCard))
  }

  /** The card code never reaches the stored order. */
  lemma CvvNotStored(f: PaymentForm, otherCvv: string)
    ensures StorePayment(Some(f)) == StorePayment(Some(f.(cvv := otherCvv)))
  {
  }

  datatype Order = Order(
    user: Id,
    items: seq<LineItem>,
    total: int,
    status: Status,
    delivery: Option<Delivery>,
    payment: Option<Payment>)

  /** The save-time validators on line items: `price` is required and
      `quantity` has `min: 1`. */
  predicate ItemValid(item: LineItem)
  {
    item.quantity >= 1 && item.price.Some?
  }

  /** What the schema guarantees of every saved order. The `user` and
      `total` paths are always present in this model; `status` is an enum
      by construction. */
  predicate ValidOrder(o: Order)
  {
    forall i :: 0 <= i < |o.items| ==> ItemValid(o.items[i])
  }

  /** `new Order({ user, items, total, deliveryDetails, paymentDetails })`:
      the status takes its default and the payment form is cast. */
  function NewOrder(user: Id, items: seq<LineItem>, total: int, delivery: Option<Delivery>, payment: Option<PaymentForm>): (o: Order)
    ensures o.status == Pending
    ensures o.user == user && o.items == items && o.total == total && o.delivery == delivery
    ensures o.payment == StorePayment(payment)
  {
    Order(user, items, total, DefaultStatus, delivery, StorePayment(payment))
  }
}
