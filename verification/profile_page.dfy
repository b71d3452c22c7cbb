/**
 * The order-history chip colour on the profile page
 * (frontend/src/pages/Profile.js, `getOrderStatusColor`).
 */
module ProfilePage {
  import opened Text
  import opened OrderModel
  import opened Common

  /** The `switch` on the lower-cased status: a colour other than
      `default` exactly when the lower-cased status names processing,
      delivered or cancelled. */
  function StatusColor(status: string): (r: string)
    ensures r != "default" <==> ParseStatus(Lower(status)) in {Some(Processing), Some(Delivered), Some(Cancelled)}
    ensures r in {"success", "warning", "error", "default"}
  {
    var s := Lower(status);
    if s == "delivered" then "success"
    else if s == "processing" then "warning"
    else if s == "cancelled" then "error"
    else "default"
  }

  /** The colour ignores the case of the status. */
  lemma StatusColorIgnoresCase(status: string)
    ensures StatusColor(Lower(status)) == StatusColor(status)
  {
    LowerIdempotent(status);
  }

  /** The colour of each stored status: delivered is success, processing is
      warning, cancelled is error, pending falls through to default. */
  lemma ColorOfStatus(s: Status)
    ensures StatusColor(StatusName(s)) == match s
      case Delivered => "success"
      case Processing => "warning"
      case Cancelled => "error"
      case Pending => "default"
  {
    var n := StatusName(s);
    assert forall i :: 0 <= i < |n| ==> !('A' <= n[i] <= 'Z');
    assert Lower(n) == n;
  }
}
