/**
 * The answers of the make-order endpoints. The controller holds no state: the
 * outcome of the order lookup, of the stock check and of the status transitions
 * is passed in as the service produced it.
 */
module MakeOrderController {
  import opened Wrappers
  import opened Items
  import opened Http

  /** The change the helper hands back: the payment minus the cost when the payment
      covers the cost and the stock check succeeded, the payment itself otherwise.
      `made` is the stock check's verdict, consulted only when the payment covers the cost. */
  function Change(paid: real, cost: real, made: bool): (r: real)
    ensures cost <= paid && made ==> r + cost == paid
    ensures !(cost <= paid && made) ==> r == paid
    ensures 0.0 <= cost <= paid ==> 0.0 <= r <= paid
  {
    if cost <= paid then (if made then paid - cost else paid) else paid
  }

  /** Under the cost the stock check's verdict does not matter: the payment comes back. */
  lemma ShortPaymentIgnoresStock(paid: real, cost: real)
    requires paid < cost
    ensures Change(paid, cost, true) == Change(paid, cost, false) == paid
  {
  }

  /** POST /{name}: an unparsable amount is a bad request with no body; an unknown name
      escapes as not found; a change equal to the payment is a conflict when the payment
      is short and a bad request otherwise; any other change is OK. */
  function MakeOrderResponse(paid: Option<real>, found: Result<Order, Error>, made: bool): (r: Response<real>)
    ensures paid.None? ==> r == Respond(BAD_REQUEST, None)
    ensures paid.Some? && found.Failure? ==> r == Raised(found.error)
    ensures paid.Some? && found.Success? ==>
              var cost := Cost(found.value.items);
              r.Respond? && r.body.Some? &&
              (r.status == OK <==> cost <= paid.value && made && cost != 0.0) &&
              (r.status == OK ==> r.body.value == paid.value - cost) &&
              (r.status == CONFLICT <==> paid.value < cost) &&
              (r.status != OK ==> r.body.value == paid.value) &&
              (r.status == OK || r.status == CONFLICT || r.status == BAD_REQUEST)
  {
    if paid.None? then Respond(BAD_REQUEST, None)
    else if found.Failure? then Raised(found.error)
    else
      var cost := Cost(found.value.items);
      var change := Change(paid.value, cost, made);
      if change == paid.value then
        if paid.value < cost then Respond(CONFLICT, Some(paid.value))
        else Respond(BAD_REQUEST, Some(paid.value))
      else Respond(OK, Some(change))
  }

  /** An order that costs nothing and is made is still answered as a bad request, since
      its change equals the (non-negative) payment. */
  lemma ZeroCostIsBadRequest(paid: real, o: Order)
    requires o.items == [] && paid >= 0.0
    ensures MakeOrderResponse(Some(paid), Success(o), true) == Respond(BAD_REQUEST, Some(paid))
  {
  }

  /** A paid order that the stock cannot cover hands the whole payment back as a bad request. */
  lemma InsufficientStockIsBadRequest(paid: real, o: Order)
    requires Cost(o.items) <= paid
    ensures MakeOrderResponse(Some(paid), Success(o), false) == Respond(BAD_REQUEST, Some(paid))
  {
  }

  /** PUT /fulfillOrder and /pickupOrder: OK exactly when the transition happened, a
      conflict when the order was in the wrong status, and an unknown id escapes. */
  function TransitionResponse(r: Result<bool, Error>): (a: Response<()>)
    ensures a.Respond? ==> a.body == None
    ensures a == Respond(OK, None) <==> r == Success(true)
    ensures a == Respond(CONFLICT, None) <==> r == Success(false)
    ensures r.Failure? ==> a == Raised(r.error)
    ensures a.Raised? ==> r.Failure?
  {
    match r
    case Success(done) => if done then Respond(OK, None) else Respond(CONFLICT, None)
    case Failure(e) => Raised(e)
  }
}
