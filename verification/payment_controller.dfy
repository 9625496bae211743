/** `PaymentController` (/payments): the HTTP answers around the payment
    service. Each body is validated before the service is called, a service
    failure goes through the exception handler, and the list endpoint picks
    between the plain listing and the filtered query. */
module PaymentController {
  import opened Base
  import opened Tables
  import opened Entities
  import opened Dtos
  import opened Http
  import opened PaymentMapper
  import opened PaymentService

  /** `createPayment` (POST /payments). A body that breaks a constraint of
      `PaymentDto` is answered 400 with its violations and nothing is stored.
      Otherwise the payment the service maps (with its defaults) is saved,
      over the stored payment with the body's id if there is one and under a
      new id otherwise, and answered 201; a failure of the mapper stores nothing
      and is answered by the exception handler. */
  method CreatePayment(db: Database, d: PaymentDto, now: Timestamp) returns (resp: Response<PaymentDto>)
    requires db.Valid()
    modifies db`payments
    ensures db.Valid()
    ensures !ValidPaymentDto(d) ==> resp == Rejected(PaymentDtoViolations(d)) && db.payments == old(db.payments)
    ensures ValidPaymentDto(d) ==>
              var p := ToPayment(WithPaymentDefaults(d, now), db.rentals, db.users, now);
              && (p.Ok? ==> db.payments == Merge(old(db.payments), d.id, p.value)
                            && resp == Response(CREATED, Json(ToPaymentDto(Row(MergedId(old(db.payments), d.id), p.value)))))
              && (p.Err? ==> db.payments == old(db.payments) && resp == HandleException(p.error, now))
    ensures resp.status == CREATED ==> resp.body.Json? && resp.body.value.id == Some(MergedId(old(db.payments), d.id))
  {
    if !ValidPaymentDto(d) {
      return Rejected(PaymentDtoViolations(d));
    }
    var r := PaymentService.CreatePayment(db, d, now);
    resp := Answer(r, CREATED, now);
  }

  /** `getPayment` (GET /payments/{payment_id}): 200 with the stored payment,
      or 404 with "Payment not found with id: ..." for an absent id. */
  function GetPayment(t: Table<Payment>, id: int, now: Timestamp): (resp: Response<PaymentDto>)
    ensures resp.status == OK <==> id in t.rows
    ensures id in t.rows ==> resp.body == Json(ToPaymentDto(Row(id, t.rows[id])))
    ensures id !in t.rows ==> resp.status == NOT_FOUND && resp.body.ApiError?
                              && resp.body.error.errorMessage == NotFoundText("Payment", id)
  {
    Answer(GetPaymentById(t, id), OK, now)
  }

  /** `getAllPayments` (GET /payments). When none of the eight query
      parameters is given the plain listing is answered, otherwise the
      filtered query; either way the body is what the filtered query returns
      for the parameters, so the shortcut changes nothing. */
  function GetAllPayments(t: Table<Payment>, c: PaymentCriteria): (resp: Response<seq<PaymentDto>>)
    requires WellFormed(t)
    ensures resp == Response(OK, Json(GetPaymentsWithFilters(t, c)))
  {
    if c == NoPaymentCriteria then
      NoCriteriaFindsAll(t);
      Response(OK, Json(PaymentService.GetAllPayments(t)))
    else
      Response(OK, Json(GetPaymentsWithFilters(t, c)))
  }

  /** A request whose only parameter is an empty status takes the filtered
      path, yet lists every payment, as the plain listing does. */
  lemma EmptyStatusListsAll(t: Table<Payment>)
    requires WellFormed(t)
    ensures GetAllPayments(t, NoPaymentCriteria.(status := Some(""))) == Response(OK, Json(PaymentService.GetAllPayments(t)))
  {
    EmptyStringsIgnored(t, NoPaymentCriteria);
    NoCriteriaFindsAll(t);
  }

  /** `getPaymentsByUserId`, `getPaymentsByRentalId` and `getPaymentsByStatus`:
      200 with the same list as the filtered query on that one parameter. */
  function GetPaymentsByUser(t: Table<Payment>, userId: int): (resp: Response<seq<PaymentDto>>)
    requires WellFormed(t)
    ensures resp == GetAllPayments(t, NoPaymentCriteria.(userId := Some(userId)))
  {
    Response(OK, Json(GetPaymentsByUserId(t, userId)))
  }

  function GetPaymentsByRental(t: Table<Payment>, rentalId: int): (resp: Response<seq<PaymentDto>>)
    requires WellFormed(t)
    ensures resp == GetAllPayments(t, NoPaymentCriteria.(rentalId := Some(rentalId)))
  {
    Response(OK, Json(GetPaymentsByRentalId(t, rentalId)))
  }

  function GetPaymentsWithStatus(t: Table<Payment>, status: string): (resp: Response<seq<PaymentDto>>)
    requires WellFormed(t)
    ensures status != "" ==> resp == GetAllPayments(t, NoPaymentCriteria.(status := Some(status)))
  {
    Response(OK, Json(GetPaymentsByStatus(t, status)))
  }

  /** `updatePayment` (PUT /payments/{payment_id}). An invalid body is
      answered 400 and changes nothing; an absent id 404. Otherwise the
      mapper's update of the stored payment replaces it under the same id
      and is answered 200; a failing mapper changes nothing. */
  method UpdatePayment(db: Database, id: int, u: PaymentUpdateDto, now: Timestamp) returns (resp: Response<PaymentDto>)
    requires db.Valid()
    modifies db`payments
    ensures db.Valid()
    ensures !ValidPaymentUpdateDto(u) ==> resp == Rejected(PaymentUpdateDtoViolations(u)) && db.payments == old(db.payments)
    ensures ValidPaymentUpdateDto(u) && id !in old(db.payments.rows) ==>
              resp == HandleException(NotFound(NotFoundText("Payment", id)), now) && db.payments == old(db.payments)
    ensures ValidPaymentUpdateDto(u) && id in old(db.payments.rows) ==>
              var q := UpdatePaymentFromDto(u, old(db.payments.rows[id]), db.rentals, db.users);
              && (q.Ok? ==> db.payments.rows == old(db.payments.rows)[id := q.value] && db.payments.next == old(db.payments.next)
                            && resp == Response(OK, Json(ToPaymentDto(Row(id, q.value)))))
              && (q.Err? ==> db.payments == old(db.payments) && resp == HandleException(q.error, now))
  {
    if !ValidPaymentUpdateDto(u) {
      return Rejected(PaymentUpdateDtoViolations(u));
    }
    var r := PaymentService.UpdatePayment(db, id, u);
    resp := Answer(r, OK, now);
  }

  /** `deletePayment` (DELETE /payments/{payment_id}): 204 and the payment is
      gone, or 404 for an absent id with nothing removed. */
  method DeletePayment(db: Database, id: int, now: Timestamp) returns (resp: Response<()>)
    requires db.Valid()
    modifies db`payments
    ensures db.Valid()
    ensures id !in old(db.payments.rows) ==>
              resp == HandleException(NotFound(NotFoundText("Payment", id)), now) && db.payments == old(db.payments)
    ensures id in old(db.payments.rows) ==>
              resp == Response(NO_CONTENT, NoBody) && db.payments == Remove(old(db.payments), id)
  {
    var r := PaymentService.DeletePayment(db, id);
    if r.Err? {
      return HandleException(r.error, now);
    }
    resp := Response(NO_CONTENT, NoBody);
  }
}
