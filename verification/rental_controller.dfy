/** `RentalController` (/rentals): the HTTP answers around the rental
    service, in the same shape as the payment endpoints. */
module RentalController {
  import opened Base
  import opened Tables
  import opened Entities
  import opened Dtos
  import opened Http
  import opened RentalMapper
  import opened RentalService

  /** `createRental` (POST /rentals). A body that breaks a constraint of
      `RentalDto` is answered 400 with its violations and nothing is stored.
      Otherwise the rental the mapper builds (creation time defaulted to now)
      is saved, over the stored rental with the body's id if there is one and
      under a new id otherwise, and answered 201; a failure of the mapper
      stores nothing and is answered by the exception handler. */
  method CreateRental(db: Database, d: RentalDto, now: Timestamp) returns (resp: Response<RentalDto>)
    requires db.Valid()
    modifies db`rentals
    ensures db.Valid()
    ensures !ValidRentalDto(d) ==> resp == Rejected(RentalDtoViolations(d)) && db.rentals == old(db.rentals)
    ensures ValidRentalDto(d) ==>
              var x := ToRental(if d.createdAt.None? then d.(createdAt := Some(now)) else d, db.users, db.vehicles, now);
              && (x.Ok? ==> db.rentals == Merge(old(db.rentals), d.id, x.value)
                            && resp == Response(CREATED, Json(ToRentalDto(Row(MergedId(old(db.rentals), d.id), x.value)))))
              && (x.Err? ==> db.rentals == old(db.rentals) && resp == HandleException(x.error, now))
    ensures resp.status == CREATED ==>
              resp.body == Json(d.(id := Some(MergedId(old(db.rentals), d.id)), createdAt := Some(d.createdAt.GetOr(now))))
  {
    if !ValidRentalDto(d) {
      return Rejected(RentalDtoViolations(d));
    }
    var r := RentalService.CreateRental(db, d, now);
    resp := Answer(r, CREATED, now);
  }

  /** `getRental` (GET /rentals/{rental_id}): 200 with the stored rental, or
      404 with "Rental not found with id: ..." for an absent id. */
  function GetRental(t: Table<Rental>, id: int, now: Timestamp): (resp: Response<RentalDto>)
    ensures resp.status == OK <==> id in t.rows
    ensures id in t.rows ==> resp.body == Json(ToRentalDto(Row(id, t.rows[id])))
    ensures id !in t.rows ==> resp.status == NOT_FOUND && resp.body.ApiError?
                              && resp.body.error.errorMessage == NotFoundText("Rental", id)
  {
    Answer(GetRentalById(t, id), OK, now)
  }

  /** `getAllRentals` (GET /rentals). When none of the seven query parameters
      is given the plain listing is answered, otherwise the filtered query;
      either way the body is what the filtered query returns. */
  function GetAllRentals(t: Table<Rental>, c: RentalCriteria): (resp: Response<seq<RentalDto>>)
    requires WellFormed(t)
    ensures resp == Response(OK, Json(GetRentalsWithFilters(t, c)))
  {
    if c == NoRentalCriteria then
      NoCriteriaFindsAll(t);
      Response(OK, Json(RentalService.GetAllRentals(t)))
    else
      Response(OK, Json(GetRentalsWithFilters(t, c)))
  }

  /** A request whose only parameter is an empty status takes the filtered
      path, yet lists every rental, as the plain listing does. */
  lemma EmptyStatusListsAll(t: Table<Rental>)
    requires WellFormed(t)
    ensures GetAllRentals(t, NoRentalCriteria.(status := Some(""))) == Response(OK, Json(RentalService.GetAllRentals(t)))
  {
    EmptyStatusIgnored(t, NoRentalCriteria);
    NoCriteriaFindsAll(t);
  }

  /** `updateRental` (PUT /rentals/{rental_id}). An invalid body is answered
      400 and changes nothing; an absent id 404. Otherwise the mapper's update
      of the stored rental replaces it under the same id and is answered 200;
      a failing mapper changes nothing. */
  method UpdateRental(db: Database, id: int, u: RentalUpdateDto, now: Timestamp) returns (resp: Response<RentalDto>)
    requires db.Valid()
    modifies db`rentals
    ensures db.Valid()
    ensures !ValidRentalUpdateDto(u) ==> resp == Rejected(RentalUpdateDtoViolations(u)) && db.rentals == old(db.rentals)
    ensures ValidRentalUpdateDto(u) && id !in old(db.rentals.rows) ==>
              resp == HandleException(NotFound(NotFoundText("Rental", id)), now) && db.rentals == old(db.rentals)
    ensures ValidRentalUpdateDto(u) && id in old(db.rentals.rows) ==>
              var q := UpdateRentalFromDto(u, old(db.rentals.rows[id]), db.users, db.vehicles);
              && (q.Ok? ==> db.rentals.rows == old(db.rentals.rows)[id := q.value] && db.rentals.next == old(db.rentals.next)
                            && resp == Response(OK, Json(ToRentalDto(Row(id, q.value)))))
              && (q.Err? ==> db.rentals == old(db.rentals) && resp == HandleException(q.error, now))
  {
    if !ValidRentalUpdateDto(u) {
      return Rejected(RentalUpdateDtoViolations(u));
    }
    var r := RentalService.UpdateRental(db, id, u);
    resp := Answer(r, OK, now);
  }

  /** `deleteRental` (DELETE /rentals/{rental_id}): 204 and the rental is
      gone, or 404 for an absent id with nothing removed. */
  method DeleteRental(db: Database, id: int, now: Timestamp) returns (resp: Response<()>)
    requires db.Valid()
    modifies db`rentals
    ensures db.Valid()
    ensures id !in old(db.rentals.rows) ==>
              resp == HandleException(NotFound(NotFoundText("Rental", id)), now) && db.rentals == old(db.rentals)
    ensures id in old(db.rentals.rows) ==>
              resp == Response(NO_CONTENT, NoBody) && db.rentals == Remove(old(db.rentals), id)
  {
    var r := RentalService.DeleteRental(db, id);
    if r.Err? {
      return HandleException(r.error, now);
    }
    resp := Response(NO_CONTENT, NoBody);
  }
}
