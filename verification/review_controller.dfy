/** `ReviewController` (/reviews): the HTTP answers around the review
    service. The review bodies carry no constraints of their own, so there
    is no 400 answer here. */
module ReviewController {
  import opened Base
  import opened Tables
  import opened Entities
  import opened Dtos
  import opened Http
  import opened ReviewMapper
  import opened ReviewService

  /** `createReview` (POST /reviews): the review the mapper builds (creation
      time defaulted to now) is saved, over the stored review with the body's id
      if there is one and under a new id otherwise, and answered 201 with the
      body echoed back; an unknown rental or user, or a missing column,
      stores nothing and is answered by the exception handler. */
  method CreateReview(db: Database, d: ReviewDto, now: Timestamp) returns (resp: Response<ReviewDto>)
    requires db.Valid()
    modifies db`reviews
    ensures db.Valid()
    ensures var v := CreatedReview(if d.createdAt.None? then d.(createdAt := Some(now)) else d, db.rentals, db.users, now);
            && (v.Ok? ==> db.reviews == Merge(old(db.reviews), d.id, v.value)
                          && resp == Response(CREATED, Json(ToReviewDto(Row(MergedId(old(db.reviews), d.id), v.value)))))
            && (v.Err? ==> db.reviews == old(db.reviews) && resp == HandleException(v.error, now))
    ensures resp.status == CREATED ==>
              resp.body == Json(d.(id := Some(MergedId(old(db.reviews), d.id)), createdAt := Some(d.createdAt.GetOr(now))))
  {
    var r := ReviewService.CreateReview(db, d, now);
    resp := Answer(r, CREATED, now);
  }

  /** `getReview` (GET /reviews/{review_id}): 200 with the stored review, or
      404 with "Review not found with id: ..." for an absent id. */
  function GetReview(t: Table<Review>, id: int, now: Timestamp): (resp: Response<ReviewDto>)
    ensures resp.status == OK <==> id in t.rows
    ensures id in t.rows ==> resp.body == Json(ToReviewDto(Row(id, t.rows[id])))
    ensures id !in t.rows ==> resp.status == NOT_FOUND && resp.body.ApiError?
                              && resp.body.error.errorMessage == NotFoundText("Review", id)
  {
    Answer(GetReviewById(t, id), OK, now)
  }

  /** `getAllReviews` (GET /reviews). When none of the six query parameters
      is given the plain listing is answered, otherwise the filtered query;
      either way the body is what the filtered query returns. */
  function GetAllReviews(t: Table<Review>, c: ReviewCriteria): (resp: Response<seq<ReviewDto>>)
    requires WellFormed(t)
    ensures resp == Response(OK, Json(GetReviewsWithFilters(t, c)))
  {
    if c == NoReviewCriteria then
      NoCriteriaFindsAll(t);
      Response(OK, Json(ReviewService.GetAllReviews(t)))
    else
      Response(OK, Json(GetReviewsWithFilters(t, c)))
  }

  /** `getReviewsByUserId` and `getReviewsByRentalId`: 200 with the same list
      as the filtered query on that one parameter. */
  function GetReviewsByUser(t: Table<Review>, userId: int): (resp: Response<seq<ReviewDto>>)
    requires WellFormed(t)
    ensures resp == GetAllReviews(t, NoReviewCriteria.(userId := Some(userId)))
  {
    Response(OK, Json(GetReviewsByUserId(t, userId)))
  }

  function GetReviewsByRental(t: Table<Review>, rentalId: int): (resp: Response<seq<ReviewDto>>)
    requires WellFormed(t)
    ensures resp == GetAllReviews(t, NoReviewCriteria.(rentalId := Some(rentalId)))
  {
    Response(OK, Json(GetReviewsByRentalId(t, rentalId)))
  }

  /** `updateReview` (PUT /reviews/{review_id}): 404 for an absent id with
      nothing changed; otherwise the given rating and comment replace the
      stored ones under the same id, answered 200. */
  method UpdateReview(db: Database, id: int, u: ReviewUpdateDto, now: Timestamp) returns (resp: Response<ReviewDto>)
    requires db.Valid()
    modifies db`reviews
    ensures db.Valid()
    ensures id !in old(db.reviews.rows) ==>
              resp == HandleException(NotFound(NotFoundText("Review", id)), now) && db.reviews == old(db.reviews)
    ensures id in old(db.reviews.rows) ==>
              var v := UpdateReviewFromDto(u, old(db.reviews.rows[id]));
              && db.reviews.rows == old(db.reviews.rows)[id := v] && db.reviews.next == old(db.reviews.next)
              && resp == Response(OK, Json(ToReviewDto(Row(id, v))))
  {
    var r := ReviewService.UpdateReview(db, id, u);
    resp := Answer(r, OK, now);
  }

  /** `deleteReview` (DELETE /reviews/{review_id}): 204 and the review is
      gone, or 404 for an absent id with nothing removed. */
  method DeleteReview(db: Database, id: int, now: Timestamp) returns (resp: Response<()>)
    requires db.Valid()
    modifies db`reviews
    ensures db.Valid()
    ensures id !in old(db.reviews.rows) ==>
              resp == HandleException(NotFound(NotFoundText("Review", id)), now) && db.reviews == old(db.reviews)
    ensures id in old(db.reviews.rows) ==>
              resp == Response(NO_CONTENT, NoBody) && db.reviews == Remove(old(db.reviews), id)
  {
    var r := ReviewService.DeleteReview(db, id);
    if r.Err? {
      return HandleException(r.error, now);
    }
    resp := Response(NO_CONTENT, NoBody);
  }
}
