/** `ReviewServiceImpl`: creating, reading, filtering, updating and deleting
    reviews. */
module ReviewService {
  import opened Base
  import opened Tables
  import opened Entities
  import opened Dtos
  import opened ReviewMapper

  /** The arguments of `getReviewsWithFilters`; a null argument is `None`. */
  datatype ReviewCriteria = ReviewCriteria(
    userId: Option<int>,
    rentalId: Option<int>,
    minRating: Option<int>,
    maxRating: Option<int>,
    createdAtFrom: Option<Timestamp>,
    createdAtTo: Option<Timestamp>)

  const NoReviewCriteria := ReviewCriteria(None, None, None, None, None, None)

  /** One predicate the specification adds to its list. */
  datatype ReviewPredicate =
    | UserIs(userId: int)
    | RentalIs(rentalId: int)
    | RatingAtLeast(minRating: int)
    | RatingAtMost(maxRating: int)
    | CreatedFrom(from: Timestamp)
    | CreatedUntil(to: Timestamp)

  /** What a predicate demands of a review: an equality, or an inclusive bound. */
  predicate Holds(pr: ReviewPredicate, v: Review) {
    match pr
    case UserIs(id) => v.user == id
    case RentalIs(id) => v.rental == id
    case RatingAtLeast(min) => v.rating >= min
    case RatingAtMost(max) => v.rating <= max
    case CreatedFrom(from) => v.createdAt >= from
    case CreatedUntil(to) => v.createdAt <= to
  }

  /** The predicate list, one piece per argument in the order the
      specification adds them: empty for a null argument. */
  function ReviewPieces(c: ReviewCriteria): (pieces: seq<seq<ReviewPredicate>>)
    ensures |pieces| == 6
  {
    [ if c.userId.Some? then [UserIs(c.userId.value)] else [],
      if c.rentalId.Some? then [RentalIs(c.rentalId.value)] else [],
      if c.minRating.Some? then [RatingAtLeast(c.minRating.value)] else [],
      if c.maxRating.Some? then [RatingAtMost(c.maxRating.value)] else [],
      if c.createdAtFrom.Some? then [CreatedFrom(c.createdAtFrom.value)] else [],
      if c.createdAtTo.Some? then [CreatedUntil(c.createdAtTo.value)] else [] ]
  }

  function ReviewPredicates(c: ReviewCriteria): seq<ReviewPredicate> {
    Flatten(ReviewPieces(c))
  }

  /** The filter stated directly: every supplied constraint holds. */
  predicate Matches(v: Review, c: ReviewCriteria) {
    && (c.userId.Some? ==> v.user == c.userId.value)
    && (c.rentalId.Some? ==> v.rental == c.rentalId.value)
    && (c.minRating.Some? ==> c.minRating.value <= v.rating)
    && (c.maxRating.Some? ==> v.rating <= c.maxRating.value)
    && (c.createdAtFrom.Some? ==> c.createdAtFrom.value <= v.createdAt)
    && (c.createdAtTo.Some? ==> v.createdAt <= c.createdAtTo.value)
  }

  /** What each piece of the list demands on its own. */
  lemma PieceMeaning(c: ReviewCriteria, v: Review)
    ensures var pieces := ReviewPieces(c);
            && AllHold(pieces[0], Holds, v) == (c.userId.Some? ==> v.user == c.userId.value)
            && AllHold(pieces[1], Holds, v) == (c.rentalId.Some? ==> v.rental == c.rentalId.value)
            && AllHold(pieces[2], Holds, v) == (c.minRating.Some? ==> c.minRating.value <= v.rating)
            && AllHold(pieces[3], Holds, v) == (c.maxRating.Some? ==> v.rating <= c.maxRating.value)
            && AllHold(pieces[4], Holds, v) == (c.createdAtFrom.Some? ==> c.createdAtFrom.value <= v.createdAt)
            && AllHold(pieces[5], Holds, v) == (c.createdAtTo.Some? ==> v.createdAt <= c.createdAtTo.value)
  {
    AllHoldOne<ReviewPredicate, Review>(Holds);
  }

  /** The AND of the built list is exactly the direct filter. */
  lemma {:induction false} PredicatesMeanMatches(c: ReviewCriteria, v: Review)
    ensures AllHold(ReviewPredicates(c), Holds, v) <==> Matches(v, c)
  {
    var pieces := ReviewPieces(c);
    AllHoldFlatten(pieces, Holds, v);
    PieceMeaning(c, v);
    assert (forall i :: 0 <= i < |pieces| ==> AllHold(pieces[i], Holds, v)) <==>
      (AllHold(pieces[0], Holds, v) && AllHold(pieces[1], Holds, v) && AllHold(pieces[2], Holds, v)
       && AllHold(pieces[3], Holds, v) && AllHold(pieces[4], Holds, v) && AllHold(pieces[5], Holds, v));
  }

  /** `reviewRepository.findAll(specification)`: the stored reviews for which
      every predicate of the list holds, in store order. */
  function FindAllMatching(t: Table<Review>, c: ReviewCriteria): (r: seq<Row<Review>>)
    requires WellFormed(t)
    ensures |r| <= |t.rows|
    ensures forall k, v :: Row(k, v) in r <==> k in t.rows && t.rows[k] == v && Matches(v, c)
  {
    var r := Where(Entries(t), (row: Row<Review>) => AllHold(ReviewPredicates(c), Holds, row.value));
    assert forall k, v :: Row(k, v) in r <==> k in t.rows && t.rows[k] == v && Matches(v, c) by {
      forall k, v
        ensures Row(k, v) in r <==> k in t.rows && t.rows[k] == v && Matches(v, c)
      {
        PredicatesMeanMatches(c, v);
        EntriesExact(t, k, v);
      }
    }
    EntriesCount(t);
    r
  }

  /** The DTOs of the matching rows are those of exactly the matching
      reviews. */
  lemma MatchingDtos(t: Table<Review>, c: ReviewCriteria)
    requires WellFormed(t)
    ensures var r := MapRows(FindAllMatching(t, c), ToReviewDto);
            && (forall k :: k in t.rows && Matches(t.rows[k], c) ==> ToReviewDto(Row(k, t.rows[k])) in r)
            && (forall d :: d in r ==> d.id.Some? && d.id.value in t.rows && Matches(t.rows[d.id.value], c))
  {
    var rows := FindAllMatching(t, c);
    forall k | k in t.rows && Matches(t.rows[k], c)
      ensures ToReviewDto(Row(k, t.rows[k])) in MapRows(rows, ToReviewDto)
    {
      MapRowsHas(rows, ToReviewDto, Row(k, t.rows[k]));
    }
    forall d | d in MapRows(rows, ToReviewDto)
      ensures d.id.Some? && d.id.value in t.rows && Matches(t.rows[d.id.value], c)
    {
      MapRowsFrom(rows, ToReviewDto, d);
      var row :| row in rows && ToReviewDto(row) == d;
      assert Row(row.id, row.value) in rows;
    }
  }

  /** `getReviewsWithFilters`: the DTO of every stored review that matches,
      and of no other. */
  function GetReviewsWithFilters(t: Table<Review>, c: ReviewCriteria): (r: seq<ReviewDto>)
    requires WellFormed(t)
    ensures |r| <= |t.rows|
    ensures forall k :: k in t.rows && Matches(t.rows[k], c) ==> ToReviewDto(Row(k, t.rows[k])) in r
    ensures forall d :: d in r ==> d.id.Some? && d.id.value in t.rows && Matches(t.rows[d.id.value], c)
  {
    MatchingDtos(t, c);
    MapRows(FindAllMatching(t, c), ToReviewDto)
  }

  /** `getAllReviews`: one DTO per stored review, in increasing id order. */
  function GetAllReviews(t: Table<Review>): (r: seq<ReviewDto>)
    requires WellFormed(t)
    ensures |r| == |t.rows|
    ensures forall k :: k in t.rows ==> ToReviewDto(Row(k, t.rows[k])) in r
    ensures forall i, j :: 0 <= i < j < |r| ==> r[i].id.Some? && r[j].id.Some? && r[i].id.value < r[j].id.value
  {
    EntriesCount(t);
    var rows := Entries(t);
    var r := MapRows(rows, ToReviewDto);
    assert forall k :: k in t.rows ==> ToReviewDto(Row(k, t.rows[k])) in r by {
      forall k | k in t.rows
        ensures ToReviewDto(Row(k, t.rows[k])) in r
      {
        EntriesExact(t, k, t.rows[k]);
        MapRowsHas(rows, ToReviewDto, Row(k, t.rows[k]));
      }
    }
    r
  }

  /** With every argument null the filter returns the whole table. */
  lemma NoCriteriaFindsAll(t: Table<Review>)
    requires WellFormed(t)
    ensures GetReviewsWithFilters(t, NoReviewCriteria) == GetAllReviews(t)
  {
    WhereKeepsAll(Entries(t), (row: Row<Review>) => AllHold(ReviewPredicates(NoReviewCriteria), Holds, row.value));
  }

  /** `c2` keeps every constraint `c1` supplies, and may add more. */
  predicate Extends(c2: ReviewCriteria, c1: ReviewCriteria) {
    && (c1.userId.Some? ==> c2.userId == c1.userId)
    && (c1.rentalId.Some? ==> c2.rentalId == c1.rentalId)
    && (c1.minRating.Some? ==> c2.minRating == c1.minRating)
    && (c1.maxRating.Some? ==> c2.maxRating == c1.maxRating)
    && (c1.createdAtFrom.Some? ==> c2.createdAtFrom == c1.createdAtFrom)
    && (c1.createdAtTo.Some? ==> c2.createdAtTo == c1.createdAtTo)
  }

  /** Supplying more constraints never enlarges the result. */
  lemma MoreCriteriaNarrow(t: Table<Review>, c1: ReviewCriteria, c2: ReviewCriteria)
    requires WellFormed(t) && Extends(c2, c1)
    ensures |FindAllMatching(t, c2)| <= |FindAllMatching(t, c1)|
    ensures forall row :: row in FindAllMatching(t, c2) ==> row in FindAllMatching(t, c1)
  {
    var p1 := (row: Row<Review>) => AllHold(ReviewPredicates(c1), Holds, row.value);
    var p2 := (row: Row<Review>) => AllHold(ReviewPredicates(c2), Holds, row.value);
    forall row
      ensures p2(row) ==> p1(row)
    {
      PredicatesMeanMatches(c1, row.value);
      PredicatesMeanMatches(c2, row.value);
    }
    WhereNarrows(Entries(t), p2, p1);
  }

  /** A rating range whose minimum exceeds its maximum selects nothing. */
  lemma InvertedRatingRangeEmpty(t: Table<Review>, c: ReviewCriteria)
    requires WellFormed(t) && c.minRating.Some? && c.maxRating.Some? && c.minRating.value > c.maxRating.value
    ensures forall d :: d !in GetReviewsWithFilters(t, c)
  {
  }

  /** A derived query whose condition is the filter with criteria `c` selects
      the same rows as the filter. */
  lemma QueryIsFilter(t: Table<Review>, c: ReviewCriteria, direct: Row<Review> -> bool)
    requires forall row :: direct(row) == Matches(row.value, c)
    ensures Where(Entries(t), direct) == Where(Entries(t), (row: Row<Review>) => AllHold(ReviewPredicates(c), Holds, row.value))
  {
    forall row
      ensures direct(row) == AllHold(ReviewPredicates(c), Holds, row.value)
    {
      PredicatesMeanMatches(c, row.value);
    }
    WhereAgrees(Entries(t), direct, (row: Row<Review>) => AllHold(ReviewPredicates(c), Holds, row.value));
  }

  /** `getReviewsByUserId`: the derived query `findByUserId`, which is the
      filter with only the user given. */
  function GetReviewsByUserId(t: Table<Review>, userId: int): (r: seq<ReviewDto>)
    requires WellFormed(t)
    ensures r == GetReviewsWithFilters(t, NoReviewCriteria.(userId := Some(userId)))
  {
    var direct := (row: Row<Review>) => row.value.user == userId;
    QueryIsFilter(t, NoReviewCriteria.(userId := Some(userId)), direct);
    MapRows(Where(Entries(t), direct), ToReviewDto)
  }

  /** `getReviewsByRentalId`: the derived query `findByRentalId`, which is
      the filter with only the rental given. */
  function GetReviewsByRentalId(t: Table<Review>, rentalId: int): (r: seq<ReviewDto>)
    requires WellFormed(t)
    ensures r == GetReviewsWithFilters(t, NoReviewCriteria.(rentalId := Some(rentalId)))
  {
    var direct := (row: Row<Review>) => row.value.rental == rentalId;
    QueryIsFilter(t, NoReviewCriteria.(rentalId := Some(rentalId)), direct);
    MapRows(Where(Entries(t), direct), ToReviewDto)
  }

  /** `getReviewById`. */
  function GetReviewById(t: Table<Review>, id: int): (r: Result<ReviewDto>)
    ensures r.Ok? <==> id in t.rows
    ensures r.Ok? ==> r.value == ToReviewDto(Row(id, t.rows[id]))
    ensures r.Err? ==> r.error == NotFound(NotFoundText("Review", id))
  {
    if id in t.rows then Ok(ToReviewDto(Row(id, t.rows[id]))) else Err(NotFound(NotFoundText("Review", id)))
  }

  /** The outcome of mapping and saving a review body: the mapper raises
      NotFound for a given rental or user id that is not stored (rental
      first); a null rental, user or rating then fails the NOT NULL columns. */
  function CreatedReview(d: ReviewDto, rentals: Table<Rental>, users: Table<User>, now: Timestamp): (r: Result<Review>)
    ensures r.Ok? <==> Complete(d) && d.rentalId.value in rentals.rows && d.userId.value in users.rows
    ensures d.rentalId.Some? && d.rentalId.value !in rentals.rows ==>
              r == Err(NotFound(NotFoundText("Rental", d.rentalId.value)))
    ensures (d.rentalId.Some? ==> d.rentalId.value in rentals.rows) && d.userId.Some? && d.userId.value !in users.rows ==>
              r == Err(NotFound(NotFoundText("User", d.userId.value)))
    ensures r.Err? && !r.error.NotFound? ==> !Complete(d) && r.error.NullColumn?
    ensures r.Ok? ==> r == ToReview(d, rentals, users, now)
  {
    var rental := FindReference(rentals, d.rentalId, "Rental");
    var user := FindReference(users, d.userId, "User");
    if rental.Err? then Err(rental.error)
    else if user.Err? then Err(user.error)
    else if !Complete(d) then Err(NullColumn("not-null property references a null value: Review"))
    else ToReview(d, rentals, users, now)
  }

  /** `createReview`. The creation time becomes `now` when the body leaves it
      null; the review is mapped, the body's id included, and saved: over the
      stored review with that id if there is one, otherwise under a new id.
      It is returned as a DTO. Nothing is stored when mapping or saving fails. */
  method CreateReview(db: Database, d: ReviewDto, now: Timestamp) returns (r: Result<ReviewDto>)
    requires db.Valid()
    modifies db`reviews
    ensures db.Valid()
    ensures var defaulted := if d.createdAt.None? then d.(createdAt := Some(now)) else d;
            var v := CreatedReview(defaulted, db.rentals, db.users, now);
            && (v.Ok? ==> db.reviews == Merge(old(db.reviews), d.id, v.value)
                          && r == Ok(ToReviewDto(Row(MergedId(old(db.reviews), d.id), v.value))))
            && (v.Err? ==> db.reviews == old(db.reviews) && r == Err(v.error))
    ensures r.Ok? ==> r.value == d.(id := Some(MergedId(old(db.reviews), d.id)), createdAt := Some(d.createdAt.GetOr(now)))
  {
    var defaulted := if d.createdAt.None? then d.(createdAt := Some(now)) else d;
    var v := CreatedReview(defaulted, db.rentals, db.users, now);
    if v.Err? {
      return Err(v.error);
    }
    var id := MergedId(db.reviews, d.id);
    ReviewDtoRoundTrip(defaulted, db.rentals, db.users, now, id);
    db.reviews := Merge(db.reviews, d.id, v.value);
    r := Ok(ToReviewDto(Row(id, v.value)));
  }

  /** `updateReview`. An absent id raises NotFound; otherwise the mapper
      patches the stored review and only that row changes. */
  method UpdateReview(db: Database, id: int, u: ReviewUpdateDto) returns (r: Result<ReviewDto>)
    requires db.Valid()
    modifies db`reviews
    ensures db.Valid()
    ensures id !in old(db.reviews.rows) ==>
              r == Err(NotFound(NotFoundText("Review", id))) && db.reviews == old(db.reviews)
    ensures id in old(db.reviews.rows) ==>
              var v := UpdateReviewFromDto(u, old(db.reviews.rows[id]));
              && db.reviews.rows == old(db.reviews.rows)[id := v] && db.reviews.next == old(db.reviews.next)
              && r == Ok(ToReviewDto(Row(id, v)))
  {
    if id !in db.reviews.rows {
      return Err(NotFound(NotFoundText("Review", id)));
    }
    var v := UpdateReviewFromDto(u, db.reviews.rows[id]);
    db.reviews := Save(db.reviews, id, v);
    r := Ok(ToReviewDto(Row(id, v)));
  }

  /** `deleteReview`. An absent id raises NotFound. Otherwise exactly that
      row is removed. */
  method DeleteReview(db: Database, id: int) returns (r: Result<()>)
    requires db.Valid()
    modifies db`reviews
    ensures db.Valid()
    ensures id !in old(db.reviews.rows) ==>
              r == Err(NotFound(NotFoundText("Review", id))) && db.reviews == old(db.reviews)
    ensures id in old(db.reviews.rows) ==>
              r.Ok? && db.reviews.rows == old(db.reviews.rows) - {id} && db.reviews.next == old(db.reviews.next)
  {
    if id !in db.reviews.rows {
      return Err(NotFound(NotFoundText("Review", id)));
    }
    db.reviews := Remove(db.reviews, id);
    r := Ok(());
  }
}
