/** `RentalServiceImpl`: creating, reading, filtering, updating and deleting
    rentals. */
module RentalService {
  import opened Base
  import opened Tables
  import opened Entities
  import opened Dtos
  import opened RentalMapper

  /** The arguments of `getRentalsWithFilters`; a null argument is `None`. */
  datatype RentalCriteria = RentalCriteria(
    userId: Option<int>,
    vehicleId: Option<int>,
    status: Option<string>,
    startTimeFrom: Option<Timestamp>,
    startTimeTo: Option<Timestamp>,
    endTimeFrom: Option<Timestamp>,
    endTimeTo: Option<Timestamp>)

  const NoRentalCriteria := RentalCriteria(None, None, None, None, None, None, None)

  /** One predicate the specification adds to its list. */
  datatype RentalPredicate =
    | UserIs(userId: int)
    | VehicleIs(vehicleId: int)
    | StatusIs(status: string)
    | StartsFrom(startFrom: Timestamp)
    | StartsUntil(startTo: Timestamp)
    | EndsFrom(endFrom: Timestamp)
    | EndsUntil(endTo: Timestamp)

  /** What a predicate demands of a rental: an equality, or an inclusive bound. */
  predicate Holds(pr: RentalPredicate, x: Rental) {
    match pr
    case UserIs(id) => x.user == id
    case VehicleIs(id) => x.vehicle == id
    case StatusIs(s) => x.status == s
    case StartsFrom(from) => x.startTime >= from
    case StartsUntil(to) => x.startTime <= to
    case EndsFrom(from) => x.endTime >= from
    case EndsUntil(to) => x.endTime <= to
  }

  /** The predicate list, one piece per argument in the order the
      specification adds them: empty for a null argument or an empty status. */
  function RentalPieces(c: RentalCriteria): (pieces: seq<seq<RentalPredicate>>)
    ensures |pieces| == 7
  {
    [ if c.userId.Some? then [UserIs(c.userId.value)] else [],
      if c.vehicleId.Some? then [VehicleIs(c.vehicleId.value)] else [],
      if Given(c.status) then [StatusIs(c.status.value)] else [],
      if c.startTimeFrom.Some? then [StartsFrom(c.startTimeFrom.value)] else [],
      if c.startTimeTo.Some? then [StartsUntil(c.startTimeTo.value)] else [],
      if c.endTimeFrom.Some? then [EndsFrom(c.endTimeFrom.value)] else [],
      if c.endTimeTo.Some? then [EndsUntil(c.endTimeTo.value)] else [] ]
  }

  function RentalPredicates(c: RentalCriteria): seq<RentalPredicate> {
    Flatten(RentalPieces(c))
  }

  /** The filter stated directly: every supplied constraint holds. */
  predicate Matches(x: Rental, c: RentalCriteria) {
    && (c.userId.Some? ==> x.user == c.userId.value)
    && (c.vehicleId.Some? ==> x.vehicle == c.vehicleId.value)
    && (Given(c.status) ==> x.status == c.status.value)
    && (c.startTimeFrom.Some? ==> c.startTimeFrom.value <= x.startTime)
    && (c.startTimeTo.Some? ==> x.startTime <= c.startTimeTo.value)
    && (c.endTimeFrom.Some? ==> c.endTimeFrom.value <= x.endTime)
    && (c.endTimeTo.Some? ==> x.endTime <= c.endTimeTo.value)
  }

  /** What each piece of the list demands on its own. */
  lemma PieceMeaning(c: RentalCriteria, x: Rental)
    ensures var pieces := RentalPieces(c);
            && AllHold(pieces[0], Holds, x) == (c.userId.Some? ==> x.user == c.userId.value)
            && AllHold(pieces[1], Holds, x) == (c.vehicleId.Some? ==> x.vehicle == c.vehicleId.value)
            && AllHold(pieces[2], Holds, x) == (Given(c.status) ==> x.status == c.status.value)
            && AllHold(pieces[3], Holds, x) == (c.startTimeFrom.Some? ==> c.startTimeFrom.value <= x.startTime)
            && AllHold(pieces[4], Holds, x) == (c.startTimeTo.Some? ==> x.startTime <= c.startTimeTo.value)
            && AllHold(pieces[5], Holds, x) == (c.endTimeFrom.Some? ==> c.endTimeFrom.value <= x.endTime)
            && AllHold(pieces[6], Holds, x) == (c.endTimeTo.Some? ==> x.endTime <= c.endTimeTo.value)
  {
    AllHoldOne<RentalPredicate, Rental>(Holds);
  }

  /** The AND of the built list is exactly the direct filter. */
  lemma {:induction false} PredicatesMeanMatches(c: RentalCriteria, x: Rental)
    ensures AllHold(RentalPredicates(c), Holds, x) <==> Matches(x, c)
  {
    var pieces := RentalPieces(c);
    AllHoldFlatten(pieces, Holds, x);
    PieceMeaning(c, x);
    assert (forall i :: 0 <= i < |pieces| ==> AllHold(pieces[i], Holds, x)) <==>
      (AllHold(pieces[0], Holds, x) && AllHold(pieces[1], Holds, x) && AllHold(pieces[2], Holds, x)
       && AllHold(pieces[3], Holds, x) && AllHold(pieces[4], Holds, x) && AllHold(pieces[5], Holds, x)
       && AllHold(pieces[6], Holds, x));
  }

  /** `rentalRepository.findAll(specification)`: the stored rentals for which
      every predicate of the list holds, in store order. */
  function FindAllMatching(t: Table<Rental>, c: RentalCriteria): (r: seq<Row<Rental>>)
    requires WellFormed(t)
    ensures |r| <= |t.rows|
    ensures forall k, x :: Row(k, x) in r <==> k in t.rows && t.rows[k] == x && Matches(x, c)
  {
    var r := Where(Entries(t), (row: Row<Rental>) => AllHold(RentalPredicates(c), Holds, row.value));
    assert forall k, x :: Row(k, x) in r <==> k in t.rows && t.rows[k] == x && Matches(x, c) by {
      forall k, x
        ensures Row(k, x) in r <==> k in t.rows && t.rows[k] == x && Matches(x, c)
      {
        PredicatesMeanMatches(c, x);
        EntriesExact(t, k, x);
      }
    }
    EntriesCount(t);
    r
  }

  /** The DTOs of the matching rows are those of exactly the matching
      rentals. */
  lemma MatchingDtos(t: Table<Rental>, c: RentalCriteria)
    requires WellFormed(t)
    ensures var r := MapRows(FindAllMatching(t, c), ToRentalDto);
            && (forall k :: k in t.rows && Matches(t.rows[k], c) ==> ToRentalDto(Row(k, t.rows[k])) in r)
            && (forall d :: d in r ==> d.id.Some? && d.id.value in t.rows && Matches(t.rows[d.id.value], c))
  {
    var rows := FindAllMatching(t, c);
    forall k | k in t.rows && Matches(t.rows[k], c)
      ensures ToRentalDto(Row(k, t.rows[k])) in MapRows(rows, ToRentalDto)
    {
      MapRowsHas(rows, ToRentalDto, Row(k, t.rows[k]));
    }
    forall d | d in MapRows(rows, ToRentalDto)
      ensures d.id.Some? && d.id.value in t.rows && Matches(t.rows[d.id.value], c)
    {
      MapRowsFrom(rows, ToRentalDto, d);
      var row :| row in rows && ToRentalDto(row) == d;
      assert Row(row.id, row.value) in rows;
    }
  }

  /** `getRentalsWithFilters`: the DTO of every stored rental that matches,
      and of no other. */
  function GetRentalsWithFilters(t: Table<Rental>, c: RentalCriteria): (r: seq<RentalDto>)
    requires WellFormed(t)
    ensures |r| <= |t.rows|
    ensures forall k :: k in t.rows && Matches(t.rows[k], c) ==> ToRentalDto(Row(k, t.rows[k])) in r
    ensures forall d :: d in r ==> d.id.Some? && d.id.value in t.rows && Matches(t.rows[d.id.value], c)
  {
    MatchingDtos(t, c);
    MapRows(FindAllMatching(t, c), ToRentalDto)
  }

  /** `getAllRentals`: one DTO per stored rental, in increasing id order. */
  function GetAllRentals(t: Table<Rental>): (r: seq<RentalDto>)
    requires WellFormed(t)
    ensures |r| == |t.rows|
    ensures forall k :: k in t.rows ==> ToRentalDto(Row(k, t.rows[k])) in r
    ensures forall i, j :: 0 <= i < j < |r| ==> r[i].id.Some? && r[j].id.Some? && r[i].id.value < r[j].id.value
  {
    EntriesCount(t);
    var rows := Entries(t);
    var r := MapRows(rows, ToRentalDto);
    assert forall k :: k in t.rows ==> ToRentalDto(Row(k, t.rows[k])) in r by {
      forall k | k in t.rows
        ensures ToRentalDto(Row(k, t.rows[k])) in r
      {
        EntriesExact(t, k, t.rows[k]);
        MapRowsHas(rows, ToRentalDto, Row(k, t.rows[k]));
      }
    }
    r
  }

  /** With every argument null the filter returns the whole table. */
  lemma NoCriteriaFindsAll(t: Table<Rental>)
    requires WellFormed(t)
    ensures GetRentalsWithFilters(t, NoRentalCriteria) == GetAllRentals(t)
  {
    WhereKeepsAll(Entries(t), (row: Row<Rental>) => AllHold(RentalPredicates(NoRentalCriteria), Holds, row.value));
  }

  /** An empty status constrains nothing, the same as null. */
  lemma EmptyStatusIgnored(t: Table<Rental>, c: RentalCriteria)
    requires WellFormed(t)
    ensures GetRentalsWithFilters(t, c.(status := Some(""))) == GetRentalsWithFilters(t, c.(status := None))
  {
    assert RentalPredicates(c.(status := Some(""))) == RentalPredicates(c.(status := None));
  }

  /** `c2` keeps every constraint `c1` supplies, and may add more. */
  predicate Extends(c2: RentalCriteria, c1: RentalCriteria) {
    && (c1.userId.Some? ==> c2.userId == c1.userId)
    && (c1.vehicleId.Some? ==> c2.vehicleId == c1.vehicleId)
    && (Given(c1.status) ==> c2.status == c1.status)
    && (c1.startTimeFrom.Some? ==> c2.startTimeFrom == c1.startTimeFrom)
    && (c1.startTimeTo.Some? ==> c2.startTimeTo == c1.startTimeTo)
    && (c1.endTimeFrom.Some? ==> c2.endTimeFrom == c1.endTimeFrom)
    && (c1.endTimeTo.Some? ==> c2.endTimeTo == c1.endTimeTo)
  }

  /** Supplying more constraints never enlarges the result. */
  lemma MoreCriteriaNarrow(t: Table<Rental>, c1: RentalCriteria, c2: RentalCriteria)
    requires WellFormed(t) && Extends(c2, c1)
    ensures |FindAllMatching(t, c2)| <= |FindAllMatching(t, c1)|
    ensures forall row :: row in FindAllMatching(t, c2) ==> row in FindAllMatching(t, c1)
  {
    var p1 := (row: Row<Rental>) => AllHold(RentalPredicates(c1), Holds, row.value);
    var p2 := (row: Row<Rental>) => AllHold(RentalPredicates(c2), Holds, row.value);
    forall row
      ensures p2(row) ==> p1(row)
    {
      PredicatesMeanMatches(c1, row.value);
      PredicatesMeanMatches(c2, row.value);
    }
    WhereNarrows(Entries(t), p2, p1);
  }

  /** A rental active over a whole window — started no later than its start
      and ended no earlier than its end — is found by bounding the start
      from above and the end from below; all bounds are inclusive. */
  lemma CoveringRentalFound(x: Rental, windowStart: Timestamp, windowEnd: Timestamp)
    requires x.startTime <= windowStart && windowEnd <= x.endTime
    ensures Matches(x, NoRentalCriteria.(startTimeTo := Some(windowStart), endTimeFrom := Some(windowEnd)))
    ensures Matches(x, NoRentalCriteria.(startTimeFrom := Some(x.startTime), startTimeTo := Some(x.startTime),
                                         endTimeFrom := Some(x.endTime), endTimeTo := Some(x.endTime)))
  {
  }

  /** `getRentalById`. */
  function GetRentalById(t: Table<Rental>, id: int): (r: Result<RentalDto>)
    ensures r.Ok? <==> id in t.rows
    ensures r.Ok? ==> r.value == ToRentalDto(Row(id, t.rows[id]))
    ensures r.Err? ==> r.error == NotFound(NotFoundText("Rental", id))
  {
    if id in t.rows then Ok(ToRentalDto(Row(id, t.rows[id]))) else Err(NotFound(NotFoundText("Rental", id)))
  }

  /** `createRental`. The creation time becomes `now` when the body leaves it
      null; the rental is mapped, the body's id included, and saved: over the
      stored rental with that id if there is one, otherwise under a new id.
      It is returned as a DTO. An unknown user or vehicle raises NotFound and stores nothing. */
  method CreateRental(db: Database, d: RentalDto, now: Timestamp) returns (r: Result<RentalDto>)
    requires db.Valid() && ValidRentalDto(d)
    modifies db`rentals
    ensures db.Valid()
    ensures var defaulted := if d.createdAt.None? then d.(createdAt := Some(now)) else d;
            var x := ToRental(defaulted, db.users, db.vehicles, now);
            && (x.Ok? ==> db.rentals == Merge(old(db.rentals), d.id, x.value)
                          && r == Ok(ToRentalDto(Row(MergedId(old(db.rentals), d.id), x.value))))
            && (x.Err? ==> db.rentals == old(db.rentals) && r == Err(x.error))
    ensures r.Ok? ==> r.value == d.(id := Some(MergedId(old(db.rentals), d.id)), createdAt := Some(d.createdAt.GetOr(now)))
  {
    var defaulted := if d.createdAt.None? then d.(createdAt := Some(now)) else d;
    var x := ToRental(defaulted, db.users, db.vehicles, now);
    if x.Err? {
      return Err(x.error);
    }
    var id := MergedId(db.rentals, d.id);
    RentalDtoRoundTrip(defaulted, db.users, db.vehicles, now, id);
    db.rentals := Merge(db.rentals, d.id, x.value);
    r := Ok(ToRentalDto(Row(id, x.value)));
  }

  /** `updateRental`. An absent id raises NotFound. Otherwise the mapper
      patches the stored rental, and only that row changes. A failed
      reference lookup stores nothing. */
  method UpdateRental(db: Database, id: int, u: RentalUpdateDto) returns (r: Result<RentalDto>)
    requires db.Valid()
    modifies db`rentals
    ensures db.Valid()
    ensures id !in old(db.rentals.rows) ==>
              r == Err(NotFound(NotFoundText("Rental", id))) && db.rentals == old(db.rentals)
    ensures id in old(db.rentals.rows) ==>
              var q := UpdateRentalFromDto(u, old(db.rentals.rows[id]), db.users, db.vehicles);
              && (q.Ok? ==> db.rentals.rows == old(db.rentals.rows)[id := q.value] && db.rentals.next == old(db.rentals.next)
                            && r == Ok(ToRentalDto(Row(id, q.value))))
              && (q.Err? ==> db.rentals == old(db.rentals) && r == Err(q.error))
  {
    if id !in db.rentals.rows {
      return Err(NotFound(NotFoundText("Rental", id)));
    }
    var q := UpdateRentalFromDto(u, db.rentals.rows[id], db.users, db.vehicles);
    if q.Err? {
      return Err(q.error);
    }
    db.rentals := Save(db.rentals, id, q.value);
    r := Ok(ToRentalDto(Row(id, q.value)));
  }

  /** `deleteRental`. An absent id raises NotFound. Otherwise exactly that
      row is removed. */
  method DeleteRental(db: Database, id: int) returns (r: Result<()>)
    requires db.Valid()
    modifies db`rentals
    ensures db.Valid()
    ensures id !in old(db.rentals.rows) ==>
              r == Err(NotFound(NotFoundText("Rental", id))) && db.rentals == old(db.rentals)
    ensures id in old(db.rentals.rows) ==>
              r.Ok? && db.rentals.rows == old(db.rentals.rows) - {id} && db.rentals.next == old(db.rentals.next)
  {
    if id !in db.rentals.rows {
      return Err(NotFound(NotFoundText("Rental", id)));
    }
    db.rentals := Remove(db.rentals, id);
    r := Ok(());
  }
}
