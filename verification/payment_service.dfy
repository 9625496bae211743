/** `PaymentServiceImpl`: creating, reading, filtering, updating and deleting
    payments. */
module PaymentService {
  import opened Base
  import opened Tables
  import opened Entities
  import opened Dtos
  import opened PaymentMapper

  /** The arguments of `getPaymentsWithFilters`; a null argument is `None`. */
  datatype PaymentCriteria = PaymentCriteria(
    userId: Option<int>,
    rentalId: Option<int>,
    status: Option<string>,
    paymentMethod: Option<string>,
    minAmount: Option<Decimal>,
    maxAmount: Option<Decimal>,
    paymentDateFrom: Option<Timestamp>,
    paymentDateTo: Option<Timestamp>)

  const NoPaymentCriteria := PaymentCriteria(None, None, None, None, None, None, None, None)

  /** One predicate the specification adds to its list. */
  datatype PaymentPredicate =
    | UserIs(userId: int)
    | RentalIs(rentalId: int)
    | StatusIs(status: string)
    | MethodIs(paymentMethod: string)
    | AmountAtLeast(minAmount: Decimal)
    | AmountAtMost(maxAmount: Decimal)
    | PaidFrom(from: Timestamp)
    | PaidUntil(to: Timestamp)

  /** What a predicate demands of a payment: an equality, or an inclusive bound. */
  predicate Holds(pr: PaymentPredicate, p: Payment) {
    match pr
    case UserIs(id) => p.user == id
    case RentalIs(id) => p.rental == id
    case StatusIs(s) => p.status == s
    case MethodIs(m) => p.paymentMethod == m
    case AmountAtLeast(min) => p.amount >= min
    case AmountAtMost(max) => p.amount <= max
    case PaidFrom(from) => p.paymentDate >= from
    case PaidUntil(to) => p.paymentDate <= to
  }

  /** The predicate list the specification builds, one piece per argument in
      the order it adds them: a piece is empty when its argument is null, and
      when a status or method is empty. */
  function PaymentPieces(c: PaymentCriteria): (pieces: seq<seq<PaymentPredicate>>)
    ensures |pieces| == 8
  {
    [ if c.userId.Some? then [UserIs(c.userId.value)] else [],
      if c.rentalId.Some? then [RentalIs(c.rentalId.value)] else [],
      if Given(c.status) then [StatusIs(c.status.value)] else [],
      if Given(c.paymentMethod) then [MethodIs(c.paymentMethod.value)] else [],
      if c.minAmount.Some? then [AmountAtLeast(c.minAmount.value)] else [],
      if c.maxAmount.Some? then [AmountAtMost(c.maxAmount.value)] else [],
      if c.paymentDateFrom.Some? then [PaidFrom(c.paymentDateFrom.value)] else [],
      if c.paymentDateTo.Some? then [PaidUntil(c.paymentDateTo.value)] else [] ]
  }

  function PaymentPredicates(c: PaymentCriteria): seq<PaymentPredicate> {
    Flatten(PaymentPieces(c))
  }

  /** The filter stated directly: every supplied constraint holds. */
  predicate Matches(p: Payment, c: PaymentCriteria) {
    && (c.userId.Some? ==> p.user == c.userId.value)
    && (c.rentalId.Some? ==> p.rental == c.rentalId.value)
    && (Given(c.status) ==> p.status == c.status.value)
    && (Given(c.paymentMethod) ==> p.paymentMethod == c.paymentMethod.value)
    && (c.minAmount.Some? ==> c.minAmount.value <= p.amount)
    && (c.maxAmount.Some? ==> p.amount <= c.maxAmount.value)
    && (c.paymentDateFrom.Some? ==> c.paymentDateFrom.value <= p.paymentDate)
    && (c.paymentDateTo.Some? ==> p.paymentDate <= c.paymentDateTo.value)
  }

  /** What each piece of the list demands on its own. */
  lemma PieceMeaning(c: PaymentCriteria, p: Payment)
    ensures var pieces := PaymentPieces(c);
            && AllHold(pieces[0], Holds, p) == (c.userId.Some? ==> p.user == c.userId.value)
            && AllHold(pieces[1], Holds, p) == (c.rentalId.Some? ==> p.rental == c.rentalId.value)
            && AllHold(pieces[2], Holds, p) == (Given(c.status) ==> p.status == c.status.value)
            && AllHold(pieces[3], Holds, p) == (Given(c.paymentMethod) ==> p.paymentMethod == c.paymentMethod.value)
            && AllHold(pieces[4], Holds, p) == (c.minAmount.Some? ==> c.minAmount.value <= p.amount)
            && AllHold(pieces[5], Holds, p) == (c.maxAmount.Some? ==> p.amount <= c.maxAmount.value)
            && AllHold(pieces[6], Holds, p) == (c.paymentDateFrom.Some? ==> c.paymentDateFrom.value <= p.paymentDate)
            && AllHold(pieces[7], Holds, p) == (c.paymentDateTo.Some? ==> p.paymentDate <= c.paymentDateTo.value)
  {
    AllHoldOne<PaymentPredicate, Payment>(Holds);
  }

  /** The AND of the built list is exactly the direct filter. */
  lemma {:induction false} PredicatesMeanMatches(c: PaymentCriteria, p: Payment)
    ensures AllHold(PaymentPredicates(c), Holds, p) <==> Matches(p, c)
  {
    var pieces := PaymentPieces(c);
    AllHoldFlatten(pieces, Holds, p);
    PieceMeaning(c, p);
    assert (forall i :: 0 <= i < |pieces| ==> AllHold(pieces[i], Holds, p)) <==>
      (AllHold(pieces[0], Holds, p) && AllHold(pieces[1], Holds, p) && AllHold(pieces[2], Holds, p)
       && AllHold(pieces[3], Holds, p) && AllHold(pieces[4], Holds, p) && AllHold(pieces[5], Holds, p)
       && AllHold(pieces[6], Holds, p) && AllHold(pieces[7], Holds, p));
  }

  /** `paymentRepository.findAll(specification)`: the stored payments for
      which every predicate of the list holds, in store order. */
  function FindAllMatching(t: Table<Payment>, c: PaymentCriteria): (r: seq<Row<Payment>>)
    requires WellFormed(t)
    ensures |r| <= |t.rows|
    ensures forall k, p :: Row(k, p) in r <==> k in t.rows && t.rows[k] == p && Matches(p, c)
  {
    var r := Where(Entries(t), (row: Row<Payment>) => AllHold(PaymentPredicates(c), Holds, row.value));
    assert forall k, p :: Row(k, p) in r <==> k in t.rows && t.rows[k] == p && Matches(p, c) by {
      forall k, p
        ensures Row(k, p) in r <==> k in t.rows && t.rows[k] == p && Matches(p, c)
      {
        PredicatesMeanMatches(c, p);
        EntriesExact(t, k, p);
      }
    }
    EntriesCount(t);
    r
  }

  /** The DTOs of the matching rows are those of exactly the matching
      payments. */
  lemma MatchingDtos(t: Table<Payment>, c: PaymentCriteria)
    requires WellFormed(t)
    ensures var r := MapRows(FindAllMatching(t, c), ToPaymentDto);
            && (forall k :: k in t.rows && Matches(t.rows[k], c) ==> ToPaymentDto(Row(k, t.rows[k])) in r)
            && (forall d :: d in r ==> d.id.Some? && d.id.value in t.rows && Matches(t.rows[d.id.value], c))
  {
    var rows := FindAllMatching(t, c);
    forall k | k in t.rows && Matches(t.rows[k], c)
      ensures ToPaymentDto(Row(k, t.rows[k])) in MapRows(rows, ToPaymentDto)
    {
      MapRowsHas(rows, ToPaymentDto, Row(k, t.rows[k]));
    }
    forall d | d in MapRows(rows, ToPaymentDto)
      ensures d.id.Some? && d.id.value in t.rows && Matches(t.rows[d.id.value], c)
    {
      MapRowsFrom(rows, ToPaymentDto, d);
      var row :| row in rows && ToPaymentDto(row) == d;
      assert Row(row.id, row.value) in rows;
    }
  }

  /** `getPaymentsWithFilters`: the DTO of every stored payment that matches,
      and of no other. */
  function GetPaymentsWithFilters(t: Table<Payment>, c: PaymentCriteria): (r: seq<PaymentDto>)
    requires WellFormed(t)
    ensures |r| <= |t.rows|
    ensures forall k :: k in t.rows && Matches(t.rows[k], c) ==> ToPaymentDto(Row(k, t.rows[k])) in r
    ensures forall d :: d in r ==> d.id.Some? && d.id.value in t.rows && Matches(t.rows[d.id.value], c)
  {
    MatchingDtos(t, c);
    MapRows(FindAllMatching(t, c), ToPaymentDto)
  }

  /** `getAllPayments`: one DTO per stored payment, in increasing id order. */
  function GetAllPayments(t: Table<Payment>): (r: seq<PaymentDto>)
    requires WellFormed(t)
    ensures |r| == |t.rows|
    ensures forall k :: k in t.rows ==> ToPaymentDto(Row(k, t.rows[k])) in r
    ensures forall i, j :: 0 <= i < j < |r| ==> r[i].id.Some? && r[j].id.Some? && r[i].id.value < r[j].id.value
  {
    EntriesCount(t);
    var rows := Entries(t);
    var r := MapRows(rows, ToPaymentDto);
    assert forall k :: k in t.rows ==> ToPaymentDto(Row(k, t.rows[k])) in r by {
      forall k | k in t.rows
        ensures ToPaymentDto(Row(k, t.rows[k])) in r
      {
        EntriesExact(t, k, t.rows[k]);
        MapRowsHas(rows, ToPaymentDto, Row(k, t.rows[k]));
      }
    }
    r
  }

  /** With every argument null the filter returns the whole table, because
      the AND of no predicates is true. */
  lemma NoCriteriaFindsAll(t: Table<Payment>)
    requires WellFormed(t)
    ensures GetPaymentsWithFilters(t, NoPaymentCriteria) == GetAllPayments(t)
  {
    WhereKeepsAll(Entries(t), (row: Row<Payment>) => AllHold(PaymentPredicates(NoPaymentCriteria), Holds, row.value));
  }

  /** An empty status or payment method constrains nothing, the same as null. */
  lemma EmptyStringsIgnored(t: Table<Payment>, c: PaymentCriteria)
    requires WellFormed(t)
    ensures GetPaymentsWithFilters(t, c.(status := Some(""))) == GetPaymentsWithFilters(t, c.(status := None))
    ensures GetPaymentsWithFilters(t, c.(paymentMethod := Some(""))) == GetPaymentsWithFilters(t, c.(paymentMethod := None))
  {
    assert PaymentPredicates(c.(status := Some(""))) == PaymentPredicates(c.(status := None));
    assert PaymentPredicates(c.(paymentMethod := Some(""))) == PaymentPredicates(c.(paymentMethod := None));
  }

  /** `c2` keeps every constraint `c1` supplies, and may add more. */
  predicate Extends(c2: PaymentCriteria, c1: PaymentCriteria) {
    && (c1.userId.Some? ==> c2.userId == c1.userId)
    && (c1.rentalId.Some? ==> c2.rentalId == c1.rentalId)
    && (Given(c1.status) ==> c2.status == c1.status)
    && (Given(c1.paymentMethod) ==> c2.paymentMethod == c1.paymentMethod)
    && (c1.minAmount.Some? ==> c2.minAmount == c1.minAmount)
    && (c1.maxAmount.Some? ==> c2.maxAmount == c1.maxAmount)
    && (c1.paymentDateFrom.Some? ==> c2.paymentDateFrom == c1.paymentDateFrom)
    && (c1.paymentDateTo.Some? ==> c2.paymentDateTo == c1.paymentDateTo)
  }

  /** Supplying more constraints never enlarges the result: what the
      stricter filter returns is what the looser one returns, filtered again. */
  lemma MoreCriteriaNarrow(t: Table<Payment>, c1: PaymentCriteria, c2: PaymentCriteria)
    requires WellFormed(t) && Extends(c2, c1)
    ensures |FindAllMatching(t, c2)| <= |FindAllMatching(t, c1)|
    ensures forall row :: row in FindAllMatching(t, c2) ==> row in FindAllMatching(t, c1)
  {
    var p1 := (row: Row<Payment>) => AllHold(PaymentPredicates(c1), Holds, row.value);
    var p2 := (row: Row<Payment>) => AllHold(PaymentPredicates(c2), Holds, row.value);
    forall row
      ensures p2(row) ==> p1(row)
    {
      PredicatesMeanMatches(c1, row.value);
      PredicatesMeanMatches(c2, row.value);
    }
    WhereNarrows(Entries(t), p2, p1);
  }

  /** The bounds are inclusive: a payment matches bounds equal to its own
      amount and date. */
  lemma BoundsInclusive(p: Payment)
    ensures Matches(p, NoPaymentCriteria.(minAmount := Some(p.amount), maxAmount := Some(p.amount),
                                          paymentDateFrom := Some(p.paymentDate), paymentDateTo := Some(p.paymentDate)))
  {
  }

  /** A derived query whose condition is the filter with criteria `c` selects
      the same rows as the filter. */
  lemma QueryIsFilter(t: Table<Payment>, c: PaymentCriteria, direct: Row<Payment> -> bool)
    requires forall row :: direct(row) == Matches(row.value, c)
    ensures Where(Entries(t), direct) == Where(Entries(t), (row: Row<Payment>) => AllHold(PaymentPredicates(c), Holds, row.value))
  {
    forall row
      ensures direct(row) == AllHold(PaymentPredicates(c), Holds, row.value)
    {
      PredicatesMeanMatches(c, row.value);
    }
    WhereAgrees(Entries(t), direct, (row: Row<Payment>) => AllHold(PaymentPredicates(c), Holds, row.value));
  }

  /** `getPaymentsByUserId`: the derived query `findByUserId`, which is the
      filter with only the user given. */
  function GetPaymentsByUserId(t: Table<Payment>, userId: int): (r: seq<PaymentDto>)
    requires WellFormed(t)
    ensures r == GetPaymentsWithFilters(t, NoPaymentCriteria.(userId := Some(userId)))
  {
    var direct := (row: Row<Payment>) => row.value.user == userId;
    QueryIsFilter(t, NoPaymentCriteria.(userId := Some(userId)), direct);
    MapRows(Where(Entries(t), direct), ToPaymentDto)
  }

  /** `getPaymentsByRentalId`: the derived query `findByRentalId`, which is
      the filter with only the rental given. */
  function GetPaymentsByRentalId(t: Table<Payment>, rentalId: int): (r: seq<PaymentDto>)
    requires WellFormed(t)
    ensures r == GetPaymentsWithFilters(t, NoPaymentCriteria.(rentalId := Some(rentalId)))
  {
    var direct := (row: Row<Payment>) => row.value.rental == rentalId;
    QueryIsFilter(t, NoPaymentCriteria.(rentalId := Some(rentalId)), direct);
    MapRows(Where(Entries(t), direct), ToPaymentDto)
  }

  /** `getPaymentsByStatus`: the derived query `findByStatus`. For a
      non-empty status it is the filter with only the status given; unlike
      the filter it also compares an empty status. */
  function GetPaymentsByStatus(t: Table<Payment>, status: string): (r: seq<PaymentDto>)
    requires WellFormed(t)
    ensures status != "" ==> r == GetPaymentsWithFilters(t, NoPaymentCriteria.(status := Some(status)))
    ensures forall d :: d in r ==> d.status == Some(status)
  {
    var direct := (row: Row<Payment>) => row.value.status == status;
    var rows := Where(Entries(t), direct);
    if status != "" then
      QueryIsFilter(t, NoPaymentCriteria.(status := Some(status)), direct);
      MapRows(rows, ToPaymentDto)
    else
      assert forall i :: 0 <= i < |rows| ==> rows[i] in rows;
      MapRows(rows, ToPaymentDto)
  }

  /** `getPaymentById`. */
  function GetPaymentById(t: Table<Payment>, id: int): (r: Result<PaymentDto>)
    ensures r.Ok? <==> id in t.rows
    ensures r.Ok? ==> r.value == ToPaymentDto(Row(id, t.rows[id]))
    ensures r.Err? ==> r.error == NotFound(NotFoundText("Payment", id))
  {
    if id in t.rows then Ok(ToPaymentDto(Row(id, t.rows[id]))) else Err(NotFound(NotFoundText("Payment", id)))
  }

  /** `createPayment`'s defaults: the creation time becomes `now` when it is
      null, and the status becomes "PENDING" when it is null or empty. */
  function WithPaymentDefaults(d: PaymentDto, now: Timestamp): (r: PaymentDto)
    ensures r.createdAt == (if d.createdAt.Some? then d.createdAt else Some(now))
    ensures r.status == (if Given(d.status) then d.status else Some("PENDING"))
    ensures r.(status := d.status, createdAt := d.createdAt) == d
  {
    var d1 := if d.createdAt.None? then d.(createdAt := Some(now)) else d;
    if d1.status.None? || d1.status.value == "" then d1.(status := Some("PENDING")) else d1
  }

  /** `createPayment`. The body gets its defaults and is mapped, the body's
      id included, and `save` merges the payment: it overwrites the payment
      with that id when one is stored, and is otherwise stored under a new
      id; it is returned as a DTO. An unknown rental or user raises NotFound
      and stores nothing. */
  method CreatePayment(db: Database, d: PaymentDto, now: Timestamp) returns (r: Result<PaymentDto>)
    requires db.Valid() && ValidPaymentDto(d)
    modifies db`payments
    ensures db.Valid()
    ensures var p := ToPayment(WithPaymentDefaults(d, now), db.rentals, db.users, now);
            && (p.Ok? ==> db.payments == Merge(old(db.payments), d.id, p.value)
                          && r == Ok(ToPaymentDto(Row(MergedId(old(db.payments), d.id), p.value))))
            && (p.Err? ==> db.payments == old(db.payments) && r == Err(p.error))
    ensures r.Ok? ==> r.value.status == (if Given(d.status) then d.status else Some("PENDING"))
    ensures r.Ok? ==> r.value.createdAt == (if d.createdAt.Some? then d.createdAt else Some(now))
  {
    var defaulted := WithPaymentDefaults(d, now);
    var p := ToPayment(defaulted, db.rentals, db.users, now);
    if p.Err? {
      return Err(p.error);
    }
    var id := MergedId(db.payments, d.id);
    db.payments := Merge(db.payments, d.id, p.value);
    r := Ok(ToPaymentDto(Row(id, p.value)));
  }

  /** `updatePayment`. An absent id raises NotFound. Otherwise the mapper
      patches the stored payment, and only that row changes. A failed
      reference lookup stores nothing. */
  method UpdatePayment(db: Database, id: int, u: PaymentUpdateDto) returns (r: Result<PaymentDto>)
    requires db.Valid()
    modifies db`payments
    ensures db.Valid()
    ensures id !in old(db.payments.rows) ==>
              r == Err(NotFound(NotFoundText("Payment", id))) && db.payments == old(db.payments)
    ensures id in old(db.payments.rows) ==>
              var q := UpdatePaymentFromDto(u, old(db.payments.rows[id]), db.rentals, db.users);
              && (q.Ok? ==> db.payments.rows == old(db.payments.rows)[id := q.value] && db.payments.next == old(db.payments.next)
                            && r == Ok(ToPaymentDto(Row(id, q.value))))
              && (q.Err? ==> db.payments == old(db.payments) && r == Err(q.error))
  {
    if id !in db.payments.rows {
      return Err(NotFound(NotFoundText("Payment", id)));
    }
    var q := UpdatePaymentFromDto(u, db.payments.rows[id], db.rentals, db.users);
    if q.Err? {
      return Err(q.error);
    }
    db.payments := Save(db.payments, id, q.value);
    r := Ok(ToPaymentDto(Row(id, q.value)));
  }

  /** `deletePayment`. An absent id raises NotFound. Otherwise exactly that
      row is removed. */
  method DeletePayment(db: Database, id: int) returns (r: Result<()>)
    requires db.Valid()
    modifies db`payments
    ensures db.Valid()
    ensures id !in old(db.payments.rows) ==>
              r == Err(NotFound(NotFoundText("Payment", id))) && db.payments == old(db.payments)
    ensures id in old(db.payments.rows) ==>
              r.Ok? && db.payments.rows == old(db.payments.rows) - {id} && db.payments.next == old(db.payments.next)
  {
    if id !in db.payments.rows {
      return Err(NotFound(NotFoundText("Payment", id)));
    }
    db.payments := Remove(db.payments, id);
    r := Ok(());
  }
}
