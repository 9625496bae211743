/** The relational store as the services see it through their repositories:
    tables of rows keyed by a generated id, the listing `findAll` returns, the
    `findAll(specification)` filter, and the uniqueness of a column. */
module Tables {
  import opened Base

  /** An entity together with the id the store generated for it. */
  datatype Row<T> = Row(id: int, value: T)

  /** One repository table: rows keyed by id, and the next id the IDENTITY
      column will hand out. */
  datatype Table<T> = Table(rows: map<int, T>, next: nat)

  function Empty<T>(): Table<T> {
    Table(map[], 1)
  }

  /** Every stored id was handed out earlier by the IDENTITY column. */
  predicate WellFormed<T>(t: Table<T>) {
    forall k :: k in t.rows ==> 0 <= k < t.next
  }

  /** `findById` (the services' `getRoleById` and `getUserById` return it
      unchanged): the stored row, or empty. */
  function Find<T>(t: Table<T>, id: int): (r: Option<T>)
    ensures r.Some? <==> id in t.rows
    ensures r.Some? ==> r.value == t.rows[id]
  {
    if id in t.rows then Some(t.rows[id]) else None
  }

  /** `save` of a new entity: it is stored under the next generated id. */
  function Insert<T>(t: Table<T>, v: T): Table<T> {
    Table(t.rows[t.next := v], t.next + 1)
  }

  /** `save` of an entity that was loaded from the table. */
  function Save<T>(t: Table<T>, id: int, v: T): Table<T>
    requires id in t.rows
  {
    Table(t.rows[id := v], t.next)
  }

  /** The id `save` stores an entity under when the entity carries `id`:
      a stored id keeps its row, and a null id, or one that is not stored,
      gets the next generated id. */
  function MergedId<T>(t: Table<T>, id: Option<int>): int {
    if id.Some? && id.value in t.rows then id.value else t.next
  }

  /** `save` of an entity that carries the id `id`, null for a new one.
      A stored id has its row overwritten (a merge); any other entity is
      inserted, since merging an entity whose row does not exist persists it
      as a new row. Either way only the row `MergedId` changes. */
  function Merge<T>(t: Table<T>, id: Option<int>, v: T): (r: Table<T>)
    ensures r.rows == t.rows[MergedId(t, id) := v]
    ensures id.Some? && id.value in t.rows ==> r.next == t.next
    ensures !(id.Some? && id.value in t.rows) ==> r.next == t.next + 1
  {
    if id.Some? && id.value in t.rows then Save(t, id.value, v) else Insert(t, v)
  }

  /** `deleteById` of a stored id. */
  function Remove<T>(t: Table<T>, id: int): Table<T> {
    Table(t.rows - {id}, t.next)
  }

  /** `findAll()`: the stored rows, in ascending id order. */
  function Entries<T>(t: Table<T>): seq<Row<T>> {
    EntriesBelow(t, t.next)
  }

  /** The stored rows whose id is below `n`, in ascending id order. */
  function EntriesBelow<T>(t: Table<T>, n: nat): (s: seq<Row<T>>)
    ensures forall i :: 0 <= i < |s| ==> 0 <= s[i].id < n && s[i].id in t.rows && t.rows[s[i].id] == s[i].value
    ensures forall k :: 0 <= k < n && k in t.rows ==> Row(k, t.rows[k]) in s
    ensures forall i, j :: 0 <= i < j < |s| ==> s[i].id < s[j].id
  {
    if n == 0 then []
    else EntriesBelow(t, n - 1) + (if n - 1 in t.rows then [Row(n - 1, t.rows[n - 1])] else [])
  }

  /** A row is listed exactly when it is stored. */
  lemma EntriesExact<T>(t: Table<T>, k: int, v: T)
    requires WellFormed(t)
    ensures Row(k, v) in Entries(t) <==> k in t.rows && t.rows[k] == v
  {
  }

  ghost function KeysBelow<T>(t: Table<T>, n: nat): set<int> {
    set k | k in t.rows && 0 <= k < n
  }

  lemma KeysBelowStep<T>(t: Table<T>, n: nat)
    requires n > 0
    ensures n - 1 in t.rows ==> KeysBelow(t, n) == KeysBelow(t, n - 1) + {n - 1} && n - 1 !in KeysBelow(t, n - 1)
    ensures n - 1 !in t.rows ==> KeysBelow(t, n) == KeysBelow(t, n - 1)
  {
  }

  lemma {:induction false} EntriesBelowCount<T>(t: Table<T>, n: nat)
    ensures |EntriesBelow(t, n)| == |KeysBelow(t, n)|
  {
    if n == 0 {
      assert KeysBelow(t, n) == {};
    } else {
      EntriesBelowCount(t, n - 1);
      KeysBelowStep(t, n);
      EntriesBelowLength(t, n);
    }
  }

  lemma EntriesBelowLength<T>(t: Table<T>, n: nat)
    requires n > 0
    ensures |EntriesBelow(t, n)| == |EntriesBelow(t, n - 1)| + (if n - 1 in t.rows then 1 else 0)
  {
  }

  /** `findAll()` lists every stored row exactly once. */
  lemma EntriesCount<T>(t: Table<T>)
    requires WellFormed(t)
    ensures |Entries(t)| == |t.rows|
  {
    EntriesBelowCount(t, t.next);
    assert KeysBelow(t, t.next) == t.rows.Keys;
  }

  /** `findAll(specification)`: the elements of `s` that satisfy `p`, in order. */
  function Where<T(!new)>(s: seq<T>, p: T -> bool): (r: seq<T>)
    ensures |r| <= |s|
    ensures forall x :: x in r <==> x in s && p(x)
  {
    if s == [] then []
    else (if p(s[0]) then [s[0]] else []) + Where(s[1..], p)
  }

  /** A condition every element meets selects everything. */
  lemma {:induction false} WhereKeepsAll<T(!new)>(s: seq<T>, p: T -> bool)
    requires forall x :: x in s ==> p(x)
    ensures Where(s, p) == s
  {
    if s != [] {
      WhereKeepsAll(s[1..], p);
    }
  }

  /** Two conditions that agree on the elements select the same elements. */
  lemma {:induction false} WhereAgrees<T(!new)>(s: seq<T>, p: T -> bool, q: T -> bool)
    requires forall x :: x in s ==> (p(x) <==> q(x))
    ensures Where(s, p) == Where(s, q)
  {
    if s != [] {
      WhereAgrees(s[1..], p, q);
    }
  }

  /** A stricter condition selects a subsequence of what the weaker one
      selects: filtering by `p` is filtering the `q`-selection again by `p`. */
  lemma {:induction false} WhereNarrows<T(!new)>(s: seq<T>, p: T -> bool, q: T -> bool)
    requires forall x :: p(x) ==> q(x)
    ensures Where(Where(s, q), p) == Where(s, p)
    ensures |Where(s, p)| <= |Where(s, q)|
  {
    if s != [] {
      WhereNarrows(s[1..], p, q);
      var wq := Where(s, q);
      if q(s[0]) {
        assert wq == [s[0]] + Where(s[1..], q);
        assert wq[0] == s[0] && wq[1..] == Where(s[1..], q);
        assert Where(wq, p) == (if p(s[0]) then [s[0]] else []) + Where(wq[1..], p);
      } else {
        assert wq == Where(s[1..], q);
      }
    }
  }

  /** `criteriaBuilder.and(predicates)`: every predicate of the list holds of `x`;
      the conjunction of no predicates is true. */
  function AllHold<P, T>(ps: seq<P>, holds: (P, T) -> bool, x: T): bool {
    if ps == [] then true else holds(ps[0], x) && AllHold(ps[1..], holds, x)
  }

  /** Appending predicates to the list conjoins them. */
  lemma {:induction false} AllHoldAppend<P, T>(a: seq<P>, b: seq<P>, holds: (P, T) -> bool, x: T)
    ensures AllHold(a + b, holds, x) == (AllHold(a, holds, x) && AllHold(b, holds, x))
  {
    if a != [] {
      assert (a + b)[0] == a[0];
      assert (a + b)[1..] == a[1..] + b;
      AllHoldAppend(a[1..], b, holds, x);
    } else {
      assert a + b == b;
    }
  }

  /** A list of one predicate holds exactly when that predicate does. */
  lemma AllHoldOne<P, T>(holds: (P, T) -> bool)
    ensures forall pr, x :: AllHold([pr], holds, x) == holds(pr, x)
  {
    forall pr, x
      ensures AllHold([pr], holds, x) == holds(pr, x)
    {
      assert [pr][1..] == [];
    }
  }

  /** The predicate lists `pieces` one after another. */
  function Flatten<P>(pieces: seq<seq<P>>): seq<P> {
    if pieces == [] then [] else pieces[0] + Flatten(pieces[1..])
  }

  /** The conjunction of the flattened list is the conjunction of the pieces. */
  lemma {:induction false} AllHoldFlatten<P, T>(pieces: seq<seq<P>>, holds: (P, T) -> bool, x: T)
    ensures AllHold(Flatten(pieces), holds, x) <==> forall i :: 0 <= i < |pieces| ==> AllHold(pieces[i], holds, x)
  {
    if pieces != [] {
      AllHoldAppend(pieces[0], Flatten(pieces[1..]), holds, x);
      AllHoldFlatten(pieces[1..], holds, x);
      assert forall i :: 1 <= i < |pieces| ==> pieces[i] == pieces[1..][i - 1];
    }
  }

  /** No two rows share a non-null value of the column `key`. */
  predicate Unique<T, K(==)>(t: Table<T>, key: T -> Option<K>) {
    forall i, j :: i in t.rows && j in t.rows && i != j && key(t.rows[i]).Some? ==> key(t.rows[i]) != key(t.rows[j])
  }

  /** `existsByX(k)`: some row holds `k` in the column `key`. */
  predicate Taken<T, K(==)>(t: Table<T>, key: T -> Option<K>, k: K) {
    exists id :: id in t.rows && key(t.rows[id]) == Some(k)
  }

  /** Some row other than `self` holds `k` in the column `key`. */
  predicate TakenByOther<T, K(==)>(t: Table<T>, key: T -> Option<K>, k: K, self: int) {
    exists id :: id in t.rows && id != self && key(t.rows[id]) == Some(k)
  }

  /** Inserting a row whose key is null or not yet taken keeps the column unique. */
  lemma InsertKeepsUnique<T, K>(t: Table<T>, key: T -> Option<K>, v: T)
    requires WellFormed(t) && Unique(t, key)
    requires key(v).Some? ==> !Taken(t, key, key(v).value)
    ensures WellFormed(Insert(t, v)) && Unique(Insert(t, v), key)
  {
    var t' := Insert(t, v);
    forall i, j | i in t'.rows && j in t'.rows && i != j && key(t'.rows[i]).Some?
      ensures key(t'.rows[i]) != key(t'.rows[j])
    {
      if i == t.next {
        assert j in t.rows && t'.rows[j] == t.rows[j];
      } else if j == t.next {
        assert t'.rows[i] == t.rows[i];
      }
    }
  }

  /** Overwriting a row with a value whose key is null or held by no other row
      keeps the column unique. */
  lemma SaveKeepsUnique<T, K>(t: Table<T>, key: T -> Option<K>, id: int, v: T)
    requires id in t.rows && Unique(t, key)
    requires key(v).Some? ==> !TakenByOther(t, key, key(v).value, id)
    ensures Unique(Save(t, id, v), key)
  {
    var t' := Save(t, id, v);
    forall i, j | i in t'.rows && j in t'.rows && i != j && key(t'.rows[i]).Some?
      ensures key(t'.rows[i]) != key(t'.rows[j])
    {
      if i == id {
        assert t'.rows[j] == t.rows[j];
      } else if j == id {
        assert t'.rows[i] == t.rows[i];
      }
    }
  }

  /** A `save` whose key is null or held by no row other than the one it
      writes keeps the column unique, and keeps the ids generated. */
  lemma MergeKeepsUnique<T, K>(t: Table<T>, key: T -> Option<K>, id: Option<int>, v: T)
    requires WellFormed(t) && Unique(t, key)
    requires key(v).Some? ==> !TakenByOther(t, key, key(v).value, MergedId(t, id))
    ensures WellFormed(Merge(t, id, v)) && Unique(Merge(t, id, v), key)
  {
    if id.Some? && id.value in t.rows {
      SaveKeepsUnique(t, key, id.value, v);
    } else {
      InsertKeepsUnique(t, key, v);
    }
  }

  lemma RemoveKeepsUnique<T, K>(t: Table<T>, key: T -> Option<K>, id: int)
    requires WellFormed(t) && Unique(t, key)
    ensures WellFormed(Remove(t, id)) && Unique(Remove(t, id), key)
  {
  }

  /** `findByX(k)`: the first listed row holding `k` in the column `key`. */
  function FindBy<T(!new), K(==)>(t: Table<T>, key: T -> Option<K>, k: K): (r: Option<Row<T>>)
    ensures r.Some? ==> r.value.id in t.rows && t.rows[r.value.id] == r.value.value && key(r.value.value) == Some(k)
  {
    var hits := Where(Entries(t), (row: Row<T>) => key(row.value) == Some(k));
    if hits == [] then None else assert hits[0] in hits; Some(hits[0])
  }

  /** On a well-formed table, `findByX(k)` finds a row exactly when
      `existsByX(k)` holds, and when the column is unique it finds THE row
      holding `k`. */
  lemma FindByExact<T(!new), K>(t: Table<T>, key: T -> Option<K>, k: K, id: int)
    requires WellFormed(t)
    ensures FindBy(t, key, k).Some? <==> Taken(t, key, k)
    ensures Unique(t, key) && id in t.rows && key(t.rows[id]) == Some(k) ==>
              FindBy(t, key, k) == Some(Row(id, t.rows[id]))
  {
    var p := (row: Row<T>) => key(row.value) == Some(k);
    if Taken(t, key, k) {
      var j :| j in t.rows && key(t.rows[j]) == Some(k);
      assert Row(j, t.rows[j]) in Entries(t);
      assert Row(j, t.rows[j]) in Where(Entries(t), p);
    }
  }

  /** A mapper's `getXById`: a null id is a null reference, a stored id
      refers to that row, and any other id raises NotFound with the text
      "<Entity> not found with id: <id>". */
  function FindReference<T>(t: Table<T>, id: Option<int>, entity: string): (r: Result<Option<int>>)
    ensures r.Ok? <==> (id.Some? ==> id.value in t.rows)
    ensures r.Ok? ==> r.value == id
    ensures r.Err? ==> id.Some? && r.error == NotFound(NotFoundText(entity, id.value))
  {
    match id
    case None => Ok(None)
    case Some(k) => if k in t.rows then Ok(Some(k)) else Err(NotFound(NotFoundText(entity, k)))
  }

  /** The text of the NotFound every lookup by id raises. */
  function NotFoundText(entity: string, id: int): string {
    entity + " not found with id: " + IdToString(id)
  }

  /** The text of the EmptyResultDataAccessException that the repository's
      `deleteById` raises for an id that is not stored. */
  function NoEntityText(entity: string, id: int): string {
    "No class com.rimmelasghar.boilerplate.springboot.model." + entity + " entity with id " + IdToString(id) + " exists!"
  }

  /** `stream().map(f).collect(toList())` over a listing. */
  function MapRows<T, D>(rows: seq<Row<T>>, f: Row<T> -> D): (r: seq<D>)
    ensures |r| == |rows|
    ensures forall i :: 0 <= i < |rows| ==> r[i] == f(rows[i])
  {
    seq(|rows|, i requires 0 <= i < |rows| => f(rows[i]))
  }

  /** The image of a listed row is in the mapped list. */
  lemma MapRowsHas<T, D>(rows: seq<Row<T>>, f: Row<T> -> D, row: Row<T>)
    requires row in rows
    ensures f(row) in MapRows(rows, f)
  {
    var i :| 0 <= i < |rows| && rows[i] == row;
    assert MapRows(rows, f)[i] == f(row);
  }

  /** Every element of the mapped list is the image of a listed row. */
  lemma MapRowsFrom<T, D>(rows: seq<Row<T>>, f: Row<T> -> D, d: D)
    requires d in MapRows(rows, f)
    ensures exists row :: row in rows && f(row) == d
  {
    var i :| 0 <= i < |rows| && MapRows(rows, f)[i] == d;
    assert rows[i] in rows;
  }
}
