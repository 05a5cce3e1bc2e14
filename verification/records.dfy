/** The two tables' rows, the row shape the service listing returns, and the change events
    the server broadcasts (server.ts, src/App.tsx). */
module Records {
  import opened Wrappers
  import opened Seqs
  import opened Strings

  /** A row of the `services` table; `created_at` is left out. */
  datatype Service = Service(id: int, date: string, capacity: int, description: Option<string>)

  /** A row of the `volunteers` table; `created_at` is left out. */
  datatype Volunteer = Volunteer(id: int, name: string, serviceId: int)

  /** A service as the listing returns it and as the client keeps it, with `volunteer_count`. */
  datatype ServiceRow = ServiceRow(id: int, date: string, capacity: int, description: Option<string>, volunteerCount: nat)

  /** The `{type, payload}` messages the server broadcasts over the WebSocket. */
  datatype Event =
    | ServiceAdded(row: ServiceRow)                  // SERVICE_ADDED
    | ServiceRemoved(id: int)                        // SERVICE_REMOVED
    | ServiceUpdated(id: int, capacity: int)         // SERVICE_UPDATED
    | VolunteerAdded(volunteer: Volunteer)           // VOLUNTEER_ADDED
    | VolunteerRemoved(id: int, serviceId: int)      // VOLUNTEER_REMOVED

  function RowOf(s: Service, count: nat): ServiceRow {
    ServiceRow(s.id, s.date, s.capacity, s.description, count)
  }

  /** A row without its derived count: the table's own columns. */
  function Strip(r: ServiceRow): Service {
    Service(r.id, r.date, r.capacity, r.description)
  }

  function ServiceIdOf(s: Service): int { s.id }
  function ServiceDateOf(s: Service): string { s.date }
  function VolunteerIdOf(v: Volunteer): int { v.id }

  function ServiceWithId(id: int): Service -> bool {
    (s: Service) => s.id == id
  }

  function VolunteerWithId(id: int): Volunteer -> bool {
    (v: Volunteer) => v.id == id
  }

  function RowWithId(id: int): ServiceRow -> bool {
    (r: ServiceRow) => r.id == id
  }

  /** Selects the volunteers signed up for service `sid`. */
  function OfService(sid: int): Volunteer -> bool {
    (v: Volunteer) => v.serviceId == sid
  }

  /** The number of volunteers signed up for service `sid`: the listing's `COUNT(*)` subquery
      and the client's `getVolunteerCount` alike. */
  function VolunteerCount(vs: seq<Volunteer>, sid: int): (n: nat)
    ensures n <= |vs|
    ensures n == 0 <==> forall v :: v in vs ==> v.serviceId != sid
  {
    var r := Filter(vs, OfService(sid));
    assert forall v :: v in r <==> v in vs && v.serviceId == sid;
    assert r != [] ==> r[0] in r;
    |r|
  }

  /** One more volunteer for `v.serviceId` and no change for any other service. */
  lemma VolunteerCountAppend(vs: seq<Volunteer>, v: Volunteer, sid: int)
    ensures VolunteerCount(vs + [v], sid) == VolunteerCount(vs, sid) + (if v.serviceId == sid then 1 else 0)
  {
    FilterConcat(vs, [v], OfService(sid));
  }

  /** Removing the volunteers a predicate rejects never raises a count, and leaves the count of a
      service untouched when the predicate keeps all of its volunteers. */
  lemma {:induction false} VolunteerCountFilter(vs: seq<Volunteer>, p: Volunteer -> bool, sid: int)
    ensures VolunteerCount(Filter(vs, p), sid) <= VolunteerCount(vs, sid)
    ensures (forall v :: v in vs && v.serviceId == sid ==> p(v)) ==>
              VolunteerCount(Filter(vs, p), sid) == VolunteerCount(vs, sid)
    ensures (forall v :: v in vs && v.serviceId == sid ==> !p(v)) ==> VolunteerCount(Filter(vs, p), sid) == 0
    decreases |vs|
  {
    if |vs| > 0 {
      var h, t := vs[0], vs[1..];
      assert vs == [h] + t;
      VolunteerCountFilter(t, p, sid);
      VolunteerCountPrepend(h, t, sid);
      if p(h) {
        assert Filter(vs, p) == [h] + Filter(t, p);
        VolunteerCountPrepend(h, Filter(t, p), sid);
      }
      assert (forall v :: v in vs && v.serviceId == sid ==> p(v)) ==> (forall v :: v in t && v.serviceId == sid ==> p(v));
      assert (forall v :: v in vs && v.serviceId == sid ==> !p(v)) ==> (forall v :: v in t && v.serviceId == sid ==> !p(v));
    }
  }

  /** Two lists holding the same volunteers give every service the same count. */
  lemma VolunteerCountSameMultiset(a: seq<Volunteer>, b: seq<Volunteer>, sid: int)
    requires multiset(a) == multiset(b)
    ensures VolunteerCount(a, sid) == VolunteerCount(b, sid)
  {
    FilterSameMultiset(a, b, OfService(sid));
  }

  /** Rows in ascending date order, as `ORDER BY s.date ASC` and the client's sort leave them. */
  predicate SortedByDate(rows: seq<ServiceRow>) {
    forall i, j :: 0 <= i < j < |rows| ==> StrLe(rows[i].date, rows[j].date)
  }

  /** `x` placed into `sorted` after every row whose date is not later than its own. */
  function InsertByDate(sorted: seq<ServiceRow>, x: ServiceRow): (r: seq<ServiceRow>)
    requires SortedByDate(sorted)
    ensures SortedByDate(r)
    ensures multiset(r) == multiset(sorted) + multiset{x}
  {
    if |sorted| == 0 then [x]
    else if !StrLe(sorted[0].date, x.date) then
      EarlierFirstKeepsSorted(x, sorted);
      [x] + sorted
    else
      var rest := InsertByDate(sorted[1..], x);
      assert sorted == [sorted[0]] + sorted[1..];
      HeadFirstKeepsSorted(sorted, x, rest);
      [sorted[0]] + rest
  }

  /** A row dated before the head of a sorted list may go in front of it. */
  lemma EarlierFirstKeepsSorted(x: ServiceRow, sorted: seq<ServiceRow>)
    requires SortedByDate(sorted) && |sorted| > 0 && !StrLe(sorted[0].date, x.date)
    ensures SortedByDate([x] + sorted)
  {
    StrLeTotal(sorted[0].date, x.date);
    forall j | 0 <= j < |sorted|
      ensures StrLe(x.date, sorted[j].date)
    {
      if j > 0 {
        StrLeTransitive(x.date, sorted[0].date, sorted[j].date);
      }
    }
  }

  /** The head of a sorted list stays in front when `x`, dated no earlier, goes into the tail. */
  lemma HeadFirstKeepsSorted(sorted: seq<ServiceRow>, x: ServiceRow, rest: seq<ServiceRow>)
    requires SortedByDate(sorted) && |sorted| > 0 && StrLe(sorted[0].date, x.date)
    requires SortedByDate(rest) && multiset(rest) == multiset(sorted[1..]) + multiset{x}
    ensures SortedByDate([sorted[0]] + rest)
  {
    forall j | 0 <= j < |rest|
      ensures StrLe(sorted[0].date, rest[j].date)
    {
      assert rest[j] in multiset(rest);
      if rest[j] != x {
        assert rest[j] in multiset(sorted[1..]);
        var k :| 0 <= k < |sorted[1..]| && sorted[1..][k] == rest[j];
        assert sorted[k + 1] == rest[j];
      }
    }
  }

  /** The rows in ascending date order, by insertion of each row after the earlier ones. */
  function SortByDate(rows: seq<ServiceRow>): (r: seq<ServiceRow>)
    ensures SortedByDate(r)
    ensures multiset(r) == multiset(rows)
    ensures |r| == |rows|
  {
    if |rows| == 0 then []
    else
      var init := rows[..|rows| - 1];
      var last := rows[|rows| - 1];
      assert rows == init + [last];
      assert multiset(rows) == multiset(init) + multiset{last};
      var sortedInit := SortByDate(init);
      var r := InsertByDate(sortedInit, last);
      assert |r| == |multiset(r)|;
      r
  }

  /** Rows that share a date are the same row. */
  ghost predicate DatesIdentify(rows: seq<ServiceRow>) {
    forall i, j :: 0 <= i < |rows| && 0 <= j < |rows| && rows[i].date == rows[j].date ==> rows[i] == rows[j]
  }

  /** When rows that share a date are the same row, there is only one date-ordered arrangement:
      two date-ordered lists holding the same rows are equal. */
  lemma {:induction false} SortedByDateUnique(a: seq<ServiceRow>, b: seq<ServiceRow>)
    requires SortedByDate(a) && SortedByDate(b) && multiset(a) == multiset(b)
    requires DatesIdentify(a)
    ensures a == b
    decreases |a|
  {
    assert |a| == |multiset(a)| == |multiset(b)| == |b|;
    if |a| > 0 {
      SortedHeadsAgree(a, b);
      assert a == [a[0]] + a[1..] && b == [b[0]] + b[1..];
      MultisetCancel(a[0], multiset(a[1..]), multiset(b[1..]));
      assert DatesIdentify(a[1..]) by {
        forall i, j | 0 <= i < |a[1..]| && 0 <= j < |a[1..]| && a[1..][i].date == a[1..][j].date
          ensures a[1..][i] == a[1..][j]
        {
          assert a[1..][i] == a[i + 1] && a[1..][j] == a[j + 1];
        }
      }
      SortedByDateUnique(a[1..], b[1..]);
    }
  }

  /** Two date-ordered lists holding the same rows start with the same row, when rows that share
      a date are the same row: each head is dated no later than the other. */
  lemma SortedHeadsAgree(a: seq<ServiceRow>, b: seq<ServiceRow>)
    requires SortedByDate(a) && SortedByDate(b) && multiset(a) == multiset(b)
    requires DatesIdentify(a) && |a| > 0 && |b| > 0
    ensures a[0] == b[0]
  {
    assert a[0] in multiset(b) && b[0] in multiset(a);
    var i :| 0 <= i < |b| && b[i] == a[0];
    var k :| 0 <= k < |a| && a[k] == b[0];
    StrLeReflexive(a[0].date);
    StrLeReflexive(b[0].date);
    assert StrLe(b[0].date, b[i].date);
    assert StrLe(a[0].date, a[k].date);
    StrLeAntisymmetric(a[0].date, b[0].date);
    assert a[0] == a[k];
  }

  /** One occurrence of the same element taken from both sides. */
  lemma MultisetCancel<T>(x: T, m: multiset<T>, n: multiset<T>)
    requires multiset{x} + m == multiset{x} + n
    ensures m == n
  {
    forall y
      ensures m[y] == n[y]
    {
      assert (multiset{x} + m)[y] == multiset{x}[y] + m[y];
      assert (multiset{x} + n)[y] == multiset{x}[y] + n[y];
    }
  }

  /** A sub-list of a date-ordered list is still date-ordered. */
  lemma {:induction false} FilterKeepsSorted(rows: seq<ServiceRow>, p: ServiceRow -> bool)
    requires SortedByDate(rows)
    ensures SortedByDate(Filter(rows, p))
  {
    if |rows| > 0 {
      FilterKeepsSorted(rows[1..], p);
      if p(rows[0]) {
        HeadStaysFirst(rows, Filter(rows[1..], p));
        assert Filter(rows, p) == [rows[0]] + Filter(rows[1..], p);
      }
    }
  }

  /** The head of a sorted list may stay in front of any sorted selection from its tail. */
  lemma HeadStaysFirst(rows: seq<ServiceRow>, rest: seq<ServiceRow>)
    requires SortedByDate(rows) && |rows| > 0
    requires SortedByDate(rest) && forall x :: x in rest ==> x in rows[1..]
    ensures SortedByDate([rows[0]] + rest)
  {
    forall j | 0 <= j < |rest|
      ensures StrLe(rows[0].date, rest[j].date)
    {
      assert rest[j] in rows[1..];
      var k :| 0 <= k < |rows[1..]| && rows[1..][k] == rest[j];
      assert rows[k + 1] == rest[j];
    }
  }

  /** One more volunteer in front: one more for its service and no change for any other. */
  lemma VolunteerCountPrepend(v: Volunteer, vs: seq<Volunteer>, sid: int)
    ensures VolunteerCount([v] + vs, sid) == VolunteerCount(vs, sid) + (if v.serviceId == sid then 1 else 0)
  {
    FilterConcat([v], vs, OfService(sid));
  }

  /** Whether `vs` holds a volunteer with id `id` signed up for service `sid`. */
  predicate HoldsSignup(vs: seq<Volunteer>, id: int, sid: int) {
    exists v :: v in vs && v.id == id && v.serviceId == sid
  }

  /** When the head carries id `id` and ids are distinct, removing `id` takes away the head only. */
  lemma RemoveUniqueHead(vs: seq<Volunteer>, id: int)
    requires |vs| > 0 && vs[0].id == id && KeysDistinct(vs, VolunteerIdOf)
    ensures Filter(vs, Not(VolunteerWithId(id))) == vs[1..]
    ensures forall v :: v in vs && v.id == id ==> v == vs[0]
  {
    var t := vs[1..];
    var p := Not(VolunteerWithId(id));
    forall i | 0 <= i < |t|
      ensures p(t[i])
    {
      assert VolunteerIdOf(vs[0]) != VolunteerIdOf(vs[i + 1]);
    }
    FilterKeepsAll(t, p);
    assert vs == [vs[0]] + t;
  }

  /** Removing the volunteers with id `id`, when ids are distinct, takes one away from the count
      of the service that volunteer belonged to and leaves every other count alone. */
  lemma {:induction false} VolunteerCountRemoveUnique(vs: seq<Volunteer>, id: int, sid: int)
    requires KeysDistinct(vs, VolunteerIdOf)
    ensures VolunteerCount(Filter(vs, Not(VolunteerWithId(id))), sid)
            == VolunteerCount(vs, sid) - (if HoldsSignup(vs, id, sid) then 1 else 0)
  {
    if |vs| > 0 {
      var h, t := vs[0], vs[1..];
      assert vs == [h] + t;
      VolunteerCountPrepend(h, t, sid);
      if h.id == id {
        RemoveUniqueHead(vs, id);
      } else {
        assert KeysDistinct(t, VolunteerIdOf);
        VolunteerCountRemoveUnique(t, id, sid);
        VolunteerCountPrepend(h, Filter(t, Not(VolunteerWithId(id))), sid);
        assert HoldsSignup(vs, id, sid) == HoldsSignup(t, id, sid);
      }
    }
  }

  /** The positions of `vs` holding a volunteer of service `sid`. */
  function PositionsOf(vs: seq<Volunteer>, sid: int): set<nat> {
    set i: nat | i < |vs| && vs[i].serviceId == sid
  }

  /** Appending one volunteer adds its own position exactly when it belongs to the service. */
  lemma PositionsOfAppend(init: seq<Volunteer>, last: Volunteer, sid: int)
    ensures PositionsOf(init + [last], sid)
            == PositionsOf(init, sid) + (if last.serviceId == sid then {|init|} else {})
  {
    var vs := init + [last];
    forall i: nat
      ensures i in PositionsOf(vs, sid) <==> i in PositionsOf(init, sid) + (if last.serviceId == sid then {|init|} else {})
    {
      if i < |init| {
        assert vs[i] == init[i];
      }
    }
  }

  /** The count is the number of positions holding a volunteer of the service. */
  lemma {:induction false} VolunteerCountIsPositions(vs: seq<Volunteer>, sid: int)
    ensures VolunteerCount(vs, sid) == |PositionsOf(vs, sid)|
    decreases |vs|
  {
    if |vs| == 0 {
      assert PositionsOf(vs, sid) == {};
    } else {
      var init, last := vs[..|vs| - 1], vs[|vs| - 1];
      assert vs == init + [last];
      VolunteerCountIsPositions(init, sid);
      VolunteerCountAppend(init, last, sid);
      PositionsOfAppend(init, last, sid);
      assert |init| !in PositionsOf(init, sid);
    }
  }

}
