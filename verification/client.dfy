/** The client's local view (src/App.tsx): the `socket.onmessage` reducer over the local
    `services` and `volunteers` lists, the snapshot `fetchData` installs, the per-service count,
    and the guard in front of a sign-up. The selection is an explicit part of the view. */
module Client {
  import opened Wrappers
  import opened Seqs
  import opened Strings
  import opened Records

  /** `services`, `volunteers` and `selectedServiceId`. */
  datatype View = View(services: seq<ServiceRow>, volunteers: seq<Volunteer>, selected: Option<int>)

  /** The body of the sign-up POST the guard lets through. */
  datatype Submission = Submission(name: string, serviceId: int)

  predicate HasVolunteer(vs: seq<Volunteer>, id: int) {
    exists v :: v in vs && v.id == id
  }

  predicate HasRow(rows: seq<ServiceRow>, id: int) {
    exists r :: r in rows && r.id == id
  }

  /** JavaScript truthiness of the selection: null and 0 are falsy. */
  predicate Selected(sel: Option<int>) {
    sel.Some? && sel.value != 0
  }

  /** VOLUNTEER_ADDED: prepend the volunteer unless one with its id is already present. */
  function AddVolunteerLocally(vs: seq<Volunteer>, v: Volunteer): (r: seq<Volunteer>)
    ensures HasVolunteer(r, v.id)
    ensures HasVolunteer(vs, v.id) ==> r == vs
    ensures !HasVolunteer(vs, v.id) ==> r[0] == v && r[1..] == vs
    ensures multiset(r) == multiset(vs) + if HasVolunteer(vs, v.id) then multiset{} else multiset{v}
  {
    if Find(vs, VolunteerWithId(v.id)).Some? then vs else [v] + vs
  }

  /** VOLUNTEER_REMOVED: drop every volunteer with the id. */
  function RemoveVolunteerLocally(vs: seq<Volunteer>, id: int): (r: seq<Volunteer>)
    ensures !HasVolunteer(r, id)
    ensures forall v :: v in r <==> v in vs && v.id != id
    ensures !HasVolunteer(vs, id) ==> r == vs
  {
    var r := Filter(vs, Not(VolunteerWithId(id)));
    assert !HasVolunteer(vs, id) ==> r == vs by {
      if !HasVolunteer(vs, id) {
        FilterKeepsAll(vs, Not(VolunteerWithId(id)));
      }
    }
    r
  }

  /** SERVICE_ADDED: unless a service with its id is present, append it and sort by date. */
  function AddServiceLocally(rows: seq<ServiceRow>, row: ServiceRow): (r: seq<ServiceRow>)
    ensures HasRow(r, row.id)
    ensures HasRow(rows, row.id) ==> r == rows
    ensures !HasRow(rows, row.id) ==> SortedByDate(r) && multiset(r) == multiset(rows) + multiset{row}
  {
    if Find(rows, RowWithId(row.id)).Some? then rows
    else
      var r := SortByDate(rows + [row]);
      assert row in multiset(r);
      r
  }

  /** The row with capacity `capacity` when it is the one with `id`, and untouched otherwise. */
  function RowCapacity(id: int, capacity: int): ServiceRow -> ServiceRow {
    (r: ServiceRow) => if r.id == id then r.(capacity := capacity) else r
  }

  /** SERVICE_UPDATED: set the capacity of the matching service, touching nothing else. */
  function UpdateServiceLocally(rows: seq<ServiceRow>, id: int, capacity: int): (r: seq<ServiceRow>)
    ensures |r| == |rows|
    ensures forall i :: 0 <= i < |rows| ==>
              && r[i].id == rows[i].id && r[i].date == rows[i].date
              && r[i].description == rows[i].description && r[i].volunteerCount == rows[i].volunteerCount
              && r[i].capacity == (if rows[i].id == id then capacity else rows[i].capacity)
    ensures !HasRow(rows, id) ==> r == rows
  {
    var r := Map(rows, RowCapacity(id, capacity));
    assert !HasRow(rows, id) ==> r == rows;
    r
  }

  /** SERVICE_REMOVED, on the services list: drop every service with the id. */
  function RemoveServiceLocally(rows: seq<ServiceRow>, id: int): (r: seq<ServiceRow>)
    ensures !HasRow(r, id)
    ensures forall x :: x in r <==> x in rows && x.id != id
    ensures !HasRow(rows, id) ==> r == rows
  {
    var r := Filter(rows, Not(RowWithId(id)));
    assert !HasRow(rows, id) ==> r == rows by {
      if !HasRow(rows, id) {
        FilterKeepsAll(rows, Not(RowWithId(id)));
      }
    }
    r
  }

  /** The reducer: one change event applied to the view. Volunteer events touch only the
      volunteers, service events only the services; only SERVICE_REMOVED of the selected
      service touches the selection, and it clears it. */
  function Apply(view: View, e: Event): (r: View)
    ensures e.VolunteerAdded? || e.VolunteerRemoved? ==> r.services == view.services
    ensures e.ServiceAdded? || e.ServiceUpdated? || e.ServiceRemoved? ==> r.volunteers == view.volunteers
    ensures r.selected == if e.ServiceRemoved? && view.selected == Some(e.id) then None else view.selected
  {
    match e
    case VolunteerAdded(v) => view.(volunteers := AddVolunteerLocally(view.volunteers, v))
    case VolunteerRemoved(id, _) => view.(volunteers := RemoveVolunteerLocally(view.volunteers, id))
    case ServiceAdded(row) => view.(services := AddServiceLocally(view.services, row))
    case ServiceUpdated(id, capacity) => view.(services := UpdateServiceLocally(view.services, id, capacity))
    case ServiceRemoved(id) =>
      View(RemoveServiceLocally(view.services, id), view.volunteers, if view.selected == Some(id) then None else view.selected)
  }

  /** `fetchData`: both lists replaced wholesale, and the first service selected when nothing is. */
  function Snapshot(view: View, rows: seq<ServiceRow>, volunteers: seq<Volunteer>): (r: View)
    ensures r.services == rows && r.volunteers == volunteers
    ensures |rows| > 0 && !Selected(view.selected) ==> r.selected == Some(rows[0].id)
    ensures |rows| == 0 || Selected(view.selected) ==> r.selected == view.selected
  {
    View(rows, volunteers, if |rows| > 0 && !Selected(view.selected) then Some(rows[0].id) else view.selected)
  }

  /** Position `i` holds the first listed service with id `sid`. */
  ghost predicate FirstRowAt(rows: seq<ServiceRow>, i: int, sid: int) {
    0 <= i < |rows| && rows[i].id == sid && forall j :: 0 <= j < i ==> rows[j].id != sid
  }

  /** The first listed service with id `sid` shows no free seat. */
  ghost predicate ShowsFull(rows: seq<ServiceRow>, sid: int) {
    exists i :: FirstRowAt(rows, i, sid) && rows[i].volunteerCount >= rows[i].capacity
  }

  /** `services.find(s => s.id === id)` picks the row at the first position with that id. */
  lemma FindRowShowsFull(rows: seq<ServiceRow>, sid: int)
    ensures var found := Find(rows, RowWithId(sid));
            found.Some? && found.value.volunteerCount >= found.value.capacity <==> ShowsFull(rows, sid)
  {
    var found := Find(rows, RowWithId(sid));
    if found.Some? {
      var i :| FirstMatchAt(rows, i, RowWithId(sid)) && rows[i] == found.value;
      assert FirstRowAt(rows, i, sid);
      forall k | FirstRowAt(rows, k, sid)
        ensures k == i
      {
        assert RowWithId(sid)(rows[k]) && rows[i].id == sid;
      }
    } else {
      forall i | 0 <= i < |rows|
        ensures rows[i].id != sid
      {
        assert rows[i] in rows;
      }
    }
  }

  /** `handleVolunteerSubmit`'s guard: nothing is sent for a blank name, without a selection, or
      when the first listed service with the selected id shows `volunteer_count >= capacity`;
      otherwise the untrimmed name is sent for the selected service. */
  function SubmitGuard(name: string, selected: Option<int>, rows: seq<ServiceRow>): (r: Option<Submission>)
    ensures r.Some? <==>
              && (exists i :: 0 <= i < |name| && !IsWhitespace(name[i]))
              && Selected(selected)
              && !ShowsFull(rows, selected.value)
    ensures r.Some? ==> r.value == Submission(name, selected.value) && name != []
  {
    if Trim(name) == [] || !Selected(selected) then None
    else
      var sid := selected.value;
      var found := Find(rows, RowWithId(sid));
      FindRowShowsFull(rows, sid);
      if found.Some? && found.value.volunteerCount >= found.value.capacity then None
      else Some(Submission(name, sid))
  }

  /** Every event is safe to deliver twice: applying it again changes nothing. */
  lemma ApplyIdempotent(view: View, e: Event)
    ensures Apply(Apply(view, e), e) == Apply(view, e)
  {
    match e
    case VolunteerAdded(v) =>
    case VolunteerRemoved(id, _) =>
    case ServiceAdded(row) =>
    case ServiceUpdated(id, capacity) =>
      var once := UpdateServiceLocally(view.services, id, capacity);
      assert UpdateServiceLocally(once, id, capacity) == once;
    case ServiceRemoved(id) =>
  }

  /** A VOLUNTEER_ADDED delivered twice for a volunteer the view did not have leaves exactly one
      copy of it. */
  lemma DuplicateDeliveryKeepsOneCopy(view: View, v: Volunteer)
    requires !HasVolunteer(view.volunteers, v.id)
    ensures multiset(Apply(Apply(view, VolunteerAdded(v)), VolunteerAdded(v)).volunteers)[v] == 1
  {
    ApplyIdempotent(view, VolunteerAdded(v));
    assert v !in view.volunteers;
  }

  /** VOLUNTEER_REMOVED keeps the relative order of the volunteers it keeps: removing from a
      concatenation removes from each part. */
  lemma RemoveVolunteerKeepsOrder(a: seq<Volunteer>, b: seq<Volunteer>, id: int)
    ensures RemoveVolunteerLocally(a + b, id) == RemoveVolunteerLocally(a, id) + RemoveVolunteerLocally(b, id)
  {
    FilterConcat(a, b, Not(VolunteerWithId(id)));
  }

  /** SERVICE_REMOVED keeps the relative order of the services it keeps. */
  lemma RemoveServiceKeepsOrder(a: seq<ServiceRow>, b: seq<ServiceRow>, id: int)
    ensures RemoveServiceLocally(a + b, id) == RemoveServiceLocally(a, id) + RemoveServiceLocally(b, id)
  {
    FilterConcat(a, b, Not(RowWithId(id)));
  }

  /** A date-ordered service list stays date-ordered under every event. */
  lemma ApplyKeepsServicesSorted(view: View, e: Event)
    requires SortedByDate(view.services)
    ensures SortedByDate(Apply(view, e).services)
  {
    match e
    case ServiceRemoved(id) => FilterKeepsSorted(view.services, Not(RowWithId(id)));
    case ServiceUpdated(id, capacity) =>
    case VolunteerAdded(_) =>
    case VolunteerRemoved(_, _) =>
    case ServiceAdded(_) =>
  }

  /** The local volunteers never hold two records with the same id. */
  lemma ApplyKeepsVolunteerIdsUnique(view: View, e: Event)
    requires KeysDistinct(view.volunteers, VolunteerIdOf)
    ensures KeysDistinct(Apply(view, e).volunteers, VolunteerIdOf)
  {
    match e
    case VolunteerAdded(v) =>
      if !HasVolunteer(view.volunteers, v.id) {
        var r := Apply(view, e).volunteers;
        forall i, j | 0 <= i < j < |r|
          ensures VolunteerIdOf(r[i]) != VolunteerIdOf(r[j])
        {
          if i == 0 {
            assert r[j] in view.volunteers;
          } else {
            assert r[i] == view.volunteers[i - 1] && r[j] == view.volunteers[j - 1];
          }
        }
      }
    case VolunteerRemoved(id, _) => FilterKeepsKeysDistinct(view.volunteers, Not(VolunteerWithId(id)), VolunteerIdOf);
    case ServiceAdded(_) =>
    case ServiceUpdated(_, _) =>
    case ServiceRemoved(_) =>
  }

  /** `getVolunteerCount` follows the volunteer events: a new volunteer adds one to its service,
      and a removal takes away every local record with the id. */
  lemma LocalCountFollowsEvents(view: View, e: Event, sid: int)
    requires KeysDistinct(view.volunteers, VolunteerIdOf)
    ensures e.VolunteerAdded? && !HasVolunteer(view.volunteers, e.volunteer.id) ==>
              VolunteerCount(Apply(view, e).volunteers, sid)
              == VolunteerCount(view.volunteers, sid) + (if e.volunteer.serviceId == sid then 1 else 0)
    ensures e.VolunteerRemoved? ==>
              VolunteerCount(Apply(view, e).volunteers, sid)
              == VolunteerCount(view.volunteers, sid)
                 - (if HoldsSignup(view.volunteers, e.id, sid) then 1 else 0)
    ensures !e.VolunteerAdded? && !e.VolunteerRemoved? ==>
              VolunteerCount(Apply(view, e).volunteers, sid) == VolunteerCount(view.volunteers, sid)
  {
    match e
    case VolunteerAdded(v) =>
      if !HasVolunteer(view.volunteers, v.id) {
        VolunteerCountPrepend(v, view.volunteers, sid);
      }
    case VolunteerRemoved(id, _) =>
      var vs := view.volunteers;
      VolunteerCountRemoveUnique(vs, id, sid);
    case ServiceAdded(_) =>
    case ServiceUpdated(_, _) =>
    case ServiceRemoved(_) =>
  }

  /** Volunteer events about different volunteers commute: whichever order they arrive in, the
      client ends with the same volunteers. */
  lemma VolunteerEventsCommute(view: View, e1: Event, e2: Event)
    requires e1.VolunteerAdded? || e1.VolunteerRemoved?
    requires e2.VolunteerAdded? || e2.VolunteerRemoved?
    requires (if e1.VolunteerAdded? then e1.volunteer.id else e1.id) != (if e2.VolunteerAdded? then e2.volunteer.id else e2.id)
    ensures multiset(Apply(Apply(view, e1), e2).volunteers) == multiset(Apply(Apply(view, e2), e1).volunteers)
  {
    var vs := view.volunteers;
    if e1.VolunteerRemoved? && e2.VolunteerRemoved? {
      RemovalsCommute(vs, e1.id, e2.id);
    } else if e1.VolunteerAdded? && e2.VolunteerAdded? {
      AdditionsCommute(vs, e1.volunteer, e2.volunteer);
    } else if e1.VolunteerAdded? {
      RemoveAfterAdd(vs, e1.volunteer, e2.id);
    } else {
      RemoveAfterAdd(vs, e2.volunteer, e1.id);
    }
  }

  /** Two removals give the same list in either order. */
  lemma {:induction false} RemovalsCommute(vs: seq<Volunteer>, id1: int, id2: int)
    ensures RemoveVolunteerLocally(RemoveVolunteerLocally(vs, id1), id2) == RemoveVolunteerLocally(RemoveVolunteerLocally(vs, id2), id1)
    decreases |vs|
  {
    if |vs| > 0 {
      RemovalsCommute(vs[1..], id1, id2);
    }
  }

  /** Two additions of different volunteers give the same volunteers in either order. */
  lemma AdditionsCommute(vs: seq<Volunteer>, v1: Volunteer, v2: Volunteer)
    requires v1.id != v2.id
    ensures multiset(AddVolunteerLocally(AddVolunteerLocally(vs, v1), v2)) == multiset(AddVolunteerLocally(AddVolunteerLocally(vs, v2), v1))
  {
    var a1 := AddVolunteerLocally(vs, v1);
    var a2 := AddVolunteerLocally(vs, v2);
    assert HasVolunteer(a1, v2.id) == HasVolunteer(vs, v2.id);
    assert HasVolunteer(a2, v1.id) == HasVolunteer(vs, v1.id);
  }

  /** Adding one volunteer and removing another give the same list in either order. */
  lemma RemoveAfterAdd(vs: seq<Volunteer>, v: Volunteer, id: int)
    requires v.id != id
    ensures RemoveVolunteerLocally(AddVolunteerLocally(vs, v), id) == AddVolunteerLocally(RemoveVolunteerLocally(vs, id), v)
  {
    var removed := RemoveVolunteerLocally(vs, id);
    assert HasVolunteer(removed, v.id) == HasVolunteer(vs, v.id);
    if !HasVolunteer(vs, v.id) {
      FilterConcat([v], vs, Not(VolunteerWithId(id)));
    }
  }
}
