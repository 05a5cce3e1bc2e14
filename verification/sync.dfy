/** How a client's view tracks the server: a snapshot makes it agree with the database, and
    each broadcast keeps it in agreement, except that SERVICE_REMOVED does not drop the removed
    service's volunteers from the client's list although the database cascade does. */
module Sync {
  import opened Wrappers
  import opened Seqs
  import opened Records
  import opened Server
  import opened Invariants
  import opened Client
  import opened Signups

  /** The client receiving a step's broadcast, if there was one. */
  function Deliver(view: View, event: Option<Event>): View {
    if event.Some? then Apply(view, event.value) else view
  }

  /** The client holds exactly the database's volunteers (in any order). */
  predicate VolunteersMirror(view: View, db: Db) {
    multiset(view.volunteers) == multiset(db.volunteers)
  }

  /** The client holds exactly the database's services, apart from the `volunteer_count` field,
      which the events never refresh. */
  predicate ServicesMirror(view: View, db: Db) {
    && (forall r :: r in view.services ==> Strip(r) in db.services)
    && (forall s :: s in db.services ==> exists r :: r in view.services && Strip(r) == s)
  }

  /** With the database's volunteers in hand, `getVolunteerCount` agrees with the server's count. */
  lemma MirrorCountsAgree(view: View, db: Db, sid: int)
    requires VolunteersMirror(view, db)
    ensures VolunteerCount(view.volunteers, sid) == VolunteerCount(db.volunteers, sid)
  {
    VolunteerCountSameMultiset(view.volunteers, db.volunteers, sid);
  }

  /** After `fetchData` installs the listing and the volunteers, the view agrees with the database,
      its services are in date order, and every row's `volunteer_count` equals `getVolunteerCount`. */
  lemma SnapshotMirrors(view: View, db: Db)
    ensures var v := Snapshot(view, ListServiceRows(db), db.volunteers);
            && VolunteersMirror(v, db) && ServicesMirror(v, db) && SortedByDate(v.services)
            && forall r :: r in v.services ==> r.volunteerCount == VolunteerCount(v.volunteers, r.id)
  {
    var rows := ListServiceRows(db);
    var v := Snapshot(view, rows, db.volunteers);
    forall s | s in db.services
      ensures exists r :: r in rows && Strip(r) == s
    {
      var r := RowOf(s, VolunteerCount(db.volunteers, s.id));
      assert r in rows && Strip(r) == s;
    }
  }

  /** `fetchData` reads the listing and the volunteers in two requests. A sign-up served between
      them leaves the snapshot's row for that service with a stale `volunteer_count`. */
  lemma SignupBetweenReadsLeavesStaleCount(view: View, db: Db, s: Service, name: string)
    requires Valid(db) && s in db.services && name != ""
    requires VolunteerCount(db.volunteers, s.id) < Seats(s.capacity)
    ensures var later := Step(db, AddVolunteer(Some(name), Some(s.id))).db;
            var v := Snapshot(view, ListServiceRows(db), later.volunteers);
            exists r :: r in v.services && r.volunteerCount != VolunteerCount(v.volunteers, r.id)
  {
    SignupStep(db, s, name);
    var r := RowOf(s, VolunteerCount(db.volunteers, s.id));
    assert r in ListServiceRows(db);
  }

  /** A service created between `fetchData`'s listing and its arrival: the SERVICE_ADDED applied in
      the meantime is overwritten by the older listing, so the view misses a live service. */
  lemma CreationBetweenReadsIsLost(view: View, db: Db, date: Option<string>, capacity: Option<int>,
                                   description: Option<string>)
    requires Valid(db) && TruthyText(date) && TruthyNumber(capacity) && !HasDate(db.services, date.value)
    ensures var o := Step(db, CreateService(date, capacity, description));
            !ServicesMirror(Snapshot(Deliver(view, o.event), ListServiceRows(db), o.db.volunteers), o.db)
  {
    var o := Step(db, CreateService(date, capacity, description));
    assert o == CreateServiceStep(db, date, capacity, description);
    var added := Strip(o.response.row);
    assert added in o.db.services;
    forall r | r in ListServiceRows(db)
      ensures Strip(r) != added
    {
      assert Strip(r) in db.services;
    }
  }

  /** Every volunteer row the server holds has an id no larger than the counter, so the new one is
      unknown to a client that mirrors it. */
  lemma FreshVolunteerUnknown(view: View, db: Db, v: Volunteer)
    requires Valid(db) && VolunteersMirror(view, db)
    requires v.id > db.lastVolunteerId
    ensures !HasVolunteer(view.volunteers, v.id)
  {
    forall w | w in view.volunteers
      ensures w.id != v.id
    {
      assert w in multiset(db.volunteers);
    }
  }

  lemma AddVolunteerKeepsVolunteersMirror(db: Db, view: View, name: Option<string>, serviceId: Option<int>)
    requires Valid(db) && VolunteersMirror(view, db)
    ensures var o := AddVolunteerStep(db, name, serviceId);
            VolunteersMirror(Deliver(view, o.event), o.db)
  {
    var o := AddVolunteerStep(db, name, serviceId);
    if TruthyText(name) && TruthyNumber(serviceId) && HasService(db.services, serviceId.value)
       && VolunteerCount(db.volunteers, serviceId.value) < Find(db.services, ServiceWithId(serviceId.value)).value.capacity
    {
      var v := o.response.volunteer;
      FreshVolunteerUnknown(view, db, v);
      assert Deliver(view, o.event).volunteers == [v] + view.volunteers;
      assert o.db.volunteers == db.volunteers + [v];
    } else {
      assert o.db == db && o.event.None?;
    }
  }

  lemma DeleteVolunteerKeepsVolunteersMirror(db: Db, view: View, id: int)
    requires VolunteersMirror(view, db)
    ensures var o := DeleteVolunteerStep(db, id);
            VolunteersMirror(Deliver(view, o.event), o.db)
  {
    var o := DeleteVolunteerStep(db, id);
    if o.event.Some? {
      assert Deliver(view, o.event).volunteers == Filter(view.volunteers, Not(VolunteerWithId(id)));
      FilterSameMultiset(view.volunteers, db.volunteers, Not(VolunteerWithId(id)));
    }
  }

  lemma DeleteEmptyServiceKeepsVolunteersMirror(db: Db, view: View, id: int)
    requires VolunteersMirror(view, db)
    requires VolunteerCount(db.volunteers, id) == 0
    ensures var o := DeleteServiceStep(db, id);
            VolunteersMirror(Deliver(view, o.event), o.db)
  {
    if HasService(db.services, id) {
      FilterKeepsAll(db.volunteers, Not(OfService(id)));
    }
  }

  /** The volunteer events keep a mirroring client in agreement with the database, for every
      request except the deletion of a service that still has volunteers. */
  lemma VolunteerViewConverges(db: Db, view: View, req: Request)
    requires Valid(db) && VolunteersMirror(view, db)
    requires req.DeleteService? ==> VolunteerCount(db.volunteers, req.id) == 0
    ensures VolunteersMirror(Deliver(view, Step(db, req).event), Step(db, req).db)
  {
    match req
    case ListServices =>
    case ListVolunteers =>
    case CreateService(_, _, _) =>
    case UpdateCapacity(_, _) =>
    case DeleteService(id) => DeleteEmptyServiceKeepsVolunteersMirror(db, view, id);
    case AddVolunteer(name, serviceId) => AddVolunteerKeepsVolunteersMirror(db, view, name, serviceId);
    case DeleteVolunteer(id) => DeleteVolunteerKeepsVolunteersMirror(db, view, id);
  }

  /** The database cascade on service deletion is not mirrored: a client that agreed with the
      database keeps the removed service's volunteers and no longer agrees. */
  lemma CascadeNotMirrored(db: Db, view: View, s: Service)
    requires Valid(db) && VolunteersMirror(view, db)
    requires s in db.services && VolunteerCount(db.volunteers, s.id) > 0
    ensures !VolunteersMirror(Deliver(view, Step(db, DeleteService(s.id)).event), Step(db, DeleteService(s.id)).db)
  {
    var o := Step(db, DeleteService(s.id));
    var after := Deliver(view, o.event);
    assert after.volunteers == view.volunteers;
    VolunteerCountFilter(db.volunteers, Not(OfService(s.id)), s.id);
    assert VolunteerCount(o.db.volunteers, s.id) == 0;
    MirrorCountsAgree(view, db, s.id);
    if VolunteersMirror(after, o.db) {
      MirrorCountsAgree(after, o.db, s.id);
    }
  }

  lemma UpdateCapacityKeepsServicesMirror(db: Db, view: View, id: int, capacity: Option<int>)
    requires ServicesMirror(view, db)
    ensures var o := UpdateCapacityStep(db, id, capacity);
            ServicesMirror(Deliver(view, o.event), o.db)
  {
    var o := UpdateCapacityStep(db, id, capacity);
    if capacity.Some? {
      var client := Deliver(view, o.event).services;
      var server := o.db.services;
      assert client == UpdateServiceLocally(view.services, id, capacity.value);
      forall r' | r' in client
        ensures Strip(r') in server
      {
        var k :| 0 <= k < |client| && client[k] == r';
        var t := Strip(view.services[k]);
        assert t in db.services;
        var i :| 0 <= i < |db.services| && db.services[i] == t;
        assert server[i] == Strip(r');
      }
      forall x | x in server
        ensures exists r :: r in client && Strip(r) == x
      {
        var i :| 0 <= i < |server| && server[i] == x;
        var t := db.services[i];
        assert t in db.services;
        var r :| r in view.services && Strip(r) == t;
        var k :| 0 <= k < |view.services| && view.services[k] == r;
        assert Strip(client[k]) == x;
      }
    }
  }

  lemma CreateServiceKeepsServicesMirror(db: Db, view: View, date: Option<string>, capacity: Option<int>, description: Option<string>)
    requires Valid(db) && ServicesMirror(view, db)
    ensures var o := CreateServiceStep(db, date, capacity, description);
            ServicesMirror(Deliver(view, o.event), o.db)
  {
    var o := CreateServiceStep(db, date, capacity, description);
    if o.response.ServiceCreated? {
      var row := o.response.row;
      var after := Deliver(view, o.event);
      forall r | r in view.services
        ensures r.id != row.id
      {
        assert Strip(r) in db.services;
      }
      assert after.services == AddServiceLocally(view.services, row);
      forall r
        ensures r in after.services <==> r in view.services || r == row
      {
        assert r in after.services <==> r in multiset(after.services);
      }
    }
  }

  lemma DeleteServiceKeepsServicesMirror(db: Db, view: View, id: int)
    requires ServicesMirror(view, db)
    ensures var o := DeleteServiceStep(db, id);
            ServicesMirror(Deliver(view, o.event), o.db)
  {
    var o := DeleteServiceStep(db, id);
    var after := Deliver(view, o.event);
    assert after.services == RemoveServiceLocally(view.services, id);
    forall x | x in o.db.services
      ensures exists r :: r in after.services && Strip(r) == x
    {
      var r :| r in view.services && Strip(r) == x;
      assert r in after.services;
    }
  }

  /** The service events keep a mirroring client in agreement with the database's services
      under every request. */
  lemma ServiceViewConverges(db: Db, view: View, req: Request)
    requires Valid(db) && ServicesMirror(view, db)
    ensures ServicesMirror(Deliver(view, Step(db, req).event), Step(db, req).db)
  {
    match req
    case CreateService(date, capacity, description) =>
      CreateServiceKeepsServicesMirror(db, view, date, capacity, description);
    case DeleteService(id) =>
      DeleteServiceKeepsServicesMirror(db, view, id);
    case UpdateCapacity(id, capacity) =>
      UpdateCapacityKeepsServicesMirror(db, view, id, capacity);
    case _ =>
      var o := Step(db, req);
      assert o.db.services == db.services;
      assert Deliver(view, o.event).services == view.services;
  }

  /** A submission the client guard lets through always carries a name and a service id the
      server accepts as present; whether a seat is left is still decided by the server. */
  lemma GuardedSubmissionHasFields(db: Db, name: string, selected: Option<int>, rows: seq<ServiceRow>)
    requires SubmitGuard(name, selected, rows).Some?
    ensures var sub := SubmitGuard(name, selected, rows).value;
            Step(db, AddVolunteer(Some(sub.name), Some(sub.serviceId))).response != Rejected(MissingNameOrService)
  {
  }
}
