/** What the schema and the handlers of server.ts keep true of the database between requests. */
module Invariants {
  import opened Wrappers
  import opened Seqs
  import opened Records
  import opened Server

  /** The schema's guarantees: unique service ids and dates (`date TEXT NOT NULL UNIQUE`),
      unique volunteer ids, ids handed out by AUTOINCREMENT from 1, and no volunteer whose
      `service_id` names a missing service (the foreign key). */
  predicate Valid(db: Db) {
    && KeysDistinct(db.services, ServiceIdOf)
    && KeysDistinct(db.services, ServiceDateOf)
    && KeysDistinct(db.volunteers, VolunteerIdOf)
    && (forall s :: s in db.services ==> 1 <= s.id <= db.lastServiceId)
    && (forall v :: v in db.volunteers ==> 1 <= v.id <= db.lastVolunteerId)
    && NoOrphans(db)
  }

  /** Every volunteer's `service_id` names a live service. */
  predicate NoOrphans(db: Db) {
    forall v :: v in db.volunteers ==> HasService(db.services, v.serviceId)
  }

  /** No service holds more volunteers than it has seats. */
  predicate WithinCapacity(db: Db) {
    forall s :: s in db.services ==> VolunteerCount(db.volunteers, s.id) <= Seats(s.capacity)
  }

  /** With unique ids the lookup by id finds the one service carrying it. */
  lemma FindServiceUnique(db: Db, s: Service)
    requires KeysDistinct(db.services, ServiceIdOf)
    requires s in db.services
    ensures Find(db.services, ServiceWithId(s.id)) == Some(s)
  {
    var r := Find(db.services, ServiceWithId(s.id));
    var i :| 0 <= i < |db.services| && db.services[i] == r.value;
    var k :| 0 <= k < |db.services| && db.services[k] == s;
    assert ServiceIdOf(db.services[i]) == ServiceIdOf(db.services[k]);
    assert i == k;
  }

  /** Appending a row whose key no earlier row carries keeps keys distinct. */
  lemma AppendKeepsKeysDistinct<T, K>(s: seq<T>, x: T, key: T -> K)
    requires KeysDistinct(s, key)
    requires forall y :: y in s ==> key(y) != key(x)
    ensures KeysDistinct(s + [x], key)
  {
    var t := s + [x];
    forall i, j | 0 <= i < j < |t|
      ensures key(t[i]) != key(t[j])
    {
      if j == |s| {
        assert t[i] in s;
      }
    }
  }

  lemma CreateServiceKeepsValid(db: Db, date: Option<string>, capacity: Option<int>, description: Option<string>)
    requires Valid(db)
    ensures Valid(CreateServiceStep(db, date, capacity, description).db)
  {
    var o := CreateServiceStep(db, date, capacity, description);
    if o.db != db {
      var s := Strip(o.response.row);
      AppendKeepsKeysDistinct(db.services, s, ServiceIdOf);
      AppendKeepsKeysDistinct(db.services, s, ServiceDateOf);
      forall v | v in o.db.volunteers
        ensures HasService(o.db.services, v.serviceId)
      {
        var t :| t in db.services && t.id == v.serviceId;
        assert t in o.db.services;
      }
    }
  }

  lemma DeleteServiceKeepsValid(db: Db, id: int)
    requires Valid(db)
    ensures Valid(DeleteServiceStep(db, id).db)
  {
    var o := DeleteServiceStep(db, id);
    FilterKeepsKeysDistinct(db.services, Not(ServiceWithId(id)), ServiceIdOf);
    FilterKeepsKeysDistinct(db.services, Not(ServiceWithId(id)), ServiceDateOf);
    if HasService(db.services, id) {
      FilterKeepsKeysDistinct(db.volunteers, Not(OfService(id)), VolunteerIdOf);
      forall v | v in o.db.volunteers
        ensures HasService(o.db.services, v.serviceId)
      {
        var t :| t in db.services && t.id == v.serviceId;
        assert t in o.db.services;
      }
    }
  }

  /** Two service lists that agree position by position on ids and dates. */
  predicate SameIdsAndDates(ss: seq<Service>, ss': seq<Service>) {
    && |ss'| == |ss|
    && forall i :: 0 <= i < |ss| ==> ss'[i].id == ss[i].id && ss'[i].date == ss[i].date
  }

  lemma SameIdsAndDatesKeepsKeys(ss: seq<Service>, ss': seq<Service>)
    requires SameIdsAndDates(ss, ss')
    requires KeysDistinct(ss, ServiceIdOf) && KeysDistinct(ss, ServiceDateOf)
    ensures KeysDistinct(ss', ServiceIdOf) && KeysDistinct(ss', ServiceDateOf)
    ensures forall id :: HasService(ss', id) <==> HasService(ss, id)
  {
    forall i, j | 0 <= i < j < |ss'|
      ensures ServiceIdOf(ss'[i]) != ServiceIdOf(ss'[j]) && ServiceDateOf(ss'[i]) != ServiceDateOf(ss'[j])
    {
      assert ServiceIdOf(ss[i]) != ServiceIdOf(ss[j]);
      assert ServiceDateOf(ss[i]) != ServiceDateOf(ss[j]);
    }
    forall id
      ensures HasService(ss', id) <==> HasService(ss, id)
    {
      if HasService(ss', id) {
        var s :| s in ss' && s.id == id;
        var i :| 0 <= i < |ss'| && ss'[i] == s;
        assert ss[i] in ss;
      }
      if HasService(ss, id) {
        var s :| s in ss && s.id == id;
        var i :| 0 <= i < |ss| && ss[i] == s;
        assert ss'[i] in ss';
      }
    }
  }

  lemma UpdateCapacityKeepsValid(db: Db, id: int, capacity: Option<int>)
    requires Valid(db)
    ensures Valid(UpdateCapacityStep(db, id, capacity).db)
  {
    if capacity.Some? {
      var o := UpdateCapacityStep(db, id, capacity);
      assert SameIdsAndDates(db.services, o.db.services);
      SameIdsAndDatesKeepsKeys(db.services, o.db.services);
      forall s | s in o.db.services
        ensures 1 <= s.id <= o.db.lastServiceId
      {
        assert HasService(o.db.services, s.id);
      }
    }
  }

  lemma AddVolunteerKeepsValid(db: Db, name: Option<string>, serviceId: Option<int>)
    requires Valid(db)
    ensures Valid(AddVolunteerStep(db, name, serviceId).db)
  {
    var o := AddVolunteerStep(db, name, serviceId);
    if o.response.VolunteerCreated? {
      var v := o.response.volunteer;
      AppendKeepsKeysDistinct(db.volunteers, v, VolunteerIdOf);
      assert HasService(db.services, v.serviceId);
    }
  }

  lemma DeleteVolunteerKeepsValid(db: Db, id: int)
    requires Valid(db)
    ensures Valid(DeleteVolunteerStep(db, id).db)
  {
    FilterKeepsKeysDistinct(db.volunteers, Not(VolunteerWithId(id)), VolunteerIdOf);
  }

  /** Every request keeps the schema's guarantees: ids and dates stay unique and no volunteer
      is orphaned. */
  lemma StepKeepsValid(db: Db, req: Request)
    requires Valid(db)
    ensures Valid(Step(db, req).db)
  {
    match req
    case ListServices =>
    case CreateService(date, capacity, description) => CreateServiceKeepsValid(db, date, capacity, description);
    case DeleteService(id) => DeleteServiceKeepsValid(db, id);
    case UpdateCapacity(id, capacity) => UpdateCapacityKeepsValid(db, id, capacity);
    case ListVolunteers =>
    case AddVolunteer(name, serviceId) => AddVolunteerKeepsValid(db, name, serviceId);
    case DeleteVolunteer(id) => DeleteVolunteerKeepsValid(db, id);
  }

  /** Every database the server can reach from its empty tables keeps the schema's guarantees. */
  lemma {:induction false} RunKeepsValid(db: Db, reqs: seq<Request>)
    requires Valid(db)
    ensures Valid(Run(db, reqs))
    decreases |reqs|
  {
    if |reqs| > 0 {
      StepKeepsValid(db, reqs[0]);
      RunKeepsValid(Step(db, reqs[0]).db, reqs[1..]);
    }
  }

  lemma ReachableIsValid(reqs: seq<Request>)
    ensures Valid(Run(EmptyDb, reqs))
  {
    RunKeepsValid(EmptyDb, reqs);
  }

  lemma CreateServiceKeepsWithinCapacity(db: Db, date: Option<string>, capacity: Option<int>, description: Option<string>)
    requires Valid(db) && WithinCapacity(db)
    ensures WithinCapacity(CreateServiceStep(db, date, capacity, description).db)
  {
    var o := CreateServiceStep(db, date, capacity, description);
    if o.db != db {
      var newId := o.response.row.id;
      forall v | v in db.volunteers
        ensures v.serviceId != newId
      {
        var t :| t in db.services && t.id == v.serviceId;
      }
      forall s | s in o.db.services
        ensures VolunteerCount(o.db.volunteers, s.id) <= Seats(s.capacity)
      {
        if s !in db.services {
          assert s.id == newId;
        }
      }
    }
  }

  lemma DeleteServiceKeepsWithinCapacity(db: Db, id: int)
    requires WithinCapacity(db)
    ensures WithinCapacity(DeleteServiceStep(db, id).db)
  {
    var o := DeleteServiceStep(db, id);
    if HasService(db.services, id) {
      forall s | s in o.db.services
        ensures VolunteerCount(o.db.volunteers, s.id) <= Seats(s.capacity)
      {
        VolunteerCountFilter(db.volunteers, Not(OfService(id)), s.id);
      }
    }
  }

  lemma AddVolunteerKeepsWithinCapacity(db: Db, name: Option<string>, serviceId: Option<int>)
    requires Valid(db) && WithinCapacity(db)
    ensures WithinCapacity(AddVolunteerStep(db, name, serviceId).db)
  {
    var o := AddVolunteerStep(db, name, serviceId);
    if o.response.VolunteerCreated? {
      var v := o.response.volunteer;
      var target := Find(db.services, ServiceWithId(v.serviceId)).value;
      forall s | s in o.db.services
        ensures VolunteerCount(o.db.volunteers, s.id) <= Seats(s.capacity)
      {
        VolunteerCountAppend(db.volunteers, v, s.id);
        if s.id == v.serviceId {
          FindServiceUnique(db, s);
        }
      }
    }
  }

  lemma DeleteVolunteerKeepsWithinCapacity(db: Db, id: int)
    requires WithinCapacity(db)
    ensures WithinCapacity(DeleteVolunteerStep(db, id).db)
  {
    var o := DeleteVolunteerStep(db, id);
    if o.db != db {
      forall s | s in o.db.services
        ensures VolunteerCount(o.db.volunteers, s.id) <= Seats(s.capacity)
      {
        VolunteerCountFilter(db.volunteers, Not(VolunteerWithId(id)), s.id);
      }
    }
  }

  /** Every request except a capacity update keeps every service within its seats; in particular
      no sign-up ever pushes a count past the capacity. */
  lemma StepKeepsWithinCapacity(db: Db, req: Request)
    requires Valid(db) && WithinCapacity(db)
    requires !req.UpdateCapacity?
    ensures WithinCapacity(Step(db, req).db)
  {
    match req
    case ListServices =>
    case CreateService(date, capacity, description) =>
      assert Step(db, req) == CreateServiceStep(db, date, capacity, description);
      CreateServiceKeepsWithinCapacity(db, date, capacity, description);
    case DeleteService(id) =>
      assert Step(db, req) == DeleteServiceStep(db, id);
      DeleteServiceKeepsWithinCapacity(db, id);
    case ListVolunteers =>
    case AddVolunteer(name, serviceId) =>
      assert Step(db, req) == AddVolunteerStep(db, name, serviceId);
      AddVolunteerKeepsWithinCapacity(db, name, serviceId);
    case DeleteVolunteer(id) =>
      assert Step(db, req) == DeleteVolunteerStep(db, id);
      DeleteVolunteerKeepsWithinCapacity(db, id);
  }

  /** A capacity update keeps every service within its seats when the new capacity still covers
      the service's current volunteers. */
  lemma UpdateCapacityKeepsWithinCapacity(db: Db, id: int, capacity: Option<int>)
    requires WithinCapacity(db)
    requires capacity.Some? ==> VolunteerCount(db.volunteers, id) <= Seats(capacity.value)
    ensures WithinCapacity(UpdateCapacityStep(db, id, capacity).db)
  {
    var o := UpdateCapacityStep(db, id, capacity);
    if capacity.Some? {
      forall s | s in o.db.services
        ensures VolunteerCount(o.db.volunteers, s.id) <= Seats(s.capacity)
      {
        var i :| 0 <= i < |o.db.services| && o.db.services[i] == s;
        assert db.services[i] in db.services;
      }
    }
  }

  /** Lowering a capacity below the current count is accepted and evicts nobody, so the service
      is left over capacity. */
  lemma CapacityReductionOverbooks(db: Db, s: Service, capacity: int)
    requires s in db.services
    requires 0 <= capacity < VolunteerCount(db.volunteers, s.id)
    ensures UpdateCapacityStep(db, s.id, Some(capacity)).response == CapacitySet(s.id, capacity)
    ensures UpdateCapacityStep(db, s.id, Some(capacity)).db.volunteers == db.volunteers
    ensures !WithinCapacity(UpdateCapacityStep(db, s.id, Some(capacity)).db)
  {
    var o := UpdateCapacityStep(db, s.id, Some(capacity));
    var i :| 0 <= i < |db.services| && db.services[i] == s;
    assert o.db.services[i] in o.db.services;
  }

  /** A service over capacity accepts no further sign-up. */
  lemma OverbookedServiceRefusesSignups(db: Db, s: Service, name: Option<string>)
    requires KeysDistinct(db.services, ServiceIdOf)
    requires s in db.services && s.id != 0
    requires VolunteerCount(db.volunteers, s.id) >= s.capacity
    ensures AddVolunteerStep(db, name, Some(s.id)).db == db
    ensures TruthyText(name) ==> AddVolunteerStep(db, name, Some(s.id)).response == Rejected(ServiceFull(VolunteerCount(db.volunteers, s.id), s.capacity))
  {
    FindServiceUnique(db, s);
  }
}
