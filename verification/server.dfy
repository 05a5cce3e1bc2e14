/** The reservation engine: the Express route handlers of server.ts over the two SQLite tables.
    Every handler runs its reads and writes synchronously on Node's single thread, so each
    request is one atomic step from a database to a database, a response and at most one
    broadcast event. */
module Server {
  import opened Wrappers
  import opened Seqs
  import opened Records

  /** Both tables, plus SQLite's AUTOINCREMENT counters: the largest rowid each table ever handed out. */
  datatype Db = Db(services: seq<Service>, volunteers: seq<Volunteer>, lastServiceId: nat, lastVolunteerId: nat)

  const EmptyDb := Db([], [], 0, 0)

  /** The HTTP requests, with each body field absent (None) when the JSON omits it. */
  datatype Request =
    | ListServices                                                                        // GET /api/services
    | CreateService(date: Option<string>, capacity: Option<int>, description: Option<string>)  // POST /api/services
    | DeleteService(id: int)                                                              // DELETE /api/services/:id
    | UpdateCapacity(id: int, capacity: Option<int>)                                      // PATCH /api/services/:id
    | ListVolunteers                                                                      // GET /api/volunteers
    | AddVolunteer(name: Option<string>, serviceId: Option<int>)                          // POST /api/volunteers
    | DeleteVolunteer(id: int)                                                            // DELETE /api/volunteers/:id

  datatype Error =
    | MissingDateOrCapacity
    | DuplicateDate
    | MissingCapacity
    | MissingNameOrService
    | ServiceNotFound
    | ServiceFull(count: nat, capacity: int)

  datatype Response =
    | ServiceList(rows: seq<ServiceRow>)
    | VolunteerList(volunteers: seq<Volunteer>)
    | ServiceCreated(row: ServiceRow)
    | CapacitySet(id: int, capacity: int)
    | VolunteerCreated(volunteer: Volunteer)
    | NoContent
    | Rejected(error: Error)

  /** The HTTP status each response is sent with. */
  function StatusCode(r: Response): int {
    match r
    case ServiceList(_) => 200
    case VolunteerList(_) => 200
    case ServiceCreated(_) => 201
    case CapacitySet(_, _) => 200
    case VolunteerCreated(_) => 201
    case NoContent => 204
    case Rejected(ServiceNotFound) => 404
    case Rejected(_) => 400
  }

  /** What one request does: the new database, the response, and the broadcast (if any). */
  datatype Outcome = Outcome(db: Db, response: Response, event: Option<Event>)

  /** JavaScript truthiness of a body field: absent and empty text are falsy. */
  predicate TruthyText(f: Option<string>) {
    f.Some? && f.value != ""
  }

  /** JavaScript truthiness of a body field: absent and zero are falsy. */
  predicate TruthyNumber(f: Option<int>) {
    f.Some? && f.value != 0
  }

  predicate HasDate(ss: seq<Service>, date: string) {
    exists s :: s in ss && s.date == date
  }

  predicate HasService(ss: seq<Service>, id: int) {
    exists s :: s in ss && s.id == id
  }

  /** The seats a capacity offers: a capacity below zero offers none. */
  function Seats(capacity: int): nat {
    if capacity < 0 then 0 else capacity
  }

  /** A service row carrying its live volunteer count. */
  function WithCount(vs: seq<Volunteer>): Service -> ServiceRow {
    (s: Service) => RowOf(s, VolunteerCount(vs, s.id))
  }

  /** GET /api/services: every service with its `volunteer_count`, ordered by date. */
  function ListServiceRows(db: Db): (rows: seq<ServiceRow>)
    ensures SortedByDate(rows)
    ensures |rows| == |db.services|
    ensures forall r :: r in rows ==> Strip(r) in db.services && r.volunteerCount == VolunteerCount(db.volunteers, r.id)
    ensures forall s :: s in db.services ==> RowOf(s, VolunteerCount(db.volunteers, s.id)) in rows
    ensures multiset(rows) == multiset(Map(db.services, WithCount(db.volunteers)))
  {
    var unsorted := Map(db.services, WithCount(db.volunteers));
    var rows := SortByDate(unsorted);
    assert forall r :: r in rows <==> r in unsorted by {
      forall r ensures r in rows <==> r in unsorted {
        assert r in rows <==> r in multiset(rows);
      }
    }
    assert forall s :: s in db.services ==> RowOf(s, VolunteerCount(db.volunteers, s.id)) in unsorted by {
      forall s | s in db.services
        ensures RowOf(s, VolunteerCount(db.volunteers, s.id)) in unsorted
      {
        var i :| 0 <= i < |db.services| && db.services[i] == s;
        assert unsorted[i] == RowOf(s, VolunteerCount(db.volunteers, s.id));
      }
    }
    assert forall r :: r in unsorted ==> Strip(r) in db.services && r.volunteerCount == VolunteerCount(db.volunteers, r.id) by {
      forall r | r in unsorted
        ensures Strip(r) in db.services && r.volunteerCount == VolunteerCount(db.volunteers, r.id)
      {
        var i :| 0 <= i < |unsorted| && unsorted[i] == r;
        assert Strip(r) == db.services[i];
      }
    }
    rows
  }

  /** With unique dates, `ORDER BY s.date ASC` fixes the listing completely: every date-ordered
      arrangement of the rows is the listing itself. */
  lemma ListingOrderDetermined(db: Db, rows: seq<ServiceRow>)
    requires KeysDistinct(db.services, ServiceDateOf)
    requires SortedByDate(rows) && multiset(rows) == multiset(Map(db.services, WithCount(db.volunteers)))
    ensures rows == ListServiceRows(db)
  {
    var unsorted := Map(db.services, WithCount(db.volunteers));
    var listing := ListServiceRows(db);
    forall i, j | 0 <= i < |listing| && 0 <= j < |listing| && listing[i].date == listing[j].date
      ensures listing[i] == listing[j]
    {
      assert listing[i] in multiset(unsorted) && listing[j] in multiset(unsorted);
      var p :| 0 <= p < |unsorted| && unsorted[p] == listing[i];
      var q :| 0 <= q < |unsorted| && unsorted[q] == listing[j];
      assert ServiceDateOf(db.services[p]) == ServiceDateOf(db.services[q]);
      assert p == q;
    }
    SortedByDateUnique(listing, rows);
  }

  /** POST /api/services. */
  function CreateServiceStep(db: Db, date: Option<string>, capacity: Option<int>, description: Option<string>): (o: Outcome)
    ensures !TruthyText(date) || !TruthyNumber(capacity) ==> o == Outcome(db, Rejected(MissingDateOrCapacity), None)
    ensures TruthyText(date) && TruthyNumber(capacity) && HasDate(db.services, date.value) ==>
              o == Outcome(db, Rejected(DuplicateDate), None)
    ensures TruthyText(date) && TruthyNumber(capacity) && !HasDate(db.services, date.value) ==>
              && o.response.ServiceCreated?
              && var row := o.response.row;
              && row.id == db.lastServiceId + 1 && row.date == date.value && row.capacity == capacity.value
              && row.description == description && row.volunteerCount == 0
              && o.db.services == db.services + [Strip(row)] && o.db.lastServiceId == row.id
              && o.db.volunteers == db.volunteers && o.db.lastVolunteerId == db.lastVolunteerId
              && o.event == Some(ServiceAdded(row))
  {
    if !TruthyText(date) || !TruthyNumber(capacity) then
      Outcome(db, Rejected(MissingDateOrCapacity), None)
    else if HasDate(db.services, date.value) then
      Outcome(db, Rejected(DuplicateDate), None)
    else
      var s := Service(db.lastServiceId + 1, date.value, capacity.value, description);
      var row := RowOf(s, 0);
      Outcome(db.(services := db.services + [s], lastServiceId := s.id), ServiceCreated(row), Some(ServiceAdded(row)))
  }

  /** DELETE /api/services/:id: the foreign key's ON DELETE CASCADE removes the service's volunteers. */
  function DeleteServiceStep(db: Db, id: int): (o: Outcome)
    ensures o.response == NoContent && o.event == Some(ServiceRemoved(id))
    ensures o.db.services == Filter(db.services, Not(ServiceWithId(id)))
    ensures forall s :: s in o.db.services <==> s in db.services && s.id != id
    ensures HasService(db.services, id) ==> o.db.volunteers == Filter(db.volunteers, Not(OfService(id)))
    ensures HasService(db.services, id) ==>
              forall v :: v in o.db.volunteers <==> v in db.volunteers && v.serviceId != id
    ensures !HasService(db.services, id) ==> o.db == db
    ensures o.db.lastServiceId == db.lastServiceId && o.db.lastVolunteerId == db.lastVolunteerId
  {
    var deleted := HasService(db.services, id);
    var services := Filter(db.services, Not(ServiceWithId(id)));
    var volunteers := if deleted then Filter(db.volunteers, Not(OfService(id))) else db.volunteers;
    assert !deleted ==> services == db.services by {
      if !deleted {
        FilterKeepsAll(db.services, Not(ServiceWithId(id)));
      }
    }
    Outcome(db.(services := services, volunteers := volunteers), NoContent, Some(ServiceRemoved(id)))
  }

  /** The service with capacity `capacity` when it is the one with `id`, and untouched otherwise. */
  function SetCapacity(id: int, capacity: int): Service -> Service {
    (s: Service) => if s.id == id then s.(capacity := capacity) else s
  }

  /** PATCH /api/services/:id: no check that the service exists, and no eviction when the new
      capacity is below the current count. */
  function UpdateCapacityStep(db: Db, id: int, capacity: Option<int>): (o: Outcome)
    ensures capacity.None? ==> o == Outcome(db, Rejected(MissingCapacity), None)
    ensures capacity.Some? ==>
              && o.response == CapacitySet(id, capacity.value)
              && o.event == Some(ServiceUpdated(id, capacity.value))
              && |o.db.services| == |db.services|
              && (forall i :: 0 <= i < |db.services| ==>
                    && o.db.services[i].id == db.services[i].id
                    && o.db.services[i].date == db.services[i].date
                    && o.db.services[i].description == db.services[i].description
                    && o.db.services[i].capacity == (if db.services[i].id == id then capacity.value else db.services[i].capacity))
              && o.db.volunteers == db.volunteers
              && o.db.lastServiceId == db.lastServiceId && o.db.lastVolunteerId == db.lastVolunteerId
    ensures !HasService(db.services, id) ==> o.db == db
  {
    if capacity.None? then
      Outcome(db, Rejected(MissingCapacity), None)
    else
      var services := Map(db.services, SetCapacity(id, capacity.value));
      assert !HasService(db.services, id) ==> services == db.services;
      Outcome(db.(services := services), CapacitySet(id, capacity.value), Some(ServiceUpdated(id, capacity.value)))
  }

  /** POST /api/volunteers: count, look up the service, compare, insert, with nothing in between. */
  function AddVolunteerStep(db: Db, name: Option<string>, serviceId: Option<int>): (o: Outcome)
    ensures !TruthyText(name) || !TruthyNumber(serviceId) ==> o == Outcome(db, Rejected(MissingNameOrService), None)
    ensures TruthyText(name) && TruthyNumber(serviceId) && !HasService(db.services, serviceId.value) ==>
              o == Outcome(db, Rejected(ServiceNotFound), None)
    ensures TruthyText(name) && TruthyNumber(serviceId) && HasService(db.services, serviceId.value) ==>
              var s := Find(db.services, ServiceWithId(serviceId.value)).value;
              var count := VolunteerCount(db.volunteers, serviceId.value);
              && (count >= s.capacity ==> o == Outcome(db, Rejected(ServiceFull(count, s.capacity)), None))
              && (count < s.capacity ==>
                    && o.response.VolunteerCreated?
                    && var v := o.response.volunteer;
                    && v.id == db.lastVolunteerId + 1 && v.name == name.value && v.serviceId == serviceId.value
                    && o.db.volunteers == db.volunteers + [v] && o.db.lastVolunteerId == v.id
                    && o.db.services == db.services && o.db.lastServiceId == db.lastServiceId
                    && VolunteerCount(o.db.volunteers, v.serviceId) == count + 1 <= s.capacity
                    && o.event == Some(VolunteerAdded(v)))
  {
    if !TruthyText(name) || !TruthyNumber(serviceId) then
      Outcome(db, Rejected(MissingNameOrService), None)
    else
      var sid := serviceId.value;
      var count := VolunteerCount(db.volunteers, sid);
      match Find(db.services, ServiceWithId(sid))
      case None => Outcome(db, Rejected(ServiceNotFound), None)
      case Some(s) =>
        if count >= s.capacity then
          Outcome(db, Rejected(ServiceFull(count, s.capacity)), None)
        else
          var v := Volunteer(db.lastVolunteerId + 1, name.value, sid);
          VolunteerCountAppend(db.volunteers, v, sid);
          Outcome(db.(volunteers := db.volunteers + [v], lastVolunteerId := v.id), VolunteerCreated(v), Some(VolunteerAdded(v)))
  }

  /** DELETE /api/volunteers/:id: answers 204 whether or not the volunteer exists, and broadcasts
      only when it did. */
  function DeleteVolunteerStep(db: Db, id: int): (o: Outcome)
    ensures o.response == NoContent
    ensures Find(db.volunteers, VolunteerWithId(id)).None? ==> o.db == db && o.event.None?
    ensures Find(db.volunteers, VolunteerWithId(id)).Some? ==>
              && o.event == Some(VolunteerRemoved(id, Find(db.volunteers, VolunteerWithId(id)).value.serviceId))
              && o.db.volunteers == Filter(db.volunteers, Not(VolunteerWithId(id)))
              && (forall v :: v in o.db.volunteers <==> v in db.volunteers && v.id != id)
              && o.db.services == db.services
              && o.db.lastServiceId == db.lastServiceId && o.db.lastVolunteerId == db.lastVolunteerId
  {
    match Find(db.volunteers, VolunteerWithId(id))
    case None => Outcome(db, NoContent, None)
    case Some(v) =>
      var volunteers := Filter(db.volunteers, Not(VolunteerWithId(id)));
      Outcome(db.(volunteers := volunteers), NoContent, Some(VolunteerRemoved(id, v.serviceId)))
  }

  /** One request, run to completion. A rejection leaves the database as it was and broadcasts
      nothing; every broadcast accompanies a success. */
  function Step(db: Db, req: Request): (o: Outcome)
    ensures o.response.Rejected? ==> o.db == db && o.event.None?
    ensures o.event.Some? ==> !o.response.Rejected?
    ensures req.ListServices? || req.ListVolunteers? ==> o.db == db && o.event.None?
    ensures req.AddVolunteer? || req.DeleteVolunteer? ==>
              o.db.services == db.services && (o.event.None? || o.event.value.VolunteerAdded? || o.event.value.VolunteerRemoved?)
    ensures req.CreateService? || req.UpdateCapacity? ==>
              o.db.volunteers == db.volunteers && (o.event.None? || o.event.value.ServiceAdded? || o.event.value.ServiceUpdated?)
  {
    match req
    case ListServices => Outcome(db, ServiceList(ListServiceRows(db)), None)
    case CreateService(date, capacity, description) => CreateServiceStep(db, date, capacity, description)
    case DeleteService(id) => DeleteServiceStep(db, id)
    case UpdateCapacity(id, capacity) => UpdateCapacityStep(db, id, capacity)
    case ListVolunteers => Outcome(db, VolunteerList(db.volunteers), None)
    case AddVolunteer(name, serviceId) => AddVolunteerStep(db, name, serviceId)
    case DeleteVolunteer(id) => DeleteVolunteerStep(db, id)
  }

  /** The status a request is answered with: an error status exactly for a rejection, which
      changes nothing; 404 only for a sign-up naming an unknown service; 201 exactly for a
      creation or sign-up that took effect; 204 exactly for the two deletions. */
  lemma StepStatus(db: Db, req: Request)
    ensures var o := Step(db, req);
            && (StatusCode(o.response) >= 400 <==> o.response.Rejected?)
            && (StatusCode(o.response) >= 400 ==> o.db == db && o.event.None?)
            && (StatusCode(o.response) == 404 <==> req.AddVolunteer? && o.response == Rejected(ServiceNotFound))
            && (StatusCode(o.response) == 201 <==> (req.CreateService? || req.AddVolunteer?) && o.event.Some?)
            && (StatusCode(o.response) == 204 <==> req.DeleteService? || req.DeleteVolunteer?)
            && (StatusCode(o.response) == 200 <==> req.ListServices? || req.ListVolunteers? || (req.UpdateCapacity? && req.capacity.Some?))
  {
  }

  /** The requests run one after another. */
  function Run(db: Db, reqs: seq<Request>): Db
    decreases |reqs|
  {
    if |reqs| == 0 then db else Run(Step(db, reqs[0]).db, reqs[1..])
  }
}
