/** Sign-ups racing for the last seats: because each POST /api/volunteers counts and inserts in one
    atomic step, a burst of sign-ups for one service is a sequence of steps, and exactly as many
    succeed as there were free seats. */
module Signups {
  import opened Wrappers
  import opened Records
  import opened Server
  import opened Invariants

  function Min(a: int, b: int): int {
    if a <= b then a else b
  }

  /** The sign-ups `names` for service `sid`, served one after another: the final database and
      how many of them succeeded. */
  function SignupRun(db: Db, names: seq<string>, sid: int): (Db, nat)
    decreases |names|
  {
    if |names| == 0 then (db, 0)
    else
      var o := Step(db, AddVolunteer(Some(names[0]), Some(sid)));
      var (d, k) := SignupRun(o.db, names[1..], sid);
      (d, k + if o.response.VolunteerCreated? then 1 else 0)
  }

  /** One sign-up with a non-empty name for an existing service: it succeeds and adds one
      volunteer exactly when a seat is free, and otherwise changes nothing. */
  lemma SignupStep(db: Db, s: Service, name: string)
    requires Valid(db) && s in db.services
    requires VolunteerCount(db.volunteers, s.id) <= Seats(s.capacity)
    requires name != ""
    ensures var o := Step(db, AddVolunteer(Some(name), Some(s.id)));
            && Valid(o.db) && o.db.services == db.services
            && (VolunteerCount(db.volunteers, s.id) < Seats(s.capacity) ==>
                  o.response.VolunteerCreated? && VolunteerCount(o.db.volunteers, s.id) == VolunteerCount(db.volunteers, s.id) + 1)
            && (VolunteerCount(db.volunteers, s.id) >= Seats(s.capacity) ==> !o.response.VolunteerCreated? && o.db == db)
  {
    var o := AddVolunteerStep(db, Some(name), Some(s.id));
    assert Step(db, AddVolunteer(Some(name), Some(s.id))) == o;
    FindServiceUnique(db, s);
    AddVolunteerKeepsValid(db, Some(name), Some(s.id));
    assert HasService(db.services, s.id);
  }

  /** Of N sign-ups for a service with F free seats exactly min(N, F) succeed, and the count
      grows by exactly that many: the count never passes the capacity. */
  lemma {:induction false} SignupsFillFreeSeats(db: Db, s: Service, names: seq<string>)
    requires Valid(db) && s in db.services
    requires VolunteerCount(db.volunteers, s.id) <= Seats(s.capacity)
    requires forall i :: 0 <= i < |names| ==> names[i] != ""
    ensures SignupRun(db, names, s.id).1 == Min(|names|, Seats(s.capacity) - VolunteerCount(db.volunteers, s.id))
    ensures VolunteerCount(SignupRun(db, names, s.id).0.volunteers, s.id)
            == VolunteerCount(db.volunteers, s.id) + SignupRun(db, names, s.id).1
    decreases |names|
  {
    if |names| > 0 {
      var o := Step(db, AddVolunteer(Some(names[0]), Some(s.id)));
      SignupStep(db, s, names[0]);
      SignupsFillFreeSeats(o.db, s, names[1..]);
    }
  }

  /** The scenario of two seats and three near-simultaneous sign-ups: two succeed, one is refused. */
  lemma TwoSeatsThreeSignups()
    ensures var db := Db([Service(1, "2026-03-01", 2, None)], [], 1, 0);
            && SignupRun(db, ["Ana", "Beto", "Caio"], 1).1 == 2
            && VolunteerCount(SignupRun(db, ["Ana", "Beto", "Caio"], 1).0.volunteers, 1) == 2
  {
    var db := Db([Service(1, "2026-03-01", 2, None)], [], 1, 0);
    SignupsFillFreeSeats(db, Service(1, "2026-03-01", 2, None), ["Ana", "Beto", "Caio"]);
  }

  /** Creation accepts any nonzero capacity, negative ones included; such a service is created
      with no volunteers and then refuses every sign-up. */
  lemma NegativeCapacityRefusesSignups(db: Db, date: string, capacity: int, description: Option<string>, name: Option<string>)
    requires Valid(db)
    requires date != [] && capacity < 0 && !HasDate(db.services, date)
    ensures CreateServiceStep(db, Some(date), Some(capacity), description).response.ServiceCreated?
    ensures var o := CreateServiceStep(db, Some(date), Some(capacity), description);
            AddVolunteerStep(o.db, name, Some(o.response.row.id)).db == o.db
  {
    var o := CreateServiceStep(db, Some(date), Some(capacity), description);
    var s := Strip(o.response.row);
    CreateServiceKeepsValid(db, Some(date), Some(capacity), description);
    assert s in o.db.services;
    OverbookedServiceRefusesSignups(o.db, s, name);
  }

  /** Any run of requests without a capacity update keeps every service within its seats. */
  lemma {:induction false} RunKeepsWithinCapacity(db: Db, reqs: seq<Request>)
    requires Valid(db) && WithinCapacity(db)
    requires forall i :: 0 <= i < |reqs| ==> !reqs[i].UpdateCapacity?
    ensures WithinCapacity(Run(db, reqs))
    decreases |reqs|
  {
    if |reqs| > 0 {
      StepKeepsValid(db, reqs[0]);
      StepKeepsWithinCapacity(db, reqs[0]);
      RunKeepsWithinCapacity(Step(db, reqs[0]).db, reqs[1..]);
    }
  }
}
