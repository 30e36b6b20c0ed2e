/** Sequences of requests handled one after another, and what holds over any
    such sequence: the database invariant, the append-only bookings table,
    and the conservation of each hospital's beds between edits (so that the
    sequential system never books more beds than were available). */
module Traces {
  import opened Models
  import opened Handlers
  import Invariants

  /** One state-changing request. */
  datatype Request =
    | CreateRequest(caller: int, form: HospitalForm)
    | EditRequest(caller: int, id: int, form: HospitalForm)
    | BookRequest(caller: int, hid: int, booking: BookingForm)
    | RegisterRequest(registration: RegisterForm, passwordHash: string)

  /** The database after handling one request, refused or not. */
  function Step(db: Db, req: Request): Db {
    match req
    case CreateRequest(caller, form) => CreateHospital(db, caller, form).db
    case EditRequest(caller, id, form) => EditHospital(db, caller, id, form).db
    case BookRequest(caller, hid, booking) => Book(db, caller, hid, booking).db
    case RegisterRequest(registration, hash) => Register(db, registration, hash).db
  }

  /** The database after handling the requests in order. */
  function Run(db: Db, reqs: seq<Request>): Db
    decreases |reqs|
  {
    if reqs == [] then db else Run(Step(db, reqs[0]), reqs[1..])
  }

  /** No creation or edit in the sequence submits a negative total. */
  ghost predicate FormsNonNegative(reqs: seq<Request>) {
    forall i :: 0 <= i < |reqs| && (reqs[i].CreateRequest? || reqs[i].EditRequest?) ==>
      TotalsNonNegative(reqs[i].form)
  }

  /** No request in the sequence edits hospital `hid`. */
  ghost predicate NoEditOf(reqs: seq<Request>, hid: int) {
    forall i :: 0 <= i < |reqs| ==> !(reqs[i].EditRequest? && reqs[i].id == hid)
  }

  /** The number of bookings of kind `t` at hospital `hid`. */
  function CountBookings(bs: seq<Booking>, hid: int, t: BedType): nat {
    if bs == [] then 0
    else (if bs[0].hospitalId == hid && bs[0].bedType == t then 1 else 0) + CountBookings(bs[1..], hid, t)
  }

  lemma {:induction false} CountBookingsConcat(a: seq<Booking>, b: seq<Booking>, hid: int, t: BedType)
    ensures CountBookings(a + b, hid, t) == CountBookings(a, hid, t) + CountBookings(b, hid, t)
  {
    if a != [] {
      assert (a + b)[1..] == a[1..] + b;
      CountBookingsConcat(a[1..], b, hid, t);
    } else {
      assert a + b == b;
    }
  }

  lemma StepKeepsValid(db: Db, req: Request)
    requires Valid(db)
    requires (req.CreateRequest? || req.EditRequest?) ==> TotalsNonNegative(req.form)
    ensures Valid(Step(db, req))
  {
    match req
    case CreateRequest(caller, form) => Invariants.CreateKeepsValid(db, caller, form);
    case EditRequest(caller, id, form) => Invariants.EditKeepsValid(db, caller, id, form);
    case BookRequest(caller, hid, booking) => Invariants.BookKeepsValid(db, caller, hid, booking);
    case RegisterRequest(registration, hash) => Invariants.RegisterKeepsValid(db, registration, hash);
  }

  /** Every state reached from a valid one by requests without negative
      totals is valid: in particular every available count stays within
      0..total. */
  lemma {:induction false} RunKeepsValid(db: Db, reqs: seq<Request>)
    requires Valid(db) && FormsNonNegative(reqs)
    ensures Valid(Run(db, reqs))
    decreases |reqs|
  {
    if reqs != [] {
      StepKeepsValid(db, reqs[0]);
      assert FormsNonNegative(reqs[1..]) by {
        forall i | 0 <= i < |reqs[1..]| && (reqs[1..][i].CreateRequest? || reqs[1..][i].EditRequest?)
          ensures TotalsNonNegative(reqs[1..][i].form)
        {
          assert reqs[1..][i] == reqs[i + 1];
        }
      }
      RunKeepsValid(Step(db, reqs[0]), reqs[1..]);
    }
  }

  /** Bookings are never removed or changed, hospitals never removed, and
      the hospital autoincrement counter never goes down. */
  lemma {:induction false} RunOnlyAppends(db: Db, reqs: seq<Request>)
    ensures db.bookings <= Run(db, reqs).bookings
    ensures db.hospitals.Keys <= Run(db, reqs).hospitals.Keys
    ensures db.nextHospitalId <= Run(db, reqs).nextHospitalId
    decreases |reqs|
  {
    if reqs != [] {
      RunOnlyAppends(Step(db, reqs[0]), reqs[1..]);
    }
  }

  /** One request changes the available count of kind `t` at `hid` exactly
      by the number of (hid, t) bookings it appends, unless it edits `hid`. */
  lemma StepConservesBeds(db: Db, req: Request, hid: int, t: BedType)
    requires hid in db.hospitals && hid < db.nextHospitalId
    requires !(req.EditRequest? && req.id == hid)
    ensures var next := Step(db, req);
      && hid in next.hospitals
      && db.bookings <= next.bookings
      && db.nextHospitalId <= next.nextHospitalId
      && next.hospitals[hid].total == db.hospitals[hid].total
      && next.hospitals[hid].available.Get(t) + CountBookings(next.bookings[|db.bookings|..], hid, t)
         == db.hospitals[hid].available.Get(t)
      && (db.hospitals[hid].available.Get(t) >= 0 ==> next.hospitals[hid].available.Get(t) >= 0)
  {
    var next := Step(db, req);
    match req
    case CreateRequest(caller, form) =>
      assert next.bookings[|db.bookings|..] == [];
    case EditRequest(caller, id, form) =>
      assert next.bookings[|db.bookings|..] == [];
    case RegisterRequest(registration, hash) =>
      assert next.bookings[|db.bookings|..] == [];
    case BookRequest(caller, h, booking) =>
      var r := Book(db, caller, h, booking);
      if r.result.Ok? {
        assert next.bookings[|db.bookings|..] == [NewBooking(caller, h, booking)];
        assert [NewBooking(caller, h, booking)][1..] == [];
      } else {
        assert next.bookings[|db.bookings|..] == [];
      }
  }

  /** Between edits of hospital `hid`, its available count of kind `t` goes
      down by exactly the number of (hid, t) bookings made, and stays
      non-negative if it started so. */
  lemma {:induction false} RunConservesBeds(db: Db, reqs: seq<Request>, hid: int, t: BedType)
    requires hid in db.hospitals && hid < db.nextHospitalId
    requires NoEditOf(reqs, hid)
    ensures var after := Run(db, reqs);
      && hid in after.hospitals
      && db.bookings <= after.bookings
      && after.hospitals[hid].total == db.hospitals[hid].total
      && after.hospitals[hid].available.Get(t) + CountBookings(after.bookings[|db.bookings|..], hid, t)
         == db.hospitals[hid].available.Get(t)
      && (db.hospitals[hid].available.Get(t) >= 0 ==> after.hospitals[hid].available.Get(t) >= 0)
    decreases |reqs|
  {
    if reqs != [] {
      var mid := Step(db, reqs[0]);
      StepConservesBeds(db, reqs[0], hid, t);
      assert NoEditOf(reqs[1..], hid) by {
        forall i | 0 <= i < |reqs[1..]| ensures !(reqs[1..][i].EditRequest? && reqs[1..][i].id == hid) {
          assert reqs[1..][i] == reqs[i + 1];
        }
      }
      RunConservesBeds(mid, reqs[1..], hid, t);
      var after := Run(mid, reqs[1..]);
      assert after.bookings[|db.bookings|..] ==
             mid.bookings[|db.bookings|..] + after.bookings[|mid.bookings|..];
      CountBookingsConcat(mid.bookings[|db.bookings|..], after.bookings[|mid.bookings|..], hid, t);
    } else {
      assert db.bookings[|db.bookings|..] == [];
    }
  }

  /** The sequential system never oversells: between edits of a hospital,
      the bookings made for one of its bed kinds never exceed the beds of
      that kind that were available at the start. */
  lemma NoOversell(db: Db, reqs: seq<Request>, hid: int, t: BedType)
    requires hid in db.hospitals && hid < db.nextHospitalId
    requires NoEditOf(reqs, hid)
    requires db.hospitals[hid].available.Get(t) >= 0
    ensures |db.bookings| <= |Run(db, reqs).bookings|
    ensures CountBookings(Run(db, reqs).bookings[|db.bookings|..], hid, t) <= db.hospitals[hid].available.Get(t)
  {
    RunConservesBeds(db, reqs, hid, t);
  }

  /** A doctor's availability is only ever taken, never restored: no
      request removes a doctor or raises its count. */
  lemma {:induction false} RunNeverRestoresDoctors(db: Db, reqs: seq<Request>, d: int)
    requires d in db.doctors
    ensures d in Run(db, reqs).doctors
    ensures OrZero(Run(db, reqs).doctors[d].available) <= OrZero(db.doctors[d].available)
    decreases |reqs|
  {
    if reqs != [] {
      RunNeverRestoresDoctors(Step(db, reqs[0]), reqs[1..], d);
    }
  }
}
