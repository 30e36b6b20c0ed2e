/** The database as mutable state, and the handlers as methods that change it
    step by step the way the request handlers change the mapped rows. Each
    method is proved to leave exactly the state (and return exactly the
    outcome) of the corresponding function in `Handlers`, and to keep the
    invariant `Models.Valid`. */
module Store {
  import opened Models
  import opened Handlers
  import Invariants

  class Database {
    var hospitals: map<int, Hospital>
    var doctors: map<int, Doctor>
    var users: map<int, User>
    var bookings: seq<Booking>
    var nextHospitalId: int
    var nextUserId: int

    /** The tables as one value. */
    function State(): Db
      reads this
    {
      Db(hospitals, doctors, users, bookings, nextHospitalId, nextUserId)
    }

    constructor (db: Db)
      ensures State() == db
    {
      hospitals, doctors, users, bookings := db.hospitals, db.doctors, db.users, db.bookings;
      nextHospitalId, nextUserId := db.nextHospitalId, db.nextUserId;
    }

    /** Hospital creation: refuse callers that are neither hospital staff nor
        administrators, insert the row with every kind fully available, then
        link a hospital-role creator to it. */
    method CreateHospital(caller: int, form: HospitalForm) returns (result: Result<int>)
      modifies this
      ensures State() == Handlers.CreateHospital(old(State()), caller, form).db
      ensures result == Handlers.CreateHospital(old(State()), caller, form).result
      ensures old(Valid(State())) && TotalsNonNegative(form) ==> Valid(State())
    {
      ghost var before := State();
      if Valid(before) && TotalsNonNegative(form) {
        Invariants.CreateKeepsValid(before, caller, form);
      }
      if caller !in users {
        return Err(LoginRequired);
      }
      var user := users[caller];
      if user.role != HospitalRole && user.role != AdminRole {
        return Err(Unauthorized);
      }
      var id := nextHospitalId;
      nextHospitalId := nextHospitalId + 1;
      hospitals := hospitals[id := NewHospital(form)];
      if user.role == HospitalRole {
        users := users[caller := user.(hospitalId := Some(id))];
      }
      result := Ok(id);
    }

    /** Hospital editing: refuse a hospital-role caller of another hospital,
        then for each bed kind in turn move the available count by the change
        of the total (never below zero) and store the new total. */
    method EditHospital(caller: int, id: int, form: HospitalForm) returns (result: Result<int>)
      modifies this
      ensures State() == Handlers.EditHospital(old(State()), caller, id, form).db
      ensures result == Handlers.EditHospital(old(State()), caller, id, form).result
      ensures old(Valid(State())) && TotalsNonNegative(form) ==> Valid(State())
    {
      ghost var before := State();
      if Valid(before) && TotalsNonNegative(form) {
        Invariants.EditKeepsValid(before, caller, id, form);
      }
      if caller !in users {
        return Err(LoginRequired);
      }
      if id !in hospitals {
        return Err(NotFound);
      }
      var h := hospitals[id];
      var user := users[caller];
      if user.role == HospitalRole && user.hospitalId != Some(id) {
        return Err(Unauthorized);
      }
      var total, available := h.total, h.available;

      var delta := Submitted(form, Icu) - total.Get(Icu);
      total := total.Set(Icu, Submitted(form, Icu));
      available := available.Set(Icu, if available.Get(Icu) + delta > 0 then available.Get(Icu) + delta else 0);

      delta := Submitted(form, Oxygen) - total.Get(Oxygen);
      total := total.Set(Oxygen, Submitted(form, Oxygen));
      available := available.Set(Oxygen, if available.Get(Oxygen) + delta > 0 then available.Get(Oxygen) + delta else 0);

      delta := Submitted(form, Normal) - total.Get(Normal);
      total := total.Set(Normal, Submitted(form, Normal));
      available := available.Set(Normal, if available.Get(Normal) + delta > 0 then available.Get(Normal) + delta else 0);

      delta := Submitted(form, Ventilator) - total.Get(Ventilator);
      total := total.Set(Ventilator, Submitted(form, Ventilator));
      available := available.Set(Ventilator, if available.Get(Ventilator) + delta > 0 then available.Get(Ventilator) + delta else 0);

      hospitals := hospitals[id := Hospital(form.name, form.address, form.city, form.contact, total, available)];
      result := Ok(id);
    }

    /** Booking: check the chosen kind's counter, then the chosen doctor; on
        success append one confirmed booking and take one bed (and one unit of
        the doctor's availability). Nothing changes on a refusal. */
    method Book(caller: int, hid: int, form: BookingForm) returns (result: Result<int>)
      modifies this
      ensures State() == Handlers.Book(old(State()), caller, hid, form).db
      ensures result == Handlers.Book(old(State()), caller, hid, form).result
      ensures old(Valid(State())) ==> Valid(State())
    {
      ghost var before := State();
      if Valid(before) {
        Invariants.BookKeepsValid(before, caller, hid, form);
      }
      if caller !in users {
        return Err(LoginRequired);
      }
      if hid !in hospitals {
        return Err(NotFound);
      }
      var h := hospitals[hid];
      var bedAvailable := h.available.Get(form.bedType);
      if bedAvailable <= 0 {
        return Err(NoBedsAvailable);
      }
      var chosen: Option<int> := None;
      if DoctorChosen(form) {
        var d := form.doctorId.value;
        if d !in doctors || doctors[d].hospitalId != Some(hid) {
          return Err(InvalidDoctor);
        }
        if OrZero(doctors[d].available) <= 0 {
          return Err(DoctorUnavailable);
        }
        chosen := Some(d);
      }
      var b := NewBooking(caller, hid, form);
      hospitals := hospitals[hid := h.(available := h.available.Set(form.bedType, bedAvailable - 1))];
      if chosen.Some? {
        var doctor := doctors[chosen.value];
        doctors := doctors[chosen.value := doctor.(available := Some(OrZero(doctor.available) - 1))];
      }
      bookings := bookings + [b];
      result := Ok(|bookings|);
    }

    /** Registration: refuse an email already in use, otherwise insert the user. */
    method Register(form: RegisterForm, passwordHash: string) returns (result: Result<int>)
      modifies this
      ensures State() == Handlers.Register(old(State()), form, passwordHash).db
      ensures result == Handlers.Register(old(State()), form, passwordHash).result
      ensures old(Valid(State())) ==> Valid(State())
    {
      ghost var before := State();
      if Valid(before) {
        Invariants.RegisterKeepsValid(before, form, passwordHash);
      }
      if exists u :: u in users && users[u].email == form.email {
        return Err(DuplicateEmail);
      }
      var id := nextUserId;
      nextUserId := nextUserId + 1;
      users := users[id := NewUser(form, passwordHash)];
      result := Ok(id);
    }
  }
}
