/** The request handlers of the application as functions from the database
    before a request to the database after it and the handler's outcome:
    hospital creation and editing, bed booking, registration, and the
    availability endpoint. Form data arrives already validated by the form
    layer; `caller` is the id the session names as the current user. */
module Handlers {
  import opened Models

  /** Why a handler refused a request; every refusal leaves the database as it was. */
  datatype Error =
    | LoginRequired      // the session names no existing user
    | NotFound           // the hospital id in the path does not exist
    | Unauthorized       // the caller's role or hospital does not allow it
    | DuplicateEmail     // registration with an email already in use
    | NoBedsAvailable    // the chosen bed kind has no available bed
    | InvalidDoctor      // the chosen doctor is missing or works elsewhere
    | DoctorUnavailable  // the chosen doctor has no availability left

  datatype Result<T> = Ok(value: T) | Err(error: Error)

  /** The database after a request and the handler's outcome (the id of the
      row it created or edited). */
  datatype Response = Response(db: Db, result: Result<int>)

  /** The hospital form: the four totals are optional integer fields. */
  datatype HospitalForm = HospitalForm(
    name: string,
    address: string,
    city: string,
    contact: string,
    totals: PerBed<Option<int>>)

  /** The booking form; `doctorId` is absent or 0 for "no preference". */
  datatype BookingForm = BookingForm(
    name: string,
    contact: string,
    bedType: BedType,
    doctorId: Option<int>,
    symptoms: string,
    idProof: string)

  datatype RegisterForm = RegisterForm(
    name: string,
    email: string,
    phone: string,
    role: Role)

  /** The total submitted for one bed kind, a missing value read as 0. */
  function Submitted(form: HospitalForm, t: BedType): int {
    OrZero(form.totals.Get(t))
  }

  /** The form gives no bed kind a negative total. The form layer does not
      enforce this; it is what the bed invariant needs. */
  ghost predicate TotalsNonNegative(form: HospitalForm) {
    forall t :: Submitted(form, t) >= 0
  }

  // ---------------------------------------------------------------------------
  // Hospital creation
  // ---------------------------------------------------------------------------

  /** The row a creation inserts: every kind starts fully available. */
  function NewHospital(form: HospitalForm): (h: Hospital)
    ensures forall t :: h.total.Get(t) == Submitted(form, t)
    ensures forall t :: h.available.Get(t) == h.total.Get(t)
    ensures h.name == form.name && h.address == form.address
    ensures h.city == form.city && h.contact == form.contact
  {
    var totals := Tabulate(t => Submitted(form, t));
    Hospital(form.name, form.address, form.city, form.contact, totals, totals)
  }

  /** Only hospital staff and administrators may create a hospital; the new
      row takes the next hospital id, and a hospital-role creator is linked to it. */
  function CreateHospital(db: Db, caller: int, form: HospitalForm): (r: Response)
    ensures r.result.Err? ==> r.db == db
    ensures caller !in db.users ==> r.result == Err(LoginRequired)
    ensures r.result.Ok? <==>
      caller in db.users && (db.users[caller].role == HospitalRole || db.users[caller].role == AdminRole)
    ensures caller in db.users && db.users[caller].role == PatientRole ==> r.result == Err(Unauthorized)
    ensures r.result.Ok? ==>
      var id := db.nextHospitalId;
      && r.result.value == id
      && r.db.hospitals == db.hospitals[id := NewHospital(form)]
      && r.db.nextHospitalId == id + 1
      && r.db.doctors == db.doctors
      && r.db.bookings == db.bookings
      && r.db.nextUserId == db.nextUserId
      && r.db.users.Keys == db.users.Keys
      && (forall u :: u in db.users && u != caller ==> r.db.users[u] == db.users[u])
      && r.db.users[caller] ==
           if db.users[caller].role == HospitalRole
           then db.users[caller].(hospitalId := Some(id))
           else db.users[caller]
  {
    if caller !in db.users then Response(db, Err(LoginRequired))
    else
      var user := db.users[caller];
      if user.role != HospitalRole && user.role != AdminRole then Response(db, Err(Unauthorized))
      else
        var id := db.nextHospitalId;
        var users := if user.role == HospitalRole then db.users[caller := user.(hospitalId := Some(id))] else db.users;
        Response(db.(hospitals := db.hospitals[id := NewHospital(form)], nextHospitalId := id + 1, users := users), Ok(id))
  }

  // ---------------------------------------------------------------------------
  // Hospital editing
  // ---------------------------------------------------------------------------

  /** `max(0, available + (newTotal - oldTotal))`: the available count moves by
      the change of the total, and never below zero. */
  function AdjustAvailable(available: int, oldTotal: int, newTotal: int): (r: int)
    ensures r >= 0
    ensures r >= available + (newTotal - oldTotal)
    ensures r == 0 || r == available + (newTotal - oldTotal)
  {
    var delta := newTotal - oldTotal;
    if available + delta > 0 then available + delta else 0
  }

  /** The row after an edit. Each kind's new counters depend only on that
      kind's old counters and that kind's submitted total. */
  function EditedHospital(h: Hospital, form: HospitalForm): (r: Hospital)
    ensures forall t :: r.total.Get(t) == Submitted(form, t)
    ensures forall t :: r.available.Get(t) == AdjustAvailable(h.available.Get(t), h.total.Get(t), Submitted(form, t))
    ensures forall t :: r.available.Get(t) >= 0
    ensures r.name == form.name && r.address == form.address
    ensures r.city == form.city && r.contact == form.contact
  {
    Hospital(form.name, form.address, form.city, form.contact,
      Tabulate(t => Submitted(form, t)),
      Tabulate(t => AdjustAvailable(h.available.Get(t), h.total.Get(t), Submitted(form, t))))
  }

  /** The only check is that a hospital-role caller edits its own hospital;
      patients and administrators are not refused. */
  function EditHospital(db: Db, caller: int, id: int, form: HospitalForm): (r: Response)
    ensures r.result.Err? ==> r.db == db
    ensures caller !in db.users ==> r.result == Err(LoginRequired)
    ensures caller in db.users && id !in db.hospitals ==> r.result == Err(NotFound)
    ensures caller in db.users && id in db.hospitals && db.users[caller].role != HospitalRole ==> r.result.Ok?
    ensures caller in db.users && id in db.hospitals && db.users[caller].role == HospitalRole ==>
      (r.result.Ok? <==> db.users[caller].hospitalId == Some(id)) &&
      (r.result.Err? ==> r.result.error == Unauthorized)
    ensures r.result.Ok? ==>
      && id in db.hospitals
      && r.result.value == id
      && r.db == db.(hospitals := db.hospitals[id := EditedHospital(db.hospitals[id], form)])
      && (forall t :: r.db.hospitals[id].available.Get(t) >= 0)
  {
    if caller !in db.users then Response(db, Err(LoginRequired))
    else if id !in db.hospitals then Response(db, Err(NotFound))
    else
      var user := db.users[caller];
      if user.role == HospitalRole && user.hospitalId != Some(id) then Response(db, Err(Unauthorized))
      else Response(db.(hospitals := db.hospitals[id := EditedHospital(db.hospitals[id], form)]), Ok(id))
  }

  // ---------------------------------------------------------------------------
  // Booking
  // ---------------------------------------------------------------------------

  /** A doctor is chosen when the field holds a non-zero id. */
  predicate DoctorChosen(form: BookingForm) {
    OrZero(form.doctorId) != 0
  }

  /** The row a successful booking appends. */
  function NewBooking(caller: int, hid: int, form: BookingForm): Booking {
    Booking(caller, hid, form.bedType, Confirmed, form.name, form.contact, form.symptoms, form.idProof)
  }

  /** A guarded transaction: either it is refused and nothing changes, or it
      appends one confirmed booking and takes one bed of the chosen kind (and
      one unit of the chosen doctor's availability). */
  function Book(db: Db, caller: int, hid: int, form: BookingForm): (r: Response)
    ensures r.result.Err? ==> r.db == db
    ensures caller !in db.users ==> r.result == Err(LoginRequired)
    ensures caller in db.users && hid !in db.hospitals ==> r.result == Err(NotFound)
    ensures caller in db.users && hid in db.hospitals && db.hospitals[hid].available.Get(form.bedType) <= 0 ==>
      r.result == Err(NoBedsAvailable)
    ensures (caller in db.users && hid in db.hospitals && db.hospitals[hid].available.Get(form.bedType) > 0 &&
             DoctorChosen(form)) ==>
      var d := form.doctorId.value;
      && (d !in db.doctors || db.doctors[d].hospitalId != Some(hid) ==> r.result == Err(InvalidDoctor))
      && (d in db.doctors && db.doctors[d].hospitalId == Some(hid) && OrZero(db.doctors[d].available) <= 0 ==>
            r.result == Err(DoctorUnavailable))
      && (d in db.doctors && db.doctors[d].hospitalId == Some(hid) && OrZero(db.doctors[d].available) > 0 ==>
            r.result.Ok?)
    ensures (caller in db.users && hid in db.hospitals && db.hospitals[hid].available.Get(form.bedType) > 0 &&
             !DoctorChosen(form)) ==> r.result.Ok?
    ensures r.result.Ok? ==>
      var t := form.bedType;
      && caller in db.users && hid in db.hospitals
      && r.result.value == |db.bookings| + 1
      && r.db.bookings == db.bookings + [NewBooking(caller, hid, form)]
      && r.db.users == db.users
      && r.db.nextHospitalId == db.nextHospitalId && r.db.nextUserId == db.nextUserId
      && r.db.hospitals.Keys == db.hospitals.Keys
      && (forall k :: k in db.hospitals && k != hid ==> r.db.hospitals[k] == db.hospitals[k])
      && r.db.hospitals[hid].(available := db.hospitals[hid].available) == db.hospitals[hid]
      && r.db.hospitals[hid].available.Get(t) == db.hospitals[hid].available.Get(t) - 1
      && r.db.hospitals[hid].available.Get(t) >= 0
      && (forall u :: u != t ==> r.db.hospitals[hid].available.Get(u) == db.hospitals[hid].available.Get(u))
      && r.db.doctors.Keys == db.doctors.Keys
      && (!DoctorChosen(form) ==> r.db.doctors == db.doctors)
      && (DoctorChosen(form) ==>
            var d := form.doctorId.value;
            && d in db.doctors
            && (forall k :: k in db.doctors && k != d ==> r.db.doctors[k] == db.doctors[k])
            && r.db.doctors[d].(available := db.doctors[d].available) == db.doctors[d]
            && r.db.doctors[d].available == Some(OrZero(db.doctors[d].available) - 1)
            && OrZero(r.db.doctors[d].available) >= 0)
  {
    if caller !in db.users then Response(db, Err(LoginRequired))
    else if hid !in db.hospitals then Response(db, Err(NotFound))
    else
      var h := db.hospitals[hid];
      var bedAvailable := h.available.Get(form.bedType);
      if bedAvailable <= 0 then Response(db, Err(NoBedsAvailable))
      else if DoctorChosen(form) && (form.doctorId.value !in db.doctors || db.doctors[form.doctorId.value].hospitalId != Some(hid)) then
        Response(db, Err(InvalidDoctor))
      else if DoctorChosen(form) && OrZero(db.doctors[form.doctorId.value].available) <= 0 then
        Response(db, Err(DoctorUnavailable))
      else
        var hospitals := db.hospitals[hid := h.(available := h.available.Set(form.bedType, bedAvailable - 1))];
        var doctors :=
          if DoctorChosen(form) then
            var d := db.doctors[form.doctorId.value];
            db.doctors[form.doctorId.value := d.(available := Some(OrZero(d.available) - 1))]
          else db.doctors;
        Response(db.(hospitals := hospitals, doctors := doctors, bookings := db.bookings + [NewBooking(caller, hid, form)]),
                 Ok(|db.bookings| + 1))
  }

  // ---------------------------------------------------------------------------
  // Registration
  // ---------------------------------------------------------------------------

  /** The row a registration inserts; it is linked to no hospital. */
  function NewUser(form: RegisterForm, passwordHash: string): User {
    User(form.name, form.email, form.phone, passwordHash, form.role, None)
  }

  /** A new user is added exactly when no user has the submitted email. */
  function Register(db: Db, form: RegisterForm, passwordHash: string): (r: Response)
    ensures r.result.Err? ==> r.db == db && r.result.error == DuplicateEmail
    ensures r.result.Err? <==> exists u :: u in db.users && db.users[u].email == form.email
    ensures r.result.Ok? ==>
      && r.result.value == db.nextUserId
      && r.db == db.(users := db.users[db.nextUserId := NewUser(form, passwordHash)], nextUserId := db.nextUserId + 1)
  {
    if exists u :: u in db.users && db.users[u].email == form.email then Response(db, Err(DuplicateEmail))
    else
      var id := db.nextUserId;
      Response(db.(users := db.users[id := NewUser(form, passwordHash)], nextUserId := id + 1), Ok(id))
  }

  // ---------------------------------------------------------------------------
  // Availability endpoint
  // ---------------------------------------------------------------------------

  /** The JSON object the availability endpoint returns. */
  datatype AvailabilityView = AvailabilityView(id: int, name: string, beds: PerBed<int>)

  /** The available counters of an existing hospital, or NotFound. */
  function Availability(db: Db, id: int): (r: Result<AvailabilityView>)
    ensures r.Ok? <==> id in db.hospitals
    ensures r.Err? ==> r.error == NotFound
    ensures r.Ok? ==>
      && r.value.id == id && r.value.name == db.hospitals[id].name
      && forall t :: r.value.beds.Get(t) == db.hospitals[id].available.Get(t)
  {
    if id !in db.hospitals then Err(NotFound)
    else
      var h := db.hospitals[id];
      Ok(AvailabilityView(id, h.name, h.available))
  }
}
