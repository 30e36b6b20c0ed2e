/** The rows of the hospital bed booking database (the Hospital, User, Doctor and
    Booking tables) and the whole database as one value. */
module Models {

  /** A nullable column or an optional form field. */
  datatype Option<T> = None | Some(value: T)

  /** Python's `x or 0` on a nullable integer: a missing value reads as zero. */
  function OrZero(x: Option<int>): int {
    match x
    case None => 0
    case Some(v) => v
  }

  /** The four bed kinds a hospital tracks independently. */
  datatype BedType = Icu | Oxygen | Normal | Ventilator

  /** One value per bed kind: the `icu_*`, `oxygen_*`, `normal_*` and
      `ventilator_*` column groups, with an explicit selector in place of a
      field name built from a string. */
  datatype PerBed<T> = PerBed(icu: T, oxygen: T, normal: T, ventilator: T) {

    function Get(t: BedType): T {
      match t
      case Icu => icu
      case Oxygen => oxygen
      case Normal => normal
      case Ventilator => ventilator
    }

    /** Replaces the value of one bed kind and keeps the other three. */
    function Set(t: BedType, v: T): (r: PerBed<T>)
      ensures r.Get(t) == v
      ensures forall u :: u != t ==> r.Get(u) == Get(u)
    {
      match t
      case Icu => this.(icu := v)
      case Oxygen => this.(oxygen := v)
      case Normal => this.(normal := v)
      case Ventilator => this.(ventilator := v)
    }
  }

  /** The record whose value for each bed kind is `f` of that kind. */
  function Tabulate<T>(f: BedType -> T): (r: PerBed<T>)
    ensures forall t :: r.Get(t) == f(t)
  {
    PerBed(f(Icu), f(Oxygen), f(Normal), f(Ventilator))
  }

  datatype Role = PatientRole | HospitalRole | AdminRole

  datatype Status = Pending | Confirmed | Cancelled | Discharged

  /** A row of the hospitals table; its id is its key in `Db.hospitals`. */
  datatype Hospital = Hospital(
    name: string,
    address: string,
    city: string,
    contact: string,
    total: PerBed<int>,
    available: PerBed<int>)

  /** A row of the users table; its id is its key in `Db.users`. */
  datatype User = User(
    name: string,
    email: string,
    phone: string,
    passwordHash: string,
    role: Role,
    hospitalId: Option<int>)

  /** A row of the doctors table; both integer columns are nullable. */
  datatype Doctor = Doctor(
    name: string,
    hospitalId: Option<int>,
    available: Option<int>)

  /** A row of the bookings table; its id is its position in `Db.bookings` plus one. */
  datatype Booking = Booking(
    patientId: int,
    hospitalId: int,
    bedType: BedType,
    status: Status,
    name: string,
    contact: string,
    symptoms: string,
    idProof: string)

  /** The database: three tables keyed by id, the append-only bookings table,
      and the autoincrement counters for the two tables the handlers insert into
      by id. */
  datatype Db = Db(
    hospitals: map<int, Hospital>,
    doctors: map<int, Doctor>,
    users: map<int, User>,
    bookings: seq<Booking>,
    nextHospitalId: int,
    nextUserId: int)

  /** The bed invariant of one hospital: for every kind, 0 <= available <= total. */
  ghost predicate BedsConsistent(h: Hospital) {
    forall t :: 0 <= h.available.Get(t) <= h.total.Get(t)
  }

  /** No two users share an email address. */
  ghost predicate UniqueEmails(users: map<int, User>) {
    forall u, v :: u in users && v in users && users[u].email == users[v].email ==> u == v
  }

  /** The invariant the handlers keep: consistent beds in every hospital,
      non-negative doctor availability, unique emails, and autoincrement
      counters above every id in use. */
  ghost predicate Valid(db: Db) {
    && (forall id :: id in db.hospitals ==> BedsConsistent(db.hospitals[id]))
    && (forall id :: id in db.doctors ==> OrZero(db.doctors[id].available) >= 0)
    && UniqueEmails(db.users)
    && (forall id :: id in db.hospitals ==> id < db.nextHospitalId)
    && (forall id :: id in db.users ==> id < db.nextUserId)
  }
}
