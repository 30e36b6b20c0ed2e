/** Each handler keeps the database invariant `Models.Valid`: bed counters
    within 0..total, doctor availability non-negative, unique emails, and
    autoincrement counters above every id in use. Creation and editing keep
    it only for forms without negative totals, which the form layer does not
    rule out. */
module Invariants {
  import opened Models
  import opened Handlers

  /** With 0 <= available <= oldTotal and a non-negative new total, the
      adjusted count stays within 0..newTotal. */
  lemma AdjustStaysInRange(available: int, oldTotal: int, newTotal: int)
    requires 0 <= available <= oldTotal && 0 <= newTotal
    ensures 0 <= AdjustAvailable(available, oldTotal, newTotal) <= newTotal
  {
  }

  lemma CreateKeepsValid(db: Db, caller: int, form: HospitalForm)
    requires Valid(db) && TotalsNonNegative(form)
    ensures Valid(CreateHospital(db, caller, form).db)
  {
  }

  lemma EditKeepsValid(db: Db, caller: int, id: int, form: HospitalForm)
    requires Valid(db) && TotalsNonNegative(form)
    ensures Valid(EditHospital(db, caller, id, form).db)
  {
  }

  lemma BookKeepsValid(db: Db, caller: int, hid: int, form: BookingForm)
    requires Valid(db)
    ensures Valid(Book(db, caller, hid, form).db)
  {
  }

  lemma RegisterKeepsValid(db: Db, form: RegisterForm, passwordHash: string)
    requires Valid(db)
    ensures Valid(Register(db, form, passwordHash).db)
  {
  }

  /** Without a lower bound on the form, an authorised creation with a
      negative total stores a negative available count. */
  lemma NegativeTotalGivesNegativeAvailable(db: Db, caller: int, form: HospitalForm, t: BedType)
    requires caller in db.users && db.users[caller].role != PatientRole
    requires Submitted(form, t) < 0
    ensures var r := CreateHospital(db, caller, form);
      r.result.Ok? && r.db.hospitals[r.result.value].available.Get(t) < 0 && !Valid(r.db)
  {
  }
}
