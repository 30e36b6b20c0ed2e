/** Concrete requests on a small database: a booking that takes an ICU bed,
    one refused for lack of beds, an edit that lowers a total, a duplicate
    registration, and the availability endpoint for a missing hospital. */
module Scenarios {
  import opened Models
  import opened Handlers

  const Patient: User := User("Asha", "asha@example.com", "", "hash", PatientRole, None)

  /** A hospital with `icu` of `icuTotal` ICU beds free and no other beds. */
  function IcuHospital(icuTotal: int, icu: int): Hospital {
    Hospital("City Care", "", "Pune", "", PerBed(icuTotal, 0, 0, 0), PerBed(icu, 0, 0, 0))
  }

  function OneHospital(h: Hospital): Db {
    Db(map[1 := h], map[], map[7 := Patient], [], 2, 8)
  }

  const IcuBooking: BookingForm := BookingForm("Asha", "555", Icu, None, "", "")

  lemma BookingTakesOneIcuBed()
    ensures var r := Book(OneHospital(IcuHospital(5, 5)), 7, 1, IcuBooking);
      && r.result == Ok(1)
      && r.db.hospitals[1].available.Get(Icu) == 4
      && |r.db.bookings| == 1 && r.db.bookings[0].status == Confirmed
  {
  }

  lemma NoIcuBedRefused()
    ensures var r := Book(OneHospital(IcuHospital(5, 0)), 7, 1, IcuBooking);
      r.result == Err(NoBedsAvailable) && r.db.bookings == []
  {
  }

  lemma EditLowersIcuTotal()
    ensures var form := HospitalForm("City Care", "", "Pune", "", PerBed(Some(3), None, None, None));
      var r := EditHospital(OneHospital(IcuHospital(5, 5)), 7, 1, form);
      r.result == Ok(1) && r.db.hospitals[1].available.Get(Icu) == 3 && r.db.hospitals[1].total.Get(Icu) == 3
  {
  }

  lemma DuplicateEmailRefused()
    ensures var r := Register(OneHospital(IcuHospital(5, 5)), RegisterForm("A", "asha@example.com", "", PatientRole), "h");
      r.result == Err(DuplicateEmail) && r.db.users == map[7 := Patient]
  {
    var db := OneHospital(IcuHospital(5, 5));
    assert 7 in db.users && db.users[7].email == "asha@example.com";
  }

  lemma MissingHospitalNotFound()
    ensures Availability(OneHospital(IcuHospital(5, 5)), 999) == Err(NotFound)
  {
  }
}
