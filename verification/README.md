# Hospital bed booking: inventory and booking bookkeeping

This project models the bookkeeping inside the request handlers of the
hospital bed booking application (`app.py`). Patients register, browse
hospitals and book a bed of one of four kinds (ICU, oxygen, normal,
ventilator), optionally with a doctor. Hospital staff create hospitals and
edit their bed totals.

Without the web framework, the object-relational mapper and the form library,
what is left is a small state machine over integer counters. Its state is the
hospitals, doctors and users tables (keyed by id), the append-only bookings
table, and the autoincrement counters for new hospital and user ids.

- `models.dfy` (`Models`): the rows as datatypes. The four bed kinds are an
  enumerated `BedType`. `PerBed` holds one value per kind and has an explicit
  selector (`Get`/`Set`). The source instead looks up `<kind>_available`
  columns by a name built from a string. The module also defines the invariant
  `Valid`: `0 <= available <= total` for every kind, doctor availability
  never negative, unique emails, and autoincrement counters above every id in
  use.
- `handlers.dfy` (`Handlers`): each handler is a function from the database
  before a request to the database after it, plus an outcome (`Ok(id)` or an
  `Error`). The handlers are hospital creation, hospital editing, booking,
  registration and the availability endpoint. Their contracts state the
  authorisation rules, the error cases, "a refused request changes nothing",
  and exactly what a successful request changes.
- `store.dfy` (`Store.Database`): the database as a class with mutable
  fields. Its methods change the state step by step, the way the handlers
  change the mapped rows. For example, editing adjusts each bed kind in turn,
  and booking writes the chosen kind's counter and then the doctor's.
  Each method is proved to reach exactly the state of the matching function
  and to keep `Valid`.
- `invariants.dfy` (`Invariants`): each handler keeps `Valid`. Creation and
  editing keep it only for forms without negative totals.
- `traces.dfy` (`Traces`): requests handled one after another. Over any
  sequence of requests:
  - validity is preserved;
  - bookings are never removed or changed;
  - a doctor's availability is never restored;
  - between edits of a hospital, each of its available counts goes down by
    exactly the number of bookings of that kind. So the sequential system
    never books more beds than were available.
- `config.dfy` (`Config`): the choice of the database connection string from
  the environment.
- `scenarios.dfy` (`Scenarios`): concrete requests on a small database.

Both the login check and the hospital lookup are modelled as errors, not as
preconditions. A caller id that names no user gets `LoginRequired`, which is
what `@login_required` does. A hospital id that is not in the table gets
`NotFound`, which is what `get_or_404` does. The login check runs first,
because the decorator wraps the handler.

The edit handler refuses only a hospital-role user whose `hospital_id` is
not the hospital's id (`app.py:280`). Patients and administrators are not
refused, and the model does the same (`Handlers.EditHospital`).

## Model

| member | source | states |
|---|---|---|
| `Models.PerBed.Set` | app.py:369-370 | Writing one bed kind's counter sets that kind and leaves the other three kinds as they were. This replaces the attribute lookup by a built name. |
| `Handlers.NewHospital` | app.py:249-262 | A created hospital has, for every kind, total = available = the submitted total. A missing total counts as 0. The name, address, city and contact come from the form. |
| `Handlers.CreateHospital` | app.py:241-273 | The request succeeds exactly when the caller exists and has the role hospital or admin. A patient gets Unauthorized and nothing changes. On success the row is added under the next hospital id, the counter moves on, and a hospital-role creator is linked to the new hospital. Nothing else changes. |
| `Handlers.AdjustAvailable` | app.py:287-289 | The new available count is max(0, available + newTotal - oldTotal): it is never negative, it is at least the delta-adjusted count, and it is either 0 or that count. |
| `Handlers.EditedHospital` | app.py:286-306 | For each kind: total := submitted total (missing gives 0), and available := AdjustAvailable of that same kind's old counters. The result for one kind depends only on that kind. Every available count is >= 0. The text fields come from the form. |
| `Handlers.EditHospital` | app.py:276-312 | A missing caller gets LoginRequired, then a missing hospital gets NotFound. A hospital-role caller succeeds exactly when its hospital_id is this hospital, and otherwise gets Unauthorized. Patients and admins always succeed. A refusal changes nothing. A success changes only this hospital's row, to EditedHospital, and leaves every available count >= 0. |
| `Handlers.Book` | app.py:352-413 | The errors, in order: LoginRequired; NotFound; NoBedsAvailable when the chosen kind's counter is <= 0; with a non-zero doctor id, InvalidDoctor when the doctor is missing or belongs to another hospital; then DoctorUnavailable when the doctor's availability (None counts as 0) is <= 0. Any refusal leaves the database unchanged. A success appends exactly one confirmed booking (caller, hospital, kind, form fields) and lowers only the chosen kind's counter, by 1, which stays >= 0. It lowers the chosen doctor's count by 1 and changes no other row. |
| `Handlers.Register` | app.py:199-214 | The request is refused with DuplicateEmail, and nothing changes, exactly when some user already has the email. Otherwise one user is added under the next user id, with no hospital. |
| `Handlers.Availability` | app.py:333-346 | The result is NotFound exactly when the hospital does not exist. Otherwise it gives the hospital's id, its name and the four available counts. |
| `Invariants.AdjustStaysInRange` | app.py:287-301 | If 0 <= available <= oldTotal and newTotal >= 0, the adjusted count lies within 0..newTotal. |
| `Invariants.CreateKeepsValid` | app.py:249-268 | Creation with non-negative totals keeps the database invariant. |
| `Invariants.EditKeepsValid` | app.py:286-308 | An edit with non-negative totals keeps the database invariant. |
| `Invariants.BookKeepsValid` | app.py:368-408 | Booking keeps the database invariant. |
| `Invariants.RegisterKeepsValid` | app.py:202-211 | Registration keeps the invariant, including unique emails. |
| `Invariants.NegativeTotalGivesNegativeAvailable` | app.py:149-152 | The total fields have no lower bound. An authorised creation with a negative total therefore stores a negative available count and breaks the invariant. |
| `Store.Database.CreateHospital` | app.py:244-268 | The method reaches exactly the state and outcome of `Handlers.CreateHospital`, and keeps `Valid` for non-negative totals. |
| `Store.Database.EditHospital` | app.py:279-308 | The method adjusts each kind in turn and reaches exactly the state and outcome of `Handlers.EditHospital`. It keeps `Valid` for non-negative totals. |
| `Store.Database.Book` | app.py:355-411 | The method reaches exactly the state and outcome of `Handlers.Book`, and keeps `Valid`. |
| `Store.Database.Register` | app.py:202-213 | The method reaches exactly the state and outcome of `Handlers.Register`, and keeps `Valid`. |
| `Config.DatabaseUrl` | app.py:23-36 | The result is never empty. A set, non-empty DATABASE_URL wins. Otherwise, when USE_LOCAL_MYSQL is exactly "1", the result is the composed mysql+mysqlconnector URL from DB_USER, DB_PASS, DB_HOST and DB_NAME, with defaults for unset variables. Otherwise it is the SQLite file URL. |
| `Config.LocalMysqlDefaults` | app.py:27-32 | With only the flag set, the URL is `mysql+mysqlconnector://root:@localhost/covid_beds`. |
| `Config.EmptyUrlIsUnset` | app.py:23-26 | An empty DATABASE_URL selects the same URL as an unset one. |
| `Config.DbVariablesOnlyForLocalMysql` | app.py:26-36 | The DB_* variables affect the result only when no explicit URL is set and the local MySQL flag is on. |
| `Traces.StepKeepsValid` | app.py:241-413 | Any one request without negative totals keeps the database invariant. |
| `Traces.RunKeepsValid` | app.py:241-413 | Any sequence of requests without negative totals keeps the invariant. So 0 <= available <= total holds for every kind after every request. |
| `Traces.RunOnlyAppends` | app.py:390-408 | Over any sequence of requests, the old bookings stay a prefix of the bookings table. No hospital disappears, and the hospital id counter never goes down. |
| `Traces.StepConservesBeds` | app.py:368-408 | A request that does not edit hospital h lowers h's available count of kind t by exactly the number of (h, t) bookings it appends. It leaves h's totals alone. |
| `Traces.RunConservesBeds` | app.py:368-408 | Over a sequence of requests with no edit of h, h's available count of kind t goes down by exactly the number of (h, t) bookings appended, and stays >= 0 if it started so. |
| `Traces.NoOversell` | app.py:369-374 | Between edits of a hospital, the bookings of one kind never outnumber the beds of that kind available at the start. |
| `Traces.RunNeverRestoresDoctors` | app.py:386-405 | No request removes a doctor or raises its availability. |
| `Scenarios.BookingTakesOneIcuBed` | app.py:390-404 | Booking an ICU bed at a hospital with 5 free leaves 4, with one confirmed booking. |
| `Scenarios.NoIcuBedRefused` | app.py:369-374 | Booking an ICU bed when none is free is refused, and no booking is made. |
| `Scenarios.EditLowersIcuTotal` | app.py:287-289 | Editing ICU 5/5 down to a total of 3 leaves 3 available. |
| `Scenarios.DuplicateEmailRefused` | app.py:203-206 | Registering an email already in use is refused, and the users table is unchanged. |
| `Scenarios.MissingHospitalNotFound` | app.py:335-337 | Availability of a missing hospital is NotFound. |

## Left out

- HTTP routing, templates, flash messages and redirects. The GET path of each form handler only renders a page.
- Form validation. Every form reaches the model already validated: the bed kind is one of the four, the role is one of the three, and the required text fields are present. The email format and length checks are not modelled.
- Login and logout. The session is not modelled, and password hashing and checking are foreign library calls. The current user is an explicit caller id, and the password hash is a parameter of registration.
- The listing pages and their case-insensitive city filter, `/ping`, `booking_success`, its ownership check, and `my_bookings`. These are read-only views outside the bookkeeping.
- The doctor choice labels built for the booking form. They are display text only.
- The Waitlist table. No handler writes it.
- Concurrency. Each request is one atomic step. The oversell race that two concurrent bookings could cause is outside a sequential model. Creation commits the hospital and the creator's link in two commits, and the model makes them one step.
- Database ids. New hospital and user ids come from autoincrement counters held in the state, and a booking's id is its position in the append-only table plus one. Database-assigned ids after deletions are not modelled, and no handler deletes rows.
- Integer width. Hospital and doctor counters are unbounded integers in the model. The store keeps them in fixed-width integer columns, so a value outside the column's range would make the commit fail (or be clamped by a lenient MySQL mode); neither the width nor such a failed commit is modelled.
- NULL hospital counters. Every handler writes non-null bed counters, so hospital counters are plain integers. Doctor `available` and `hospital_id` are nullable and are modelled as options.
- The unique constraint on email at the database level and the database's collation (which can make the email comparison case-insensitive). Registration compares emails exactly.
- Timestamps (`created_at`) and the descriptive doctor columns (specialization, photo, experience, age).
- `Invariants.CreateKeepsValid`, `Invariants.EditKeepsValid`, `Traces.RunKeepsValid`: these require non-negative submitted totals, which the form does not enforce. `Invariants.NegativeTotalGivesNegativeAvailable` shows what happens without that requirement.
