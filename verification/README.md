# NITA-HealthCare appointments, modelled in Dafny

This project models the appointment engine of the NITA-HealthCare back end and the two pages that
display its records.

- **Booking.** A patient books an appointment. The booking form must carry ten fields. The doctor is
  looked up in the user directory by trimmed, case-insensitive first and last name plus the exact
  department. No match is a 404, two or more matches are a "Doctors Conflict" 400, and exactly one
  match creates a Pending record. The record has no time yet.
- **Updates and deletion.** An administrator updates the status and/or the time of an appointment,
  writing only the fields the request sends non-empty. The administrator can also delete it for good.
- **Listing and statistics.** The patient lists their own appointments, newest first. The dashboard
  counts appointments by status and by day, and describes how long ago the latest booking was made.
- **The patient page.** It colours the status, renders a stored `HH:MM` time in 12-hour form, and
  decides whether to show a time badge and what the "Appointment Time" cell says.
- **The admin dashboard.** After a successful update request it patches its local copy of the list,
  keyed by id. It shows the time sentinel as an empty time input and the status as one of three CSS
  classes.

## Layout

| file | module | contents |
|---|---|---|
| `wrappers.dfy` | `Wrappers` | `Option` and `Result` |
| `js_text.dfy` | `JsText` | the JavaScript string and number behaviour the code relies on: `trim`, ASCII case folding (the `i` regular-expression flag), `parseInt` without a radix, the truncating `%`, and integer-to-text |
| `appointment_controller.dfy` | `AppointmentController` | records, the booking check and doctor resolution, the partial update and deletion as functions, the per-patient listing, the dashboard statistics, and the class `AppointmentStore` whose methods change the collection |
| `my_appointments.dfy` | `MyAppointmentsPage` | `getStatusColor`, `split(':')`, `formatTime`, the badge and the time cell |
| `admin_dashboard.dfy` | `AdminDashboard` | the id-keyed list updates, the two update handlers, the time-input value and the status class |

### Modelling choices

- **The store.** The appointment collection is `AppointmentStore.records`, a sequence in insertion
  order. Ids come from a counter (`nextId`) that stands for MongoDB's `ObjectId`. `Valid()` keeps the
  ids unique and already handed out, and keeps every status inside the schema's enum.
- **Schema facts taken as assumptions.** The schema file `backend/models/appointmentSchema.js` is not
  part of this model. Three of its facts are assumed:
  - a new record's status is `Pending`;
  - a new record's time is the sentinel `"Not scheduled yet"`;
  - the status enum is `Pending`, `Accepted` and `Rejected`.

  An update with a status outside the enum fails validation (`runValidators`) and changes nothing.
- **Missing and empty fields.** In request bodies, `""` stands for a field that is either missing or
  empty. Both are falsy, so the code treats them alike. The doctor's two names are an exception: they
  are `Option`s, because a missing name makes `trim()` throw. That failure is modelled as
  `Uncaught("TypeError")`, and the store is left unchanged.
- **Times and the user directory.** Timestamps are integer milliseconds. The current time and the
  bounds of the current local day are parameters. The user directory is a sequence of `User` records.
- **The doctor-name match.** The query builds an anchored regular expression with the `i` flag from
  the trimmed name. It is modelled as equality after ASCII lower-casing (`EqualIgnoringCase`).
- **`formatTime`.** It follows the code step by step:
  - `split(':')` as `SplitColons`;
  - `parseInt` with its leading white space, sign, `0x` prefix and NaN (`None`);
  - JavaScript's `%`, which takes the sign of the dividend;
  - `|| 12` for a zero or NaN hour;
  - the text `undefined` when the time has no `:`.

## Model

| member | source | states |
|---|---|---|
| `JsText.TrimStart` | backend/controller/appointmentController.js:39-40 | the result is no longer than the input and does not start with white space |
| `JsText.TrimEnd` | backend/controller/appointmentController.js:39-40 | the result is no longer than the input and does not end with white space |
| `JsText.TrimStartDropsOnlySpace` | backend/controller/appointmentController.js:39-40 | `TrimStart` keeps a suffix of the input and removes only white space in front of it |
| `JsText.TrimEndDropsOnlySpace` | backend/controller/appointmentController.js:39-40 | `TrimEnd` keeps a prefix of the input and removes only white space after it |
| `JsText.Trim` | backend/controller/appointmentController.js:39-40 | `trim()` keeps the part of the text between removed leading and trailing white space, and that part neither starts nor ends with white space |
| `JsText.TrimIgnoresPadding` | backend/controller/appointmentController.js:39-40 | any white space added around a text trims away: `Trim(pre + s + post) == Trim(s)` |
| `JsText.LowerChar` | backend/controller/appointmentController.js:39-40 | the case-insensitive flag turns an ASCII capital into the letter 32 code points higher and leaves every other character unchanged; the result is never an ASCII capital |
| `JsText.Lower` | backend/controller/appointmentController.js:39-40 | lower-casing keeps the length and folds each character independently |
| `JsText.NatToString` | backend/controller/appointmentController.js:177-179 | the text of a count is non-empty, all decimal digits, with no leading zero |
| `JsText.IntToString` | frontend/src/Pages/MyAppointments.jsx:66 | the text of an integer starts with '-' exactly when it is negative |
| `JsText.ParseInt` | frontend/src/Pages/MyAppointments.jsx:63 | a blank text is NaN; a number is read only from a non-blank text, and a negative one only after a leading '-' |
| `JsText.NatToStringValue` | backend/controller/appointmentController.js:177-179 | the digits written for a count denote that count |
| `JsText.ParseIntRoundTrip` | frontend/src/Pages/MyAppointments.jsx:63 | `parseInt` reads back the text of any integer as that integer |
| `JsText.DigitRun` | frontend/src/Pages/MyAppointments.jsx:63 | `parseInt` reads the longest leading run of digits and stops at the first non-digit |
| `JsText.DigitRunAll` | frontend/src/Pages/MyAppointments.jsx:63 | a text made only of digits is read to its end |
| `JsText.ParseUnsignedOfDecimal` | frontend/src/Pages/MyAppointments.jsx:63 | the unsigned part of `parseInt` inverts the decimal text of a count |
| `JsText.JsRemainder` | frontend/src/Pages/MyAppointments.jsx:65 | JavaScript's `%` differs from the dividend by a multiple of `n`, lies strictly between `-n` and `n`, and takes the dividend's sign: the mathematical remainder on non-negative numbers, never positive on negative ones |
| `AppointmentController.FormComplete` | backend/controller/appointmentController.js:22-37 | the form is complete exactly when none of the ten required fields is empty |
| `AppointmentController.DoctorNotFound` | backend/controller/appointmentController.js:53-55 | the empty-match error is a 404 whose message starts with `Doctor "` and ends with the requested department and " department" |
| `AppointmentController.IsRequestedDoctor` | backend/controller/appointmentController.js:38-43 | a matching entry is a Doctor of the requested department whose names have the lengths of the trimmed requested names; an entry whose names equal the trimmed request exactly always matches |
| `AppointmentController.FormCompleteIgnoresDoctor` | backend/controller/appointmentController.js:22-37 | the form is incomplete exactly when one of the ten required fields is falsy; the doctor's names and `hasVisited` play no part |
| `AppointmentController.MatchingDoctors` | backend/controller/appointmentController.js:38-43 | the query returns exactly the directory entries with role Doctor, the exact department, and first and last names equal to the trimmed request up to case |
| `AppointmentController.ResolveDoctor` | backend/controller/appointmentController.js:53-65 | resolution fails only with the "not found" 404 or the "Doctors Conflict" 400 |
| `AppointmentController.TwoMatchesCount` | backend/controller/appointmentController.js:57-64 | the query returns more than one entry exactly when two different entries match |
| `AppointmentController.TwoMatchesWithHead` | backend/controller/appointmentController.js:57-64 | when the first entry matches, a second match exists exactly when the rest yields one |
| `AppointmentController.TwoMatchesWithoutHead` | backend/controller/appointmentController.js:57-64 | an entry that does not match does not change whether two entries match |
| `AppointmentController.ResolveDoctorOutcomes` | backend/controller/appointmentController.js:38-65 | "not found" exactly when no entry matches; "conflict" exactly when two match; the only match binds its id; and a bound id is always that of the only match |
| `AppointmentController.MatchingDependsOnFoldedNames` | backend/controller/appointmentController.js:38-43 | two requests with the same department and the same trimmed, lower-cased names select the same entries |
| `AppointmentController.ResolveIgnoresPadding` | backend/controller/appointmentController.js:38-64 | white space typed around the names changes neither the doctor found nor the error, message included |
| `AppointmentController.ResolveIgnoresCase` | backend/controller/appointmentController.js:38-64 | names that differ only in case bind the same doctor and conflict alike |
| `AppointmentController.ResolvePaddedLowerCaseName` | backend/controller/appointmentController.js:38-65 | `" jane "` / `"DOE"` in Cardiology binds Jane Doe and passes over John Roe |
| `AppointmentController.ResolveDepartmentIsExact` | backend/controller/appointmentController.js:42-55 | the department is compared exactly: "cardiology" does not find a Cardiology doctor (404) |
| `AppointmentController.ResolveSameNameConflict` | backend/controller/appointmentController.js:57-64 | two doctors with the same name in one department give the conflict error |
| `AppointmentController.AppointmentStore.Post` | backend/controller/appointmentController.js:22-85 | an incomplete form is the 400 "Please Fill Full Form!"; a missing doctor name throws; a resolution error is passed on; all three leave the store unchanged; otherwise exactly one record is appended: fresh id, patient fields verbatim, untrimmed doctor names, the matched doctor's id, the caller's id, unscheduled, Pending, stamped `now` |
| `AppointmentController.AppointmentStore.FindById` | backend/controller/appointmentController.js:112-113 | the position of the record with that id, or none exactly when no record carries it |
| `AppointmentController.ApplyUpdate` | backend/controller/appointmentController.js:117-126 | only a non-empty status and a non-empty time are written; every other field of the record is unchanged |
| `AppointmentController.UpdateIdempotent` | backend/controller/appointmentController.js:117-126 | applying the same update twice leaves the record as applying it once |
| `AppointmentController.UpdatesIndependent` | backend/controller/appointmentController.js:118-120 | a time-only update keeps the status and a status-only update keeps the time; the two applied in either order equal the combined update |
| `AppointmentController.UpdateById` | backend/controller/appointmentController.js:122-126 | the collection keeps its length; only the records with that id change, each by the update |
| `AppointmentController.AppointmentStore.Update` | backend/controller/appointmentController.js:109-133 | unknown id: 404 "Appointment not found!"; a status outside the enum fails validation; each error leaves the store unchanged; otherwise the store becomes `UpdateById(old, id, u)` and the updated record is returned |
| `AppointmentController.WithoutId` | backend/controller/appointmentController.js:140 | a record remains exactly when it was there and carries another id |
| `AppointmentController.RemoveAtIsWithoutId` | backend/controller/appointmentController.js:136-140 | with unique ids, deleting the record found by id removes that record alone, and the collection shrinks by one |
| `AppointmentController.WithoutIdAppend` | backend/controller/appointmentController.js:140 | removing an id from two collections joined is removing it from each |
| `AppointmentController.OthersKeepTheirIds` | backend/controller/appointmentController.js:136-140 | with unique ids, the records around the deleted one carry other ids |
| `AppointmentController.RemoveAtKeepsUniqueIds` | backend/controller/appointmentController.js:136-140 | deleting a record keeps the ids unique and adds no record |
| `AppointmentController.WithoutAbsent` | backend/controller/appointmentController.js:136-140 | removing an id no record carries changes nothing |
| `AppointmentController.AppointmentStore.Delete` | backend/controller/appointmentController.js:134-145 | unknown id: 404 "Appointment Not Found!" and nothing changes; otherwise exactly that record is removed, and afterwards no record carries the id |
| `AppointmentController.OwnedBy` | backend/controller/appointmentController.js:103 | the filter keeps every record of the patient as often as it occurs, and no other record |
| `AppointmentController.InsertNewestFirst` | backend/controller/appointmentController.js:103 | inserting into a newest-first list keeps it newest first and adds exactly that record |
| `AppointmentController.NewestFirstTail` | backend/controller/appointmentController.js:103 | a newest-first list is bounded by its head and its tail is newest first |
| `AppointmentController.NewestFirstCons` | backend/controller/appointmentController.js:103 | a record at least as new as the head of a newest-first list can go in front of it |
| `AppointmentController.SortNewestFirst` | backend/controller/appointmentController.js:103 | the sort yields a permutation of its input, ordered by `createdAt` descending |
| `AppointmentController.PatientAppointments` | backend/controller/appointmentController.js:101-108 | the listing holds exactly the caller's records, each as often as stored, newest first |
| `AppointmentController.CountStatus` | backend/controller/appointmentController.js:154-156 | the count is zero exactly when no record has the status, and the total exactly when every record has it |
| `AppointmentController.CountRole` | backend/controller/appointmentController.js:150-151 | the count never exceeds the directory, and is zero exactly when no user has the role |
| `AppointmentController.CountRoleAppend` | backend/controller/appointmentController.js:150-151 | a new user raises the count of their own role by one and no other; with the empty directory counting zero, this fixes the count as the number of users with the role |
| `AppointmentController.CountCreatedIn` | backend/controller/appointmentController.js:163-165 | the "today" count is zero exactly when no record was created in `[startOfDay, endOfDay)` |
| `AppointmentController.CountCreatedInSplits` | backend/controller/appointmentController.js:163-165 | adjacent half-open intervals count every record once: the counts of `[a,b)` and `[b,c)` add up to that of `[a,c)` |
| `AppointmentController.CountCreatedInAppend` | backend/controller/appointmentController.js:163-165 | a new record raises the "today" count by one exactly when `startOfDay <= createdAt < endOfDay`; with the empty collection counting zero, this fixes the count as the number of records created that day |
| `AppointmentController.CountStatusAppend` | backend/controller/appointmentController.js:154-156 | a new record raises the count of its own status by one and no other |
| `AppointmentController.RecentActivity` | backend/controller/appointmentController.js:167-182 | the line is "No recent activity" exactly when there is no appointment, and otherwise starts with "New appointment " |
| `AppointmentController.StatusCountsPartition` | backend/controller/appointmentController.js:149-156 | pending + accepted + rejected never exceeds the total, and equals it when every status is in the enum |
| `AppointmentController.LatestCreatedAt` | backend/controller/appointmentController.js:168 | the newest record's timestamp is the largest `createdAt`, and there is none exactly when the collection is empty |
| `AppointmentController.RecentActivityBands` | backend/controller/appointmentController.js:169-182 | under a minute (or a negative difference): "just now"; under an hour: whole minutes (1..59), plural from two; otherwise whole hours, plural from two |
| `AppointmentController.NinetySecondsIsOneMinute` | backend/controller/appointmentController.js:169-182 | 90000 ms after the latest booking the line reads "New appointment 1 minute ago"; with no appointment it reads "No recent activity" |
| `AppointmentController.Stats` | backend/controller/appointmentController.js:147-197 | each field is the matching count of the collection or the directory (total, doctors, patients, the three statuses, today) and the activity line of the newest `createdAt`; the three status counts never exceed the total and equal it when every status is in the enum; the activity line is "No recent activity" exactly when there are no appointments |
| `MyAppointmentsPage.StatusColor` | frontend/src/Pages/MyAppointments.jsx:36-47 | Pending orange, Accepted green, Rejected red, each in both directions, and grey exactly for a status outside the enum |
| `MyAppointmentsPage.HasTime` | frontend/src/Pages/MyAppointments.jsx:58 | a stored time counts as present exactly when it is neither empty nor the placeholder "Not scheduled yet" |
| `MyAppointmentsPage.BeforeColon` | frontend/src/Pages/MyAppointments.jsx:62 | the first piece of the split is the prefix before the first ':', which it does not contain |
| `MyAppointmentsPage.SplitColons` | frontend/src/Pages/MyAppointments.jsx:62 | `split(':')` yields at least one piece and no piece contains ':' |
| `MyAppointmentsPage.JoinSplitColons` | frontend/src/Pages/MyAppointments.jsx:62 | joining the pieces with ':' gives the string back |
| `MyAppointmentsPage.SplitJoinColons` | frontend/src/Pages/MyAppointments.jsx:62 | pieces without ':' split back out of their join |
| `MyAppointmentsPage.BeforeColonWithoutColon` | frontend/src/Pages/MyAppointments.jsx:62 | a text without ':' is its own first piece |
| `MyAppointmentsPage.BeforeColonStopsAtColon` | frontend/src/Pages/MyAppointments.jsx:62 | the first piece ends at the first ':' |
| `MyAppointmentsPage.Meridiem` | frontend/src/Pages/MyAppointments.jsx:64 | PM exactly when the parsed hour is a number of at least 12; a NaN hour is AM |
| `MyAppointmentsPage.DisplayHour` | frontend/src/Pages/MyAppointments.jsx:65 | NaN shows 12; a non-negative hour shows a value in 1..12 congruent to it modulo 12; a negative one keeps its sign or shows 12 |
| `MyAppointmentsPage.FormatTime` | frontend/src/Pages/MyAppointments.jsx:57-67 | a missing time or the sentinel gives "Not scheduled"; any other time ends in " AM" or " PM" |
| `MyAppointmentsPage.TwoDigits` | frontend/src/Pages/MyAppointments.jsx:62-63 | the hour field of an `HH:MM` value is two decimal digits |
| `MyAppointmentsPage.ParseTwoDigits` | frontend/src/Pages/MyAppointments.jsx:63 | `parseInt` reads a zero-padded hour such as "07" as 7 |
| `MyAppointmentsPage.TwelveHourClock` | frontend/src/Pages/MyAppointments.jsx:63-65 | for hours 0..23: PM exactly from 12, the shown hour is in 1..12, and the shown hour with the suffix gives the 24-hour hour back |
| `MyAppointmentsPage.FormatClockTime` | frontend/src/Pages/MyAppointments.jsx:57-67 | an `HH:MM` value (with any seconds after) shows as the 12-hour hour, the minutes verbatim and the suffix |
| `MyAppointmentsPage.ClockTimeHasTime` | frontend/src/Pages/MyAppointments.jsx:58 | a value with a ':' after a two-digit hour is neither missing nor the sentinel |
| `MyAppointmentsPage.FormatTimeExamples` | frontend/src/Pages/MyAppointments.jsx:63-66 | "00:15" shows as "12:15 AM", "12:00" as "12:00 PM", "13:05" as "1:05 PM" |
| `MyAppointmentsPage.ShowTimeBadge` | frontend/src/Pages/MyAppointments.jsx:111 | the badge shows only beside the green Accepted status, and only for a time whose rendering ends in " AM" or " PM" |
| `MyAppointmentsPage.TimeCellFor` | frontend/src/Pages/MyAppointments.jsx:129-135 | "try another date" exactly for Rejected, whatever the time; the formatted time exactly for Accepted with a real time; otherwise "not scheduled yet" |
| `MyAppointmentsPage.CellText` | frontend/src/Pages/MyAppointments.jsx:131-134 | the cell shows the formatted time for a scheduled time, "Please try another date" exactly for the rejected notice and "Time not scheduled yet" exactly for the awaiting one |
| `MyAppointmentsPage.CellColor` | frontend/src/Pages/MyAppointments.jsx:131-134 | red exactly for the rejected notice, green exactly for a scheduled time, orange exactly for the awaiting notice |
| `MyAppointmentsPage.BadgeAgreesWithCell` | frontend/src/Pages/MyAppointments.jsx:111-135 | the badge shows exactly when the cell shows a time, both show the same text, and that text is never "Not scheduled" |
| `MyAppointmentsPage.CellColorMatchesStatus` | frontend/src/Pages/MyAppointments.jsx:101-135 | for Rejected, Pending, and an Accepted appointment with a real time, the cell's colour is the status badge's colour |
| `MyAppointmentsPage.FreshBookingView` | frontend/src/Pages/MyAppointments.jsx:98-135 | a new booking shows orange, no badge and "Time not scheduled yet"; accepting it without a time still shows no time |
| `AdminDashboard.WithStatus` | admin/src/components/Dashboard.jsx:70-76 | the list keeps its length and order; the entry with that id gets the new status and nothing else changes |
| `AdminDashboard.WithTime` | admin/src/components/Dashboard.jsx:103-109 | the list keeps its length and order; the entry with that id gets the new time, even an empty one, and nothing else changes |
| `AdminDashboard.StatusChangeMirrorsServer` | admin/src/components/Dashboard.jsx:63-76 | the patched list equals what the server stores after the same status update |
| `AdminDashboard.TimeChangeMirrorsServer` | admin/src/components/Dashboard.jsx:96-109 | for a non-empty time, the patched list equals what the server stores |
| `AdminDashboard.ClearedTimeDiverges` | admin/src/components/Dashboard.jsx:94-109 | clearing a stored time blanks the table row, while the server keeps the time: the two lists differ |
| `AdminDashboard.WithTimeAsStored` | admin/src/components/Dashboard.jsx:103-109 | the corrected patch equals the server's collection after the update for every time, empty included |
| `AdminDashboard.HandleUpdateStatus` | admin/src/components/Dashboard.jsx:61-91 | a failed request leaves the list untouched; a successful one makes it the server's new collection; order and ids are always kept |
| `AdminDashboard.HandleUpdateTime` | admin/src/components/Dashboard.jsx:94-115 | a failed request leaves the list untouched; a successful one applies `WithTime`, so only the rows with that id change, and only in their time, which becomes the input's time even when empty; the list is the server's new collection whenever that time is non-empty |
| `AdminDashboard.HandleUpdateTimeAsStored` | admin/src/components/Dashboard.jsx:94-115 | the corrected handler: a failed request leaves the list untouched, and a successful one makes it the server's new collection for every time, empty included |
| `AdminDashboard.TimeInputValue` | admin/src/components/Dashboard.jsx:259 | the input is blank exactly when the stored time is empty or the sentinel (`!HasTime`), and otherwise holds the stored time |
| `AdminDashboard.StatusClass` | admin/src/components/Dashboard.jsx:273-279 | value-pending exactly for Pending, value-accepted exactly for Accepted, value-rejected for everything else |
| `AdminDashboard.StatusClassAgreesWithColor` | admin/src/components/Dashboard.jsx:273-279 | for the enum's statuses, the select's class and the patient badge's colour correspond one to one; outside the enum the select looks rejected but the badge is grey |
| `AdminDashboard.SetTimeReachesPatient` | admin/src/components/Dashboard.jsx:257-260 | a time saved in the table shows in the input, and on an accepted appointment the patient page shows the badge and the formatted time |

## Left out

- `getAllAppointments` returns the collection unchanged. It has no logic beyond that and is not modelled.
- The error middleware and the `catchAsyncErrors` wrapper are not part of this model. A thrown
  exception becomes `Uncaught(name)`. The HTTP response bodies (`success`, messages such as
  "Appointment Send!") are left out.
- The 500 path of `getDashboardStats` (lines 198-205) is left out. It is only reached when a database
  call throws, and the database is not modelled.
- The `|| 0` coercions in the statistics are left out. Every count is already a natural number, so
  they change nothing.
- The regular expression is built from unescaped input. Names containing regular-expression
  metacharacters (`.`, `*`, `(`…) match differently from plain equality. Non-ASCII case folding is
  not modelled.
- Local-time day bounds (`new Date(...)`, the server's time zone) are parameters `startOfDay` and
  `endOfDay`. The current time is the parameter `now`.
- Mongoose is replaced by the in-memory collection. Left out are `ObjectId` generation (a counter
  stands for it), `createdAt`/`updatedAt` stamping (`now` stands for it), and schema casting.
- Concurrency is not modelled. The resolve-then-create in booking is not atomic, and the statistics
  are several queries, not a snapshot. Each operation is one sequential step.
- `AppointmentController.SortNewestFirst`: the order among records with equal `createdAt` is not
  stated. The database does not promise one.
- `JsText.ParseInt`, `JsText.IntToString`: numbers beyond JavaScript's safe-integer range (where
  `parseInt` rounds and the text switches to exponent form) are not modelled.
- `AppointmentController.RecentActivity` uses unbounded integer division. `Math.floor` on a
  floating-point quotient agrees with it for every realistic time difference.
- `formatDate` (locale-dependent `toLocaleDateString`), React rendering, loading state, axios
  transport, toasts, redirects and logging are left out.
- After a status update the dashboard also re-fetches the statistics. That request is left out,
  and so is the whole refresh, which re-reads both lists.
- `backend/createAdmin.js` (a seeding script) and `backend/router/appointmentRouter.js` (route wiring
  and authentication middleware) are not part of this model. The caller's role is taken as already
  checked.

## Findings

| source | as written | input that shows it | evidently intended | confidence | as-written member | corrected member |
|---|---|---|---|---|---|---|
| admin/src/components/Dashboard.jsx:103-109 | after a successful PUT the row's `appointment_time` is set to whatever the input holds, including "" when the administrator clears the field; the server ignores a falsy time (backend/controller/appointmentController.js:120) and keeps the old one | a row with time "10:30", input cleared: the PUT sends `appointment_time: ""`, succeeds, and the row shows an empty time while the stored record and the patient page still show 10:30 AM | the row stays equal to the stored record: an empty time leaves it unchanged (or clearing is refused) | medium, not executed | `AdminDashboard.ClearedTimeDiverges` | `AdminDashboard.HandleUpdateTimeAsStored` |
