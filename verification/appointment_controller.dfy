/**
 * The appointment engine of the back end: booking with doctor resolution, the partial update of
 * status and time, hard delete, the per-patient listing and the dashboard statistics. The document
 * store becomes an in-memory collection held by `AppointmentStore`; the user directory is a sequence
 * of `User` records; timestamps are integer milliseconds passed in by the caller.
 */
module AppointmentController {
  import opened Wrappers
  import opened JsText

  type Id = nat

  /** The schema's default `appointment_time`: no time chosen yet. */
  const NotScheduled := "Not scheduled yet"

  /** The schema's status enum; `Pending` is the default. */
  const Pending := "Pending"
  const Accepted := "Accepted"
  const Rejected := "Rejected"

  predicate IsKnownStatus(s: string) {
    s == Pending || s == Accepted || s == Rejected
  }

  /** The name of the doctor as the patient typed it, stored beside `doctorId` and never re-synchronised. */
  datatype DoctorName = DoctorName(firstName: string, lastName: string)

  datatype Appointment = Appointment(
    id: Id,
    firstName: string,
    lastName: string,
    email: string,
    phone: string,
    nic: string,
    dob: string,
    gender: string,
    appointmentDate: string,
    department: string,
    doctor: DoctorName,
    hasVisited: bool,
    address: string,
    doctorId: Id,
    patientId: Id,
    appointmentTime: string,
    status: string,
    createdAt: int)

  /** A directory entry; `doctorDepartment` is "" for an entry that has none. */
  datatype User = User(id: Id, role: string, firstName: string, lastName: string, doctorDepartment: string)

  /**
   * A booking form. "" stands for a field that is missing or empty (both are falsy and are treated
   * alike); the doctor's names are options because a missing one makes `trim` throw.
   */
  datatype BookingRequest = BookingRequest(
    firstName: string,
    lastName: string,
    email: string,
    phone: string,
    nic: string,
    dob: string,
    gender: string,
    appointmentDate: string,
    department: string,
    doctorFirstName: Option<string>,
    doctorLastName: Option<string>,
    hasVisited: bool,
    address: string)

  /** The doctor a booking asks for: the names as typed (untrimmed) and the department. */
  datatype DoctorQuery = DoctorQuery(firstName: string, lastName: string, department: string)

  /** The body of an update; "" stands for a field that is left out or sent empty. */
  datatype UpdateRequest = UpdateRequest(status: string, appointmentTime: string)

  datatype Failure =
    | HttpError(statusCode: nat, message: string)  // an error handed to the error middleware
    | Uncaught(name: string)                       // an exception thrown inside the handler

  const FillFullForm := HttpError(400, "Please Fill Full Form!")
  const DoctorsConflict := HttpError(400, "Doctors Conflict! Please Contact Through Email Or Phone!")
  const UpdateNotFound := HttpError(404, "Appointment not found!")
  const DeleteNotFound := HttpError(404, "Appointment Not Found!")

  /** The 404 for an empty match: it names the trimmed doctor and ends with the requested department. */
  function DoctorNotFound(q: DoctorQuery): (f: Failure)
    ensures f.HttpError? && f.statusCode == 404
    ensures |f.message| >= 8 && f.message[..8] == "Doctor \""
    ensures var tail := q.department + " department";
            |f.message| >= |tail| && f.message[|f.message| - |tail|..] == tail
  {
    var head := "Doctor \"" + Trim(q.firstName) + " " + Trim(q.lastName) + "\" not found in ";
    var tail := q.department + " department";
    assert (head + tail)[..8] == head[..8];
    assert (head + tail)[|head|..] == tail;
    HttpError(404, head + tail)
  }

  // ---------------------------------------------------------------------------------------------
  // Booking: the required-field check and the doctor resolution

  /** The ten fields the booking form must carry; the doctor's names are deliberately not among them. */
  predicate FormComplete(r: BookingRequest): (ok: bool)
    ensures ok <==> "" !in RequiredFields(r)
  {
    && r.firstName != ""
    && r.lastName != ""
    && r.email != ""
    && r.phone != ""
    && r.nic != ""
    && r.dob != ""
    && r.gender != ""
    && r.appointmentDate != ""
    && r.department != ""
    && r.address != ""
  }

  /** The ten required fields of the booking form, in the order the handler lists them. */
  function RequiredFields(r: BookingRequest): seq<string> {
    [r.firstName, r.lastName, r.email, r.phone, r.nic, r.dob, r.gender, r.appointmentDate, r.department, r.address]
  }

  /** Only the ten required fields decide whether the form is complete. */
  lemma FormCompleteIgnoresDoctor(r: BookingRequest, first: Option<string>, last: Option<string>, visited: bool)
    ensures FormComplete(r) == FormComplete(r.(doctorFirstName := first, doctorLastName := last, hasVisited := visited))
    ensures !FormComplete(r) ==> (r.firstName == "" || r.lastName == "" || r.email == "" || r.phone == ""
                                  || r.nic == "" || r.dob == "" || r.gender == "" || r.appointmentDate == ""
                                  || r.department == "" || r.address == "")
  {
  }

  /**
   * The directory filter: a doctor of exactly the requested department whose first and last names
   * equal the trimmed requested names up to case.
   */
  predicate IsRequestedDoctor(u: User, q: DoctorQuery): (ok: bool)
    ensures ok ==> u.role == "Doctor" && u.doctorDepartment == q.department
                   && |u.firstName| == |Trim(q.firstName)| && |u.lastName| == |Trim(q.lastName)|
    ensures (u.role == "Doctor" && u.doctorDepartment == q.department
             && u.firstName == Trim(q.firstName) && u.lastName == Trim(q.lastName)) ==> ok
  {
    && u.role == "Doctor"
    && u.doctorDepartment == q.department
    && EqualIgnoringCase(u.firstName, Trim(q.firstName))
    && EqualIgnoringCase(u.lastName, Trim(q.lastName))
  }

  /** The directory query: the matching entries, in directory order. */
  function MatchingDoctors(users: seq<User>, q: DoctorQuery): (r: seq<User>)
    ensures |r| <= |users|
    ensures forall u :: u in r <==> u in users && IsRequestedDoctor(u, q)
  {
    if users == [] then []
    else
      var rest := MatchingDoctors(users[1..], q);
      assert forall u :: u in users[1..] ==> u in users;
      if IsRequestedDoctor(users[0], q) then [users[0]] + rest else rest
  }

  /** Two different directory entries match the request. */
  predicate HasTwoMatches(users: seq<User>, q: DoctorQuery) {
    exists i, j :: 0 <= i < j < |users| && IsRequestedDoctor(users[i], q) && IsRequestedDoctor(users[j], q)
  }

  /** Entry `i` matches the request and no other entry does. */
  predicate IsOnlyMatch(users: seq<User>, i: int, q: DoctorQuery) {
    && 0 <= i < |users|
    && IsRequestedDoctor(users[i], q)
    && forall j :: 0 <= j < |users| && IsRequestedDoctor(users[j], q) ==> j == i
  }

  /** Zero matches is "not found", more than one is a conflict, exactly one binds that doctor. */
  function ResolveDoctor(users: seq<User>, q: DoctorQuery): (r: Result<Id, Failure>)
    ensures r.Err? ==> r.error == DoctorNotFound(q) || r.error == DoctorsConflict
  {
    var matches := MatchingDoctors(users, q);
    if |matches| == 0 then Err(DoctorNotFound(q))
    else if |matches| > 1 then Err(DoctorsConflict)
    else Ok(matches[0].id)
  }

  /** The query returns at least two entries exactly when two entries match. */
  lemma {:induction false} TwoMatchesCount(users: seq<User>, q: DoctorQuery)
    ensures |MatchingDoctors(users, q)| >= 2 <==> HasTwoMatches(users, q)
  {
    if users != [] {
      TwoMatchesCount(users[1..], q);
      if IsRequestedDoctor(users[0], q) {
        TwoMatchesWithHead(users, q);
      } else {
        TwoMatchesWithoutHead(users, q);
      }
    }
  }

  lemma TwoMatchesWithHead(users: seq<User>, q: DoctorQuery)
    requires users != [] && IsRequestedDoctor(users[0], q)
    ensures HasTwoMatches(users, q) <==> |MatchingDoctors(users[1..], q)| >= 1
  {
    var rest := users[1..];
    var restMatches := MatchingDoctors(rest, q);
    if |restMatches| >= 1 {
      assert restMatches[0] in restMatches;
      var j :| 0 <= j < |rest| && rest[j] == restMatches[0];
      assert users[j + 1] == rest[j];
      assert IsRequestedDoctor(users[0], q) && IsRequestedDoctor(users[j + 1], q);
    }
    if HasTwoMatches(users, q) {
      var i, j :| 0 <= i < j < |users| && IsRequestedDoctor(users[i], q) && IsRequestedDoctor(users[j], q);
      assert users[j] == rest[j - 1];
      assert users[j] in restMatches;
    }
  }

  lemma TwoMatchesWithoutHead(users: seq<User>, q: DoctorQuery)
    requires users != [] && !IsRequestedDoctor(users[0], q)
    ensures HasTwoMatches(users, q) <==> HasTwoMatches(users[1..], q)
  {
    var rest := users[1..];
    if HasTwoMatches(rest, q) {
      var i, j :| 0 <= i < j < |rest| && IsRequestedDoctor(rest[i], q) && IsRequestedDoctor(rest[j], q);
      assert users[i + 1] == rest[i] && users[j + 1] == rest[j];
      assert 0 <= i + 1 < j + 1 < |users| && IsRequestedDoctor(users[i + 1], q) && IsRequestedDoctor(users[j + 1], q);
    }
    if HasTwoMatches(users, q) {
      var i, j :| 0 <= i < j < |users| && IsRequestedDoctor(users[i], q) && IsRequestedDoctor(users[j], q);
      assert i != 0;
      assert users[i] == rest[i - 1] && users[j] == rest[j - 1];
      assert 0 <= i - 1 < j - 1 < |rest| && IsRequestedDoctor(rest[i - 1], q) && IsRequestedDoctor(rest[j - 1], q);
    }
  }

  /** The three outcomes of the doctor resolution, each stated over the directory itself. */
  lemma ResolveDoctorOutcomes(users: seq<User>, q: DoctorQuery)
    ensures ResolveDoctor(users, q) == Err(DoctorNotFound(q)) <==> forall u :: u in users ==> !IsRequestedDoctor(u, q)
    ensures ResolveDoctor(users, q) == Err(DoctorsConflict) <==> HasTwoMatches(users, q)
    ensures forall i :: IsOnlyMatch(users, i, q) ==> ResolveDoctor(users, q) == Ok(users[i].id)
    ensures ResolveDoctor(users, q).Ok?
            ==> exists i :: IsOnlyMatch(users, i, q) && users[i].id == ResolveDoctor(users, q).value
  {
    var matches := MatchingDoctors(users, q);
    TwoMatchesCount(users, q);
    assert DoctorNotFound(q) != DoctorsConflict;
    if |matches| > 0 {
      assert matches[0] in matches;
    }
    if |matches| == 1 {
      var k :| 0 <= k < |users| && users[k] == matches[0];
      assert !HasTwoMatches(users, q);
      assert IsOnlyMatch(users, k, q);
    }
    forall i | IsOnlyMatch(users, i, q)
      ensures ResolveDoctor(users, q) == Ok(users[i].id)
    {
      assert users[i] in matches;
      assert !HasTwoMatches(users, q);
      var k :| 0 <= k < |users| && users[k] == matches[0];
      assert k == i;
    }
  }

  /** Only the trimmed, case-folded names and the exact department decide which entries match. */
  lemma {:induction false} MatchingDependsOnFoldedNames(users: seq<User>, q1: DoctorQuery, q2: DoctorQuery)
    requires q1.department == q2.department
    requires Lower(Trim(q1.firstName)) == Lower(Trim(q2.firstName))
    requires Lower(Trim(q1.lastName)) == Lower(Trim(q2.lastName))
    ensures MatchingDoctors(users, q1) == MatchingDoctors(users, q2)
  {
    if users != [] {
      MatchingDependsOnFoldedNames(users[1..], q1, q2);
      assert IsRequestedDoctor(users[0], q1) == IsRequestedDoctor(users[0], q2);
    }
  }

  /** White space typed around the doctor's names changes nothing, not even the "not found" message. */
  lemma ResolveIgnoresPadding(users: seq<User>, q: DoctorQuery, pre1: string, post1: string, pre2: string, post2: string)
    requires AllSpace(pre1) && AllSpace(post1) && AllSpace(pre2) && AllSpace(post2)
    ensures ResolveDoctor(users, DoctorQuery(pre1 + q.firstName + post1, pre2 + q.lastName + post2, q.department))
         == ResolveDoctor(users, q)
  {
    var padded := DoctorQuery(pre1 + q.firstName + post1, pre2 + q.lastName + post2, q.department);
    TrimIgnoresPadding(pre1, q.firstName, post1);
    TrimIgnoresPadding(pre2, q.lastName, post2);
    MatchingDependsOnFoldedNames(users, padded, q);
  }

  /**
   * Names that differ only in the case of their letters select the same doctor and conflict alike;
   * only the "not found" message, which echoes the names as typed, can differ.
   */
  lemma ResolveIgnoresCase(users: seq<User>, q1: DoctorQuery, q2: DoctorQuery)
    requires q1.department == q2.department
    requires EqualIgnoringCase(Trim(q1.firstName), Trim(q2.firstName))
    requires EqualIgnoringCase(Trim(q1.lastName), Trim(q2.lastName))
    ensures ResolveDoctor(users, q1).Ok? <==> ResolveDoctor(users, q2).Ok?
    ensures ResolveDoctor(users, q1).Ok? ==> ResolveDoctor(users, q1) == ResolveDoctor(users, q2)
    ensures ResolveDoctor(users, q1) == Err(DoctorsConflict) <==> ResolveDoctor(users, q2) == Err(DoctorsConflict)
  {
    MatchingDependsOnFoldedNames(users, q1, q2);
  }

  const Jane := User(7, "Doctor", "Jane", "Doe", "Cardiology")
  const John := User(8, "Doctor", "John", "Roe", "Cardiology")

  lemma TrimmedSpacedJane()
    ensures Trim(" jane ") == "jane"
  {
  }

  lemma TrimmedUpperDoe()
    ensures Trim("DOE") == "DOE"
  {
  }

  lemma JaneIsRequested()
    ensures IsRequestedDoctor(Jane, DoctorQuery(" jane ", "DOE", "Cardiology"))
  {
    TrimmedSpacedJane();
    TrimmedUpperDoe();
  }

  lemma JohnIsNotRequested()
    ensures !IsRequestedDoctor(John, DoctorQuery(" jane ", "DOE", "Cardiology"))
  {
    TrimmedSpacedJane();
    TrimmedUpperDoe();
  }

  /** A request typed as `" jane "`, `"DOE"` binds Jane Doe of Cardiology and passes over John Roe. */
  lemma ResolvePaddedLowerCaseName()
    ensures ResolveDoctor([Jane, John], DoctorQuery(" jane ", "DOE", "Cardiology")) == Ok(Jane.id)
  {
    var q := DoctorQuery(" jane ", "DOE", "Cardiology");
    JaneIsRequested();
    JohnIsNotRequested();
    assert MatchingDoctors([John], q) == [];
    assert MatchingDoctors([Jane, John], q) == [Jane];
  }

  /** The department is compared exactly: the same doctor is not found under "cardiology". */
  lemma ResolveDepartmentIsExact()
    ensures ResolveDoctor([Jane, John], DoctorQuery("Jane", "Doe", "cardiology")).Err?
    ensures ResolveDoctor([Jane, John], DoctorQuery("Jane", "Doe", "cardiology")).error.statusCode == 404
  {
    var q := DoctorQuery("Jane", "Doe", "cardiology");
    assert !IsRequestedDoctor(Jane, q) && !IsRequestedDoctor(John, q);
    assert MatchingDoctors([John], q) == [];
    assert MatchingDoctors([Jane, John], q) == [];
  }

  /** Two Jane Does in Cardiology make the request ambiguous. */
  lemma ResolveSameNameConflict()
    ensures ResolveDoctor([Jane, Jane.(id := 9)], DoctorQuery(" jane ", "DOE", "Cardiology")) == Err(DoctorsConflict)
  {
    var q := DoctorQuery(" jane ", "DOE", "Cardiology");
    var twin := Jane.(id := 9);
    JaneIsRequested();
    assert IsRequestedDoctor(twin, q);
    assert MatchingDoctors([twin], q) == [twin];
    assert MatchingDoctors([Jane, twin], q) == [Jane, twin];
  }

  // ---------------------------------------------------------------------------------------------
  // The partial update and the delete, as functions on the collection

  /** The record as `findByIdAndUpdate` leaves it: only truthy fields of the request are written. */
  function ApplyUpdate(a: Appointment, u: UpdateRequest): (r: Appointment)
    ensures r.(status := a.status, appointmentTime := a.appointmentTime) == a
    ensures r.status == if u.status != "" then u.status else a.status
    ensures r.appointmentTime == if u.appointmentTime != "" then u.appointmentTime else a.appointmentTime
  {
    var withStatus := if u.status != "" then a.(status := u.status) else a;
    if u.appointmentTime != "" then withStatus.(appointmentTime := u.appointmentTime) else withStatus
  }

  /** Sending the same update twice leaves the record as sending it once. */
  lemma UpdateIdempotent(a: Appointment, u: UpdateRequest)
    ensures ApplyUpdate(ApplyUpdate(a, u), u) == ApplyUpdate(a, u)
  {
  }

  /** A time-only update keeps the status, a status-only update keeps the time, and together they commute. */
  lemma UpdatesIndependent(a: Appointment, status: string, time: string)
    ensures ApplyUpdate(a, UpdateRequest("", time)).status == a.status
    ensures ApplyUpdate(a, UpdateRequest(status, "")).appointmentTime == a.appointmentTime
    ensures ApplyUpdate(ApplyUpdate(a, UpdateRequest(status, "")), UpdateRequest("", time))
         == ApplyUpdate(ApplyUpdate(a, UpdateRequest("", time)), UpdateRequest(status, ""))
         == ApplyUpdate(a, UpdateRequest(status, time))
  {
  }

  /** The collection with every record of id `id` updated by `u`; with unique ids, at most one record. */
  function UpdateById(rs: seq<Appointment>, id: Id, u: UpdateRequest): (r: seq<Appointment>)
    ensures |r| == |rs|
    ensures forall k :: 0 <= k < |rs| && rs[k].id != id ==> r[k] == rs[k]
    ensures forall k :: 0 <= k < |rs| && rs[k].id == id ==> r[k] == ApplyUpdate(rs[k], u)
  {
    if rs == [] then []
    else [if rs[0].id == id then ApplyUpdate(rs[0], u) else rs[0]] + UpdateById(rs[1..], id, u)
  }

  /** The collection without the records of id `id`. */
  function WithoutId(rs: seq<Appointment>, id: Id): (r: seq<Appointment>)
    ensures |r| <= |rs|
    ensures forall a :: a in r <==> a in rs && a.id != id
  {
    if rs == [] then []
    else
      assert forall a :: a in rs[1..] ==> a in rs;
      if rs[0].id == id then WithoutId(rs[1..], id) else [rs[0]] + WithoutId(rs[1..], id)
  }

  predicate UniqueIds(rs: seq<Appointment>) {
    forall i, j :: 0 <= i < j < |rs| ==> rs[i].id != rs[j].id
  }

  /** With unique ids, removing the record at `k` is removing its id: the collection shrinks by one. */
  lemma RemoveAtIsWithoutId(rs: seq<Appointment>, k: nat)
    requires UniqueIds(rs) && k < |rs|
    ensures rs[..k] + rs[k + 1..] == WithoutId(rs, rs[k].id)
    ensures |WithoutId(rs, rs[k].id)| == |rs| - 1
  {
    var id := rs[k].id;
    var before, after := rs[..k], rs[k + 1..];
    assert rs == before + ([rs[k]] + after);
    WithoutIdAppend(before, [rs[k]] + after, id);
    WithoutIdAppend([rs[k]], after, id);
    assert WithoutId([rs[k]], id) == [];
    OthersKeepTheirIds(rs, k, before, after);
    WithoutAbsent(before, id);
    WithoutAbsent(after, id);
  }

  /** With unique ids, no record before or after position `k` carries the id of the record at `k`. */
  lemma OthersKeepTheirIds(rs: seq<Appointment>, k: nat, before: seq<Appointment>, after: seq<Appointment>)
    requires UniqueIds(rs) && k < |rs| && before == rs[..k] && after == rs[k + 1..]
    ensures forall i :: 0 <= i < |before| ==> before[i].id != rs[k].id
    ensures forall i :: 0 <= i < |after| ==> after[i].id != rs[k].id
  {
    assert forall i :: 0 <= i < |before| ==> before[i] == rs[i];
    assert forall i :: 0 <= i < |after| ==> after[i] == rs[k + 1 + i];
  }

  /** Removing an id from a concatenation removes it from each part. */
  lemma {:induction false} WithoutIdAppend(xs: seq<Appointment>, ys: seq<Appointment>, id: Id)
    ensures WithoutId(xs + ys, id) == WithoutId(xs, id) + WithoutId(ys, id)
  {
    if xs == [] {
      assert xs + ys == ys;
    } else {
      assert (xs + ys)[0] == xs[0];
      assert (xs + ys)[1..] == xs[1..] + ys;
      WithoutIdAppend(xs[1..], ys, id);
    }
  }

  /** Removing one record keeps the ids unique, and every remaining record was there before. */
  lemma RemoveAtKeepsUniqueIds(rs: seq<Appointment>, k: nat)
    requires UniqueIds(rs) && k < |rs|
    ensures UniqueIds(rs[..k] + rs[k + 1..])
    ensures forall a :: a in rs[..k] + rs[k + 1..] ==> a in rs
  {
    var s := rs[..k] + rs[k + 1..];
    assert forall i :: 0 <= i < |s| ==> s[i] == rs[if i < k then i else i + 1];
  }

  /** Removing an id that no record carries changes nothing. */
  lemma {:induction false} WithoutAbsent(rs: seq<Appointment>, id: Id)
    requires forall i :: 0 <= i < |rs| ==> rs[i].id != id
    ensures WithoutId(rs, id) == rs
  {
    if rs != [] {
      WithoutAbsent(rs[1..], id);
      assert [rs[0]] + rs[1..] == rs;
    }
  }

  // ---------------------------------------------------------------------------------------------
  // The per-patient listing: `find({ patientId })` sorted by `createdAt` descending

  /** The query's filter: the records of one patient, in collection order. */
  function OwnedBy(rs: seq<Appointment>, patientId: Id): (r: seq<Appointment>)
    ensures forall a: Appointment :: multiset(r)[a] == if a.patientId == patientId then multiset(rs)[a] else 0
  {
    if rs == [] then []
    else
      assert rs == [rs[0]] + rs[1..];
      var rest := OwnedBy(rs[1..], patientId);
      if rs[0].patientId == patientId then [rs[0]] + rest else rest
  }

  predicate NewestFirst(rs: seq<Appointment>) {
    forall i, j :: 0 <= i < j < |rs| ==> rs[i].createdAt >= rs[j].createdAt
  }

  /** No record of `rs` is newer than `t`. */
  predicate NoneNewerThan(rs: seq<Appointment>, t: int) {
    forall k :: 0 <= k < |rs| ==> rs[k].createdAt <= t
  }

  /** Inserts `a` into a newest-first list after every record at least as new. */
  function InsertNewestFirst(a: Appointment, rs: seq<Appointment>): (r: seq<Appointment>)
    requires NewestFirst(rs)
    ensures NewestFirst(r)
    ensures multiset(r) == multiset(rs) + multiset{a}
    ensures |r| == |rs| + 1 && (r[0] == a || (rs != [] && r[0] == rs[0]))
  {
    if rs == [] then [a]
    else if a.createdAt > rs[0].createdAt then
      NewestFirstCons(a, rs);
      [a] + rs
    else
      var rest := InsertNewestFirst(a, rs[1..]);
      NewestFirstTail(rs);
      NewestFirstCons(rs[0], rest);
      assert multiset(rs) == multiset{rs[0]} + multiset(rs[1..]) by {
        assert rs == [rs[0]] + rs[1..];
      }
      assert multiset([rs[0]] + rest) == multiset{rs[0]} + multiset(rest);
      [rs[0]] + rest
  }

  /** A newest-first list is bounded by its head, and its tail is newest first. */
  lemma NewestFirstTail(rs: seq<Appointment>)
    requires NewestFirst(rs) && rs != []
    ensures NewestFirst(rs[1..]) && NoneNewerThan(rs, rs[0].createdAt)
  {
    assert forall i :: 0 <= i < |rs| - 1 ==> rs[1..][i] == rs[i + 1];
  }

  /** A record at least as new as the head of a newest-first list can go in front of it. */
  lemma NewestFirstCons(a: Appointment, rs: seq<Appointment>)
    requires NewestFirst(rs)
    requires rs != [] ==> a.createdAt >= rs[0].createdAt
    ensures NewestFirst([a] + rs)
  {
    var r := [a] + rs;
    if rs != [] {
      NewestFirstTail(rs);
    }
    assert forall j :: 1 <= j < |r| ==> r[j] == rs[j - 1];
  }

  /** A sort on `createdAt`, newest first; the order of records with equal timestamps is unspecified. */
  function SortNewestFirst(rs: seq<Appointment>): (r: seq<Appointment>)
    ensures NewestFirst(r)
    ensures multiset(r) == multiset(rs)
  {
    if rs == [] then []
    else
      assert rs == [rs[0]] + rs[1..];
      InsertNewestFirst(rs[0], SortNewestFirst(rs[1..]))
  }

  /** The patient's own appointments, newest first: exactly the records carrying that `patientId`. */
  function PatientAppointments(rs: seq<Appointment>, patientId: Id): (r: seq<Appointment>)
    ensures NewestFirst(r)
    ensures forall a :: a in r <==> a in rs && a.patientId == patientId
    ensures forall a: Appointment :: multiset(r)[a] == if a.patientId == patientId then multiset(rs)[a] else 0
  {
    var owned := OwnedBy(rs, patientId);
    var r := SortNewestFirst(owned);
    assert forall a :: a in r <==> a in owned;
    r
  }

  // ---------------------------------------------------------------------------------------------
  // Dashboard statistics

  /** `countDocuments({ status })`. */
  function CountStatus(rs: seq<Appointment>, status: string): (n: nat)
    ensures n <= |rs|
    ensures n == 0 <==> forall i :: 0 <= i < |rs| ==> rs[i].status != status
    ensures n == |rs| <==> forall i :: 0 <= i < |rs| ==> rs[i].status == status
  {
    if rs == [] then 0
    else
      var rest := CountStatus(rs[1..], status);
      assert forall i :: 1 <= i < |rs| ==> rs[i] == rs[1..][i - 1];
      (if rs[0].status == status then 1 else 0) + rest
  }

  /** `User.countDocuments({ role })`. */
  function CountRole(users: seq<User>, role: string): (n: nat)
    ensures n <= |users|
    ensures n == 0 <==> forall i :: 0 <= i < |users| ==> users[i].role != role
  {
    if users == [] then 0
    else
      assert forall i :: 1 <= i < |users| ==> users[i] == users[1..][i - 1];
      (if users[0].role == role then 1 else 0) + CountRole(users[1..], role)
  }

  /** `countDocuments({ createdAt: { $gte: from, $lt: until } })`: the half-open interval. */
  function CountCreatedIn(rs: seq<Appointment>, from: int, until: int): (n: nat)
    ensures n <= |rs|
    ensures n == 0 <==> forall i :: 0 <= i < |rs| ==> !(from <= rs[i].createdAt < until)
  {
    if rs == [] then 0
    else
      assert forall i :: 1 <= i < |rs| ==> rs[i] == rs[1..][i - 1];
      (if from <= rs[0].createdAt < until then 1 else 0) + CountCreatedIn(rs[1..], from, until)
  }

  /** Adjacent half-open intervals count each record once: the day splits into its parts. */
  lemma {:induction false} CountCreatedInSplits(rs: seq<Appointment>, a: int, b: int, c: int)
    requires a <= b <= c
    ensures CountCreatedIn(rs, a, b) + CountCreatedIn(rs, b, c) == CountCreatedIn(rs, a, c)
  {
    if rs != [] {
      CountCreatedInSplits(rs[1..], a, b, c);
    }
  }

  /** Adding one record raises the count of its status by one and leaves the other counts alone. */
  lemma {:induction false} CountStatusAppend(rs: seq<Appointment>, a: Appointment, status: string)
    ensures CountStatus(rs + [a], status) == CountStatus(rs, status) + (if a.status == status then 1 else 0)
  {
    if rs != [] {
      assert (rs + [a])[1..] == rs[1..] + [a];
      CountStatusAppend(rs[1..], a, status);
    } else {
      assert rs + [a] == [a];
    }
  }

  /** Adding one user raises the count of their role by one and leaves the other roles' counts alone. */
  lemma {:induction false} CountRoleAppend(users: seq<User>, u: User, role: string)
    ensures CountRole(users + [u], role) == CountRole(users, role) + (if u.role == role then 1 else 0)
  {
    if users != [] {
      assert (users + [u])[1..] == users[1..] + [u];
      CountRoleAppend(users[1..], u, role);
    } else {
      assert users + [u] == [u];
    }
  }

  /** Adding one record raises the day's count by one exactly when it was created inside the interval. */
  lemma {:induction false} CountCreatedInAppend(rs: seq<Appointment>, a: Appointment, from: int, until: int)
    ensures CountCreatedIn(rs + [a], from, until)
            == CountCreatedIn(rs, from, until) + (if from <= a.createdAt < until then 1 else 0)
  {
    if rs != [] {
      assert (rs + [a])[1..] == rs[1..] + [a];
      CountCreatedInAppend(rs[1..], a, from, until);
    } else {
      assert rs + [a] == [a];
    }
  }

  /** The three status counts never exceed the total, and add up to it when every status is in the enum. */
  lemma {:induction false} StatusCountsPartition(rs: seq<Appointment>)
    ensures CountStatus(rs, Pending) + CountStatus(rs, Accepted) + CountStatus(rs, Rejected) <= |rs|
    ensures (forall i :: 0 <= i < |rs| ==> IsKnownStatus(rs[i].status))
            ==> CountStatus(rs, Pending) + CountStatus(rs, Accepted) + CountStatus(rs, Rejected) == |rs|
  {
    if rs != [] {
      StatusCountsPartition(rs[1..]);
      assert forall i :: 1 <= i < |rs| ==> rs[i] == rs[1..][i - 1];
    }
  }

  /** `findOne().sort({ createdAt: -1 })`, reduced to the timestamp it yields: the largest `createdAt`. */
  function LatestCreatedAt(rs: seq<Appointment>): (r: Option<int>)
    ensures r.None? <==> rs == []
    ensures r.Some? ==> exists i :: 0 <= i < |rs| && rs[i].createdAt == r.value
    ensures r.Some? ==> forall i :: 0 <= i < |rs| ==> rs[i].createdAt <= r.value
  {
    if rs == [] then None
    else
      var rest := LatestCreatedAt(rs[1..]);
      assert forall i :: 1 <= i < |rs| ==> rs[i] == rs[1..][i - 1];
      if rest.Some? && rest.value > rs[0].createdAt then rest else Some(rs[0].createdAt)
  }

  const MinuteMs := 60000
  const HourMs := 3600000

  /** The plural suffix of the activity message: "s" exactly when the count is above one. */
  function Plural(n: int): string {
    if n > 1 then "s" else ""
  }

  /**
   * The "recent activity" line: hours, else minutes, else "just now", each count the floor of the
   * elapsed milliseconds divided by the unit (Dafny's `/` with a positive divisor is `Math.floor`).
   */
  function RecentActivity(now: int, latest: Option<int>): (r: string)
    ensures r == "No recent activity" <==> latest.None?
    ensures latest.Some? ==> |r| > 16 && r[..16] == "New appointment "
  {
    match latest
    case None => "No recent activity"
    case Some(createdAt) =>
      var elapsed := now - createdAt;
      var hoursAgo := elapsed / HourMs;
      var minutesAgo := elapsed / MinuteMs;
      if hoursAgo > 0 then "New appointment " + IntToString(hoursAgo) + " hour" + Plural(hoursAgo) + " ago"
      else if minutesAgo > 0 then "New appointment " + IntToString(minutesAgo) + " minute" + Plural(minutesAgo) + " ago"
      else "New appointment just now"
  }

  /** The message by elapsed time: under a minute (or negative) is "just now", under an hour counts minutes. */
  lemma RecentActivityBands(now: int, createdAt: int)
    ensures var elapsed := now - createdAt;
      && (elapsed < MinuteMs ==> RecentActivity(now, Some(createdAt)) == "New appointment just now")
      && (MinuteMs <= elapsed < HourMs ==>
            1 <= elapsed / MinuteMs <= 59
            && RecentActivity(now, Some(createdAt))
               == "New appointment " + NatToString(elapsed / MinuteMs) + " minute"
                  + (if elapsed >= 2 * MinuteMs then "s" else "") + " ago")
      && (HourMs <= elapsed ==>
            RecentActivity(now, Some(createdAt))
            == "New appointment " + NatToString(elapsed / HourMs) + " hour"
               + (if elapsed >= 2 * HourMs then "s" else "") + " ago")
  {
    var elapsed := now - createdAt;
    if elapsed < MinuteMs {
      assert elapsed / MinuteMs <= 0;
      assert elapsed / HourMs <= 0;
    } else if elapsed < HourMs {
      assert elapsed / HourMs == 0;
      assert elapsed / MinuteMs >= 1;
      assert elapsed / MinuteMs > 1 <==> elapsed >= 2 * MinuteMs;
    } else {
      assert elapsed / HourMs >= 1;
      assert elapsed / HourMs > 1 <==> elapsed >= 2 * HourMs;
    }
  }

  /** Ninety seconds after the latest booking the dashboard reads "1 minute ago", in the singular. */
  lemma NinetySecondsIsOneMinute(createdAt: int)
    ensures RecentActivity(createdAt + 90000, Some(createdAt)) == "New appointment 1 minute ago"
    ensures RecentActivity(createdAt + 90000, None) == "No recent activity"
  {
    assert (createdAt + 90000 - createdAt) / MinuteMs == 1;
    assert IntToString(1) == "1";
  }

  datatype DashboardStats = DashboardStats(
    totalAppointments: nat,
    totalDoctors: nat,
    totalPatients: nat,
    pendingAppointments: nat,
    acceptedAppointments: nat,
    rejectedAppointments: nat,
    todayAppointments: nat,
    recentActivity: string)

  /**
   * The statistics record, from the collection, the directory, the current time and the bounds of
   * the current local day `[startOfDay, endOfDay)`.
   */
  function Stats(rs: seq<Appointment>, users: seq<User>, now: int, startOfDay: int, endOfDay: int): (s: DashboardStats)
    ensures s.totalAppointments == |rs|
    ensures s.totalDoctors == CountRole(users, "Doctor") && s.totalPatients == CountRole(users, "Patient")
    ensures s.pendingAppointments == CountStatus(rs, Pending)
    ensures s.acceptedAppointments == CountStatus(rs, Accepted)
    ensures s.rejectedAppointments == CountStatus(rs, Rejected)
    ensures s.todayAppointments == CountCreatedIn(rs, startOfDay, endOfDay)
    ensures s.recentActivity == RecentActivity(now, LatestCreatedAt(rs))
    ensures s.pendingAppointments + s.acceptedAppointments + s.rejectedAppointments <= s.totalAppointments
    ensures (forall a :: a in rs ==> IsKnownStatus(a.status))
            ==> s.pendingAppointments + s.acceptedAppointments + s.rejectedAppointments == s.totalAppointments
    ensures s.todayAppointments <= s.totalAppointments
    ensures s.totalAppointments == 0 <==> s.recentActivity == "No recent activity"
  {
    StatusCountsPartition(rs);
    assert (forall a :: a in rs ==> IsKnownStatus(a.status)) ==> forall i :: 0 <= i < |rs| ==> IsKnownStatus(rs[i].status) by {
      if forall a :: a in rs ==> IsKnownStatus(a.status) {
        forall i | 0 <= i < |rs| ensures IsKnownStatus(rs[i].status) {
          assert rs[i] in rs;
        }
      }
    }
    var latest := LatestCreatedAt(rs);
    assert RecentActivity(now, latest) == "No recent activity" <==> latest.None?;
    DashboardStats(
      |rs|,
      CountRole(users, "Doctor"),
      CountRole(users, "Patient"),
      CountStatus(rs, Pending),
      CountStatus(rs, Accepted),
      CountStatus(rs, Rejected),
      CountCreatedIn(rs, startOfDay, endOfDay),
      RecentActivity(now, latest))
  }

  // ---------------------------------------------------------------------------------------------
  // The collection and the operations that change it

  /** The appointment collection, in insertion order, with the counter that hands out fresh ids. */
  class AppointmentStore {
    var records: seq<Appointment>
    var nextId: Id

    /** Ids are unique and already handed out; every status is one the schema's enum allows. */
    ghost predicate Valid()
      reads this
    {
      && UniqueIds(records)
      && (forall a :: a in records ==> a.id < nextId && IsKnownStatus(a.status))
    }

    constructor ()
      ensures Valid() && records == []
    {
      records := [];
      nextId := 0;
    }

    /** `Appointment.findById(id)`: the position of the record with that id, if any. */
    method FindById(id: Id) returns (r: Option<nat>)
      ensures r.Some? ==> r.value < |records| && records[r.value].id == id
      ensures r.None? ==> forall i :: 0 <= i < |records| ==> records[i].id != id
    {
      var i := 0;
      while i < |records|
        invariant 0 <= i <= |records|
        invariant forall k :: 0 <= k < i ==> records[k].id != id
      {
        if records[i].id == id {
          return Some(i);
        }
        i := i + 1;
      }
      return None;
    }

    /**
     * Books an appointment for `patientId`: the required-field check, then the doctor resolution,
     * then the creation of one Pending, unscheduled record stamped `now`.
     */
    method Post(req: BookingRequest, patientId: Id, users: seq<User>, now: int) returns (r: Result<Appointment, Failure>)
      requires Valid()
      modifies this
      ensures Valid()
      ensures !FormComplete(req) ==> r == Err(FillFullForm)
      ensures FormComplete(req) && (req.doctorFirstName.None? || req.doctorLastName.None?)
              ==> r == Err(Uncaught("TypeError"))
      ensures FormComplete(req) && req.doctorFirstName.Some? && req.doctorLastName.Some?
              ==> var resolved := ResolveDoctor(users, DoctorQuery(req.doctorFirstName.value, req.doctorLastName.value, req.department));
                  (resolved.Err? ==> r == Err(resolved.error))
                  && (resolved.Ok? ==> r.Ok? && r.value.doctorId == resolved.value)
      ensures r.Err? ==> records == old(records) && nextId == old(nextId)
      ensures r.Ok? ==>
                && records == old(records) + [r.value]
                && nextId == old(nextId) + 1
                && r.value == Appointment(
                     old(nextId), req.firstName, req.lastName, req.email, req.phone, req.nic, req.dob,
                     req.gender, req.appointmentDate, req.department,
                     DoctorName(req.doctorFirstName.value, req.doctorLastName.value),
                     req.hasVisited, req.address, r.value.doctorId, patientId, NotScheduled, Pending, now)
    {
      if !FormComplete(req) {
        return Err(FillFullForm);
      }
      if req.doctorFirstName.None? || req.doctorLastName.None? {
        return Err(Uncaught("TypeError"));
      }
      var resolved := ResolveDoctor(users, DoctorQuery(req.doctorFirstName.value, req.doctorLastName.value, req.department));
      if resolved.Err? {
        return Err(resolved.error);
      }
      var appointment := Appointment(
        nextId, req.firstName, req.lastName, req.email, req.phone, req.nic, req.dob,
        req.gender, req.appointmentDate, req.department,
        DoctorName(req.doctorFirstName.value, req.doctorLastName.value),
        req.hasVisited, req.address, resolved.value, patientId, NotScheduled, Pending, now);
      records := records + [appointment];
      nextId := nextId + 1;
      r := Ok(appointment);
    }

    /**
     * Applies the truthy fields of `u` to the record with id `id`; a status outside the enum fails
     * validation. Returns the updated record.
     */
    method Update(id: Id, u: UpdateRequest) returns (r: Result<Appointment, Failure>)
      requires Valid()
      modifies this
      ensures Valid()
      ensures nextId == old(nextId)
      ensures (forall i :: 0 <= i < |old(records)| ==> old(records)[i].id != id) ==> r == Err(UpdateNotFound)
      ensures r.Err? ==> records == old(records)
      ensures r.Ok? ==>
                && (exists i :: 0 <= i < |old(records)| && old(records)[i].id == id
                                && r.value == ApplyUpdate(old(records)[i], u))
                && records == UpdateById(old(records), id, u)
      ensures (exists i :: 0 <= i < |old(records)| && old(records)[i].id == id)
              ==> (r.Ok? <==> u.status == "" || IsKnownStatus(u.status))
    {
      var found := FindById(id);
      if found.None? {
        return Err(UpdateNotFound);
      }
      var i := found.value;
      if u.status != "" && !IsKnownStatus(u.status) {
        return Err(Uncaught("ValidationError"));
      }
      var updated := records[i];
      if u.status != "" {
        updated := updated.(status := u.status);
      }
      if u.appointmentTime != "" {
        updated := updated.(appointmentTime := u.appointmentTime);
      }
      assert updated == ApplyUpdate(records[i], u);
      assert records[i := updated] == UpdateById(records, id, u);
      records := records[i := updated];
      r := Ok(updated);
    }

    /** Removes the record with id `id` for good; afterwards no record carries that id. */
    method Delete(id: Id) returns (r: Result<(), Failure>)
      requires Valid()
      modifies this
      ensures Valid()
      ensures nextId == old(nextId)
      ensures r.Err? <==> forall i :: 0 <= i < |old(records)| ==> old(records)[i].id != id
      ensures r.Err? ==> r.error == DeleteNotFound && records == old(records)
      ensures r.Ok? ==> records == WithoutId(old(records), id) && |records| == |old(records)| - 1
      ensures forall i :: 0 <= i < |records| ==> records[i].id != id
    {
      var found := FindById(id);
      if found.None? {
        return Err(DeleteNotFound);
      }
      var k := found.value;
      RemoveAtIsWithoutId(records, k);
      RemoveAtKeepsUniqueIds(records, k);
      records := records[..k] + records[k + 1..];
      assert forall i :: 0 <= i < |records| ==> records[i] in records;
      r := Ok(());
    }
  }
}
