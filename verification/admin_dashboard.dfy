/**
 * The administrator's dashboard table: after a successful update request the page patches its local
 * copy of the appointment list instead of fetching it again, and each row shows the stored time in a
 * time input and the status in a coloured select.
 */
module AdminDashboard {
  import opened Wrappers
  import opened AppointmentController
  import opened MyAppointmentsPage

  /** The status handler's `map`: the entry with that id gets the new status, every entry keeps its place. */
  function WithStatus(list: seq<Appointment>, id: Id, status: string): (r: seq<Appointment>)
    ensures |r| == |list|
    ensures forall k :: 0 <= k < |list| ==> r[k].id == list[k].id
    ensures forall k :: 0 <= k < |list| && list[k].id == id ==> r[k] == list[k].(status := status)
    ensures forall k :: 0 <= k < |list| && list[k].id != id ==> r[k] == list[k]
  {
    if list == [] then []
    else [if list[0].id == id then list[0].(status := status) else list[0]] + WithStatus(list[1..], id, status)
  }

  /** The time handler's `map`: the entry with that id gets the new time, whatever it is, even "". */
  function WithTime(list: seq<Appointment>, id: Id, time: string): (r: seq<Appointment>)
    ensures |r| == |list|
    ensures forall k :: 0 <= k < |list| ==> r[k].id == list[k].id
    ensures forall k :: 0 <= k < |list| && list[k].id == id ==> r[k] == list[k].(appointmentTime := time)
    ensures forall k :: 0 <= k < |list| && list[k].id != id ==> r[k] == list[k]
  {
    if list == [] then []
    else [if list[0].id == id then list[0].(appointmentTime := time) else list[0]] + WithTime(list[1..], id, time)
  }

  /** A status picked in the select ends up in the local list exactly as the server stores it. */
  lemma StatusChangeMirrorsServer(list: seq<Appointment>, id: Id, status: string)
    requires status != ""
    ensures WithStatus(list, id, status) == UpdateById(list, id, UpdateRequest(status, ""))
  {
    var local := WithStatus(list, id, status);
    var stored := UpdateById(list, id, UpdateRequest(status, ""));
    forall k | 0 <= k < |list| ensures local[k] == stored[k] {
      if list[k].id == id {
        assert stored[k] == ApplyUpdate(list[k], UpdateRequest(status, ""));
      }
    }
  }

  /** A non-empty time ends up in the local list exactly as the server stores it. */
  lemma TimeChangeMirrorsServer(list: seq<Appointment>, id: Id, time: string)
    requires time != ""
    ensures WithTime(list, id, time) == UpdateById(list, id, UpdateRequest("", time))
  {
    var local := WithTime(list, id, time);
    var stored := UpdateById(list, id, UpdateRequest("", time));
    forall k | 0 <= k < |list| ensures local[k] == stored[k] {
      if list[k].id == id {
        assert stored[k] == ApplyUpdate(list[k], UpdateRequest("", time));
      }
    }
  }

  /**
   * Clearing the time input sends "", which the server ignores as falsy and answers with success, while
   * the table writes "" into its row: the row shows no time although the stored time is still there.
   */
  lemma ClearedTimeDiverges(list: seq<Appointment>, k: nat)
    requires k < |list| && list[k].appointmentTime != ""
    ensures WithTime(list, list[k].id, "")[k].appointmentTime == ""
    ensures UpdateById(list, list[k].id, UpdateRequest("", ""))[k].appointmentTime == list[k].appointmentTime
    ensures WithTime(list, list[k].id, "") != UpdateById(list, list[k].id, UpdateRequest("", ""))
  {
    assert WithTime(list, list[k].id, "")[k] != UpdateById(list, list[k].id, UpdateRequest("", ""))[k];
  }

  /** The time change that keeps the row equal to the stored record: an empty time changes nothing. */
  function WithTimeAsStored(list: seq<Appointment>, id: Id, time: string): (r: seq<Appointment>)
    ensures r == UpdateById(list, id, UpdateRequest("", time))
  {
    if time == "" then
      assert UpdateById(list, id, UpdateRequest("", "")) == list by {
        var stored := UpdateById(list, id, UpdateRequest("", ""));
        forall k | 0 <= k < |list| ensures stored[k] == list[k] {
          if list[k].id == id {
            assert stored[k] == ApplyUpdate(list[k], UpdateRequest("", ""));
          }
        }
      }
      list
    else
      TimeChangeMirrorsServer(list, id, time);
      WithTime(list, id, time)
  }

  /**
   * `handleUpdateStatus` on the local list: untouched when the request fails, otherwise the list the
   * server now holds, given that the list was the server's collection before.
   */
  function HandleUpdateStatus(list: seq<Appointment>, id: Id, status: string, response: Result<Appointment, Failure>)
    : (r: seq<Appointment>)
    ensures response.Err? ==> r == list
    ensures response.Ok? && status != "" ==> r == UpdateById(list, id, UpdateRequest(status, ""))
    ensures |r| == |list| && forall k :: 0 <= k < |list| ==> r[k].id == list[k].id
  {
    if response.Err? then list
    else
      assert status != "" ==> WithStatus(list, id, status) == UpdateById(list, id, UpdateRequest(status, "")) by {
        if status != "" {
          StatusChangeMirrorsServer(list, id, status);
        }
      }
      WithStatus(list, id, status)
  }

  /**
   * `handleUpdateTime` on the local list: untouched when the request fails, otherwise the row with that
   * id takes the time from the input, the list the server now holds whenever that time is non-empty.
   */
  function HandleUpdateTime(list: seq<Appointment>, id: Id, time: string, response: Result<Appointment, Failure>)
    : (r: seq<Appointment>)
    ensures response.Err? ==> r == list
    ensures response.Ok? && time != "" ==> r == UpdateById(list, id, UpdateRequest("", time))
    ensures |r| == |list| && forall k :: 0 <= k < |list| ==> r[k].id == list[k].id
    ensures response.Ok? ==> forall k :: 0 <= k < |list| && list[k].id == id ==> r[k].appointmentTime == time
    ensures response.Ok? ==> r == WithTime(list, id, time)
  {
    if response.Err? then list
    else
      assert time != "" ==> WithTime(list, id, time) == UpdateById(list, id, UpdateRequest("", time)) by {
        if time != "" {
          TimeChangeMirrorsServer(list, id, time);
        }
      }
      WithTime(list, id, time)
  }

  /** `handleUpdateTime` with the row kept equal to the stored record, whatever time the input sends. */
  function HandleUpdateTimeAsStored(list: seq<Appointment>, id: Id, time: string, response: Result<Appointment, Failure>)
    : (r: seq<Appointment>)
    ensures response.Err? ==> r == list
    ensures response.Ok? ==> r == UpdateById(list, id, UpdateRequest("", time))
  {
    if response.Err? then list else WithTimeAsStored(list, id, time)
  }

  /** The time input's value: blank for the sentinel, the stored time otherwise. */
  function TimeInputValue(time: string): (v: string)
    ensures v == "" <==> !HasTime(time)
    ensures v != "" ==> v == time
  {
    if time == NotScheduled then "" else time
  }

  /** The select's class: pending and accepted have their own, every other status looks rejected. */
  function StatusClass(status: string): (c: string)
    ensures c == "value-pending" <==> status == Pending
    ensures c == "value-accepted" <==> status == Accepted
    ensures c == "value-rejected" <==> status != Pending && status != Accepted
  {
    if status == Pending then "value-pending"
    else if status == Accepted then "value-accepted"
    else "value-rejected"
  }

  /**
   * The admin's select and the patient's badge agree on the three statuses of the enum, one class per
   * colour; a status outside the enum is styled as rejected here but grey on the patient page.
   */
  lemma StatusClassAgreesWithColor(status: string)
    ensures IsKnownStatus(status) ==> (StatusClass(status) == "value-rejected" <==> StatusColor(status) == "#dc3545")
    ensures IsKnownStatus(status) ==> (StatusClass(status) == "value-accepted" <==> StatusColor(status) == "#28a745")
    ensures IsKnownStatus(status) ==> (StatusClass(status) == "value-pending" <==> StatusColor(status) == "#ffa500")
    ensures !IsKnownStatus(status) ==> StatusClass(status) == "value-rejected" && StatusColor(status) == "#6c757d"
  {
  }

  /** A time set in the table is shown on the patient's page once the appointment is accepted. */
  lemma SetTimeReachesPatient(list: seq<Appointment>, k: nat, time: string, response: Result<Appointment, Failure>)
    requires k < |list| && response.Ok? && HasTime(time)
    ensures var row := HandleUpdateTime(list, list[k].id, time, response)[k];
            && TimeInputValue(row.appointmentTime) == time
            && ShowTimeBadge(Accepted, row.appointmentTime)
            && TimeCellFor(Accepted, row.appointmentTime) == ScheduledTime(FormatTime(time))
  {
    var row := HandleUpdateTime(list, list[k].id, time, response)[k];
    assert row == ApplyUpdate(list[k], UpdateRequest("", time));
  }
}
