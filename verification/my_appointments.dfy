/**
 * The patient's appointment page: the status colour, the 12-hour rendering of a stored time, and the
 * two choices the page makes per appointment: whether the time badge appears next to the status, and
 * what the "Appointment Time" cell says.
 */
module MyAppointmentsPage {
  import opened Wrappers
  import opened JsText
  import opened AppointmentController

  /** `getStatusColor`: one colour per status of the enum, grey for anything else. */
  function StatusColor(status: string): (c: string)
    ensures status == Pending <==> c == "#ffa500"
    ensures status == Accepted <==> c == "#28a745"
    ensures status == Rejected <==> c == "#dc3545"
    ensures !IsKnownStatus(status) <==> c == "#6c757d"
  {
    if status == Pending then "#ffa500"
    else if status == Accepted then "#28a745"
    else if status == Rejected then "#dc3545"
    else "#6c757d"
  }

  /** A stored time the page treats as a real time: present (truthy) and not the schema's sentinel. */
  predicate HasTime(time: string): (ok: bool)
    ensures ok <==> time !in {"", NotScheduled}
  {
    time != "" && time != NotScheduled
  }

  // ---------------------------------------------------------------------------------------------
  // `split(':')`

  /** The text of `s` up to its first ':' (all of `s` when there is none). */
  function BeforeColon(s: string): (r: string)
    ensures |r| <= |s| && r == s[..|r|]
    ensures ':' !in r
    ensures |r| < |s| ==> s[|r|] == ':'
  {
    if s == [] || s[0] == ':' then []
    else
      var rest := BeforeColon(s[1..]);
      assert [s[0]] + rest == s[..|rest| + 1];
      [s[0]] + rest
  }

  /** `s.split(':')`: the pieces between the colons, in order; never empty. */
  function SplitColons(s: string): (parts: seq<string>)
    ensures |parts| >= 1
    ensures forall k :: 0 <= k < |parts| ==> ':' !in parts[k]
    decreases |s|
  {
    var head := BeforeColon(s);
    if |head| == |s| then [s] else [head] + SplitColons(s[|head| + 1..])
  }

  /** `parts.join(':')`, the inverse of the split. */
  function JoinColons(parts: seq<string>): string
    requires |parts| >= 1
  {
    if |parts| == 1 then parts[0] else parts[0] + ":" + JoinColons(parts[1..])
  }

  /** Splitting loses nothing: joining the pieces with ':' gives back the string. */
  lemma {:induction false} JoinSplitColons(s: string)
    ensures JoinColons(SplitColons(s)) == s
    decreases |s|
  {
    var head := BeforeColon(s);
    if |head| < |s| {
      var tail := s[|head| + 1..];
      JoinSplitColons(tail);
      assert s == head + ":" + tail;
    }
  }

  /** Pieces without colons split back out of their join. */
  lemma {:induction false} SplitJoinColons(parts: seq<string>)
    requires |parts| >= 1
    requires forall k :: 0 <= k < |parts| ==> ':' !in parts[k]
    ensures SplitColons(JoinColons(parts)) == parts
    decreases |parts|
  {
    if |parts| == 1 {
      BeforeColonWithoutColon(parts[0]);
    } else {
      var tail := JoinColons(parts[1..]);
      var s := parts[0] + ":" + tail;
      BeforeColonStopsAtColon(parts[0], tail);
      assert s[|parts[0]| + 1..] == tail;
      SplitJoinColons(parts[1..]);
    }
  }

  lemma {:induction false} BeforeColonWithoutColon(s: string)
    requires ':' !in s
    ensures BeforeColon(s) == s
  {
    if s != [] {
      assert s[0] in s;
      assert forall c :: c in s[1..] ==> c in s;
      BeforeColonWithoutColon(s[1..]);
    }
  }

  lemma {:induction false} BeforeColonStopsAtColon(head: string, tail: string)
    requires ':' !in head
    ensures BeforeColon(head + ":" + tail) == head
  {
    if head != [] {
      assert head[0] in head;
      assert forall c :: c in head[1..] ==> c in head;
      assert (head + ":" + tail)[1..] == head[1..] + ":" + tail;
      BeforeColonStopsAtColon(head[1..], tail);
    } else {
      assert (head + ":" + tail)[0] == ':';
    }
  }

  // ---------------------------------------------------------------------------------------------
  // `formatTime`

  /** `hour >= 12 ? 'PM' : 'AM'`, where a NaN hour compares false. */
  function Meridiem(hour: Option<int>): (m: string)
    ensures m == "PM" <==> hour.Some? && hour.value >= 12
    ensures m == "AM" || m == "PM"
  {
    if hour.Some? && hour.value >= 12 then "PM" else "AM"
  }

  /** `hour % 12 || 12`: the remainder (sign of the hour), or 12 when it is zero or NaN. */
  function DisplayHour(hour: Option<int>): (d: int)
    ensures hour.None? ==> d == 12
    ensures hour.Some? && hour.value >= 0 ==> 1 <= d <= 12 && d % 12 == hour.value % 12
    ensures hour.Some? && hour.value < 0 ==> -11 <= d <= -1 || d == 12
  {
    match hour
    case None => 12
    case Some(h) =>
      var m := JsRemainder(h, 12);
      if m == 0 then 12 else m
  }

  /**
   * `formatTime`: "Not scheduled" for a missing time or the sentinel; otherwise the hour read by
   * `parseInt` from the text before the first ':' in 12-hour form, then the text between the first and
   * second ':' verbatim ("undefined" when there is no ':'), then AM or PM.
   */
  function FormatTime(time: string): (r: string)
    ensures !HasTime(time) ==> r == "Not scheduled"
    ensures HasTime(time) ==> |r| >= 3 && (r[|r| - 3..] == " AM" || r[|r| - 3..] == " PM")
  {
    if !HasTime(time) then "Not scheduled"
    else
      var parts := SplitColons(time);
      var hour := ParseInt(parts[0]);
      var minutes := if |parts| >= 2 then parts[1] else "undefined";
      var suffix := " " + Meridiem(hour);
      var r := IntToString(DisplayHour(hour)) + ":" + minutes + suffix;
      assert r[|r| - 3..] == suffix;
      r
  }

  /** The two-digit, zero-padded text of an hour, as a time input writes it. */
  function TwoDigits(n: nat): (r: string)
    requires n < 100
    ensures |r| == 2 && '0' <= r[0] <= '9' && '0' <= r[1] <= '9'
  {
    [DigitChar(n / 10), DigitChar(n % 10)]
  }

  /** `parseInt` reads a zero-padded two-digit number, leading zero included, as that number. */
  lemma ParseTwoDigits(n: nat)
    requires n < 100
    ensures ParseInt(TwoDigits(n)) == Some(n)
  {
    var s := TwoDigits(n);
    assert TrimStart(s) == s by { assert !IsSpace(s[0]); }
    assert AllDigits(s, 10);
    DigitRunAll(s, 10);
    assert s[..2] == s;
    assert s[..1] == [s[0]];
    assert DigitsValue([s[0]], 10) == n / 10 by {
      assert [s[0]][..0] == [];
    }
  }

  /**
   * On every hour of the day the 12-hour form is faithful: the suffix is PM exactly from noon, the shown
   * hour lies in 1..12, and the suffix and the shown hour give the 24-hour hour back.
   */
  lemma {:induction false} TwelveHourClock(h: int)
    requires 0 <= h <= 23
    ensures Meridiem(Some(h)) == "PM" <==> h >= 12
    ensures 1 <= DisplayHour(Some(h)) <= 12
    ensures h == DisplayHour(Some(h)) % 12 + (if Meridiem(Some(h)) == "PM" then 12 else 0)
  {
    var d := DisplayHour(Some(h));
    assert d % 12 == h % 12;
    if h >= 12 {
      assert h % 12 == h - 12;
    } else {
      assert h % 12 == h;
    }
  }

  /**
   * What the page shows for a time input's value `HH:MM`: the hour in 12-hour form, the minutes as
   * stored, and the suffix. Seconds after a second ':' are dropped.
   */
  lemma FormatClockTime(h: nat, minutes: string, seconds: seq<string>)
    requires h <= 23
    requires ':' !in minutes && forall k :: 0 <= k < |seconds| ==> ':' !in seconds[k]
    ensures var time := JoinColons([TwoDigits(h), minutes] + seconds);
            FormatTime(time)
            == IntToString(DisplayHour(Some(h))) + ":" + minutes + " " + (if h >= 12 then "PM" else "AM")
  {
    var parts := [TwoDigits(h), minutes] + seconds;
    var time := JoinColons(parts);
    ClockPartsHaveNoColon(h, minutes, seconds);
    SplitJoinColons(parts);
    ClockTimeHasTime(parts);
    ParseTwoDigits(h);
    FormatTimeOfParts(time, parts);
  }

  lemma ClockPartsHaveNoColon(h: nat, minutes: string, seconds: seq<string>)
    requires h <= 23
    requires ':' !in minutes && forall k :: 0 <= k < |seconds| ==> ':' !in seconds[k]
    ensures var parts := [TwoDigits(h), minutes] + seconds;
            forall k :: 0 <= k < |parts| ==> ':' !in parts[k]
  {
    var parts := [TwoDigits(h), minutes] + seconds;
    forall k | 0 <= k < |parts| ensures ':' !in parts[k] {
      if k >= 2 {
        assert parts[k] == seconds[k - 2];
      }
    }
  }

  lemma ClockTimeHasTime(parts: seq<string>)
    requires |parts| >= 2 && |parts[0]| == 2
    ensures HasTime(JoinColons(parts))
  {
    var time := JoinColons(parts);
    JoinIsLong(parts);
    assert time[2] == ':';
    assert NotScheduled[2] != ':';
  }

  /** `formatTime` on a real time, in terms of the pieces the split yields. */
  lemma FormatTimeOfParts(time: string, parts: seq<string>)
    requires HasTime(time) && SplitColons(time) == parts && |parts| >= 2
    ensures FormatTime(time)
         == IntToString(DisplayHour(ParseInt(parts[0]))) + ":" + parts[1] + " " + Meridiem(ParseInt(parts[0]))
  {
  }

  lemma JoinIsLong(parts: seq<string>)
    requires |parts| >= 2
    ensures |JoinColons(parts)| > |parts[0]| && JoinColons(parts)[|parts[0]|] == ':'
  {
  }

  /** `FormatClockTime` for a time given by its text, with the text shown named. */
  lemma FormatClockTimeIs(time: string, h: nat, minutes: string, expected: string)
    requires h <= 23 && ':' !in minutes && time == JoinColons([TwoDigits(h), minutes])
    requires expected == IntToString(DisplayHour(Some(h))) + ":" + minutes + " " + (if h >= 12 then "PM" else "AM")
    ensures FormatTime(time) == expected
  {
    FormatClockTime(h, minutes, []);
    assert [TwoDigits(h), minutes] + [] == [TwoDigits(h), minutes];
  }

  lemma ClockExampleTexts()
    ensures JoinColons([TwoDigits(0), "15"]) == "00:15"
    ensures JoinColons([TwoDigits(12), "00"]) == "12:00"
    ensures JoinColons([TwoDigits(13), "05"]) == "13:05"
    ensures IntToString(DisplayHour(Some(0))) + ":" + "15" + " " + "AM" == "12:15 AM"
    ensures IntToString(DisplayHour(Some(12))) + ":" + "00" + " " + "PM" == "12:00 PM"
    ensures IntToString(DisplayHour(Some(13))) + ":" + "05" + " " + "PM" == "1:05 PM"
  {
  }

  /** Just after midnight is 12 AM, noon is 12 PM, one in the afternoon is 1 PM without a leading zero. */
  lemma FormatTimeExamples()
    ensures FormatTime("00:15") == "12:15 AM"
    ensures FormatTime("12:00") == "12:00 PM"
    ensures FormatTime("13:05") == "1:05 PM"
  {
    ClockExampleTexts();
    FormatClockTimeIs("00:15", 0, "15", "12:15 AM");
    FormatClockTimeIs("12:00", 12, "00", "12:00 PM");
    FormatClockTimeIs("13:05", 13, "05", "1:05 PM");
  }

  // ---------------------------------------------------------------------------------------------
  // The badge next to the status and the "Appointment Time" cell

  /** The green badge with the time appears only on an accepted appointment that has a real time. */
  predicate ShowTimeBadge(status: string, time: string): (ok: bool)
    ensures ok ==> StatusColor(status) == "#28a745"
    ensures ok ==> var t := FormatTime(time); |t| >= 3 && (t[|t| - 3..] == " AM" || t[|t| - 3..] == " PM")
  {
    HasTime(time) && status == Accepted
  }

  /** The three things the "Appointment Time" cell can show. */
  datatype TimeCell =
    | RetryNotice          // red "Please try another date"
    | ScheduledTime(text: string)  // green, the formatted time
    | AwaitingTime         // orange "Time not scheduled yet"

  /** The cell: a rejection wins whatever the time, then an accepted real time, else the waiting notice. */
  function TimeCellFor(status: string, time: string): (c: TimeCell)
    ensures c.RetryNotice? <==> status == Rejected
    ensures c.ScheduledTime? <==> status == Accepted && HasTime(time)
    ensures c.ScheduledTime? ==> c.text == FormatTime(time)
    ensures c.AwaitingTime? <==> status != Rejected && !(status == Accepted && HasTime(time))
  {
    if status == Rejected then RetryNotice
    else if status == Accepted && HasTime(time) then ScheduledTime(FormatTime(time))
    else AwaitingTime
  }

  /** The text of the cell's span: the formatted time, or one of the two fixed notices. */
  function CellText(c: TimeCell): (t: string)
    ensures c.ScheduledTime? ==> t == c.text
    ensures !c.ScheduledTime? ==> (t == "Please try another date" <==> c.RetryNotice?)
    ensures !c.ScheduledTime? ==> (t == "Time not scheduled yet" <==> c.AwaitingTime?)
  {
    match c
    case RetryNotice => "Please try another date"
    case ScheduledTime(text) => text
    case AwaitingTime => "Time not scheduled yet"
  }

  /** The colour of the cell's span: one distinct colour per kind of cell. */
  function CellColor(c: TimeCell): (col: string)
    ensures col == "#dc3545" <==> c.RetryNotice?
    ensures col == "#28a745" <==> c.ScheduledTime?
    ensures col == "#ffa500" <==> c.AwaitingTime?
  {
    match c
    case RetryNotice => "#dc3545"
    case ScheduledTime(_) => "#28a745"
    case AwaitingTime => "#ffa500"
  }

  /**
   * The badge and the cell agree: the badge shows exactly when the cell shows a time, and then both
   * show the same text; a time shown is never formatTime's "Not scheduled".
   */
  lemma BadgeAgreesWithCell(status: string, time: string)
    ensures ShowTimeBadge(status, time) <==> TimeCellFor(status, time).ScheduledTime?
    ensures ShowTimeBadge(status, time) ==> CellText(TimeCellFor(status, time)) == FormatTime(time)
    ensures ShowTimeBadge(status, time) ==> FormatTime(time) != "Not scheduled"
  {
    if ShowTimeBadge(status, time) {
      var r := FormatTime(time);
      assert r[|r| - 3..] == " AM" || r[|r| - 3..] == " PM";
      assert "Not scheduled"[10..] == "led";
    }
  }

  /** The cell's colour is the colour of the status it reflects, for every status of the enum. */
  lemma CellColorMatchesStatus(status: string, time: string)
    requires IsKnownStatus(status)
    ensures TimeCellFor(status, time).RetryNotice? ==> CellColor(TimeCellFor(status, time)) == StatusColor(status)
    ensures TimeCellFor(status, time).ScheduledTime? ==> CellColor(TimeCellFor(status, time)) == StatusColor(status)
    ensures status == Pending ==> CellColor(TimeCellFor(status, time)) == StatusColor(status)
  {
  }

  /**
   * A freshly booked appointment (Pending, time not chosen) shows an orange status, no badge, and
   * "Time not scheduled yet"; accepting it without a time still shows no time.
   */
  lemma FreshBookingView(a: Appointment)
    requires a.status == Pending && a.appointmentTime == NotScheduled
    ensures StatusColor(a.status) == "#ffa500"
    ensures !ShowTimeBadge(a.status, a.appointmentTime)
    ensures CellText(TimeCellFor(a.status, a.appointmentTime)) == "Time not scheduled yet"
    ensures CellText(TimeCellFor(Accepted, a.appointmentTime)) == "Time not scheduled yet"
  {
  }
}
