/** The time stamp the HTML export reader gives a message, read from the text of the
    section's footer, such as "Apr 22, 2025 12:28:58 pm". */
module HtmlTimestamp {
  import opened Wrappers
  import opened Seqs
  import opened Text

  /** The fields of `/(\w+)\s+(\d+),\s+(\d+)\s+(\d+):(\d+):(\d+)\s+(am|pm)/i`. */
  datatype FooterFields = FooterFields(
    month: string, day: nat, year: nat, hour: nat, minute: nat, second: nat, isPM: bool)

  /** The value of the run of decimal digits starting at `a`. */
  function DigitRunValue(t: string, a: nat): nat
    requires a <= |t|
  {
    var b := RunEnd(t, a, IsDigit);
    var digits := t[a..b];
    assert forall i :: 0 <= i < |digits| ==> digits[i] == t[a + i];
    DecimalValue(digits)
  }

  /** The footer pattern matched at `p`. Every `+` must take its whole run, since the
      element after it cannot match a character of the run, so the match is unique. */
  function FooterAt(t: string, p: nat): Option<FooterFields>
  {
    match FooterDateAt(t, p)
      case None => None
      case Some(date) =>
        match FooterTimeAt(t, date.end)
          case None => None
          case Some(time) =>
            Some(FooterFields(date.month, date.day, date.year, time.hour, time.minute, time.second, time.isPM))
  }

  datatype FooterDate = FooterDate(month: string, day: nat, year: nat, end: nat)

  datatype FooterTime = FooterTime(hour: nat, minute: nat, second: nat, isPM: bool)

  /** The date part `(\w+)\s+(\d+),\s+(\d+)` matched at `p`, and where it ends. */
  function FooterDateAt(t: string, p: nat): (r: Option<FooterDate>)
    ensures r.Some? ==> r.value.end <= |t|
  {
    var q1 := RunEnd(t, p, IsWordChar);
    var q2 := RunEnd(t, q1, IsJsSpace);
    var q3 := RunEnd(t, q2, IsDigit);
    if q1 == p || q2 == q1 || q3 == q2 || q3 >= |t| || t[q3] != ',' then None
    else
      var q4 := RunEnd(t, q3 + 1, IsJsSpace);
      var q5 := RunEnd(t, q4, IsDigit);
      if q4 == q3 + 1 || q5 == q4 then None
      else Some(FooterDate(t[p..q1], DigitRunValue(t, q2), DigitRunValue(t, q4), q5))
  }

  /** The time part `\s+(\d+):(\d+):(\d+)\s+(am|pm)` matched at `q`. */
  function FooterTimeAt(t: string, q: nat): Option<FooterTime>
    requires q <= |t|
  {
    var q6 := RunEnd(t, q, IsJsSpace);
    if q6 == q then None else ClockAt(t, q6)
  }

  /** The clock reading `(\d+):(\d+):(\d+)\s+(am|pm)` matched at `a`. */
  function ClockAt(t: string, a: nat): Option<FooterTime>
    requires a <= |t|
  {
    var q7 := RunEnd(t, a, IsDigit);
    if q7 == a || q7 >= |t| || t[q7] != ':' then None
    else match ClockRestAt(t, q7 + 1)
      case Some(rest) => Some(FooterTime(DigitRunValue(t, a), rest.0, rest.1, rest.2))
      case None => None
  }

  /** The rest of the time part, `(\d+):(\d+)\s+(am|pm)` matched at `a`: the minutes,
      the seconds and whether it reads pm. */
  function ClockRestAt(t: string, a: nat): Option<(nat, nat, bool)>
    requires a <= |t|
  {
    var q8 := RunEnd(t, a, IsDigit);
    if q8 == a || q8 >= |t| || t[q8] != ':' then None
    else
      var q9 := RunEnd(t, q8 + 1, IsDigit);
      var q10 := RunEnd(t, q9, IsJsSpace);
      if q9 == q8 + 1 || q10 == q9 then None
      else match Meridiem(t, q10)
        case Some(isPM) => Some((DigitRunValue(t, a), DigitRunValue(t, q8 + 1), isPM))
        case None => None
  }

  /** `(am|pm)` under the `i` flag matched at `i`: whether it reads pm. */
  function Meridiem(t: string, i: nat): Option<bool>
  {
    if i + 2 <= |t| && LowerChar(t[i + 1]) == 'm' && (LowerChar(t[i]) == 'a' || LowerChar(t[i]) == 'p') then
      Some(LowerChar(t[i]) == 'p')
    else None
  }

  /** The marker matches exactly when "am" or "pm" occurs at `i` in either case, and it
      reads pm exactly when "pm" does. */
  lemma MeridiemIsAlternation(t: string, i: nat)
    ensures Meridiem(t, i).Some? <==> LiteralAt(t, i, "am") || LiteralAt(t, i, "pm")
    ensures Meridiem(t, i).Some? ==> (Meridiem(t, i).value <==> LiteralAt(t, i, "pm"))
  {
    if i + 2 <= |t| {
      assert Lower(t[i..i + 2]) == [LowerChar(t[i]), LowerChar(t[i + 1])];
    }
  }

  /** The leftmost match of the footer pattern at or after `p`. */
  function FooterMatch(t: string, p: nat): Option<FooterFields>
    decreases |t| - p
  {
    if p >= |t| then None
    else if FooterAt(t, p).Some? then FooterAt(t, p)
    else FooterMatch(t, p + 1)
  }

  const MonthNames: seq<string> :=
    ["Jan", "Feb", "Mar", "Apr", "May", "Jun", "Jul", "Aug", "Sep", "Oct", "Nov", "Dec"]

  /** `monthNames.indexOf(name)`: the zero-based month, or -1 (case-sensitive). */
  function MonthIndex(name: string): (i: int)
    ensures -1 <= i < 12
    ensures i >= 0 ==> MonthNames[i] == name
    ensures i == -1 ==> name !in MonthNames
  {
    IndexFrom(MonthNames, name, 0)
  }

  function IndexFrom(names: seq<string>, name: string, k: nat): (i: int)
    requires k <= |names|
    ensures -1 <= i < |names|
    ensures i >= 0 ==> k <= i && names[i] == name
    ensures i == -1 ==> name !in names[k..]
    decreases |names| - k
  {
    if k == |names| then -1
    else if names[k] == name then k
    else IndexFrom(names, name, k + 1)
  }

  /** The hour of the 24-hour clock for a 12-hour clock reading. */
  function ConvertHour(hour: nat, isPM: bool): (h: nat)
    ensures 1 <= hour <= 12 ==> 0 <= h < 24 && (h >= 12 <==> isPM)
  {
    if isPM && hour != 12 then hour + 12
    else if !isPM && hour == 12 then 0
    else hour
  }

  /** The 12-hour clock reading of a 24-hour clock hour. */
  function To12Hour(h: nat): (nat, bool)
  {
    (if h % 12 == 0 then 12 else h % 12, h >= 12)
  }

  /** Converting a 12-hour reading and reading it back on the 12-hour clock is the
      identity, and converting back from the 12-hour clock gives every hour of the day. */
  lemma ConvertHourRoundTrip(hour: nat, isPM: bool, h: nat)
    ensures 1 <= hour <= 12 ==> To12Hour(ConvertHour(hour, isPM)) == (hour, isPM)
    ensures h < 24 ==> ConvertHour(To12Hour(h).0, To12Hour(h).1) == h
  {
  }

  /** The clock and the calendar the time stamp rule depends on: the current time, the
      local-time constructor `new Date(y, m, d, h, mi, s).getTime()` and the fallback
      `new Date(text).getTime()` (None for NaN). */
  datatype Clock = Clock(
    now: int,
    localTime: (nat, nat, nat, nat, nat, nat) -> int,
    parseDate: string -> Option<int>)

  /** The time stamp given to a message whose trimmed footer text is `text`. */
  function FooterTimestamp(text: string, clock: Clock): (t: int)
    ensures text == [] ==> t == clock.now
    ensures FooterMatch(text, 0).Some? && MonthIndex(FooterMatch(text, 0).value.month) == -1 ==>
              t == clock.now
    ensures text != [] && FooterMatch(text, 0).Some? && MonthIndex(FooterMatch(text, 0).value.month) >= 0 ==>
              var f := FooterMatch(text, 0).value;
              t == clock.localTime(f.year, MonthIndex(f.month), f.day, ConvertHour(f.hour, f.isPM), f.minute, f.second)
    ensures text != [] && FooterMatch(text, 0).None? ==>
              t == (if clock.parseDate(text).Some? then clock.parseDate(text).value else clock.now)
  {
    if text == [] then clock.now
    else match FooterMatch(text, 0)
      case Some(f) =>
        var m := MonthIndex(f.month);
        if m >= 0 then clock.localTime(f.year, m, f.day, ConvertHour(f.hour, f.isPM), f.minute, f.second)
        else clock.now
      case None =>
        match clock.parseDate(text)
          case Some(t) => t
          case None => clock.now
  }

  /** The date part matched at the start of `t`, given where its runs end and what they read. */
  lemma {:induction false} FooterDateFromRuns(t: string, month: string, q3: nat, day: nat, year: nat, end: nat)
    requires 0 < |month| && |month| + 1 < q3 && q3 + 2 < end <= |t|
    requires t[..|month|] == month
    requires RunEnd(t, 0, IsWordChar) == |month| && RunEnd(t, |month|, IsJsSpace) == |month| + 1
    requires RunEnd(t, |month| + 1, IsDigit) == q3 && t[q3] == ','
    requires RunEnd(t, q3 + 1, IsJsSpace) == q3 + 2
    requires RunEnd(t, q3 + 2, IsDigit) == end
    requires DigitRunValue(t, |month| + 1) == day && DigitRunValue(t, q3 + 2) == year
    ensures FooterDateAt(t, 0) == Some(FooterDate(month, day, year, end))
  {
  }

  /** The time part matched at `q`, given where its runs end, what they read and the
      marker after them. */
  lemma {:induction false} FooterTimeFromRuns(t: string, q: nat, q7: nat, q8: nat, q9: nat,
                                              hour: nat, minute: nat, second: nat, isPM: bool)
    requires q + 1 < q7 && q7 + 1 < q8 && q8 + 1 < q9 && q9 + 3 <= |t|
    requires RunEnd(t, q, IsJsSpace) == q + 1
    requires RunEnd(t, q + 1, IsDigit) == q7 && t[q7] == ':'
    requires RunEnd(t, q7 + 1, IsDigit) == q8 && t[q8] == ':'
    requires RunEnd(t, q8 + 1, IsDigit) == q9
    requires RunEnd(t, q9, IsJsSpace) == q9 + 1
    requires DigitRunValue(t, q + 1) == hour && DigitRunValue(t, q7 + 1) == minute && DigitRunValue(t, q8 + 1) == second
    requires Meridiem(t, q9 + 1) == Some(isPM)
    ensures FooterTimeAt(t, q) == Some(FooterTime(hour, minute, second, isPM))
  {
    ClockRestFromRuns(t, q7, q8, q9, minute, second, isPM);
    HourFromRuns(t, q, q7, hour, minute, second, isPM);
  }

  lemma {:induction false} HourFromRuns(t: string, q: nat, q7: nat, hour: nat, minute: nat, second: nat, isPM: bool)
    requires q + 1 < q7 < |t|
    requires RunEnd(t, q, IsJsSpace) == q + 1
    requires RunEnd(t, q + 1, IsDigit) == q7 && t[q7] == ':'
    requires DigitRunValue(t, q + 1) == hour
    requires ClockRestAt(t, q7 + 1) == Some((minute, second, isPM))
    ensures FooterTimeAt(t, q) == Some(FooterTime(hour, minute, second, isPM))
  {
    ClockFromRuns(t, q + 1, q7, hour, minute, second, isPM);
  }

  lemma {:induction false} ClockFromRuns(t: string, a: nat, q7: nat, hour: nat, minute: nat, second: nat, isPM: bool)
    requires a < q7 < |t|
    requires RunEnd(t, a, IsDigit) == q7 && t[q7] == ':'
    requires DigitRunValue(t, a) == hour
    requires ClockRestAt(t, q7 + 1) == Some((minute, second, isPM))
    ensures ClockAt(t, a) == Some(FooterTime(hour, minute, second, isPM))
  {
  }

  lemma {:induction false} ClockRestFromRuns(t: string, q7: nat, q8: nat, q9: nat, minute: nat, second: nat, isPM: bool)
    requires q7 + 1 < q8 && q8 + 1 < q9 && q9 + 3 <= |t|
    requires RunEnd(t, q7 + 1, IsDigit) == q8 && t[q8] == ':'
    requires RunEnd(t, q8 + 1, IsDigit) == q9
    requires RunEnd(t, q9, IsJsSpace) == q9 + 1
    requires DigitRunValue(t, q7 + 1) == minute && DigitRunValue(t, q8 + 1) == second
    requires Meridiem(t, q9 + 1) == Some(isPM)
    ensures ClockRestAt(t, q7 + 1) == Some((minute, second, isPM))
  {
  }

  /** The value of the two-digit run at `a` of the example footer. */
  lemma {:induction false} TwoDigits(t: string, a: nat, d: string)
    requires a + 2 <= |t| && t[a..a + 2] == d && |d| == 2 && IsDigit(d[0]) && IsDigit(d[1])
    requires a + 2 < |t| ==> !IsDigit(t[a + 2])
    ensures RunEnd(t, a, IsDigit) == a + 2
    ensures DigitRunValue(t, a) == 10 * (d[0] as int - '0' as int) + (d[1] as int - '0' as int)
  {
    RunEndAt(t, a, a + 2, IsDigit);
    assert d[..1] == [d[0]] && d[..1][..0] == [];
    assert DecimalValue(d[..1]) == d[0] as int - '0' as int;
    assert DecimalValue(d) == 10 * DecimalValue(d[..1]) + (d[1] as int - '0' as int);
  }

  const ExampleFooterText: string := "Apr 22, 2025 12:28:58 pm"

  /** The date part of the example footer reads April 22, 2025. */
  lemma {:induction false} ExampleFooterDate()
    ensures FooterDateAt(ExampleFooterText, 0) == Some(FooterDate("Apr", 22, 2025, 12))
  {
    ExampleMonth();
    ExampleDay();
    ExampleYear();
    FooterDateFromRuns(ExampleFooterText, "Apr", 6, 22, 2025, 12);
  }

  lemma {:induction false} ExampleMonth()
    ensures ExampleFooterText[..3] == "Apr"
    ensures RunEnd(ExampleFooterText, 0, IsWordChar) == 3 && RunEnd(ExampleFooterText, 3, IsJsSpace) == 4
  {
    var t := ExampleFooterText;
    RunEndAt(t, 0, 3, IsWordChar);
    RunEndAt(t, 3, 4, IsJsSpace);
  }

  lemma {:induction false} ExampleDay()
    ensures RunEnd(ExampleFooterText, 4, IsDigit) == 6 && DigitRunValue(ExampleFooterText, 4) == 22
    ensures ExampleFooterText[6] == ',' && RunEnd(ExampleFooterText, 7, IsJsSpace) == 8
  {
    var t := ExampleFooterText;
    TwoDigits(t, 4, "22");
    RunEndAt(t, 7, 8, IsJsSpace);
  }

  lemma {:induction false} ExampleYear()
    ensures RunEnd(ExampleFooterText, 8, IsDigit) == 12 && DigitRunValue(ExampleFooterText, 8) == 2025
  {
    var t := ExampleFooterText;
    RunEndAt(t, 8, 12, IsDigit);
    var y := t[8..12];
    assert y == "2025";
    assert y[..3] == "202" && y[..3][..2] == "20" && y[..3][..2][..1] == "2" && y[..3][..2][..1][..0] == [];
    assert DecimalValue(y[..3][..2][..1]) == 2;
    assert DecimalValue(y[..3][..2]) == 20;
    assert DecimalValue(y[..3]) == 202;
    assert DecimalValue(y) == 2025;
  }

  /** The time part of the example footer reads 12:28:58 pm. */
  lemma {:induction false} ExampleFooterTime()
    ensures FooterTimeAt(ExampleFooterText, 12) == Some(FooterTime(12, 28, 58, true))
  {
    ExampleClockRuns();
    ExampleClockDigits();
    FooterTimeFromRuns(ExampleFooterText, 12, 15, 18, 21, 12, 28, 58, true);
  }

  lemma {:induction false} ExampleClockRuns()
    ensures RunEnd(ExampleFooterText, 12, IsJsSpace) == 13 && RunEnd(ExampleFooterText, 21, IsJsSpace) == 22
    ensures ExampleFooterText[15] == ':' && ExampleFooterText[18] == ':'
    ensures Meridiem(ExampleFooterText, 22) == Some(true)
  {
    var t := ExampleFooterText;
    RunEndAt(t, 12, 13, IsJsSpace);
    RunEndAt(t, 21, 22, IsJsSpace);
  }

  lemma {:induction false} ExampleClockDigits()
    ensures RunEnd(ExampleFooterText, 13, IsDigit) == 15 && DigitRunValue(ExampleFooterText, 13) == 12
    ensures RunEnd(ExampleFooterText, 16, IsDigit) == 18 && DigitRunValue(ExampleFooterText, 16) == 28
    ensures RunEnd(ExampleFooterText, 19, IsDigit) == 21 && DigitRunValue(ExampleFooterText, 19) == 58
  {
    var t := ExampleFooterText;
    TwoDigits(t, 13, "12");
    TwoDigits(t, 16, "28");
    TwoDigits(t, 19, "58");
  }

  /** The footer pattern reads the example footer as 22 April 2025, 12:28:58 pm. */
  lemma {:induction false} ExampleFooterMatch()
    ensures FooterMatch(ExampleFooterText, 0) == Some(FooterFields("Apr", 22, 2025, 12, 28, 58, true))
  {
    ExampleFooterDate();
    ExampleFooterTime();
  }

  /** The time stamp of the example footer is the local time of 22 April 2025 at
      12:28:58: month 3 counting from 0, and hour 12 on the 24-hour clock. */
  lemma {:induction false} ExampleFooter(clock: Clock)
    ensures FooterTimestamp(ExampleFooterText, clock) == clock.localTime(2025, 3, 22, 12, 28, 58)
  {
    ExampleFooterMatch();
    AprilIndex();
    TimestampOfMatch(ExampleFooterText, clock, FooterFields("Apr", 22, 2025, 12, 28, 58, true));
  }

  lemma {:induction false} AprilIndex()
    ensures MonthIndex("Apr") == 3
  {
  }

  /** A footer whose fields match, with a known month, is stamped with the local time of those fields. */
  lemma {:induction false} TimestampOfMatch(text: string, clock: Clock, f: FooterFields)
    requires text != [] && FooterMatch(text, 0) == Some(f) && MonthIndex(f.month) >= 0
    ensures FooterTimestamp(text, clock) ==
            clock.localTime(f.year, MonthIndex(f.month), f.day, ConvertHour(f.hour, f.isPM), f.minute, f.second)
  {
  }
}
