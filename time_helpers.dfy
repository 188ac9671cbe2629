/** Time-of-day arithmetic of the week grid: "HH:MM" text and minutes since
    midnight, durations, validation, rounding, the hour labels of the grid and
    the pixel position of a block when one hour is 60 pixels high. */
module TimeHelpers {
  import opened TimeText

  /** Minutes since midnight of "H:MM"/"HH:MM" text: hours * 60 + minutes;
      None where the source computes NaN (no ':' or a field that is not a
      digit string). */
  function TimeToMinutes(time: string): Option<int>
  {
    match HoursAndMinutes(time)
    case Some((h, m)) => Some(h * 60 + m)
    case None => None
  }

  /** "HH:MM" text of a minute count: floor(minutes / 60) hours and the
      JavaScript remainder minutes % 60, each padded to two characters. */
  function MinutesToTime(minutes: int): string
  {
    Pad2(minutes / 60) + ":" + Pad2(JsRem(minutes, 60))
  }

  /** The hour field of the time pattern: one digit, or 00-19, or 20-23. */
  predicate ValidHour(h: string)
  {
    || (|h| == 1 && IsDigit(h[0]))
    || (|h| == 2 && '0' <= h[0] <= '1' && IsDigit(h[1]))
    || (|h| == 2 && h[0] == '2' && '0' <= h[1] <= '3')
  }

  /** The minute field of the time pattern: 00-59. */
  predicate ValidMinute(m: string)
  {
    |m| == 2 && '0' <= m[0] <= '5' && IsDigit(m[1])
  }

  /** The whole-string pattern `([0-1]?[0-9]|2[0-3]):[0-5][0-9]`. The hour
      field holds no ':', so the one ':' of a match is the first. */
  predicate IsValidTime(time: string)
  {
    var k := ColonIndex(time);
    k < |time| && ValidHour(time[..k]) && ValidMinute(time[k + 1..])
  }

  /** Half-open intervals [start1, end1) and [start2, end2) share a minute. */
  predicate IsOverlapping(start1: int, end1: int, start2: int, end2: int)
  {
    start1 < end2 && start2 < end1
  }

  /** end - start in minutes; None when either time does not parse. */
  function CalculateDuration(startTime: string, endTime: string): Option<int>
  {
    match (TimeToMinutes(startTime), TimeToMinutes(endTime))
    case (Some(s), Some(e)) => Some(e - s)
    case _ => None
  }

  /** The end time lies after the start time; a NaN comparison is false. */
  function IsEndTimeAfterStartTime(startTime: string, endTime: string): (after: bool)
    ensures after <==> CalculateDuration(startTime, endTime).Some? && CalculateDuration(startTime, endTime).value > 0
  {
    match (TimeToMinutes(endTime), TimeToMinutes(startTime))
    case (Some(e), Some(s)) => e > s
    case _ => false
  }

  /** "M min", "H tim" or "H tim M min" from floor(minutes / 60) hours and
      the JavaScript remainder minutes % 60. */
  function FormatDuration(minutes: int): string
  {
    var hours := minutes / 60;
    var mins := JsRem(minutes, 60);
    if hours == 0 then IntToString(mins) + " min"
    else if mins == 0 then IntToString(hours) + " tim"
    else IntToString(hours) + " tim " + IntToString(mins) + " min"
  }

  /** Math.round(minutes / 15) * 15: Math.round adds one half and floors, and a
      whole number of minutes never lies exactly half-way between quarters. */
  function QuarterRound(minutes: nat): nat
  {
    ((2 * minutes + 15) / 30) * 15
  }

  /** The time rounded to the nearest quarter hour; a round-up to 60 minutes
      carries into the hour. None where the source would format NaN. */
  function RoundToQuarter(time: string): Option<string>
  {
    match HoursAndMinutes(time)
    case None => None
    case Some((hours, minutes)) => Some(QuarterText(hours, QuarterRound(minutes)))
  }

  /** The text of a rounded time: a full 60 minutes becomes the next hour. */
  function QuarterText(hours: int, rounded: int): string
  {
    if rounded == 60 then Pad2(hours + 1) + ":00"
    else Pad2(hours) + ":" + Pad2(rounded)
  }

  /** One row label of the grid: the hour padded to two characters, then ":00". */
  function HourLabel(hour: int): string
  {
    Pad2(hour) + ":00"
  }

  /** The labels "HH:00" for every hour from startHour to endHour inclusive. */
  method GenerateTimeSlots(startHour: int, endHour: int) returns (slots: seq<string>)
    ensures |slots| == if startHour <= endHour then endHour - startHour + 1 else 0
    ensures forall i :: 0 <= i < |slots| ==> slots[i] == HourLabel(startHour + i)
  {
    slots := [];
    var hour := startHour;
    while hour <= endHour
      invariant startHour <= hour
      invariant hour == startHour || hour <= endHour + 1
      invariant |slots| == hour - startHour
      invariant forall i :: 0 <= i < |slots| ==> slots[i] == HourLabel(startHour + i)
      decreases endHour + 1 - hour
    {
      slots := slots + [HourLabel(hour)];
      hour := hour + 1;
    }
  }

  /** The grid starts at 07:00. */
  const BaseHour: int := 7

  /** Vertical placement of a block, in pixels, with one hour = 60 pixels. */
  datatype Position = Position(top: int, height: int)

  /** calculatePosition with the default hourHeight of 60: the top is the
      number of minutes after 07:00 and the height is the duration in minutes. */
  function CalculatePosition(startTime: string, endTime: string): (pos: Option<Position>)
    ensures pos.Some? <==> TimeToMinutes(startTime).Some? && TimeToMinutes(endTime).Some?
    ensures pos.Some? ==> pos.value.top == TimeToMinutes(startTime).value - BaseHour * 60
    ensures pos.Some? ==> pos.value.height == CalculateDuration(startTime, endTime).value
  {
    match (HoursAndMinutes(startTime), HoursAndMinutes(endTime))
    case (Some((startHour, startMin)), Some((endHour, endMin))) =>
      var startMinutes := (startHour - BaseHour) * 60 + startMin;
      var endMinutes := (endHour - BaseHour) * 60 + endMin;
      Some(Position(startMinutes, endMinutes - startMinutes))
    case _ => None
  }

  // ---------------------------------------------------------------------
  // Properties

  lemma OverlapSymmetric(s1: int, e1: int, s2: int, e2: int)
    ensures IsOverlapping(s1, e1, s2, e2) == IsOverlapping(s2, e2, s1, e1)
  {
  }

  /** Touching intervals do not overlap. */
  lemma TouchingDoNotOverlap(s1: int, e1: int, e2: int)
    ensures !IsOverlapping(s1, e1, e1, e2)
  {
  }

  lemma TwoDigitValue(s: string)
    requires |s| == 2 && AllDigits(s)
    ensures ParseDigits(s) == 10 * DigitValue(s[0]) + DigitValue(s[1])
  {
    var p := s[..1];
    assert p[..|p| - 1] == [];
    assert ParseDigits(p) == DigitValue(s[0]);
    assert s[..|s| - 1] == p;
  }

  /** Padded hour and minute fields joined by ':' read back as minutes. */
  lemma PaddedTimeMinutes(h: int, m: int)
    requires 0 <= h < 100 && 0 <= m < 100
    ensures TimeToMinutes(Pad2(h) + ":" + Pad2(m)) == Some(h * 60 + m)
  {
    Pad2Parses(h);
    Pad2Parses(m);
    SplitJoined(Pad2(h), Pad2(m));
  }

  lemma PaddedHourValid(h: int)
    requires 0 <= h < 24
    ensures ValidHour(Pad2(h))
  {
    Pad2Explicit(h);
  }

  lemma PaddedMinuteValid(m: int)
    requires 0 <= m < 60
    ensures ValidMinute(Pad2(m))
  {
    Pad2Explicit(m);
  }

  lemma JoinedValid(x: string, y: string)
    requires AllDigits(x) && ValidHour(x) && ValidMinute(y)
    ensures IsValidTime(x + ":" + y)
  {
    var t := x + ":" + y;
    ColonPosition(x, y);
    assert t[..|x|] == x;
    assert t[|x| + 1..] == y;
  }

  /** Padded fields of an hour 0-23 and a minute 0-59 match the time pattern. */
  lemma PaddedTimeValid(h: int, m: int)
    requires 0 <= h < 24 && 0 <= m < 60
    ensures |Pad2(h) + ":" + Pad2(m)| == 5
    ensures IsValidTime(Pad2(h) + ":" + Pad2(m))
  {
    Pad2TwoDigits(h);
    Pad2TwoDigits(m);
    PaddedHourValid(h);
    PaddedMinuteValid(m);
    JoinedValid(Pad2(h), Pad2(m));
  }

  /** A valid time parses to a minute of the day, from a 0-23 hour field and
      a 0-59 minute field. */
  lemma {:induction false} ValidTimeParses(time: string)
    requires IsValidTime(time)
    ensures HoursAndMinutes(time).Some?
    ensures HoursAndMinutes(time).value.0 < 24 && HoursAndMinutes(time).value.1 < 60
    ensures TimeToMinutes(time) == Some(HoursAndMinutes(time).value.0 * 60 + HoursAndMinutes(time).value.1)
    ensures 0 <= TimeToMinutes(time).value < 1440
  {
    var k := ColonIndex(time);
    var h, m := time[..k], time[k + 1..];
    assert time == h + ":" + m;
    SplitJoined(h, m);
    TwoDigitValue(m);
    if |h| == 2 {
      TwoDigitValue(h);
    } else {
      assert h[..|h| - 1] == [];
    }
  }

  /** minutesToTime gives valid, zero-padded "HH:MM" text for every minute of
      the day, and timeToMinutes reads it back. */
  lemma {:induction false} MinutesToTimeRoundTrip(minutes: int)
    requires 0 <= minutes < 1440
    ensures |MinutesToTime(minutes)| == 5
    ensures IsValidTime(MinutesToTime(minutes))
    ensures TimeToMinutes(MinutesToTime(minutes)) == Some(minutes)
  {
    var h, m := minutes / 60, minutes % 60;
    assert JsRem(minutes, 60) == m;
    assert MinutesToTime(minutes) == Pad2(h) + ":" + Pad2(m);
    PaddedTimeMinutes(h, m);
    PaddedTimeValid(h, m);
  }

  /** Padding the value of a two-digit string gives the string back. */
  lemma Pad2OfTwoDigits(s: string)
    requires |s| == 2 && AllDigits(s)
    ensures Pad2(ParseDigits(s)) == s
  {
    TwoDigitValue(s);
    var a, b := DigitValue(s[0]), DigitValue(s[1]);
    assert (10 * a + b) / 10 == a && (10 * a + b) % 10 == b;
    Pad2Explicit(10 * a + b);
    DigitCharValue(s[0]);
    DigitCharValue(s[1]);
    assert s == [s[0], s[1]];
  }

  lemma SplitMinutes(h: nat, m: nat)
    requires m < 60
    ensures (h * 60 + m) / 60 == h && (h * 60 + m) % 60 == m
  {
  }

  /** A valid time written with two hour digits is exactly what minutesToTime
      prints for its minute count. */
  lemma {:induction false} CanonicalTimeRoundTrip(time: string)
    requires IsValidTime(time) && |time| == 5
    ensures TimeToMinutes(time).Some?
    ensures MinutesToTime(TimeToMinutes(time).value) == time
  {
    ValidTimeParses(time);
    var k := ColonIndex(time);
    var h, m := time[..k], time[k + 1..];
    assert |h| == 2;
    assert time == h + ":" + m;
    SplitJoined(h, m);
    var hv, mv := ParseDigits(h), ParseDigits(m);
    assert TimeToMinutes(time) == Some(hv * 60 + mv);
    SplitMinutes(hv, mv);
    assert JsRem(hv * 60 + mv, 60) == mv;
    Pad2OfTwoDigits(h);
    Pad2OfTwoDigits(m);
  }

  /** A round hour label reads back as that hour's minute count, so the grid
      labels follow the hours in increasing order. */
  lemma HourLabelMinutes(hour: int)
    requires 0 <= hour < 100
    ensures TimeToMinutes(HourLabel(hour)) == Some(hour * 60)
    ensures hour < 24 ==> IsValidTime(HourLabel(hour))
  {
    Pad2Explicit(0);
    assert HourLabel(hour) == Pad2(hour) + ":" + Pad2(0);
    PaddedTimeMinutes(hour, 0);
    if hour < 24 {
      PaddedTimeValid(hour, 0);
    }
  }

  lemma QuarterRoundNearest(minutes: nat)
    requires minutes < 60
    ensures QuarterRound(minutes) in {0, 15, 30, 45, 60}
    ensures -7 <= QuarterRound(minutes) - minutes <= 7
  {
  }

  lemma QuarterTextMinutes(hours: nat, rounded: nat)
    requires hours < 24 && rounded <= 60
    ensures TimeToMinutes(QuarterText(hours, rounded)) == Some(hours * 60 + rounded)
  {
    Pad2Explicit(0);
    assert Pad2(0) == "00";
    if rounded == 60 {
      assert QuarterText(hours, rounded) == Pad2(hours + 1) + ":" + Pad2(0);
      PaddedTimeMinutes(hours + 1, 0);
    } else {
      PaddedTimeMinutes(hours, rounded);
    }
  }

  /** The rounded text of a valid time reads back as its hours and rounded
      minutes. */
  lemma RoundToQuarterReadsBack(time: string, hours: nat, minutes: nat)
    requires IsValidTime(time) && HoursAndMinutes(time) == Some((hours, minutes))
    requires hours < 24 && minutes < 60
    ensures RoundToQuarter(time).Some?
    ensures TimeToMinutes(RoundToQuarter(time).value) == Some(hours * 60 + QuarterRound(minutes))
  {
    QuarterRoundNearest(minutes);
    assert RoundToQuarter(time) == Some(QuarterText(hours, QuarterRound(minutes)));
    QuarterTextMinutes(hours, QuarterRound(minutes));
  }

  /** roundToQuarter of a valid time gives a time on a quarter hour that is
      at most 7 minutes away; 23:53 and later carry to "24:00". */
  lemma {:induction false} RoundToQuarterNearest(time: string)
    requires IsValidTime(time)
    ensures RoundToQuarter(time).Some?
    ensures TimeToMinutes(RoundToQuarter(time).value).Some?
    ensures TimeToMinutes(RoundToQuarter(time).value).value % 15 == 0
    ensures -7 <= TimeToMinutes(RoundToQuarter(time).value).value - TimeToMinutes(time).value <= 7
  {
    ValidTimeParses(time);
    var hm := HoursAndMinutes(time).value;
    var hours, minutes := hm.0, hm.1;
    RoundToQuarterReadsBack(time, hours, minutes);
    var before := TimeToMinutes(time).value;
    var after := TimeToMinutes(RoundToQuarter(time).value).value;
    QuarterArithmetic(hours, minutes, before, after);
  }

  lemma QuarterArithmetic(hours: nat, minutes: nat, before: int, after: int)
    requires minutes < 60
    requires before == hours * 60 + minutes && after == hours * 60 + QuarterRound(minutes)
    ensures after % 15 == 0
    ensures -7 <= after - before <= 7
  {
    QuarterRoundNearest(minutes);
    var rounded := QuarterRound(minutes);
    MultipleOfQuarter(4 * hours + rounded / 15);
    assert hours * 60 + rounded == 15 * (4 * hours + rounded / 15);
  }

  lemma MultipleOfQuarter(q: int)
    ensures (15 * q) % 15 == 0
  {
  }

  /** formatDuration: minutes only below an hour, hours only on a whole
      hour, otherwise both. A negative count that is not a whole number of
      hours mixes the floored hour with the truncated remainder, so the
      hour shown is one more than the whole hours it contains: -30 reads
      "-1 tim -30 min". */
  lemma FormatDurationCases(minutes: int)
    ensures 0 <= minutes < 60 ==> FormatDuration(minutes) == NatToString(minutes) + " min"
    ensures minutes >= 60 && minutes % 60 == 0 ==> FormatDuration(minutes) == NatToString(minutes / 60) + " tim"
    ensures minutes >= 60 && minutes % 60 != 0 ==>
      FormatDuration(minutes) == NatToString(minutes / 60) + " tim " + NatToString(minutes % 60) + " min"
    ensures minutes < 0 && minutes % 60 == 0 ==> FormatDuration(minutes) == "-" + NatToString(-minutes / 60) + " tim"
    ensures minutes < 0 && minutes % 60 != 0 ==>
      FormatDuration(minutes) == "-" + NatToString((-minutes) / 60 + 1) + " tim -" + NatToString((-minutes) % 60) + " min"
  {
    if minutes < 0 {
      var n := -minutes;
      if n % 60 == 0 {
        assert minutes / 60 == -(n / 60);
      } else {
        assert minutes / 60 == -(n / 60 + 1);
        var h := NatToString(n / 60 + 1);
        var m := NatToString(n % 60);
        assert ("-" + h) + " tim " + ("-" + m) + " min" == "-" + h + " tim -" + m + " min";
      }
    }
  }
}
