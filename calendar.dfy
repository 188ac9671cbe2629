/** Dates and the week calendar of section 3.2.2 of ISO 8601:2004 as the week
    grid uses them. A date is a day number in the proleptic Gregorian
    calendar: day 1 is Monday 1 January of year 1, so `d % 7` is the weekday
    of JavaScript's getDay (0 = Sunday, 1 = Monday, ..., 6 = Saturday). */
module IsoWeeks {

  predicate IsLeapYear(y: int)
  {
    y % 4 == 0 && (y % 100 != 0 || y % 400 == 0)
  }

  /** The day number of 1 January of year y. */
  function JanFirst(y: int): int
  {
    365 * (y - 1) + (y - 1) / 4 - (y - 1) / 100 + (y - 1) / 400 + 1
  }

  lemma DivStep(n: int)
    ensures (n + 1) / 4 - n / 4 == if (n + 1) % 4 == 0 then 1 else 0
    ensures (n + 1) / 100 - n / 100 == if (n + 1) % 100 == 0 then 1 else 0
    ensures (n + 1) / 400 - n / 400 == if (n + 1) % 400 == 0 then 1 else 0
  {
  }

  /** Moving a day number by whole weeks keeps its weekday. */
  lemma ShiftWeeks(a: int, k: int)
    ensures (a + 7 * k) % 7 == a % 7
    ensures (a + 7 * k) / 7 == a / 7 + k
  {
  }

  /** A year has 366 days when it is a leap year and 365 otherwise. */
  lemma JanFirstStep(y: int)
    ensures JanFirst(y + 1) == JanFirst(y) + (if IsLeapYear(y) then 366 else 365)
  {
    DivStep(y - 1);
    DivisorChain(y);
    assert JanFirst(y + 1) - JanFirst(y) == 365 + (y / 4 - (y - 1) / 4) - (y / 100 - (y - 1) / 100) + (y / 400 - (y - 1) / 400);
  }

  /** A multiple of 400 is one of 100, and a multiple of 100 one of 4. */
  lemma DivisorChain(y: int)
    ensures y % 400 == 0 ==> y % 100 == 0
    ensures y % 100 == 0 ==> y % 4 == 0
  {
    if y % 400 == 0 {
      var q := y / 400;
      assert y == 400 * q;
      assert y == 100 * (4 * q) + 0;
    }
    if y % 100 == 0 {
      var q := y / 100;
      assert y == 100 * q;
      assert y == 4 * (25 * q) + 0;
    }
  }

  lemma {:induction false} JanFirstGrows(a: int, b: int)
    requires a <= b
    ensures JanFirst(a) + 365 * (b - a) <= JanFirst(b)
    decreases b - a
  {
    if a < b {
      JanFirstStep(b - 1);
      JanFirstGrows(a, b - 1);
    }
  }

  function YearUp(d: int, y: int): (r: int)
    requires JanFirst(y) <= d
    ensures JanFirst(r) <= d < JanFirst(r + 1)
    decreases d - JanFirst(y)
  {
    JanFirstStep(y);
    if d < JanFirst(y + 1) then y else YearUp(d, y + 1)
  }

  function YearDown(d: int, y: int): (r: int)
    requires d < JanFirst(y + 1)
    ensures JanFirst(r) <= d < JanFirst(r + 1)
    decreases JanFirst(y + 1) - d
  {
    JanFirstStep(y);
    if JanFirst(y) <= d then y else YearDown(d, y - 1)
  }

  /** getFullYear of a date: the year whose days contain it. */
  function YearOf(d: int): (y: int)
    ensures JanFirst(y) <= d < JanFirst(y + 1)
  {
    if d >= 1 then YearUp(d, 1) else YearDown(d, 0)
  }

  /** Exactly one year contains a date. */
  lemma YearOfUnique(d: int, y: int)
    requires JanFirst(y) <= d < JanFirst(y + 1)
    ensures YearOf(d) == y
  {
    var r := YearOf(d);
    if r < y {
      JanFirstGrows(r + 1, y);
    } else if r > y {
      JanFirstGrows(y + 1, r);
    }
  }

  /** getUTCDay() || 7: the ISO weekday, Monday = 1 ... Sunday = 7. */
  function IsoWeekday(d: int): (k: int)
    ensures 1 <= k <= 7 && k % 7 == d % 7
  {
    if d % 7 == 0 then 7 else d % 7
  }

  /** The i-th day after a Monday has ISO weekday i + 1. */
  lemma MondayPlus(m: int, i: int)
    requires m % 7 == 1 && 0 <= i < 7
    ensures IsoWeekday(m + i) == i + 1
  {
  }

  /** The Thursday of the Monday-to-Sunday week holding d. */
  function ThursdayOf(d: int): int
  {
    d + 4 - IsoWeekday(d)
  }

  /** The year an ISO week belongs to: the year of its Thursday. */
  function IsoWeekYear(d: int): int
  {
    YearOf(ThursdayOf(d))
  }

  /** getWeekNumber: the number of the week of the Thursday in its year,
      Math.ceil((days since 1 January + 1) / 7). */
  function WeekNumber(d: int): (w: int)
    ensures 1 <= w <= 53
  {
    var th := ThursdayOf(d);
    var y := YearOf(th);
    JanFirstStep(y);
    (th - JanFirst(y)) / 7 + 1
  }

  /** The Monday on or before the fourth day of a year that starts on day
      `jan1`, as getDatesForWeek finds it from 4 January. */
  function MondayBeforeFourth(jan1: int): int
  {
    var jan4 := jan1 + 3;
    var dayOfWeek := jan4 % 7;
    jan4 - (if dayOfWeek == 0 then 6 else dayOfWeek - 1)
  }

  /** The Monday of week one of year y. */
  function MondayOfWeekOne(y: int): int
  {
    MondayBeforeFourth(JanFirst(y))
  }

  /** The Monday on or before the fourth day of a year is a Monday at most
      six days before it, and the Thursday after it is the year's first. */
  lemma MondayBeforeFourthFacts(jan1: int)
    ensures var m := MondayBeforeFourth(jan1);
      && m % 7 == 1
      && m <= jan1 + 3 < m + 7
      && jan1 <= m + 3 < jan1 + 7
      && (m + 3) % 7 == 4
      && forall t :: jan1 <= t < m + 3 ==> t % 7 != 4
  {
  }

  /** The Monday of week w: 7 * (w - 1) days after the Monday of week one. */
  function MondayOfWeek(w: int, y: int): int
  {
    MondayOfWeekOne(y) + (w - 1) * 7
  }

  /** Week one's Monday is a Monday at most six days before 4 January, and
      its Thursday is the first Thursday of the year. */
  lemma WeekOneFacts(y: int)
    ensures var m := MondayOfWeekOne(y);
      && m % 7 == 1
      && m <= JanFirst(y) + 3 < m + 7
      && JanFirst(y) <= m + 3 < JanFirst(y) + 7
      && (m + 3) % 7 == 4
      && forall t :: JanFirst(y) <= t < m + 3 ==> t % 7 != 4
  {
    MondayBeforeFourthFacts(JanFirst(y));
  }

  /** Weeks 1 to 52 exist in every year: their Thursday lies in the year. */
  lemma WeeksUpTo52Exist(w: int, y: int)
    requires 1 <= w <= 52
    ensures JanFirst(y) <= MondayOfWeek(w, y) + 3 < JanFirst(y + 1)
  {
    WeekOneFacts(y);
    JanFirstStep(y);
  }

  /** Week w's Monday, for a year starting on day jan1, is a Monday whose
      Thursday lies w - 1 whole weeks after the year's first Thursday. */
  lemma MondayOfWeekAt(jan1: int, w: int)
    requires 1 <= w
    ensures var m := MondayBeforeFourth(jan1) + (w - 1) * 7;
      m % 7 == 1 && jan1 <= m + 3 && (m + 3 - jan1) / 7 == w - 1
  {
    var m1 := MondayBeforeFourth(jan1);
    MondayBeforeFourthFacts(jan1);
    ShiftWeeks(m1, w - 1);
    ShiftWeeks(m1 + 3 - jan1, w - 1);
  }

  /** Every day of the week starting on Monday m has m + 3 as its Thursday. */
  lemma ThursdayOfWeekDay(m: int, i: int)
    requires m % 7 == 1 && 0 <= i < 7
    ensures ThursdayOf(m + i) == m + 3
  {
    MondayPlus(m, i);
  }

  /** The days of a week that exists in year y (its Thursday lies in y) all
      have week number w in ISO week-year y. */
  lemma WeekRoundTrip(w: int, y: int, i: int)
    requires 1 <= w && 0 <= i < 7
    requires MondayOfWeek(w, y) + 3 < JanFirst(y + 1)
    ensures WeekNumber(MondayOfWeek(w, y) + i) == w
    ensures IsoWeekYear(MondayOfWeek(w, y) + i) == y
  {
    var m := MondayOfWeek(w, y);
    MondayOfWeekAt(JanFirst(y), w);
    WeekYearOfWeekDay(w, y, i);
    assert ThursdayOf(m + i) == m + 3;
  }

  lemma WeekYearOfWeekDay(w: int, y: int, i: int)
    requires 1 <= w && 0 <= i < 7
    requires MondayOfWeek(w, y) + 3 < JanFirst(y + 1)
    ensures ThursdayOf(MondayOfWeek(w, y) + i) == MondayOfWeek(w, y) + 3
    ensures IsoWeekYear(MondayOfWeek(w, y) + i) == y
  {
    var m := MondayOfWeek(w, y);
    MondayOfWeekAt(JanFirst(y), w);
    ThursdayYear(m, i, y);
  }

  /** The days of a week whose Thursday lies in year y belong to
      week-year y. */
  lemma ThursdayYear(m: int, i: int, y: int)
    requires m % 7 == 1 && 0 <= i < 7 && JanFirst(y) <= m + 3 < JanFirst(y + 1)
    ensures ThursdayOf(m + i) == m + 3 && IsoWeekYear(m + i) == y
  {
    ThursdayOfWeekDay(m, i);
    YearOfUnique(m + 3, y);
  }

  lemma SameWeekday(a: int, b: int)
    requires a % 7 == b % 7
    ensures a - b == 7 * ((a - b) / 7)
  {
  }

  /** A Thursday on or after the first day `jan1` of its year lies a whole
      number of weeks after the Thursday of week one: the number of whole
      weeks since `jan1`. */
  lemma ThursdayInYear(jan1: int, th: int)
    requires jan1 <= th && th % 7 == 4
    ensures MondayBeforeFourth(jan1) + ((th - jan1) / 7) * 7 == th - 3
  {
    var first := MondayBeforeFourth(jan1) + 3;
    MondayBeforeFourthFacts(jan1);
    assert first <= th;
    SameWeekday(th, first);
    var k := (th - first) / 7;
    ShiftWeeks(first - jan1, k);
  }

  /** Every date lies in the week that its week number and ISO week-year
      name: that week's Monday is the Monday on or before the date. */
  lemma WeekOfDate(d: int)
    ensures MondayOfWeek(WeekNumber(d), IsoWeekYear(d)) == d + 1 - IsoWeekday(d)
    ensures MondayOfWeek(WeekNumber(d), IsoWeekYear(d)) <= d < MondayOfWeek(WeekNumber(d), IsoWeekYear(d)) + 7
  {
    var th := ThursdayOf(d);
    var y := YearOf(th);
    var jan1 := JanFirst(y);
    ThursdayIsThursday(d);
    assert WeekNumber(d) - 1 == (th - jan1) / 7;
    assert IsoWeekYear(d) == y;
    ThursdayInYear(jan1, th);
    assert MondayOfWeek(WeekNumber(d), y) == MondayBeforeFourth(jan1) + ((th - jan1) / 7) * 7;
  }

  lemma ThursdayIsThursday(d: int)
    ensures ThursdayOf(d) % 7 == 4
  {
    var k := IsoWeekday(d);
    SameWeekday(d, k);
    ShiftWeeks(4, (d - k) / 7);
  }

  /** Week w's Monday is a Monday, whatever w. */
  lemma MondayOfWeekIsMonday(w: int, y: int)
    ensures MondayOfWeek(w, y) % 7 == 1
  {
    MondayBeforeFourthFacts(JanFirst(y));
    ShiftWeeks(MondayOfWeekOne(y), w - 1);
  }

  /** The five days from the Monday of a week that exists in year y map
      back to week w of y. */
  lemma WorkWeekMapsBack(w: int, y: int)
    requires 1 <= w && MondayOfWeek(w, y) + 3 < JanFirst(y + 1)
    ensures forall d :: MondayOfWeek(w, y) <= d < MondayOfWeek(w, y) + 5 ==>
      WeekNumber(d) == w && IsoWeekYear(d) == y
  {
    forall d | MondayOfWeek(w, y) <= d < MondayOfWeek(w, y) + 5
      ensures WeekNumber(d) == w && IsoWeekYear(d) == y
    {
      WeekRoundTrip(w, y, d - MondayOfWeek(w, y));
    }
  }

  /** getDatesForWeek: Monday to Friday of week w of year y. The first is a
      Monday, the days are consecutive, and when the week exists in y every
      day maps back to week w. */
  method DatesForWeek(w: int, y: int) returns (dates: seq<int>)
    ensures |dates| == 5
    ensures dates[0] == MondayOfWeek(w, y) && dates[0] % 7 == 1
    ensures forall i :: 0 <= i < 5 ==> dates[i] == dates[0] + i
    ensures 1 <= w && MondayOfWeek(w, y) + 3 < JanFirst(y + 1) ==>
      forall i :: 0 <= i < 5 ==> WeekNumber(dates[i]) == w && IsoWeekYear(dates[i]) == y
  {
    var mondayWeek1 := MondayBeforeFourth(JanFirst(y));
    var monday := mondayWeek1 + (w - 1) * 7;
    dates := [];
    for i := 0 to 5
      invariant |dates| == i
      invariant forall j :: 0 <= j < i ==> dates[j] == monday + j
    {
      dates := dates + [monday + i];
    }
    MondayOfWeekIsMonday(w, y);
    if 1 <= w && MondayOfWeek(w, y) + 3 < JanFirst(y + 1) {
      WorkWeekMapsBack(w, y);
    }
  }

  /** getWeekDateRange: the first and last date of getDatesForWeek, the
      Monday and the Friday of the week. */
  method WeekDateRange(w: int, y: int) returns (start: int, end: int)
    ensures start == MondayOfWeek(w, y) && start % 7 == 1
    ensures end == start + 4 && end % 7 == 5
  {
    var dates := DatesForWeek(w, y);
    start := dates[0];
    end := dates[|dates| - 1];
    assert end == start + 4;
    LaterInWeek(start, 4);
  }

  /** k days after day a, within the same Monday-to-Sunday cycle. */
  lemma LaterInWeek(a: int, k: int)
    requires 0 <= a % 7 + k < 7
    ensures (a + k) % 7 == a % 7 + k
  {
  }

  /** 1 January 2024 is a Monday and the Monday of week 1 of 2024. */
  lemma FirstWeekOf2024()
    ensures JanFirst(2024) == 738886 && JanFirst(2024) % 7 == 1
    ensures MondayOfWeek(1, 2024) == JanFirst(2024)
  {
  }
}
