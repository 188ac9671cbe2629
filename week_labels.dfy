/** The (week, year) labels that the stores file activities under: the
    label of a date, and the label of the i-th week of a weekly series. */
module WeekLabels {
  import opened IsoWeeks

  /** The label the older store gives the week holding date d: the ISO
      week number paired with the calendar year of the date. */
  function CalendarYearWeek(d: int): (int, int)
  {
    (WeekNumber(d), YearOf(d))
  }

  /** Monday 30 December 2024 lies in ISO week 1 of 2025, but its calendar
      year is 2024, so it is labelled week 1 of 2024: a week that ended
      almost a year before the date. */
  lemma CalendarYearMislabels()
    ensures JanFirst(2025) == 739252 && 739250 % 7 == 1
    ensures CalendarYearWeek(739250) == (1, 2024)
    ensures MondayOfWeek(1, 2024) + 7 <= 739250
  {
    assert JanFirst(2024) == 738886 && JanFirst(2026) == 739617;
    YearOfUnique(739250, 2024);
    assert ThursdayOf(739250) == 739253;
    YearOfUnique(739253, 2025);
    assert WeekNumber(739250) == (739253 - 739252) / 7 + 1;
    FirstWeekOf2024();
  }

  /** The label of the week holding date d: ISO week number and ISO
      week-year. */
  function IsoWeekOf(d: int): (int, int)
  {
    (WeekNumber(d), IsoWeekYear(d))
  }

  /** The week an ISO label names holds the date it was taken from. */
  lemma IsoWeekOfHoldsDate(d: int)
    ensures 1 <= IsoWeekOf(d).0 <= 53
    ensures MondayOfWeek(IsoWeekOf(d).0, IsoWeekOf(d).1) <= d < MondayOfWeek(IsoWeekOf(d).0, IsoWeekOf(d).1) + 7
  {
    WeekOfDate(d);
  }

  /** Week and year of the i-th instance of a weekly series starting in
      week `startWeek` of `startYear`, as the store numbers them: week
      numbers past 52 wrap once into the next year. */
  function WrappedWeek(startWeek: int, startYear: int, i: int): (int, int)
  {
    var week := startWeek + i;
    if week > 52 then (week - 52, startYear + 1) else (week, startYear)
  }

  /** 2026 starts on a Thursday and has 53 ISO weeks. A series starting in
      week 52 of 2026 has its second instance labelled week 1 of 2027,
      which begins two weeks (not one) after week 52 of 2026; the week in
      between is week 53 of 2026. */
  lemma WrapSkipsWeek53()
    ensures WrappedWeek(52, 2026, 1) == (1, 2027)
    ensures MondayOfWeek(1, 2027) == MondayOfWeek(52, 2026) + 14
    ensures WeekNumber(MondayOfWeek(52, 2026) + 7) == 53
    ensures IsoWeekYear(MondayOfWeek(52, 2026) + 7) == 2026
  {
    assert JanFirst(2026) == 739617;
    assert JanFirst(2027) == 739982;
    assert MondayOfWeek(52, 2026) == 739971;
    assert MondayOfWeek(1, 2027) == 739985;
    assert ThursdayOf(739978) == 739981;
    YearOfUnique(739981, 2026);
  }

  /** The label of the week i weeks after week `startWeek` of
      `startYear`: the ISO week number and week-year of its Monday. */
  function NextIsoWeek(startWeek: int, startYear: int, i: int): (int, int)
  {
    var m := MondayOfWeek(startWeek, startYear) + 7 * i;
    (WeekNumber(m), IsoWeekYear(m))
  }

  /** The i-th label of a series names the week exactly i weeks after the
      first, whatever the number of weeks in the years crossed. */
  lemma NextIsoWeekIsWeeksLater(startWeek: int, startYear: int, i: int)
    ensures 1 <= NextIsoWeek(startWeek, startYear, i).0 <= 53
    ensures MondayOfWeek(NextIsoWeek(startWeek, startYear, i).0, NextIsoWeek(startWeek, startYear, i).1)
      == MondayOfWeek(startWeek, startYear) + 7 * i
  {
    var m := MondayOfWeek(startWeek, startYear) + 7 * i;
    MondayOfWeekIsMonday(startWeek, startYear);
    ShiftWeeks(MondayOfWeek(startWeek, startYear), i);
    MondayLabel(m);
  }

  /** A Monday is the Monday of the week its label names. */
  lemma MondayLabel(m: int)
    requires m % 7 == 1
    ensures MondayOfWeek(WeekNumber(m), IsoWeekYear(m)) == m
  {
    WeekOfDate(m);
  }

  /** Inside one year, before week 52 is passed, the ISO labels are the
      ones the store writes. */
  lemma NextIsoWeekAgrees(startWeek: int, startYear: int, i: int)
    requires 1 <= startWeek && 0 <= i && startWeek + i <= 52
    ensures NextIsoWeek(startWeek, startYear, i) == WrappedWeek(startWeek, startYear, i)
  {
    var w := startWeek + i;
    LaterWeek(startWeek, startYear, i);
    var m := MondayOfWeek(w, startYear);
    WeeksUpTo52Exist(w, startYear);
    WeekRoundTrip(w, startYear, 0);
    assert m + 0 == m;
  }

  /** i weeks after week w is week w + i of the same year's numbering. */
  lemma LaterWeek(w: int, y: int, i: int)
    ensures MondayOfWeek(w, y) + 7 * i == MondayOfWeek(w + i, y)
  {
  }
}
