# Family week schedule: layout, conflicts and stores

A Dafny model of the core of a client-side family week planner. Family
members take part in activities on a five-day week grid, and the planner:

- lays out each day column;
- warns about double-booked members;
- expands recurring activities into one instance per week;
- keeps the activity, member and type lists of a schedule store.

The model covers:

- **Time helpers** (`src/utils/timeHelpers.js`):
  - `"HH:MM"` text and minutes since midnight;
  - the half-open overlap test, durations and their text;
  - validation, rounding to a quarter hour and the grid's hour labels;
  - the pixel position of a block at 60 pixels per hour;
  - sorting by start time and the sweep that groups overlapping activities;
  - the free-slot search;
  - ISO 8601 week numbers and the Monday-to-Friday dates of a week.

  Modules: `TimeText`, `TimeHelpers`, `Activities`, `Sorting`,
  `SweepGrouping`, `FreeSlots`, `IsoWeeks`, `WeekLabels`.
- **The day column** (`src/components/DayColumn.jsx`):
  - the display order;
  - the transitive overlap groups, built with a `used` set and a
    `while (changed)` loop;
  - the first-fit column assignment inside each group;
  - the overlap warning.

  Module `DayColumns`.
- **The week view's per-day queries** (`src/components/Weekview.jsx`):
  the day's activities, their count and the conflicts between them.
  Modules `WeekView` and `Pairs`.
- **The schedule store** (`src/hooks/useSchedule.js`), as the class
  `ScheduleStore.Schedule`:
  - three list fields;
  - a method per operation, each stating the new state of every field.

  The list operations live in `StoreOps`, the statistics in `Statistics`
  and the initial lists in `Defaults`.
- **The older store** (`src/components/hooks/useschedule.js`), as the class
  `LegacyStore.LegacySchedule`. It adds:
  - activities entered for several days at once;
  - a recurring activity that runs up to an end date;
  - group updates that also keep each member's day.

The rest of the representation:

- **Times.** An activity's start and end are minute counts. Text is parsed
  by `TimeHelpers.TimeToMinutes`, which yields `None` where the source
  computes `NaN`.
- **Dates.** A date is a day number, with day 1 = Monday 1 January of
  year 1, so `d % 7` is JavaScript's `getDay()`.
- **Clock and ids.** The clock is a `today` parameter. The ids made from
  `Date.now()` and `Math.random()` come from id parameters.
- **Missing fields.** A missing or falsy week or year is `0`, a missing
  group id is `""` and missing participants are `[]`.
- **Counter objects.** A JavaScript object used as a counter or as the
  per-member table is an association list in insertion order.

Three behaviours of the code are kept as they are:

- A malformed time gives `NaN` rather than an error.
- Participants are a list, so a member listed twice counts twice.
- `createColumns` takes each group in the order the grouping built it,
  without sorting it again.

## Model

| member | source | states |
|---|---|---|
| TimeText.NatToString | src/utils/timeHelpers.js:5 | `toString()` of a natural number is a non-empty digit string, one character exactly below 10 |
| TimeText.NatToStringRoundTrip | src/utils/timeHelpers.js:5 | `Number(n.toString()) == n` for every natural n |
| TimeText.Pad2Explicit | src/utils/timeHelpers.js:38 | `padStart(2, '0')` of 0..99 is the two decimal digits |
| TimeText.Pad2Parses | src/utils/timeHelpers.js:38 | a padded 0..99 reads back as its value |
| TimeText.JsRem | src/utils/timeHelpers.js:37 | JavaScript `%` by 60: the remainder has the dividend's sign and equals the Euclidean one for non-negative dividends |
| TimeText.ColonIndex | src/utils/timeHelpers.js:30 | the first `:` of the text, or its length when there is none |
| TimeText.SplitJoined | src/utils/timeHelpers.js:30 | `"x:y".split(':').map(Number)` of digit strings gives back their values |
| TimeHelpers.IsEndTimeAfterStartTime | src/utils/timeHelpers.js:132-134 | true exactly when both times parse and `calculateDuration` is positive |
| TimeHelpers.GenerateTimeSlots | src/utils/timeHelpers.js:2-8 | `endHour - startHour + 1` labels (none when start > end); label i is `"HH:00"` of hour start + i |
| TimeHelpers.HourLabelMinutes | src/utils/timeHelpers.js:2-8 | an hour label reads back as 60 * hour minutes and is a valid time for hours 0..23, so the labels increase |
| TimeHelpers.CalculatePosition | src/utils/timeHelpers.js:11-26 | at 60 px per hour: defined exactly when both times parse; top = minutes after 07:00, height = the duration |
| TimeHelpers.OverlapSymmetric | src/utils/timeHelpers.js:42-49 | the overlap test does not depend on argument order |
| TimeHelpers.TouchingDoNotOverlap | src/utils/timeHelpers.js:42-49 | intervals that only touch (end1 == start2) do not overlap |
| TimeHelpers.ValidTimeParses | src/utils/timeHelpers.js:126-129 | a time matching the pattern parses to hour 0..23 and minute 0..59, i.e. to a minute of the day below 1440 |
| TimeHelpers.PaddedTimeValid | src/utils/timeHelpers.js:126-129 | every padded hour 0..23 with minute 0..59 matches the pattern |
| TimeHelpers.MinutesToTimeRoundTrip | src/utils/timeHelpers.js:29-39 | for 0 <= m < 1440, `minutesToTime(m)` is five characters, valid, and `timeToMinutes` reads back m |
| TimeHelpers.CanonicalTimeRoundTrip | src/utils/timeHelpers.js:29-39 | a valid five-character time is exactly what `minutesToTime` prints for its minute count |
| TimeHelpers.QuarterRoundNearest | src/utils/timeHelpers.js:139 | `Math.round(m / 15) * 15` of a minute 0..59 is 0, 15, 30, 45 or 60, within 7 of m |
| TimeHelpers.RoundToQuarterReadsBack | src/utils/timeHelpers.js:137-146 | the rounded text reads back as hours * 60 + rounded minutes, so a round-up to 60 carries into the next hour |
| TimeHelpers.RoundToQuarterNearest | src/utils/timeHelpers.js:137-146 | `roundToQuarter` of a valid time is a time on a quarter hour at most 7 minutes away |
| TimeHelpers.FormatDurationCases | src/utils/timeHelpers.js:112-123 | for every count: minutes only for 0..59, hours only on a whole hour, both otherwise; a negative count that is not a whole hour shows one hour more than it contains together with the negated remainder (-30 gives "-1 tim -30 min") |
| Activities.OverlapsSymmetric | src/utils/timeHelpers.js:42-49 | `isOverlapping` on activities is symmetric |
| Activities.OverlapsReflexive | src/utils/timeHelpers.js:42-49 | an activity that ends after it starts overlaps itself |
| Sorting.SortCorrect | src/utils/timeHelpers.js:241-247 | the stable sort gives a permutation of the input in comparator order, with the activities that compare equal in their input order |
| Sorting.WellFormedPermutation | src/utils/timeHelpers.js:241-247 | reordering keeps every activity ending after it starts |
| SweepGrouping.OverlapsAnyOf | src/utils/timeHelpers.js:69-75 | the inner loop finds an overlap exactly when some group member overlaps the activity |
| SweepGrouping.ChainedAppend | src/utils/timeHelpers.js:77-78 | an activity overlapping a group member keeps every member after the first overlapping an earlier one |
| SweepGrouping.CloseGroup | src/utils/timeHelpers.js:79-82 | closing the current group when the next activity overlaps none of it keeps the groups a partition of the prefix, apart from each other and from what follows |
| SweepGrouping.SeparatedApart | src/utils/timeHelpers.js:65-83 | groups ordered end-before-start share no overlapping pair |
| SweepGrouping.GroupSorted | src/utils/timeHelpers.js:62-90 | the sweep over sorted activities partitions them into non-empty chained groups, apart when well-formed |
| SweepGrouping.GroupOverlapping | src/utils/timeHelpers.js:52-91 | `[]` exactly for no activities; non-empty groups; concatenated they are the input sorted by start; each member after the first overlaps an earlier member of its group; for well-formed activities no two groups share an overlapping pair |
| FreeSlots.SweepFinal | src/utils/timeHelpers.js:270 | the running time never decreases and ends at or after every activity's end |
| FreeSlots.SweepClear | src/utils/timeHelpers.js:257-271 | over activities in start order, no recorded gap overlaps any activity |
| FreeSlots.SweepOrdered | src/utils/timeHelpers.js:257-271 | for well-formed activities the gaps come in order, each ending before the next starts |
| FreeSlots.SlotsShape | src/utils/timeHelpers.js:262-279 | every slot is at least `minDuration` long, its duration is end - start, and it starts at or after the day's start |
| FreeSlots.SlotsClear | src/utils/timeHelpers.js:250-283 | no slot overlaps any activity |
| FreeSlots.SlotsOrdered | src/utils/timeHelpers.js:250-283 | for well-formed activities the slots are ascending and pairwise disjoint |
| FreeSlots.SlotsProperties | src/utils/timeHelpers.js:250-283 | the shape, clearance and ordering facts together |
| FreeSlots.FreeSlotsWithinDay | src/utils/timeHelpers.js:262-267 | with gaps cut off at the end of the day, every slot lies within [dayStart, dayEnd] |
| FreeSlots.SlotPastDayEnd | src/utils/timeHelpers.js:262-267 | as written, one activity 19:00-20:00 on a 07:00-18:00 day yields the slot 07:00-19:00; the corrected sweep yields 07:00-18:00 |
| FreeSlots.GapsBetween | src/utils/timeHelpers.js:257-271 | the `forEach` loop computes the sweep's slots and final running time |
| FreeSlots.FindFreeSlots | src/utils/timeHelpers.js:250-283 | the slots are the corrected sweep's: each at least `minDuration` long with duration = end - start, within the day, clear of every activity, and ascending and disjoint for well-formed activities |
| IsoWeeks.JanFirstStep | src/utils/timeHelpers.js:168 | a year has 366 days when it is a leap year and 365 otherwise |
| IsoWeeks.YearOf | src/utils/timeHelpers.js:168 | `getFullYear` of a date is the year whose days contain it |
| IsoWeeks.YearOfUnique | src/utils/timeHelpers.js:168 | exactly one year contains a date |
| IsoWeeks.IsoWeekday | src/utils/timeHelpers.js:166 | `getUTCDay() \|\| 7` is 1..7 and agrees with the weekday modulo 7 |
| IsoWeeks.ThursdayOfWeekDay | src/utils/timeHelpers.js:166-167 | every day of a Monday-to-Sunday week moves to that week's Thursday |
| IsoWeeks.WeekNumber | src/utils/timeHelpers.js:164-170 | the week number is 1..53 |
| IsoWeeks.WeekOfDate | src/utils/timeHelpers.js:164-170 | every date lies in the week named by its week number and ISO week-year, whose Monday is the Monday on or before it |
| IsoWeeks.MondayBeforeFourthFacts | src/utils/timeHelpers.js:175-180 | the Monday on or before 4 January is a Monday at most six days before it, and its Thursday is the year's first Thursday |
| IsoWeeks.MondayOfWeekIsMonday | src/utils/timeHelpers.js:183-184 | week w's Monday, 7 * (w - 1) days after week one's, is a Monday |
| IsoWeeks.WeeksUpTo52Exist | src/utils/timeHelpers.js:183-184 | weeks 1 to 52 have their Thursday in the year |
| IsoWeeks.WeekRoundTrip | src/utils/timeHelpers.js:164-194 | every day of a week that exists in year y has week number w and week-year y |
| IsoWeeks.WorkWeekMapsBack | src/utils/timeHelpers.js:164-194 | Monday to Friday of an existing week w of y map back to w of y |
| IsoWeeks.DatesForWeek | src/utils/timeHelpers.js:173-194 | five consecutive days from week w's Monday, a Monday; for an existing week each maps back to w and y |
| IsoWeeks.WeekDateRange | src/utils/timeHelpers.js:206-212 | the range is the Monday and the Friday four days later |
| IsoWeeks.FirstWeekOf2024 | src/utils/timeHelpers.js:173-184 | 1 January 2024 is a Monday and the Monday of week 1 of 2024 |
| WeekLabels.CalendarYearMislabels | src/components/hooks/useschedule.js:98-99 | Monday 30 December 2024 gets the label week 1 of 2024, a week that ended almost a year before it |
| WeekLabels.IsoWeekOfHoldsDate | src/components/hooks/useschedule.js:98-99 | the week number with the ISO week-year names a week 1..53 that holds the date |
| WeekLabels.WrapSkipsWeek53 | src/hooks/useSchedule.js:109-113 | as written, a series from week 52 of 2026 labels its second instance week 1 of 2027, two weeks later, skipping week 53 of 2026 |
| WeekLabels.NextIsoWeekIsWeeksLater | src/hooks/useSchedule.js:105-119 | the i-th label of the corrected series names the week exactly i weeks after the first |
| WeekLabels.NextIsoWeekAgrees | src/hooks/useSchedule.js:106-113 | while start week + i stays within 52, the corrected labels are the ones the store writes |
| DayColumns.SortAsWrittenThrows | src/components/DayColumn.jsx:16-31 | as written, two activities make the sort throw, where the intended order puts the earlier first |
| DayColumns.DayOrder | src/components/DayColumn.jsx:16-25 | the intended order: a permutation sorted by start, longer first on equal starts, and stable |
| DayColumns.PushStep | src/components/DayColumn.jsx:98-104 | adding an unused overlapping activity keeps the grouping state consistent and shrinks the unused set |
| DayColumns.CloseStep | src/components/DayColumn.jsx:109 | a group overlapping no unused activity can be closed, keeping the groups apart |
| DayColumns.StartStep | src/components/DayColumn.jsx:87-88 | an unused activity alone starts a consistent group |
| DayColumns.GrowPass | src/components/DayColumn.jsx:92-106 | one pass adds the overlapping unused activities, by increasing index, after the earlier ones; a pass that sets `changed` uses up an index; one that does not leaves the group overlapping no unused activity |
| DayColumns.BuildGroup | src/components/DayColumn.jsx:85-109 | the `while (changed)` loop terminates with a closed group appended, its first index the one the outer loop started it at |
| DayColumns.GroupAll | src/components/DayColumn.jsx:84-110 | after the outer loop every index is used, the state is consistent, and each group starts at the lowest index no earlier group holds |
| DayColumns.FinishGrouping | src/components/DayColumn.jsx:112 | once every index is used, the groups partition the input |
| DayColumns.GroupTransitive | src/components/DayColumn.jsx:80-113 | the groups partition the input (every index exactly once), none is empty, no activity of one group overlaps one of another, each member after the first overlaps an earlier one; each group starts at the lowest index no earlier group holds |
| DayColumns.NewGroupStartsLeast | src/components/DayColumn.jsx:84-88 | a group started at the first unused index keeps every group starting at its lowest free index |
| DayColumns.FirstFreeColumn | src/components/DayColumn.jsx:51-68 | the first column holding nothing that overlaps the activity, or a new one, with every earlier column blocked |
| DayColumns.PlaceStep | src/components/DayColumn.jsx:63-73 | placing the activity there keeps the columns consistent |
| DayColumns.PlaceNoOverlap | src/components/DayColumn.jsx:55-66 | a column the activity does not clash with stays overlap-free after the push |
| DayColumns.PlaceFirstFit | src/components/DayColumn.jsx:51-73 | every activity's earlier columns held an overlapping activity when it was placed |
| DayColumns.CreateColumns | src/components/DayColumn.jsx:44-77 | each activity in exactly one column, columns hold their activities in group order, none empty, no more columns than activities, no overlap within a column, first fit |
| DayColumns.ColumnsCoverCliques | src/components/DayColumn.jsx:44-77 | any set of pairwise overlapping activities of the group needs at least as many columns |
| DayColumns.OverlapWarning | src/components/DayColumn.jsx:204 | the warning shows exactly when some group has more than 3 activities |
| WeekView.ActivitiesForDay | src/components/Weekview.jsx:22-24 | at most the input, every result on that day |
| WeekView.ActivitiesForDayExact | src/components/Weekview.jsx:22-24 | each activity on the day is kept as often as it occurs, every other one dropped |
| WeekView.ActivitiesForDayAppend | src/components/Weekview.jsx:22-24 | the filter keeps input order |
| WeekView.ActivityCount | src/components/Weekview.jsx:36-38 | the count is zero exactly when no activity is on the day |
| WeekView.DayFilterEmpty | src/components/Weekview.jsx:36-38 | the day's list is empty exactly when no activity is on that day |
| WeekView.Shared | src/components/Weekview.jsx:48-50 | the shared participants are exactly those in both lists |
| WeekView.SharedSymmetric | src/components/Weekview.jsx:48-52 | sharing a participant does not depend on which activity comes first |
| WeekView.ConflictingSymmetric | src/components/Weekview.jsx:52-64 | the conflict test is symmetric |
| Pairs.IncreasingDistinct | src/components/Weekview.jsx:45-46 | pairs listed in visiting order are pairwise distinct |
| Pairs.PairsFrom | src/components/Weekview.jsx:46 | the inner loop appends row i of the passing pairs, (i, j) for each j > i in order |
| Pairs.RowPairs | src/components/Weekview.jsx:46 | every pair of row i has its first index i, a later second index in range, and passes the test |
| Pairs.PassingPairs | src/components/Weekview.jsx:45-46 | every pair from row i on has indices i <= a < b in range and passes the test |
| Pairs.RowComplete | src/components/Weekview.jsx:46 | every later j whose pair with i passes is in row i |
| Pairs.RowIncreasing | src/components/Weekview.jsx:46 | row i is in visiting order |
| Pairs.PassingComplete | src/components/Weekview.jsx:45-46 | every passing pair a < b from row i on is listed |
| Pairs.PassingIncreasing | src/components/Weekview.jsx:45-46 | the passing pairs are listed in visiting order |
| Pairs.SelectedPairs | src/components/Weekview.jsx:45-46 | the nested loops list exactly the passing pairs i < j, each once, in visiting order (the sequence PassingPairs) |
| WeekView.GetDayConflicts | src/components/Weekview.jsx:41-72 | a pair of the day's activities is reported exactly when it shares a participant and overlaps, once per unordered pair, earlier first, both on that day |
| StoreOps.Filter | src/hooks/useSchedule.js:164 | a filter's result is no longer than the input and holds only passing elements of it |
| StoreOps.FilterExact | src/hooks/useSchedule.js:164 | a filter keeps each passing element as often as it occurs and drops the rest |
| StoreOps.FilterAppend | src/hooks/useSchedule.js:164 | a filter keeps order |
| StoreOps.FilterIdempotent | src/hooks/useSchedule.js:164 | filtering twice by the same test changes nothing more |
| StoreOps.FindById | src/hooks/useSchedule.js:136 | `find`: none exactly when no element has the id, otherwise the first one with it |
| StoreOps.Ids | src/hooks/useSchedule.js:383 | the ids of a list, position by position |
| StoreOps.MergeAddsNewIds | src/hooks/useSchedule.js:381-397 | the import merge keeps the existing list as prefix and appends exactly the imported elements with new ids |
| StoreOps.MergeIdempotent | src/hooks/useSchedule.js:381-397 | importing the same file twice adds nothing the second time |
| StoreOps.ApplyIdempotent | src/hooks/useSchedule.js:148 | `{ ...a, ...updates }` twice is once |
| StoreOps.ApplyInGroup | src/hooks/useSchedule.js:141 | the group update keeps id, week and year (and day in the older store) and otherwise is the plain update |
| StoreOps.UpdateById | src/hooks/useSchedule.js:146-150 | the update goes into exactly the activities with the id; length unchanged |
| StoreOps.UpdateGroup | src/hooks/useSchedule.js:139-143 | the group update goes into exactly the members of the group; length unchanged |
| StoreOps.UpdateActivityCases | src/hooks/useSchedule.js:133-153 | length unchanged; ungrouped activities with another id untouched; without `updateAllRecurring`, exactly the activities with the id change |
| StoreOps.UpdateByIdIdempotent | src/hooks/useSchedule.js:146-150 | repeating a single update that keeps the id changes nothing more |
| StoreOps.DeleteActivityRemoves | src/hooks/useSchedule.js:156-167 | nothing new appears; the id is gone unless the group branch ran and another activity with that id lies outside the group; with unique ids it is always gone |
| StoreOps.DeleteActivityExact | src/hooks/useSchedule.js:156-167 | with `deleteAll` and a grouped first activity with the id, exactly the activities outside its group survive; otherwise exactly those with another id; each as often as stored |
| StoreOps.InWeekExactly | src/hooks/useSchedule.js:170-185 | shown in (w, y) exactly when it has no week, or its week and year are set and equal (w, y); a week without a year is never shown; both stores' tests agree |
| StoreOps.ActivitiesForWeekExact | src/hooks/useSchedule.js:170-185 | exactly the accepted activities, with their multiplicity; both stores' filters are equal |
| StoreOps.Without | src/hooks/useSchedule.js:217 | the participants other than the id, shorter when the id was there |
| StoreOps.StripMember | src/hooks/useSchedule.js:216-222 | an activity without the member is kept as is; with it, it loses it, and goes when no one is left |
| StoreOps.Cascade | src/hooks/useSchedule.js:214-224 | no remaining activity lists the member, and none is added |
| StoreOps.CascadeAppend | src/hooks/useSchedule.js:214-224 | the cascade works activity by activity, in order |
| StoreOps.CascadeUntouched | src/hooks/useSchedule.js:222 | activities without the member are left alone |
| StoreOps.CascadeIdempotent | src/hooks/useSchedule.js:209-225 | deleting a member twice changes nothing more |
| StoreOps.UpdateMember | src/hooks/useSchedule.js:198-206 | the patch goes into exactly the members with the id |
| StoreOps.UpdateType | src/hooks/useSchedule.js:238-246 | the patch goes into exactly the types with the id |
| StoreOps.CopiesForWeek | src/hooks/useSchedule.js:254-263 | one copy per source-week activity, in order, with a fresh id, the target week and year, not recurring, no group |
| StoreOps.CopiesInTargetWeek | src/hooks/useSchedule.js:259-262 | the copies belong to the target week and to no other |
| Statistics.Keys | src/hooks/useSchedule.js:319 | the keys of a counter object, in insertion order |
| Statistics.BumpFacts | src/hooks/useSchedule.js:306-309 | `if (!o[k]) o[k] = 0; o[k]++` adds one to k's count and to the total, leaves other counts, and keeps keys distinct |
| Statistics.CountOne | src/hooks/useSchedule.js:306-315 | a counter of a key list stays one after counting the next key |
| Statistics.PushFacts | src/hooks/useSchedule.js:287-295 | creating the member entry and pushing adds the activity to that member's list only |
| Statistics.LookupListAt | src/hooks/useSchedule.js:319 | each entry of the per-member table is found under its own key |
| Statistics.Repeat | src/hooks/useSchedule.js:295 | n copies of the activity |
| Statistics.ForMemberSound | src/hooks/useSchedule.js:285-296 | every activity on a member's list is a week activity the member takes part in |
| Statistics.ForMemberComplete | src/hooks/useSchedule.js:285-296 | every week activity the member takes part in is on the member's list |
| Statistics.ForMemberCount | src/hooks/useSchedule.js:294 | a member's count is the number of times the member is listed as a participant |
| Statistics.OccPositive | src/hooks/useSchedule.js:287 | a key occurs exactly when it is in the list |
| Statistics.ListOne | src/hooks/useSchedule.js:286-295 | one participant's push keeps the per-member table in step |
| Statistics.PushParticipants | src/hooks/useSchedule.js:285-302 | after an activity's participants, the table lists the activity under each of them |
| Statistics.CountNext | src/hooks/useSchedule.js:305-309 | counting the activity's type keeps the per-type counter exact |
| Statistics.CountDayNext | src/hooks/useSchedule.js:311-315 | counting the activity's day keeps the per-day counter exact |
| Statistics.CountWeek | src/hooks/useSchedule.js:283-316 | the per-member lists, per-type and per-day counts of the week: distinct keys, each count its number of occurrences, the per-type and the per-day counts each summing to the number of activities |
| Statistics.MemberRecords | src/hooks/useSchedule.js:334-338 | one record per selected pair, with the first activity's day |
| Statistics.ListConflictsSound | src/hooks/useSchedule.js:320-341 | every record of a member's list is on one day, overlapping, and shares the member |
| Statistics.ListConflictsComplete | src/hooks/useSchedule.js:320-341 | every earlier-later pair of a member's list on the same day that overlaps has its record |
| Statistics.MemberConflicts | src/hooks/useSchedule.js:320-342 | one member's conflicts: one record per earlier-later pair of the list on the same day that overlaps, each pair once, in the order the loops visit them, the record holding the pair and the first activity's day; every record sound |
| Statistics.GroupedCount | src/components/hooks/useschedule.js:312 | the number of grouped activities is at most their total |
| Statistics.GetStatistics | src/hooks/useSchedule.js:270-346 | total = week count; each member's list and the per-type and per-day counters exact, each counter summing to the total; every conflict on one day, overlapping and sharing a member; every such pair of a member's list reported; the conflict list is the members' records concatenated member by member, so a pair two members share appears twice; the grouped count in the older store |
| Defaults.DefaultMembers | src/hooks/useSchedule.js:4-19 | six default members with distinct ids |
| Defaults.DefaultTypes | src/hooks/useSchedule.js:21-45 | fifteen default types with distinct ids; icons exactly in the current store's list |
| ScheduleStore.StartLabel | src/hooks/useSchedule.js:102-103 | corrected (see Findings): the series starts at the activity's own week and year where set; otherwise in the ISO week and week-year that hold today, where the source pairs today's week number with its calendar year |
| ScheduleStore.RecurringInstances | src/hooks/useSchedule.js:101-122 | corrected (see Findings): n instances, the i-th the base activity with its own id, the group id and the label of the week i weeks after the start by the ISO calendar, where the source adds i and wraps once at 52 |
| ScheduleStore.Schedule.constructor | src/hooks/useSchedule.js:54-72 | stored lists where present, the defaults otherwise |
| ScheduleStore.Schedule.AddActivity | src/hooks/useSchedule.js:92-130 | appends one activity with the new id, or for a recurring one over n > 1 weeks n instances in group = new id; corrected (see Findings): the i-th is labelled NextIsoWeek(start, i), the ISO week and week-year i weeks after the start; other lists unchanged |
| ScheduleStore.Schedule.UpdateActivity | src/hooks/useSchedule.js:133-153 | activities become the update's result (same length); other lists unchanged |
| ScheduleStore.Schedule.DeleteActivity | src/hooks/useSchedule.js:156-167 | activities become the deletion's result; nothing new appears; the id is gone unless the group branch ran (always with unique ids) |
| ScheduleStore.Schedule.ActivitiesFor | src/hooks/useSchedule.js:170-185 | exactly the stored activities of the week, with multiplicity |
| ScheduleStore.Schedule.AddFamilyMember | src/hooks/useSchedule.js:188-195 | the member with the new id appended; nothing else changes |
| ScheduleStore.Schedule.UpdateFamilyMember | src/hooks/useSchedule.js:198-206 | members patched by id; nothing else changes |
| ScheduleStore.Schedule.DeleteFamilyMember | src/hooks/useSchedule.js:209-225 | the member gone, the cascade applied, no activity lists the member; types unchanged |
| ScheduleStore.Schedule.AddActivityType | src/hooks/useSchedule.js:228-235 | the type with the new id appended; nothing else changes |
| ScheduleStore.Schedule.UpdateActivityType | src/hooks/useSchedule.js:238-246 | types patched by id; nothing else changes |
| ScheduleStore.Schedule.DeleteActivityType | src/hooks/useSchedule.js:249-251 | the type gone; nothing else changes |
| ScheduleStore.Schedule.CopyWeek | src/hooks/useSchedule.js:254-267 | the copies appended, each in the target week; other lists unchanged |
| ScheduleStore.Schedule.GetStatistics | src/hooks/useSchedule.js:270-346 | the statistics of the week's activities, types counted by type id, per-type and per-day counts summing to the total, one member-table entry per participant of the week, the conflicts concatenated member by member, so their number is fixed |
| ScheduleStore.Schedule.ImportSchedule | src/hooks/useSchedule.js:377-397 | imported activities appended; members and types merged by id where present |
| LegacyStore.LabelsFrom | src/components/hooks/useschedule.js:97-102 | corrected (see Findings): the ISO week and week-year of every seventh day from the start, one per week, where the source pairs the week number with the calendar year |
| LegacyStore.WeeksLater | src/components/hooks/useschedule.js:98-101 | corrected (see Findings): the label of the day k weeks on names the week k weeks after the start's |
| LegacyStore.LabelsWeekly | src/components/hooks/useschedule.js:97-102 | corrected (see Findings): label k names the week k weeks after the first |
| LegacyStore.WeekCountIs | src/components/hooks/useschedule.js:97 | a loop that stopped past the end after n steps took (end - start) / 7 + 1 steps, or none when start > end |
| LegacyStore.WeeksBetweenDates | src/components/hooks/useschedule.js:92-105 | (end - start) / 7 + 1 labels for start <= end, none otherwise, label k that of start + 7k, every such day up to end; corrected (see Findings): the labels are ISO week and week-year |
| LegacyStore.DayBlock | src/components/hooks/useschedule.js:147-162 | one activity per chosen day, in order, with its own id |
| LegacyStore.DayInstances | src/components/hooks/useschedule.js:147-162 | the loop builds the day block |
| LegacyStore.Series | src/components/hooks/useschedule.js:121-139 | weeks times days activities |
| LegacyStore.SeriesAt | src/components/hooks/useschedule.js:121-139 | position w * days + d is day d of week w, in the group, with that week's label and its own id |
| LegacyStore.SeriesInstances | src/components/hooks/useschedule.js:121-139 | the nested loops build the series |
| LegacyStore.LegacySchedule.constructor | src/components/hooks/useschedule.js:54-72 | stored lists where present, the defaults (types without icons) otherwise |
| LegacyStore.LegacySchedule.AddActivity | src/components/hooks/useschedule.js:108-167 | recurring with an end date: the series over the weeks from today to the end; otherwise one activity per chosen day in today's week; corrected (see Findings): labels are ISO week and week-year; other lists unchanged |
| LegacyStore.LegacySchedule.UpdateActivity | src/components/hooks/useschedule.js:170-190 | activities become the update's result, the group form also keeping the day |
| LegacyStore.LegacySchedule.DeleteActivity | src/components/hooks/useschedule.js:193-204 | activities become the deletion's result; nothing new appears; the id is gone unless the group branch ran (always with unique ids) |
| LegacyStore.LegacySchedule.ActivitiesFor | src/components/hooks/useschedule.js:207-217 | the stored activities this store's week test accepts, with multiplicity, the same as the current store's |
| LegacyStore.LegacySchedule.AddFamilyMember | src/components/hooks/useschedule.js:220-227 | the member with the new id appended; nothing else changes |
| LegacyStore.LegacySchedule.UpdateFamilyMember | src/components/hooks/useschedule.js:230-238 | members patched by id; nothing else changes |
| LegacyStore.LegacySchedule.DeleteFamilyMember | src/components/hooks/useschedule.js:241-257 | the member gone, the cascade applied, no activity lists the member |
| LegacyStore.LegacySchedule.AddActivityType | src/components/hooks/useschedule.js:260-267 | the type with the new id appended; nothing else changes |
| LegacyStore.LegacySchedule.UpdateActivityType | src/components/hooks/useschedule.js:270-278 | types patched by id; nothing else changes |
| LegacyStore.LegacySchedule.DeleteActivityType | src/components/hooks/useschedule.js:281-283 | the type gone; nothing else changes |
| LegacyStore.LegacySchedule.CopyWeek | src/components/hooks/useschedule.js:286-299 | the copies appended, each in the target week |
| LegacyStore.LegacySchedule.GetStatistics | src/components/hooks/useschedule.js:302-380 | the statistics of the week, types counted by name ('Okänd aktivitet' without one), per-type and per-day counts summing to the total, one member-table entry per participant of the week, the conflicts concatenated member by member, so their number is fixed, and the number of grouped activities |

## Left out

- Persistence and I/O: `localStorage`, JSON parsing and printing, `FileReader`, the Promise of `importSchedule`, `exportSchedule`'s download link. The constructors take the stored lists as optional parameters, and `ImportSchedule` takes the parsed file.
- The clock and random ids: `new Date()`, `Date.now()` and `Math.random()` become the `today`, id and group-id parameters; `createdAt` and `lastUpdated` are not modelled.
- TimeText.ParseNumber: reads only digit strings. The whitespace, signs, decimals, exponents and hexadecimal that `Number()` also accepts are read as `NaN` (`None`).
- Activities: times are minute counts of the stored text. A time that is `NaN` in the source (an activity whose text does not parse) has no counterpart, so comparisons with `NaN` are not modelled.
- TimeHelpers.CalculatePosition: computes in integers. The source's floating-point `(m / 60) * 60` is taken to equal m, and `hourHeight` other than 60 is not modelled.
- Floating-point hours: `totalHours` and the per-member `hours` of the statistics, `getTimeFromPosition`, and the percentage widths of the columns.
- Statistics.GetStatistics: the per-member `count` is the length of the member's list, which the source keeps equal to it.
- Statistics.GetStatistics: JavaScript orders integer-like object keys before the others. The per-member table, and so the order of the conflicts, follows insertion order.
- Time zones and daylight saving: dates are whole days. The time of day in the older store's `current <= end` comparison (today's time against the end date's midnight) is not modelled, so an end date equal to today counts as included.
- ScheduleStore.Schedule.AddActivity: the extra fields of the form that the source spreads into each instance (`recurringWeeks`, `updateAllRecurring`) are not part of the activity record.
- LegacyStore.LegacySchedule.AddActivity: the deleted form fields `days` and `recurringEndDate` are parameters rather than activity fields.
- StoreOps.UpdateActivity: a patch carries the activity fields only; the source also spreads the rest of the `updates` object, such as the `updateAllRecurring` flag, into every activity it changes.
- TimeHelpers.GenerateTimeSlots: the default hours 7 and 18 are not built in; the caller passes both.
- FreeSlots.FindFreeSlots: the defaults '07:00', '18:00' and 30 minutes are not built in; the caller passes the day's bounds and the minimum length.
- IsoWeeks.DatesForWeek: the year has no default; the source takes the current calendar year from the clock when it is left out.
- Display-only formatting (`formatDate`, `formatWeekRange`, `formatTime`, `formatTimeRange`), `isWithinWorkHours`, `isToday`, and all rendering.
- ScheduleStore.Schedule.GetStatistics: the current store has no `recurringActivities` field; the shared statistics method reports 0 there.

## Findings

| source | as written | input that shows it | evidently intended | confidence | as-written member | corrected member |
|---|---|---|---|---|---|---|
| src/components/DayColumn.jsx:16-28 | the sort comparator calls `timeToMinutes`, a `const` declared only at line 28, so it throws a ReferenceError | any day with two activities, e.g. one at 09:00 and one at 08:00 | sort by start, longer first on equal starts | high, not executed | DayColumns.SortAsWrittenThrows | DayColumns.DayOrder |
| src/components/hooks/useschedule.js:98-99 | the ISO week number is paired with the calendar year of the date | Monday 30 December 2024, in ISO week 1 of 2025, is labelled week 1 of 2024 | the ISO week-year of the date | high, not executed | WeekLabels.CalendarYearMislabels | WeekLabels.IsoWeekOfHoldsDate |
| src/components/hooks/useschedule.js:110-111 | a non-recurring activity is labelled with today's ISO week number and today's calendar year | an activity added on Monday 30 December 2024 is stored in week 1 of 2024 | today's ISO week and week-year | high, not executed | WeekLabels.CalendarYearMislabels | WeekLabels.IsoWeekOfHoldsDate |
| src/hooks/useSchedule.js:102-103 | a series without week and year starts at today's ISO week number in today's calendar year | a recurring activity added on 30 December 2024 starts in week 1 of 2024 | today's ISO week and week-year | high, not executed | WeekLabels.CalendarYearMislabels | ScheduleStore.StartLabel |
| src/hooks/useSchedule.js:109-113 | week numbers past 52 wrap once into the next year, although some years have 53 weeks and longer series pass 104 | a two-week series from week 52 of 2026: the second instance is week 1 of 2027, skipping week 53 of 2026 | the week i weeks after the start, by the ISO calendar | high, not executed | WeekLabels.WrapSkipsWeek53 | WeekLabels.NextIsoWeekIsWeeksLater |
| src/utils/timeHelpers.js:262-267 | the gap before an activity runs to its start even when that start is after the end of the day | one activity 19:00-20:00 with the default day 07:00-18:00 gives the slot 07:00-19:00 | gaps cut off at the end of the day | medium, not executed | FreeSlots.SlotPastDayEnd | FreeSlots.FreeSlotsWithinDay |
