/** The older schedule store: the same lists, but activities are entered
    for several days at once, a recurring activity runs up to an end date,
    and group updates also keep each member's day. The clock is the
    `today` parameter (a day number); the generated ids come from the
    `newId` parameter and the group id from `groupId`. */
module LegacyStore {
  import opened TimeText
  import opened Activities
  import opened StoreOps
  import opened IsoWeeks
  import opened WeekLabels
  import opened Statistics
  import opened Defaults

  /** The number of weeks from `start` to `end`: one for every seventh day
      from `start` that is not after `end`. */
  function WeekCount(start: int, end: int): nat
  {
    if start <= end then (end - start) / 7 + 1 else 0
  }

  /** The week labels of `count` days seven days apart from `start`. */
  function LabelsFrom(start: int, count: nat): (r: seq<(int, int)>)
    ensures |r| == count && forall k :: 0 <= k < count ==> r[k] == IsoWeekOf(start + 7 * k)
  {
    seq(count, k requires 0 <= k < count => IsoWeekOf(start + 7 * k))
  }

  /** The label of the day k weeks after `start` names the week k weeks
      after the week of `start`. */
  lemma WeeksLater(start: int, k: int)
    ensures 1 <= IsoWeekOf(start + 7 * k).0 <= 53
    ensures MondayOfWeek(IsoWeekOf(start + 7 * k).0, IsoWeekOf(start + 7 * k).1)
      == MondayOfWeek(IsoWeekOf(start).0, IsoWeekOf(start).1) + 7 * k
  {
    var d := start + 7 * k;
    IsoWeekOfHoldsDate(d);
    WeekOfDate(start);
    WeekOfDate(d);
    SameIsoWeekday(start, k);
  }

  lemma SameIsoWeekday(a: int, k: int)
    ensures IsoWeekday(a + 7 * k) == IsoWeekday(a)
  {
    ShiftWeeks(a, k);
  }

  /** The labels name consecutive weeks: label k names the week k weeks
      after the week of `start`. */
  lemma LabelsWeekly(start: int, count: nat)
    ensures forall k :: 0 <= k < count ==>
      && 1 <= LabelsFrom(start, count)[k].0 <= 53
      && MondayOfWeek(LabelsFrom(start, count)[k].0, LabelsFrom(start, count)[k].1)
         == MondayOfWeek(IsoWeekOf(start).0, IsoWeekOf(start).1) + 7 * k
  {
    forall k | 0 <= k < count
      ensures 1 <= LabelsFrom(start, count)[k].0 <= 53
      ensures MondayOfWeek(LabelsFrom(start, count)[k].0, LabelsFrom(start, count)[k].1)
        == MondayOfWeek(IsoWeekOf(start).0, IsoWeekOf(start).1) + 7 * k
    {
      WeeksLater(start, k);
    }
  }

  /** getWeeksBetweenDates: the week label of every seventh day from
      `start` up to and including `end`. */
  method WeeksBetweenDates(start: int, end: int) returns (weeks: seq<(int, int)>)
    ensures weeks == LabelsFrom(start, WeekCount(start, end))
    ensures forall k :: 0 <= k < |weeks| ==> start + 7 * k <= end
    ensures end < start + 7 * |weeks|
  {
    weeks := [];
    var current := start;
    while current <= end
      invariant current == start + 7 * |weeks|
      invariant |weeks| > 0 ==> current - 7 <= end
      invariant weeks == LabelsFrom(start, |weeks|)
      decreases end - current
    {
      LabelsFromStep(start, |weeks|);
      weeks := weeks + [IsoWeekOf(current)];
      current := current + 7;
    }
    WeekCountIs(start, end, |weeks|);
  }

  lemma LabelsFromStep(start: int, k: nat)
    ensures LabelsFrom(start, k + 1) == LabelsFrom(start, k) + [IsoWeekOf(start + 7 * k)]
  {
  }

  lemma WeekCountIs(start: int, end: int, n: nat)
    requires end < start + 7 * n
    requires n > 0 ==> start + 7 * (n - 1) <= end
    requires n == 0 ==> end < start
    ensures n == WeekCount(start, end)
  {
    if n > 0 {
      assert end - start == 7 * (n - 1) + (end - start - 7 * (n - 1));
    }
  }

  /** One activity per day, in the order of `days`, the k-th with id
      newId(firstId + k). */
  function DayBlock(base: Activity, days: seq<string>, firstId: nat, newId: nat -> string): (r: seq<Activity>)
    ensures |r| == |days|
    ensures forall d :: 0 <= d < |days| ==> r[d] == base.(id := newId(firstId + d), day := days[d])
  {
    seq(|days|, d requires 0 <= d < |days| => base.(id := newId(firstId + d), day := days[d]))
  }

  /** The loop that builds one day block. */
  method DayInstances(base: Activity, days: seq<string>, firstId: nat, newId: nat -> string)
    returns (instances: seq<Activity>)
    ensures instances == DayBlock(base, days, firstId, newId)
  {
    instances := [];
    for d := 0 to |days|
      invariant |instances| == d
      invariant forall d' :: 0 <= d' < d ==> instances[d'] == base.(id := newId(firstId + d'), day := days[d'])
    {
      instances := instances + [base.(id := newId(firstId + d), day := days[d])];
    }
  }

  /** The recurring form of addActivity: for each week of `weeks`, in
      order, one activity per day of `days`, all in group `groupId`; ids are
      numbered across the whole series. */
  function Series(data: Activity, days: seq<string>, weeks: seq<(int, int)>, groupId: string,
                  newId: nat -> string): (r: seq<Activity>)
    ensures |r| == |weeks| * |days|
  {
    if weeks == [] then []
    else
      var w := |weeks| - 1;
      var base := data.(week := weeks[w].0, year := weeks[w].1, recurringGroupId := groupId);
      assert |weeks| * |days| == w * |days| + |days|;
      Series(data, days, weeks[..w], groupId, newId) + DayBlock(base, days, w * |days|, newId)
  }

  lemma IndexBelow(w: int, d: int, n: int, count: int)
    requires 0 <= w < count && 0 <= d < n
    ensures 0 <= w * n + d < count * n
  {
    assert w * n + d < w * n + n == (w + 1) * n;
    assert (w + 1) * n <= count * n;
  }

  /** Position w * |days| + d of the series is the activity for day d of
      week w. */
  lemma {:induction false} SeriesAt(data: Activity, days: seq<string>, weeks: seq<(int, int)>, groupId: string,
                                    newId: nat -> string, w: int, d: int)
    requires 0 <= w < |weeks| && 0 <= d < |days|
    ensures 0 <= w * |days| + d < |Series(data, days, weeks, groupId, newId)|
    ensures Series(data, days, weeks, groupId, newId)[w * |days| + d]
      == data.(id := newId(w * |days| + d), day := days[d], week := weeks[w].0, year := weeks[w].1,
               recurringGroupId := groupId)
  {
    var n := |days|;
    var last := |weeks| - 1;
    IndexBelow(w, d, n, |weeks|);
    if w < last {
      IndexBelow(w, d, n, last);
      SeriesAt(data, days, weeks[..last], groupId, newId, w, d);
    }
  }

  /** The loop that builds the series, a day block per week. */
  method SeriesInstances(data: Activity, days: seq<string>, weeks: seq<(int, int)>, groupId: string,
                         newId: nat -> string)
    returns (instances: seq<Activity>)
    ensures instances == Series(data, days, weeks, groupId, newId)
  {
    var n := |days|;
    instances := [];
    for w := 0 to |weeks|
      invariant instances == Series(data, days, weeks[..w], groupId, newId)
    {
      var base := data.(week := weeks[w].0, year := weeks[w].1, recurringGroupId := groupId);
      var block := DayInstances(base, days, w * n, newId);
      assert weeks[..w + 1][..w] == weeks[..w];
      instances := instances + block;
    }
    assert weeks[..|weeks|] == weeks;
  }

  class LegacySchedule {
    var activities: seq<Activity>
    var familyMembers: seq<Member>
    var activityTypes: seq<ActivityType>

    /** The stored lists where present, the defaults otherwise. */
    constructor(storedMembers: Option<seq<Member>>, storedTypes: Option<seq<ActivityType>>,
                storedActivities: Option<seq<Activity>>)
      ensures familyMembers == Pick(storedMembers, DefaultMembers())
      ensures activityTypes == Pick(storedTypes, DefaultTypes(false))
      ensures activities == Pick(storedActivities, [])
    {
      familyMembers := Pick(storedMembers, DefaultMembers());
      activityTypes := Pick(storedTypes, DefaultTypes(false));
      activities := Pick(storedActivities, []);
    }

    /** addActivity: a recurring activity with an end date becomes, for
        every week from today to the end date, one activity per chosen day,
        all in one new group; otherwise one activity per chosen day is
        added in today's week. */
    method AddActivity(data: Activity, days: seq<string>, recurringEnd: Option<int>, today: int,
                       groupId: string, newId: nat -> string)
      returns (added: seq<Activity>)
      modifies this
      ensures activities == old(activities) + added
      ensures familyMembers == old(familyMembers) && activityTypes == old(activityTypes)
      ensures data.recurring && recurringEnd.Some? ==>
        added == Series(data, days, LabelsFrom(today, WeekCount(today, recurringEnd.value)), groupId, newId)
      ensures !(data.recurring && recurringEnd.Some?) ==>
        && |added| == |days|
        && forall d :: 0 <= d < |days| ==>
             added[d] == data.(id := newId(d), day := days[d], week := IsoWeekOf(today).0, year := IsoWeekOf(today).1)
    {
      if data.recurring && recurringEnd.Some? {
        var weeks := WeeksBetweenDates(today, recurringEnd.value);
        added := SeriesInstances(data, days, weeks, groupId, newId);
      } else {
        var now := IsoWeekOf(today);
        added := DayInstances(data.(week := now.0, year := now.1), days, 0, newId);
      }
      activities := activities + added;
    }

    /** updateActivity, with the group form keeping id, week, year and day. */
    method UpdateActivity(id: string, p: Patch, updateAll: bool)
      modifies this
      ensures activities == StoreOps.UpdateActivity(old(activities), id, p, updateAll, true)
      ensures |activities| == |old(activities)|
      ensures familyMembers == old(familyMembers) && activityTypes == old(activityTypes)
    {
      UpdateActivityCases(activities, id, p, updateAll, true);
      activities := StoreOps.UpdateActivity(activities, id, p, updateAll, true);
    }

    method DeleteActivity(id: string, deleteAll: bool)
      modifies this
      ensures activities == StoreOps.DeleteActivity(old(activities), id, deleteAll)
      ensures !DeletesGroup(old(activities), id, deleteAll) ==> FindById(activities, ActivityId, id).None?
      ensures UniqueIds(old(activities)) ==> FindById(activities, ActivityId, id).None?
      ensures forall x :: x in activities ==> x in old(activities)
      ensures familyMembers == old(familyMembers) && activityTypes == old(activityTypes)
    {
      DeleteActivityRemoves(activities, id, deleteAll);
      activities := StoreOps.DeleteActivity(activities, id, deleteAll);
    }

    /** getActivitiesForWeek of this store, which selects the same
        activities as the current store's filter. */
    function ActivitiesFor(week: int, year: int): (r: seq<Activity>)
      reads this
      ensures r == ActivitiesForWeek(activities, week, year)
      ensures forall x :: multiset(r)[x] == if InWeek(x, week, year) then multiset(activities)[x] else 0
    {
      ActivitiesForWeekExact(activities, week, year);
      ActivitiesForWeekLegacy(activities, week, year)
    }

    method AddFamilyMember(data: Member, newId: string) returns (m: Member)
      modifies this
      ensures m == data.(id := newId)
      ensures familyMembers == old(familyMembers) + [m]
      ensures activities == old(activities) && activityTypes == old(activityTypes)
    {
      m := data.(id := newId);
      familyMembers := familyMembers + [m];
    }

    method UpdateFamilyMember(id: string, p: MemberPatch)
      modifies this
      ensures familyMembers == UpdateMember(old(familyMembers), id, p)
      ensures activities == old(activities) && activityTypes == old(activityTypes)
    {
      familyMembers := UpdateMember(familyMembers, id, p);
    }

    method DeleteFamilyMember(id: string)
      modifies this
      ensures familyMembers == Filter(old(familyMembers), (m: Member) => m.id != id)
      ensures forall k :: 0 <= k < |familyMembers| ==> familyMembers[k].id != id
      ensures activities == Cascade(old(activities), id)
      ensures forall k :: 0 <= k < |activities| ==> id !in activities[k].participants
      ensures activityTypes == old(activityTypes)
    {
      familyMembers := Filter(familyMembers, (m: Member) => m.id != id);
      activities := Cascade(activities, id);
    }

    method AddActivityType(data: ActivityType, newId: string) returns (t: ActivityType)
      modifies this
      ensures t == data.(id := newId)
      ensures activityTypes == old(activityTypes) + [t]
      ensures activities == old(activities) && familyMembers == old(familyMembers)
    {
      t := data.(id := newId);
      activityTypes := activityTypes + [t];
    }

    method UpdateActivityType(id: string, p: TypePatch)
      modifies this
      ensures activityTypes == UpdateType(old(activityTypes), id, p)
      ensures activities == old(activities) && familyMembers == old(familyMembers)
    {
      activityTypes := UpdateType(activityTypes, id, p);
    }

    method DeleteActivityType(id: string)
      modifies this
      ensures activityTypes == Filter(old(activityTypes), (t: ActivityType) => t.id != id)
      ensures forall k :: 0 <= k < |activityTypes| ==> activityTypes[k].id != id
      ensures activities == old(activities) && familyMembers == old(familyMembers)
    {
      activityTypes := Filter(activityTypes, (t: ActivityType) => t.id != id);
    }

    /** copyWeek, over this store's week filter. */
    method CopyWeek(fromWeek: int, fromYear: int, toWeek: int, toYear: int, newId: nat -> string)
      returns (copied: seq<Activity>)
      modifies this
      ensures copied == CopiesForWeek(old(activities), fromWeek, fromYear, toWeek, toYear, newId)
      ensures activities == old(activities) + copied
      ensures toWeek != 0 && toYear != 0 ==> forall k :: 0 <= k < |copied| ==> InWeek(copied[k], toWeek, toYear)
      ensures familyMembers == old(familyMembers) && activityTypes == old(activityTypes)
    {
      ActivitiesForWeekExact(activities, fromWeek, fromYear);
      copied := CopiesForWeek(activities, fromWeek, fromYear, toWeek, toYear, newId);
      if toWeek != 0 && toYear != 0 {
        CopiesInTargetWeek(activities, fromWeek, fromYear, toWeek, toYear, newId);
      }
      activities := activities + copied;
    }

    /** getStatistics of this store: types counted by name, and the number
        of activities that belong to a recurring group. */
    method GetStatistics(week: int, year: int) returns (stats: Stats)
      ensures var acts := ActivitiesForWeekLegacy(activities, week, year);
        && stats.totalActivities == |acts|
        && DistinctKeys(stats.byMember)
        && (forall m :: LookupList(stats.byMember, m) == ForMember(acts, m))
        && (forall m :: m in Keys(stats.byMember) <==> m in AllParticipants(acts))
        && CounterOf(stats.byType, TypesOf(acts, true))
        && CounterOf(stats.byDay, DaysOf(acts))
        && Total(stats.byType) == stats.totalActivities && Total(stats.byDay) == stats.totalActivities
        && ConflictsSound(stats.conflicts)
        && ConflictsComplete(stats.byMember, |stats.byMember|, stats.conflicts)
        && stats.conflicts == ConflictList(stats.byMember)
        && stats.recurringActivities == GroupedCount(acts)
    {
      stats := Statistics.GetStatistics(ActivitiesForWeekLegacy(activities, week, year), true);
    }
  }
}
