/** The current schedule store: the activities, family members and
    activity types, and every operation the views call on them. The
    clock is the `today` parameter (a day number) and the generated ids
    come from the `newId`/`instanceId` parameters. */
module ScheduleStore {
  import opened TimeText
  import opened Activities
  import opened StoreOps
  import opened IsoWeeks
  import opened WeekLabels
  import opened Statistics
  import opened WeekView
  import opened Defaults

  /** The start label of a recurring series: the activity's own week and
      year where it has them, today's ISO week label otherwise. */
  function StartLabel(data: Activity, today: int): (start: (int, int))
    ensures data.week != 0 ==> start.0 == data.week
    ensures data.year != 0 ==> start.1 == data.year
    ensures data.week == 0 && data.year == 0 ==>
      MondayOfWeek(start.0, start.1) <= today < MondayOfWeek(start.0, start.1) + 7
  {
    IsoWeekOfHoldsDate(today);
    var now := IsoWeekOf(today);
    (if data.week != 0 then data.week else now.0, if data.year != 0 then data.year else now.1)
  }

  /** x is instance i of a recurring series: the activity with its own id,
      in the group `groupId`, labelled with the week i weeks after the
      start week. */
  predicate IsInstance(x: Activity, base: Activity, groupId: string, id: string,
                       startWeek: int, startYear: int, i: int)
  {
    && x.(week := base.week, year := base.year) == base.(id := id, recurringGroupId := groupId)
    && (x.week, x.year) == NextIsoWeek(startWeek, startYear, i)
    && 1 <= x.week <= 53
    && MondayOfWeek(x.week, x.year) == MondayOfWeek(startWeek, startYear) + 7 * i
  }

  /** The instances of a recurring series, one per week. */
  method RecurringInstances(base: Activity, weeks: nat, startWeek: int, startYear: int, groupId: string,
                            instanceId: nat -> string)
    returns (instances: seq<Activity>)
    ensures |instances| == weeks
    ensures forall i :: 0 <= i < weeks ==>
      IsInstance(instances[i], base, groupId, instanceId(i), startWeek, startYear, i)
  {
    instances := [];
    for i := 0 to weeks
      invariant |instances| == i
      invariant forall k :: 0 <= k < i ==>
        IsInstance(instances[k], base, groupId, instanceId(k), startWeek, startYear, k)
    {
      var next := NextIsoWeek(startWeek, startYear, i);
      NextIsoWeekIsWeeksLater(startWeek, startYear, i);
      var x := base.(id := instanceId(i), week := next.0, year := next.1, recurringGroupId := groupId);
      assert IsInstance(x, base, groupId, instanceId(i), startWeek, startYear, i);
      instances := instances + [x];
    }
  }

  /** An imported schedule: each list is present or absent. */
  datatype Imported = Imported(
    activities: Option<seq<Activity>>,
    familyMembers: Option<seq<Member>>,
    activityTypes: Option<seq<ActivityType>>)

  class Schedule {
    var activities: seq<Activity>
    var familyMembers: seq<Member>
    var activityTypes: seq<ActivityType>

    /** The stored lists where present, the defaults otherwise; a stored
        schedule that cannot be read counts as absent. */
    constructor(storedMembers: Option<seq<Member>>, storedTypes: Option<seq<ActivityType>>,
                storedActivities: Option<seq<Activity>>)
      ensures familyMembers == Pick(storedMembers, DefaultMembers())
      ensures activityTypes == Pick(storedTypes, DefaultTypes(true))
      ensures activities == Pick(storedActivities, [])
    {
      familyMembers := Pick(storedMembers, DefaultMembers());
      activityTypes := Pick(storedTypes, DefaultTypes(true));
      activities := Pick(storedActivities, []);
    }

    /** addActivity: a recurring activity asked for over more than one week
        becomes one instance per week, grouped under the new activity's id;
        any other activity is added once with the new id. */
    method AddActivity(data: Activity, recurringWeeks: int, newId: string, instanceId: nat -> string, today: int)
      returns (added: seq<Activity>)
      modifies this
      ensures activities == old(activities) + added
      ensures familyMembers == old(familyMembers) && activityTypes == old(activityTypes)
      ensures !(data.recurring && recurringWeeks > 1) ==> added == [data.(id := newId)]
      ensures data.recurring && recurringWeeks > 1 ==>
        var start := StartLabel(data, today);
        && |added| == recurringWeeks
        && forall i :: 0 <= i < recurringWeeks ==>
             && added[i].(week := data.week, year := data.year)
                == data.(id := instanceId(i), recurringGroupId := newId)
             && (added[i].week, added[i].year) == NextIsoWeek(start.0, start.1, i)
             && 1 <= added[i].week <= 53
             && MondayOfWeek(added[i].week, added[i].year) == MondayOfWeek(start.0, start.1) + 7 * i
    {
      var newActivity := data.(id := newId);
      if data.recurring && recurringWeeks > 1 {
        var start := StartLabel(data, today);
        added := RecurringInstances(newActivity, recurringWeeks, start.0, start.1, newId, instanceId);
      } else {
        added := [newActivity];
      }
      activities := activities + added;
    }

    /** updateActivity, with the group form keeping id, week and year. */
    method UpdateActivity(id: string, p: Patch, updateAll: bool)
      modifies this
      ensures activities == StoreOps.UpdateActivity(old(activities), id, p, updateAll, false)
      ensures |activities| == |old(activities)|
      ensures familyMembers == old(familyMembers) && activityTypes == old(activityTypes)
    {
      UpdateActivityCases(activities, id, p, updateAll, false);
      activities := StoreOps.UpdateActivity(activities, id, p, updateAll, false);
    }

    /** deleteActivity: the activity, or with `deleteAll` its whole group. */
    method DeleteActivity(id: string, deleteAll: bool)
      modifies this
      ensures activities == StoreOps.DeleteActivity(old(activities), id, deleteAll)
      ensures !DeletesGroup(old(activities), id, deleteAll) ==> FindById(activities, ActivityId, id).None?
      ensures UniqueIds(old(activities)) ==> FindById(activities, ActivityId, id).None?
      ensures forall x :: x in activities ==> x in old(activities)
      ensures familyMembers == old(familyMembers) && activityTypes == old(activityTypes)
    {
      DeleteActivityRemoves(activities, id, deleteAll);
      activities := StoreOps.DeleteActivity(activities, id, deleteAll);
    }

    /** getActivitiesForWeek: exactly the activities that belong to the
        week, each as often as it is stored, in stored order. */
    function ActivitiesFor(week: int, year: int): (r: seq<Activity>)
      reads this
      ensures forall x :: multiset(r)[x] == if InWeek(x, week, year) then multiset(activities)[x] else 0
    {
      ActivitiesForWeekExact(activities, week, year);
      ActivitiesForWeek(activities, week, year)
    }

    /** addFamilyMember: the member with a fresh id, appended. */
    method AddFamilyMember(data: Member, newId: string) returns (m: Member)
      modifies this
      ensures m == data.(id := newId)
      ensures familyMembers == old(familyMembers) + [m]
      ensures activities == old(activities) && activityTypes == old(activityTypes)
    {
      m := data.(id := newId);
      familyMembers := familyMembers + [m];
    }

    method UpdateFamilyMember(id: string, p: MemberPatch)
      modifies this
      ensures familyMembers == UpdateMember(old(familyMembers), id, p)
      ensures activities == old(activities) && activityTypes == old(activityTypes)
    {
      familyMembers := UpdateMember(familyMembers, id, p);
    }

    /** deleteFamilyMember: the member goes, and so does the member from
        every activity, and every activity left without participants. */
    method DeleteFamilyMember(id: string)
      modifies this
      ensures familyMembers == Filter(old(familyMembers), (m: Member) => m.id != id)
      ensures forall k :: 0 <= k < |familyMembers| ==> familyMembers[k].id != id
      ensures activities == Cascade(old(activities), id)
      ensures forall k :: 0 <= k < |activities| ==> id !in activities[k].participants
      ensures activityTypes == old(activityTypes)
    {
      familyMembers := Filter(familyMembers, (m: Member) => m.id != id);
      activities := Cascade(activities, id);
    }

    method AddActivityType(data: ActivityType, newId: string) returns (t: ActivityType)
      modifies this
      ensures t == data.(id := newId)
      ensures activityTypes == old(activityTypes) + [t]
      ensures activities == old(activities) && familyMembers == old(familyMembers)
    {
      t := data.(id := newId);
      activityTypes := activityTypes + [t];
    }

    method UpdateActivityType(id: string, p: TypePatch)
      modifies this
      ensures activityTypes == UpdateType(old(activityTypes), id, p)
      ensures activities == old(activities) && familyMembers == old(familyMembers)
    {
      activityTypes := UpdateType(activityTypes, id, p);
    }

    /** deleteActivityType: the type goes; activities keep their type id. */
    method DeleteActivityType(id: string)
      modifies this
      ensures activityTypes == Filter(old(activityTypes), (t: ActivityType) => t.id != id)
      ensures forall k :: 0 <= k < |activityTypes| ==> activityTypes[k].id != id
      ensures activities == old(activities) && familyMembers == old(familyMembers)
    {
      activityTypes := Filter(activityTypes, (t: ActivityType) => t.id != id);
    }

    /** copyWeek: the source week's activities, copied into the target
        week with fresh ids and no recurrence, appended. */
    method CopyWeek(fromWeek: int, fromYear: int, toWeek: int, toYear: int, newId: nat -> string)
      returns (copied: seq<Activity>)
      modifies this
      ensures copied == CopiesForWeek(old(activities), fromWeek, fromYear, toWeek, toYear, newId)
      ensures activities == old(activities) + copied
      ensures toWeek != 0 && toYear != 0 ==> forall k :: 0 <= k < |copied| ==> InWeek(copied[k], toWeek, toYear)
      ensures familyMembers == old(familyMembers) && activityTypes == old(activityTypes)
    {
      copied := CopiesForWeek(activities, fromWeek, fromYear, toWeek, toYear, newId);
      if toWeek != 0 && toYear != 0 {
        CopiesInTargetWeek(activities, fromWeek, fromYear, toWeek, toYear, newId);
      }
      activities := activities + copied;
    }

    /** getStatistics over the week's activities, types counted by id. */
    method GetStatistics(week: int, year: int) returns (stats: Stats)
      ensures var acts := ActivitiesForWeek(activities, week, year);
        && stats.totalActivities == |acts|
        && DistinctKeys(stats.byMember)
        && (forall m :: LookupList(stats.byMember, m) == ForMember(acts, m))
        && (forall m :: m in Keys(stats.byMember) <==> m in AllParticipants(acts))
        && CounterOf(stats.byType, TypesOf(acts, false))
        && CounterOf(stats.byDay, DaysOf(acts))
        && Total(stats.byType) == stats.totalActivities && Total(stats.byDay) == stats.totalActivities
        && ConflictsSound(stats.conflicts)
        && ConflictsComplete(stats.byMember, |stats.byMember|, stats.conflicts)
        && stats.conflicts == ConflictList(stats.byMember)
    {
      stats := Statistics.GetStatistics(ActivitiesForWeek(activities, week, year), false);
    }

    /** importSchedule: imported activities are appended as they are;
        imported members and types only where their id is new. */
    method ImportSchedule(imported: Imported)
      modifies this
      ensures activities == old(activities) + Pick(imported.activities, [])
      ensures familyMembers == if imported.familyMembers.Some?
        then MergeById(old(familyMembers), imported.familyMembers.value, MemberId) else old(familyMembers)
      ensures activityTypes == if imported.activityTypes.Some?
        then MergeById(old(activityTypes), imported.activityTypes.value, TypeId) else old(activityTypes)
    {
      if imported.activities.Some? {
        activities := activities + imported.activities.value;
      }
      if imported.familyMembers.Some? {
        familyMembers := MergeById(familyMembers, imported.familyMembers.value, MemberId);
      }
      if imported.activityTypes.Some? {
        activityTypes := MergeById(activityTypes, imported.activityTypes.value, TypeId);
      }
    }
  }
}
