/** The list operations of both schedule stores: every update of the
    activities, family members and activity types is a map or a filter over
    the previous list. */
module StoreOps {
  import opened TimeText
  import opened Activities

  // ---------------------------------------------------------------------
  // Generic list operations

  /** `list.filter(keep)`. */
  function Filter<T>(s: seq<T>, keep: T -> bool): (r: seq<T>)
    ensures |r| <= |s|
    ensures forall k :: 0 <= k < |r| ==> keep(r[k]) && r[k] in s
  {
    if s == [] then [] else (if keep(s[0]) then [s[0]] else []) + Filter(s[1..], keep)
  }

  /** A filter keeps every passing element as often as it occurs and drops
      every other one. */
  lemma {:induction false} FilterExact<T>(s: seq<T>, keep: T -> bool)
    ensures forall x :: multiset(Filter(s, keep))[x] == if keep(x) then multiset(s)[x] else 0
  {
    if s != [] {
      assert s == [s[0]] + s[1..];
      FilterExact(s[1..], keep);
    }
  }

  /** A filter keeps the order: filtering a concatenation filters each part. */
  lemma {:induction false} FilterAppend<T>(a: seq<T>, b: seq<T>, keep: T -> bool)
    ensures Filter(a + b, keep) == Filter(a, keep) + Filter(b, keep)
  {
    if a == [] {
      assert a + b == b;
    } else {
      assert (a + b)[0] == a[0] && (a + b)[1..] == a[1..] + b;
      FilterAppend(a[1..], b, keep);
    }
  }

  /** Filtering twice by the same test changes nothing more. */
  lemma {:induction false} FilterIdempotent<T>(s: seq<T>, keep: T -> bool)
    ensures Filter(Filter(s, keep), keep) == Filter(s, keep)
  {
    FilterAllKept(Filter(s, keep), keep);
  }

  lemma {:induction false} FilterAllKept<T>(s: seq<T>, keep: T -> bool)
    requires forall k :: 0 <= k < |s| ==> keep(s[k])
    ensures Filter(s, keep) == s
  {
    if s != [] {
      FilterAllKept(s[1..], keep);
    }
  }

  /** `list.find(x => id(x) === key)`: the first element with that id. */
  function FindById<T>(s: seq<T>, id: T -> string, key: string): (r: Option<T>)
    ensures r.None? <==> forall k :: 0 <= k < |s| ==> id(s[k]) != key
    ensures r.Some? ==>
      exists k :: 0 <= k < |s| && s[k] == r.value && id(s[k]) == key && forall j :: 0 <= j < k ==> id(s[j]) != key
  {
    if s == [] then None
    else if id(s[0]) == key then Some(s[0])
    else
      var r := FindById(s[1..], id, key);
      assert forall k :: 1 <= k < |s| ==> s[k] == s[1..][k - 1];
      r
  }

  /** The ids of a list. */
  function Ids<T>(s: seq<T>, id: T -> string): (r: seq<string>)
    ensures |r| == |s| && forall k :: 0 <= k < |s| ==> r[k] == id(s[k])
  {
    if s == [] then [] else [id(s[0])] + Ids(s[1..], id)
  }

  /** The import merge: the imported elements whose id is not among the
      existing ones, appended after the existing ones. */
  function MergeById<T>(existing: seq<T>, imported: seq<T>, id: T -> string): seq<T>
  {
    var existingIds := Ids(existing, id);
    existing + Filter(imported, x => id(x) !in existingIds)
  }

  /** The merge keeps the existing list as its prefix and adds only elements
      with new ids, among them every imported element with a new id. */
  lemma MergeAddsNewIds<T>(existing: seq<T>, imported: seq<T>, id: T -> string)
    ensures var r := MergeById(existing, imported, id);
      && r[..|existing|] == existing
      && (forall k :: |existing| <= k < |r| ==> r[k] in imported && id(r[k]) !in Ids(existing, id))
      && (forall x :: x in imported && id(x) !in Ids(existing, id) ==> x in r)
  {
    var keep := x => id(x) !in Ids(existing, id);
    var r := MergeById(existing, imported, id);
    assert r == existing + Filter(imported, keep);
    forall k | |existing| <= k < |r| ensures r[k] in imported && id(r[k]) !in Ids(existing, id) {
      assert r[k] == Filter(imported, keep)[k - |existing|];
    }
    FilterExact(imported, keep);
    forall x | x in imported && id(x) !in Ids(existing, id) ensures x in r {
      assert multiset(Filter(imported, keep))[x] > 0;
    }
  }

  /** Importing the same file twice adds nothing the second time. */
  lemma MergeIdempotent<T>(existing: seq<T>, imported: seq<T>, id: T -> string)
    ensures MergeById(MergeById(existing, imported, id), imported, id) == MergeById(existing, imported, id)
  {
    var once := MergeById(existing, imported, id);
    MergeAddsNewIds(existing, imported, id);
    var keep := x => id(x) !in Ids(once, id);
    forall x | x in imported ensures !keep(x) {
      if id(x) in Ids(existing, id) {
        var k :| 0 <= k < |existing| && Ids(existing, id)[k] == id(x);
        assert once[k] == existing[k];
        assert Ids(once, id)[k] == id(x);
      } else {
        var k :| 0 <= k < |once| && once[k] == x;
        assert Ids(once, id)[k] == id(x);
      }
    }
    FilterNone(imported, keep);
    assert once + [] == once;
  }

  lemma {:induction false} FilterNone<T>(s: seq<T>, keep: T -> bool)
    requires forall x :: x in s ==> !keep(x)
    ensures Filter(s, keep) == []
  {
    if s != [] {
      FilterNone(s[1..], keep);
    }
  }

  // ---------------------------------------------------------------------
  // Activities

  /** The fields an activity update may carry; an absent field keeps the
      activity's own value, as `{ ...a, ...updates }` does. */
  datatype Patch = Patch(
    id: Option<string>,
    name: Option<string>,
    typeId: Option<string>,
    day: Option<string>,
    start: Option<int>,
    end: Option<int>,
    participants: Option<seq<string>>,
    week: Option<int>,
    year: Option<int>,
    recurring: Option<bool>,
    recurringGroupId: Option<string>)

  function Pick<T>(o: Option<T>, keep: T): T
  {
    if o.Some? then o.value else keep
  }

  /** `{ ...a, ...updates }`. */
  function Apply(a: Activity, p: Patch): Activity
  {
    Activity(Pick(p.id, a.id), Pick(p.name, a.name), Pick(p.typeId, a.typeId), Pick(p.day, a.day),
             Pick(p.start, a.start), Pick(p.end, a.end), Pick(p.participants, a.participants),
             Pick(p.week, a.week), Pick(p.year, a.year), Pick(p.recurring, a.recurring),
             Pick(p.recurringGroupId, a.recurringGroupId))
  }

  /** Applying the same update twice is applying it once. */
  lemma ApplyIdempotent(a: Activity, p: Patch)
    ensures Apply(Apply(a, p), p) == Apply(a, p)
  {
  }

  /** The group form of the update: the patch, but the member's own id,
      week and year (and, with `keepDay`, day) are kept. */
  function ApplyInGroup(a: Activity, p: Patch, keepDay: bool): (r: Activity)
    ensures r.id == a.id && r.week == a.week && r.year == a.year
    ensures keepDay ==> r.day == a.day
    ensures !keepDay ==> r.day == Pick(p.day, a.day)
    ensures r.(id := a.id, week := a.week, year := a.year, day := a.day)
         == Apply(a, p).(id := a.id, week := a.week, year := a.year, day := a.day)
  {
    var u := Apply(a, p);
    u.(id := a.id, week := a.week, year := a.year, day := if keepDay then a.day else u.day)
  }

  function ActivityId(a: Activity): string { a.id }

  /** The single form of updateActivity: the update goes into every
      activity with the given id; the others are unchanged. */
  function UpdateById(acts: seq<Activity>, id: string, p: Patch): (r: seq<Activity>)
    ensures |r| == |acts|
    ensures forall k :: 0 <= k < |acts| ==> r[k] == if acts[k].id == id then Apply(acts[k], p) else acts[k]
  {
    if acts == [] then []
    else [if acts[0].id == id then Apply(acts[0], p) else acts[0]] + UpdateById(acts[1..], id, p)
  }

  /** The group form: the update goes into every member of group `gid`,
      each keeping its own id, week and year (and day, with `keepDay`); the
      others are unchanged. */
  function UpdateGroup(acts: seq<Activity>, gid: string, p: Patch, keepDay: bool): (r: seq<Activity>)
    ensures |r| == |acts|
    ensures forall k :: 0 <= k < |acts| ==>
      r[k] == if acts[k].recurringGroupId == gid then ApplyInGroup(acts[k], p, keepDay) else acts[k]
  {
    if acts == [] then []
    else
      var head := if acts[0].recurringGroupId == gid then ApplyInGroup(acts[0], p, keepDay) else acts[0];
      [head] + UpdateGroup(acts[1..], gid, p, keepDay)
  }

  /** updateActivity: the group form when the activity with that id has a
      recurring group and `updateAll` is asked for, the single form
      otherwise. `keepDay` is the older store's extra preserved field. */
  function UpdateActivity(acts: seq<Activity>, id: string, p: Patch, updateAll: bool, keepDay: bool): seq<Activity>
  {
    var found := FindById(acts, ActivityId, id);
    if found.Some? && found.value.recurringGroupId != "" && updateAll
    then UpdateGroup(acts, found.value.recurringGroupId, p, keepDay)
    else UpdateById(acts, id, p)
  }

  /** The outcome of an update, case by case. The list keeps its length;
      in the group case each member of the found activity's group gets the
      patch but keeps its id, week and year; otherwise exactly the
      activities with that id get the patch. Everything else is unchanged. */
  lemma UpdateActivityCases(acts: seq<Activity>, id: string, p: Patch, updateAll: bool, keepDay: bool)
    ensures var r := UpdateActivity(acts, id, p, updateAll, keepDay);
      && |r| == |acts|
      && (forall k :: 0 <= k < |acts| && acts[k].id != id && acts[k].recurringGroupId == "" ==> r[k] == acts[k])
      && (!updateAll ==> forall k :: 0 <= k < |acts| ==>
            r[k] == if acts[k].id == id then Apply(acts[k], p) else acts[k])
      && (forall k :: 0 <= k < |acts| ==> r[k].recurringGroupId != "" ==> acts[k].recurringGroupId != "" || acts[k].id == id || p.recurringGroupId.Some?)
  {
    var found := FindById(acts, ActivityId, id);
    if found.Some? && found.value.recurringGroupId != "" && updateAll {
      var gid := found.value.recurringGroupId;
      assert forall k :: 0 <= k < |acts| && acts[k].recurringGroupId == "" ==> acts[k].recurringGroupId != gid;
    }
  }

  /** Repeating an update in the single form changes nothing more, as long
      as the update does not rename the activity. */
  lemma UpdateByIdIdempotent(acts: seq<Activity>, id: string, p: Patch)
    requires p.id.None? || p.id == Some(id)
    ensures UpdateById(UpdateById(acts, id, p), id, p) == UpdateById(acts, id, p)
  {
    var once := UpdateById(acts, id, p);
    forall k | 0 <= k < |acts| ensures UpdateById(once, id, p)[k] == once[k] {
      if acts[k].id == id {
        ApplyIdempotent(acts[k], p);
      }
    }
  }

  /** deleteActivity: with `deleteAll` and a grouped activity of that id,
      every member of its group goes; otherwise every activity with that id
      goes. The survivors keep their order. */
  function DeleteActivity(acts: seq<Activity>, id: string, deleteAll: bool): seq<Activity>
  {
    var found := FindById(acts, ActivityId, id);
    if found.Some? && found.value.recurringGroupId != "" && deleteAll
    then Filter(acts, (a: Activity) => a.recurringGroupId != found.value.recurringGroupId)
    else Filter(acts, (a: Activity) => a.id != id)
  }

  predicate UniqueIds(acts: seq<Activity>)
  {
    forall i, j :: 0 <= i < j < |acts| ==> acts[i].id != acts[j].id
  }

  /** The branch deleteActivity takes: the whole group of the first
      activity with the id, when asked to and when it has a group. */
  predicate DeletesGroup(acts: seq<Activity>, id: string, deleteAll: bool)
  {
    var found := FindById(acts, ActivityId, id);
    found.Some? && found.value.recurringGroupId != "" && deleteAll
  }

  /** deleteActivity exactly: in the group branch the activities outside
      the group of the first activity with the id survive, otherwise those
      with another id; each survivor as often as it was stored, nothing
      else. */
  lemma DeleteActivityExact(acts: seq<Activity>, id: string, deleteAll: bool)
    ensures var r := DeleteActivity(acts, id, deleteAll);
      if DeletesGroup(acts, id, deleteAll) then
        var g := FindById(acts, ActivityId, id).value.recurringGroupId;
        forall x :: multiset(r)[x] == if x.recurringGroupId != g then multiset(acts)[x] else 0
      else
        forall x :: multiset(r)[x] == if x.id != id then multiset(acts)[x] else 0
  {
    var found := FindById(acts, ActivityId, id);
    if DeletesGroup(acts, id, deleteAll) {
      FilterExact(acts, (a: Activity) => a.recurringGroupId != found.value.recurringGroupId);
    } else {
      FilterExact(acts, (a: Activity) => a.id != id);
    }
  }

  /** After deleteActivity nothing new is stored, and the id is gone
      unless the group branch ran and another activity with that id lies
      outside the group; with unique ids it is always gone. */
  lemma DeleteActivityRemoves(acts: seq<Activity>, id: string, deleteAll: bool)
    ensures var r := DeleteActivity(acts, id, deleteAll);
      && (forall x :: x in r ==> x in acts)
      && (FindById(r, ActivityId, id).None? <==>
            !DeletesGroup(acts, id, deleteAll) ||
            forall x :: x in acts && x.id == id ==>
              x.recurringGroupId == FindById(acts, ActivityId, id).value.recurringGroupId)
      && (UniqueIds(acts) ==> FindById(r, ActivityId, id).None?)
  {
    var r := DeleteActivity(acts, id, deleteAll);
    var found := FindById(acts, ActivityId, id);
    DeleteActivityExact(acts, id, deleteAll);
    forall x | x in r ensures x in acts {
      assert multiset(r)[x] > 0;
    }
    if DeletesGroup(acts, id, deleteAll) {
      var g := found.value.recurringGroupId;
      if FindById(r, ActivityId, id).Some? {
        var k :| 0 <= k < |r| && r[k].id == id;
        assert multiset(r)[r[k]] > 0;
        assert r[k] in acts && r[k].recurringGroupId != g;
      } else {
        forall x | x in acts && x.id == id ensures x.recurringGroupId == g {
          assert multiset(acts)[x] > 0;
          assert x !in r;
        }
      }
      if UniqueIds(acts) {
        var j :| 0 <= j < |acts| && acts[j] == found.value && acts[j].id == id;
        forall x | x in acts && x.id == id ensures x.recurringGroupId == g {
          var i :| 0 <= i < |acts| && acts[i] == x;
          assert i == j;
        }
      }
    } else {
      forall k | 0 <= k < |r| ensures r[k].id != id {
        assert multiset(r)[r[k]] > 0;
      }
    }
  }

  /** getActivitiesForWeek's test in the current store: recurring
      activities without a week, activities whose week and year are both
      set and match, and activities without a week. */
  predicate InWeek(a: Activity, week: int, year: int)
  {
    if a.recurring && a.week == 0 then true
    else if a.week != 0 && a.year != 0 then a.week == week && a.year == year
    else a.week == 0
  }

  /** The older store's test: no clause for recurring activities. */
  predicate InWeekLegacy(a: Activity, week: int, year: int)
  {
    if a.week != 0 && a.year != 0 then a.week == week && a.year == year
    else a.week == 0
  }

  /** An activity is shown in week (w, y) exactly when it has no week, or
      its week and year are both set and equal (w, y); an activity with a
      week but no year is never shown. The recurring clause adds nothing,
      so both stores pick the same activities. */
  lemma InWeekExactly(a: Activity, week: int, year: int)
    ensures InWeek(a, week, year) <==> a.week == 0 || (a.year != 0 && a.week == week && a.year == year)
    ensures InWeek(a, week, year) == InWeekLegacy(a, week, year)
    ensures a.week != 0 && a.year == 0 ==> !InWeek(a, week, year)
  {
  }

  function ActivitiesForWeek(acts: seq<Activity>, week: int, year: int): seq<Activity>
  {
    Filter(acts, (a: Activity) => InWeek(a, week, year))
  }

  function ActivitiesForWeekLegacy(acts: seq<Activity>, week: int, year: int): seq<Activity>
  {
    Filter(acts, (a: Activity) => InWeekLegacy(a, week, year))
  }

  /** getActivitiesForWeek: exactly the activities the week test accepts,
      with their multiplicity and in their order; both stores agree. */
  lemma ActivitiesForWeekExact(acts: seq<Activity>, week: int, year: int)
    ensures forall x ::
      multiset(ActivitiesForWeek(acts, week, year))[x] == if InWeek(x, week, year) then multiset(acts)[x] else 0
    ensures ActivitiesForWeekLegacy(acts, week, year) == ActivitiesForWeek(acts, week, year)
  {
    FilterExact(acts, (a: Activity) => InWeek(a, week, year));
    FilterSameTest(acts, (a: Activity) => InWeekLegacy(a, week, year), (a: Activity) => InWeek(a, week, year));
  }

  lemma {:induction false} FilterSameTest<T>(s: seq<T>, f: T -> bool, g: T -> bool)
    requires forall x :: f(x) == g(x)
    ensures Filter(s, f) == Filter(s, g)
  {
    if s != [] {
      FilterSameTest(s[1..], f, g);
    }
  }

  // ---------------------------------------------------------------------
  // Family members and activity types

  /** `list.filter(p => p !== id)`. */
  function Without(ps: seq<string>, id: string): (r: seq<string>)
    ensures forall x :: x in r <==> x in ps && x != id
    ensures |r| <= |ps| && (id in ps ==> |r| < |ps|)
  {
    if ps == [] then [] else (if ps[0] == id then [] else [ps[0]]) + Without(ps[1..], id)
  }

  /** What deleting member `id` does to one activity: an activity without
      the member is kept as it is; one with the member loses it, and goes
      when no participant is left. */
  function StripMember(a: Activity, id: string): (r: Option<Activity>)
    ensures id !in a.participants ==> r == Some(a)
    ensures id in a.participants && Without(a.participants, id) == [] ==> r.None?
    ensures id in a.participants && Without(a.participants, id) != [] ==>
      r == Some(a.(participants := Without(a.participants, id)))
  {
    if id in a.participants then
      var rest := Without(a.participants, id);
      if |rest| > 0 then Some(a.(participants := rest)) else None
    else Some(a)
  }

  /** The activity cascade of deleteFamilyMember. */
  function Cascade(acts: seq<Activity>, id: string): (r: seq<Activity>)
    ensures |r| <= |acts|
    ensures forall k :: 0 <= k < |r| ==> id !in r[k].participants
  {
    if acts == [] then []
    else
      var head := StripMember(acts[0], id);
      (if head.Some? then [head.value] else []) + Cascade(acts[1..], id)
  }

  /** The cascade works activity by activity, keeping the order. */
  lemma {:induction false} CascadeAppend(a: seq<Activity>, b: seq<Activity>, id: string)
    ensures Cascade(a + b, id) == Cascade(a, id) + Cascade(b, id)
  {
    if a == [] {
      assert a + b == b;
    } else {
      assert (a + b)[0] == a[0] && (a + b)[1..] == a[1..] + b;
      CascadeAppend(a[1..], b, id);
    }
  }

  /** Activities the member does not take part in are left alone. */
  lemma {:induction false} CascadeUntouched(acts: seq<Activity>, id: string)
    requires forall k :: 0 <= k < |acts| ==> id !in acts[k].participants
    ensures Cascade(acts, id) == acts
  {
    if acts != [] {
      CascadeUntouched(acts[1..], id);
    }
  }

  /** Deleting the same member twice changes nothing more. */
  lemma CascadeIdempotent(acts: seq<Activity>, id: string)
    ensures Cascade(Cascade(acts, id), id) == Cascade(acts, id)
  {
    CascadeUntouched(Cascade(acts, id), id);
  }

  datatype Member = Member(id: string, name: string, color: string, kind: string, icon: string)

  datatype MemberPatch = MemberPatch(id: Option<string>, name: Option<string>, color: Option<string>,
                                     kind: Option<string>, icon: Option<string>)

  function ApplyMember(m: Member, p: MemberPatch): Member
  {
    Member(Pick(p.id, m.id), Pick(p.name, m.name), Pick(p.color, m.color), Pick(p.kind, m.kind), Pick(p.icon, m.icon))
  }

  function MemberId(m: Member): string { m.id }

  /** updateFamilyMember: the patch goes into the members with that id. */
  function UpdateMember(ms: seq<Member>, id: string, p: MemberPatch): (r: seq<Member>)
    ensures |r| == |ms|
    ensures forall k :: 0 <= k < |ms| ==> r[k] == if ms[k].id == id then ApplyMember(ms[k], p) else ms[k]
  {
    if ms == [] then [] else [if ms[0].id == id then ApplyMember(ms[0], p) else ms[0]] + UpdateMember(ms[1..], id, p)
  }

  datatype ActivityType = ActivityType(id: string, name: string, icon: string, color: string)

  datatype TypePatch = TypePatch(id: Option<string>, name: Option<string>, icon: Option<string>, color: Option<string>)

  function ApplyType(t: ActivityType, p: TypePatch): ActivityType
  {
    ActivityType(Pick(p.id, t.id), Pick(p.name, t.name), Pick(p.icon, t.icon), Pick(p.color, t.color))
  }

  function TypeId(t: ActivityType): string { t.id }

  /** updateActivityType: the patch goes into the types with that id. */
  function UpdateType(ts: seq<ActivityType>, id: string, p: TypePatch): (r: seq<ActivityType>)
    ensures |r| == |ts|
    ensures forall k :: 0 <= k < |ts| ==> r[k] == if ts[k].id == id then ApplyType(ts[k], p) else ts[k]
  {
    if ts == [] then [] else [if ts[0].id == id then ApplyType(ts[0], p) else ts[0]] + UpdateType(ts[1..], id, p)
  }

  // ---------------------------------------------------------------------
  // Week copy

  /** copyWeek's copies: each activity of the source week, in order, with a
      fresh id, the target week and year, not recurring and in no group. */
  function CopiesForWeek(acts: seq<Activity>, fromWeek: int, fromYear: int, toWeek: int, toYear: int,
                         newId: nat -> string): (r: seq<Activity>)
    ensures var src := ActivitiesForWeek(acts, fromWeek, fromYear);
      && |r| == |src|
      && forall k :: 0 <= k < |r| ==>
           r[k] == src[k].(id := newId(k), week := toWeek, year := toYear, recurring := false, recurringGroupId := "")
  {
    var src := ActivitiesForWeek(acts, fromWeek, fromYear);
    seq(|src|, k requires 0 <= k < |src| =>
      src[k].(id := newId(k), week := toWeek, year := toYear, recurring := false, recurringGroupId := ""))
  }

  /** For a set target week, the copies belong to that week and to no
      other. */
  lemma CopiesInTargetWeek(acts: seq<Activity>, fromWeek: int, fromYear: int, toWeek: int, toYear: int,
                           newId: nat -> string)
    requires toWeek != 0 && toYear != 0
    ensures var r := CopiesForWeek(acts, fromWeek, fromYear, toWeek, toYear, newId);
      forall k, w, y :: 0 <= k < |r| ==> (InWeek(r[k], w, y) <==> w == toWeek && y == toYear)
  {
    var r := CopiesForWeek(acts, fromWeek, fromYear, toWeek, toYear, newId);
    forall k, w, y | 0 <= k < |r| ensures InWeek(r[k], w, y) <==> w == toWeek && y == toYear {
      InWeekExactly(r[k], w, y);
    }
  }
}
