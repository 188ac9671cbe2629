/** findFreeSlots of the time helpers: a sweep over the activities in start
    order that keeps the time up to which the day is taken and records each
    gap of at least the minimum duration. */
module FreeSlots {
  import opened TimeHelpers
  import opened Activities
  import opened Sorting

  /** A free interval [start, end) of the day, in minutes, with its length.
      The source renders start and end with minutesToTime. */
  datatype FreeSlot = FreeSlot(start: int, end: int, duration: int)

  function Max(a: int, b: int): int
  {
    if a >= b then a else b
  }

  /** The forEach over the sorted activities, from the running time `current`:
      the slots it records and the running time it ends with. With
      `withinDay`, a gap is cut off at the end of the day. */
  function Sweep(sorted: seq<Activity>, current: int, dayEnd: int, minDuration: int, withinDay: bool)
    : (seq<FreeSlot>, int)
  {
    if sorted == [] then ([], current)
    else
      var rest := Sweep(sorted[1..], Max(current, sorted[0].end), dayEnd, minDuration, withinDay);
      (Gap(sorted[0], current, dayEnd, minDuration, withinDay) + rest.0, rest.1)
  }

  /** The slots of the whole day: the gaps before the activities, then the
      gap from the running time to the end of the day. `withinDay == false`
      is the computation as written; `true` is the corrected one. */
  function Slots(acts: seq<Activity>, dayStart: int, dayEnd: int, minDuration: int, withinDay: bool)
    : seq<FreeSlot>
  {
    var swept := Sweep(SortActivities(false, acts), dayStart, dayEnd, minDuration, withinDay);
    swept.0 + (if dayEnd - swept.1 >= minDuration then [FreeSlot(swept.1, dayEnd, dayEnd - swept.1)] else [])
  }

  /** The slot shares no minute with the activity. */
  predicate Clear(slot: FreeSlot, a: Activity)
  {
    !IsOverlapping(slot.start, slot.end, a.start, a.end)
  }

  /** The gap the sweep records before the first activity. */
  function Gap(a: Activity, current: int, dayEnd: int, minDuration: int, withinDay: bool): seq<FreeSlot>
  {
    var gapEnd := if withinDay && dayEnd < a.start then dayEnd else a.start;
    if gapEnd - current >= minDuration then [FreeSlot(current, gapEnd, gapEnd - current)] else []
  }

  lemma SweepStep(sorted: seq<Activity>, current: int, dayEnd: int, minDuration: int, withinDay: bool)
    requires sorted != []
    ensures var rest := Sweep(sorted[1..], Max(current, sorted[0].end), dayEnd, minDuration, withinDay);
      Sweep(sorted, current, dayEnd, minDuration, withinDay)
        == (Gap(sorted[0], current, dayEnd, minDuration, withinDay) + rest.0, rest.1)
  {
  }

  /** One step of the sweep, seen from the slots found so far. */
  lemma SweepAdvance(tail: seq<Activity>, current: int, dayEnd: int, minDuration: int, slots: seq<FreeSlot>)
    requires tail != []
    ensures var next := Sweep(tail[1..], Max(current, tail[0].end), dayEnd, minDuration, true);
      && slots + Sweep(tail, current, dayEnd, minDuration, true).0
         == (slots + Gap(tail[0], current, dayEnd, minDuration, true)) + next.0
      && Sweep(tail, current, dayEnd, minDuration, true).1 == next.1
  {
    SweepStep(tail, current, dayEnd, minDuration, true);
  }

  /** The running time never decreases and ends past every activity. */
  lemma {:induction false} SweepFinal(sorted: seq<Activity>, current: int, dayEnd: int, minDuration: int, withinDay: bool)
    ensures current <= Sweep(sorted, current, dayEnd, minDuration, withinDay).1
    ensures forall j :: 0 <= j < |sorted| ==> sorted[j].end <= Sweep(sorted, current, dayEnd, minDuration, withinDay).1
    decreases |sorted|
  {
    if sorted != [] {
      SweepStep(sorted, current, dayEnd, minDuration, withinDay);
      SweepFinal(sorted[1..], Max(current, sorted[0].end), dayEnd, minDuration, withinDay);
      forall j | 1 <= j < |sorted| ensures sorted[j] == sorted[1..][j - 1] { }
    }
  }

  /** Every recorded slot is at least minDuration long, has its length as
      duration and starts at or after the running time. */
  lemma {:induction false} SweepSlotShape(sorted: seq<Activity>, current: int, dayEnd: int, minDuration: int, withinDay: bool)
    ensures var slots := Sweep(sorted, current, dayEnd, minDuration, withinDay).0;
      forall k :: 0 <= k < |slots| ==>
        slots[k].duration == slots[k].end - slots[k].start >= minDuration && current <= slots[k].start
    decreases |sorted|
  {
    if sorted != [] {
      var next := Max(current, sorted[0].end);
      SweepStep(sorted, current, dayEnd, minDuration, withinDay);
      SweepSlotShape(sorted[1..], next, dayEnd, minDuration, withinDay);
    }
  }

  /** Cut off at the end of the day, no slot ends after it. */
  lemma {:induction false} SweepWithinDay(sorted: seq<Activity>, current: int, dayEnd: int, minDuration: int)
    ensures var slots := Sweep(sorted, current, dayEnd, minDuration, true).0;
      forall k :: 0 <= k < |slots| ==> slots[k].end <= dayEnd
    decreases |sorted|
  {
    if sorted != [] {
      SweepStep(sorted, current, dayEnd, minDuration, true);
      SweepWithinDay(sorted[1..], Max(current, sorted[0].end), dayEnd, minDuration);
    }
  }

  /** Over activities in start order, no slot overlaps any of them. */
  lemma {:induction false} SweepClear(sorted: seq<Activity>, current: int, dayEnd: int, minDuration: int, withinDay: bool)
    requires Sorted(false, sorted)
    ensures var slots := Sweep(sorted, current, dayEnd, minDuration, withinDay).0;
      forall k, j :: 0 <= k < |slots| && 0 <= j < |sorted| ==> Clear(slots[k], sorted[j])
    decreases |sorted|
  {
    if sorted != [] {
      var a := sorted[0];
      var next := Max(current, a.end);
      SweepStep(sorted, current, dayEnd, minDuration, withinDay);
      SweepClear(sorted[1..], next, dayEnd, minDuration, withinDay);
      SweepSlotShape(sorted[1..], next, dayEnd, minDuration, withinDay);
      var gap := Gap(a, current, dayEnd, minDuration, withinDay);
      var rest := Sweep(sorted[1..], next, dayEnd, minDuration, withinDay).0;
      var slots := gap + rest;
      forall k, j | 0 <= k < |slots| && 0 <= j < |sorted| ensures Clear(slots[k], sorted[j]) {
        if k < |gap| {
          assert slots[k] == gap[0];
          assert j == 0 || KeyLe(false, a, sorted[j]);
        } else {
          assert slots[k] == rest[k - |gap|];
          if j > 0 {
            assert sorted[j] == sorted[1..][j - 1];
          }
        }
      }
    }
  }

  /** With activities that end after they start, the slots come in order,
      each ending no later than the next begins and than the final running
      time. */
  lemma {:induction false} SweepOrdered(sorted: seq<Activity>, current: int, dayEnd: int, minDuration: int, withinDay: bool)
    requires AllWellFormed(sorted)
    ensures var (slots, final) := Sweep(sorted, current, dayEnd, minDuration, withinDay);
      && (forall k :: 0 <= k < |slots| ==> slots[k].end <= final)
      && (forall k, l :: 0 <= k < l < |slots| ==> slots[k].end <= slots[l].start)
    decreases |sorted|
  {
    if sorted != [] {
      var a := sorted[0];
      var next := Max(current, a.end);
      assert WellFormed(a) && AllWellFormed(sorted[1..]);
      SweepStep(sorted, current, dayEnd, minDuration, withinDay);
      SweepOrdered(sorted[1..], next, dayEnd, minDuration, withinDay);
      SweepSlotShape(sorted[1..], next, dayEnd, minDuration, withinDay);
      SweepFinal(sorted[1..], next, dayEnd, minDuration, withinDay);
      var gap := Gap(a, current, dayEnd, minDuration, withinDay);
      var rest := Sweep(sorted[1..], next, dayEnd, minDuration, withinDay);
      var slots := gap + rest.0;
      forall k | 0 <= k < |slots| ensures slots[k].end <= rest.1 {
        if k >= |gap| {
          assert slots[k] == rest.0[k - |gap|];
        }
      }
      forall k, l | 0 <= k < l < |slots| ensures slots[k].end <= slots[l].start {
        assert slots[l] == rest.0[l - |gap|];
        if k >= |gap| {
          assert slots[k] == rest.0[k - |gap|];
        }
      }
    }
  }

  /** The day's slots are the swept ones, then possibly one up to the end
      of the day starting at the final running time. */
  lemma SlotsSplit(acts: seq<Activity>, dayStart: int, dayEnd: int, minDuration: int, withinDay: bool)
    ensures var swept := Sweep(SortActivities(false, acts), dayStart, dayEnd, minDuration, withinDay);
      var slots := Slots(acts, dayStart, dayEnd, minDuration, withinDay);
      && |swept.0| <= |slots| <= |swept.0| + 1
      && (forall k :: 0 <= k < |swept.0| ==> slots[k] == swept.0[k])
      && (|slots| > |swept.0| ==> slots[|swept.0|] == FreeSlot(swept.1, dayEnd, dayEnd - swept.1))
      && (|slots| > |swept.0| <==> dayEnd - swept.1 >= minDuration)
  {
  }

  /** Every slot of the day is at least minDuration long, has its length as
      duration and starts at or after the start of the day. */
  lemma SlotsShape(acts: seq<Activity>, dayStart: int, dayEnd: int, minDuration: int, withinDay: bool)
    ensures var slots := Slots(acts, dayStart, dayEnd, minDuration, withinDay);
      forall k :: 0 <= k < |slots| ==>
        slots[k].duration == slots[k].end - slots[k].start >= minDuration && dayStart <= slots[k].start
  {
    var sorted := SortActivities(false, acts);
    SweepFinal(sorted, dayStart, dayEnd, minDuration, withinDay);
    SweepSlotShape(sorted, dayStart, dayEnd, minDuration, withinDay);
    SlotsSplit(acts, dayStart, dayEnd, minDuration, withinDay);
  }

  /** No slot of the day overlaps any activity. */
  lemma SlotsClear(acts: seq<Activity>, dayStart: int, dayEnd: int, minDuration: int, withinDay: bool)
    ensures var slots := Slots(acts, dayStart, dayEnd, minDuration, withinDay);
      forall k, j :: 0 <= k < |slots| && 0 <= j < |acts| ==> Clear(slots[k], acts[j])
  {
    var sorted := SortActivities(false, acts);
    SortCorrect(false, acts);
    var swept := Sweep(sorted, dayStart, dayEnd, minDuration, withinDay);
    SweepFinal(sorted, dayStart, dayEnd, minDuration, withinDay);
    SweepClear(sorted, dayStart, dayEnd, minDuration, withinDay);
    SlotsSplit(acts, dayStart, dayEnd, minDuration, withinDay);
    var slots := Slots(acts, dayStart, dayEnd, minDuration, withinDay);
    forall k, j | 0 <= k < |slots| && 0 <= j < |acts| ensures Clear(slots[k], acts[j]) {
      assert acts[j] in multiset(sorted);
      var i :| 0 <= i < |sorted| && sorted[i] == acts[j];
    }
  }

  /** When every activity ends after it starts, the slots of the day come in
      order and are pairwise disjoint. */
  lemma SlotsOrdered(acts: seq<Activity>, dayStart: int, dayEnd: int, minDuration: int, withinDay: bool)
    requires AllWellFormed(acts)
    ensures var slots := Slots(acts, dayStart, dayEnd, minDuration, withinDay);
      forall k, l :: 0 <= k < l < |slots| ==> slots[k].end <= slots[l].start
  {
    var sorted := SortActivities(false, acts);
    SortCorrect(false, acts);
    WellFormedPermutation(acts, sorted);
    SweepOrdered(sorted, dayStart, dayEnd, minDuration, withinDay);
    SlotsSplit(acts, dayStart, dayEnd, minDuration, withinDay);
  }

  /** The corrected slots lie within the day: none ends after its end. */
  lemma FreeSlotsWithinDay(acts: seq<Activity>, dayStart: int, dayEnd: int, minDuration: int)
    ensures var slots := Slots(acts, dayStart, dayEnd, minDuration, true);
      forall k :: 0 <= k < |slots| ==> dayStart <= slots[k].start && slots[k].end <= dayEnd
  {
    SlotsShape(acts, dayStart, dayEnd, minDuration, true);
    SweepWithinDay(SortActivities(false, acts), dayStart, dayEnd, minDuration);
    SlotsSplit(acts, dayStart, dayEnd, minDuration, true);
  }

  /** As written, an activity from 19:00 to 20:00 on the default day
      07:00-18:00 yields one slot from 07:00 to 19:00, past the end of the
      day; the corrected sweep gives 07:00-18:00. */
  lemma SlotPastDayEnd()
    ensures var a := Activity("a", "", "", "", 1140, 1200, [], 0, 0, false, "");
      && Slots([a], 420, 1080, 30, false) == [FreeSlot(420, 1140, 720)]
      && Slots([a], 420, 1080, 30, true) == [FreeSlot(420, 1080, 660)]
  {
    var a := Activity("a", "", "", "", 1140, 1200, [], 0, 0, false, "");
    assert SortActivities(false, [a]) == [a];
  }

  /** findFreeSlots with the source's loop, each gap cut off at the end of
      the day: it computes the corrected sweep, whose slots are at least
      `minDuration` long, lie within the day, overlap no activity and, for
      well-formed activities, come in order without overlapping. */
  method FindFreeSlots(acts: seq<Activity>, dayStart: int, dayEnd: int, minDuration: int)
    returns (slots: seq<FreeSlot>)
    ensures slots == Slots(acts, dayStart, dayEnd, minDuration, true)
    ensures forall k :: 0 <= k < |slots| ==>
      slots[k].duration == slots[k].end - slots[k].start >= minDuration
      && dayStart <= slots[k].start && slots[k].end <= dayEnd
    ensures forall k, j :: 0 <= k < |slots| && 0 <= j < |acts| ==> Clear(slots[k], acts[j])
    ensures AllWellFormed(acts) ==> forall k, l :: 0 <= k < l < |slots| ==> slots[k].end <= slots[l].start
  {
    var sorted := SortActivities(false, acts);
    var currentTime;
    slots, currentTime := GapsBetween(sorted, dayStart, dayEnd, minDuration);
    if dayEnd - currentTime >= minDuration {
      slots := slots + [FreeSlot(currentTime, dayEnd, dayEnd - currentTime)];
    }
    SlotsProperties(acts, dayStart, dayEnd, minDuration, true);
    FreeSlotsWithinDay(acts, dayStart, dayEnd, minDuration);
  }

  /** The loop over the sorted activities: the gap before each one that is
      long enough, and the running end time. */
  method GapsBetween(sorted: seq<Activity>, dayStart: int, dayEnd: int, minDuration: int)
    returns (slots: seq<FreeSlot>, currentTime: int)
    ensures (slots, currentTime) == Sweep(sorted, dayStart, dayEnd, minDuration, true)
  {
    currentTime := dayStart;
    slots := [];
    assert sorted[0..] == sorted;
    assert [] + Sweep(sorted, dayStart, dayEnd, minDuration, true).0 == Sweep(sorted, dayStart, dayEnd, minDuration, true).0;
    for i := 0 to |sorted|
      invariant Sweep(sorted, dayStart, dayEnd, minDuration, true).0
        == slots + Sweep(sorted[i..], currentTime, dayEnd, minDuration, true).0
      invariant Sweep(sorted, dayStart, dayEnd, minDuration, true).1
        == Sweep(sorted[i..], currentTime, dayEnd, minDuration, true).1
    {
      var activity := sorted[i];
      SweepAdvance(sorted[i..], currentTime, dayEnd, minDuration, slots);
      assert sorted[i..][1..] == sorted[i + 1..];
      var gapEnd := if dayEnd < activity.start then dayEnd else activity.start;
      if gapEnd - currentTime >= minDuration {
        slots := slots + [FreeSlot(currentTime, gapEnd, gapEnd - currentTime)];
      }
      currentTime := Max(currentTime, activity.end);
    }
    assert sorted[|sorted|..] == [];
    assert slots + [] == slots;
  }

  lemma SlotsProperties(acts: seq<Activity>, dayStart: int, dayEnd: int, minDuration: int, withinDay: bool)
    ensures var slots := Slots(acts, dayStart, dayEnd, minDuration, withinDay);
      && (forall k :: 0 <= k < |slots| ==>
            slots[k].duration == slots[k].end - slots[k].start >= minDuration && dayStart <= slots[k].start)
      && (forall k, j :: 0 <= k < |slots| && 0 <= j < |acts| ==> Clear(slots[k], acts[j]))
      && (AllWellFormed(acts) ==> forall k, l :: 0 <= k < l < |slots| ==> slots[k].end <= slots[l].start)
  {
    SlotsShape(acts, dayStart, dayEnd, minDuration, withinDay);
    SlotsClear(acts, dayStart, dayEnd, minDuration, withinDay);
    if AllWellFormed(acts) {
      SlotsOrdered(acts, dayStart, dayEnd, minDuration, withinDay);
    }
  }
}
