/** The week view's per-day queries: the activities of a day, their count
    and the conflicts between them. */
module WeekView {
  import opened Activities
  import opened Pairs

  /** getActivitiesForDay: the activities on `day`, in their given order. */
  function ActivitiesForDay(acts: seq<Activity>, day: string): (r: seq<Activity>)
    ensures |r| <= |acts|
    ensures forall k :: 0 <= k < |r| ==> r[k].day == day
  {
    if acts == [] then []
    else (if acts[0].day == day then [acts[0]] else []) + ActivitiesForDay(acts[1..], day)
  }

  /** Each activity on `day` is kept as often as it occurs, every other one
      is dropped. */
  lemma {:induction false} ActivitiesForDayExact(acts: seq<Activity>, day: string)
    ensures forall x :: multiset(ActivitiesForDay(acts, day))[x] == if x.day == day then multiset(acts)[x] else 0
  {
    if acts != [] {
      assert acts == [acts[0]] + acts[1..];
      ActivitiesForDayExact(acts[1..], day);
    }
  }

  /** Filtering by day keeps the order: the day's activities of a
      concatenation are those of each part, one after the other. */
  lemma {:induction false} ActivitiesForDayAppend(a: seq<Activity>, b: seq<Activity>, day: string)
    ensures ActivitiesForDay(a + b, day) == ActivitiesForDay(a, day) + ActivitiesForDay(b, day)
  {
    if a == [] {
      assert a + b == b;
    } else {
      assert (a + b)[0] == a[0] && (a + b)[1..] == a[1..] + b;
      ActivitiesForDayAppend(a[1..], b, day);
    }
  }

  /** getActivityCount: the number of activities on `day`; none exactly
      when no activity is on that day. */
  function ActivityCount(acts: seq<Activity>, day: string): (n: int)
    ensures 0 <= n <= |acts|
    ensures n == 0 <==> forall k :: 0 <= k < |acts| ==> acts[k].day != day
  {
    DayFilterEmpty(acts, day);
    |ActivitiesForDay(acts, day)|
  }

  lemma {:induction false} DayFilterEmpty(acts: seq<Activity>, day: string)
    ensures ActivitiesForDay(acts, day) == [] <==> forall k :: 0 <= k < |acts| ==> acts[k].day != day
  {
    if acts != [] {
      DayFilterEmpty(acts[1..], day);
      assert forall k :: 1 <= k < |acts| ==> acts[k] == acts[1..][k - 1];
    }
  }

  /** sharedParticipants: the participants of the first list that also
      appear in the second, in the first list's order. */
  function Shared(p1: seq<string>, p2: seq<string>): (r: seq<string>)
    ensures forall x :: x in r <==> x in p1 && x in p2
    ensures |r| <= |p1|
  {
    if p1 == [] then []
    else (if p1[0] in p2 then [p1[0]] else []) + Shared(p1[1..], p2)
  }

  /** Sharing a participant does not depend on which activity comes first. */
  lemma SharedSymmetric(p1: seq<string>, p2: seq<string>)
    ensures Shared(p1, p2) == [] <==> Shared(p2, p1) == []
  {
    if Shared(p1, p2) != [] {
      assert Shared(p1, p2)[0] in Shared(p2, p1);
    }
    if Shared(p2, p1) != [] {
      assert Shared(p2, p1)[0] in Shared(p1, p2);
    }
  }

  /** Two activities conflict: they share a participant and their times
      overlap. */
  predicate Conflicting(a: Activity, b: Activity)
  {
    Shared(a.participants, b.participants) != [] && Overlaps(a, b)
  }

  lemma ConflictingSymmetric(a: Activity, b: Activity)
    ensures Conflicting(a, b) <==> Conflicting(b, a)
  {
    SharedSymmetric(a.participants, b.participants);
    OverlapsSymmetric(a, b);
  }

  datatype Conflict = Conflict(activity1: Activity, activity2: Activity, sharedParticipants: seq<string>)

  function Record(a: Activity, b: Activity): Conflict
  {
    Conflict(a, b, Shared(a.participants, b.participants))
  }

  /** The conflict records of the given position pairs. */
  function Records(acts: seq<Activity>, ps: seq<(int, int)>): seq<Conflict>
    requires forall k :: 0 <= k < |ps| ==> 0 <= ps[k].0 < |acts| && 0 <= ps[k].1 < |acts|
  {
    seq(|ps|, k requires 0 <= k < |ps| => Record(acts[ps[k].0], acts[ps[k].1]))
  }

  /** getDayConflicts: the pairs of the day's activities, each unordered
      pair considered once with the earlier one first, that share a
      participant and overlap. `pairs` gives the positions in the day's
      list of each reported pair. */
  method GetDayConflicts(acts: seq<Activity>, day: string)
    returns (conflicts: seq<Conflict>, pairs: seq<(int, int)>)
    ensures var dayActs := ActivitiesForDay(acts, day);
      && |conflicts| == |pairs|
      && (forall k :: 0 <= k < |pairs| ==>
            0 <= pairs[k].0 < pairs[k].1 < |dayActs|
            && conflicts[k] == Record(dayActs[pairs[k].0], dayActs[pairs[k].1])
            && Conflicting(dayActs[pairs[k].0], dayActs[pairs[k].1]))
      && (forall i, j :: 0 <= i < j < |dayActs| && Conflicting(dayActs[i], dayActs[j]) ==> (i, j) in pairs)
      && Increasing(pairs)
    ensures forall k :: 0 <= k < |conflicts| ==>
      conflicts[k].activity1.day == day && conflicts[k].activity2.day == day
      && conflicts[k].sharedParticipants != [] && Overlaps(conflicts[k].activity1, conflicts[k].activity2)
  {
    var dayActs := ActivitiesForDay(acts, day);
    pairs := SelectedPairs(dayActs, Conflicting);
    conflicts := Records(dayActs, pairs);
  }
}
