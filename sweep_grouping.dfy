/** groupOverlappingActivities of the time helpers: one sweep over the
    activities sorted by start time, opening a new group whenever the next
    activity overlaps nothing in the current one. */
module SweepGrouping {
  import opened TimeHelpers
  import opened Activities
  import opened Sorting

  /** Every member after the first overlaps some member before it. */
  predicate Chained(g: seq<Activity>)
  {
    forall p :: 0 < p < |g| ==> OverlapsEarlier(g, p)
  }

  /** g[p] overlaps a member before it. */
  predicate OverlapsEarlier(g: seq<Activity>, p: int)
    requires 0 <= p < |g|
  {
    exists q :: 0 <= q < p && Overlaps(g[q], g[p])
  }

  /** Every activity of an earlier group ends no later than any activity of
      a later group starts. */
  predicate Separated(groups: seq<seq<Activity>>)
  {
    forall g1, g2, p, q :: 0 <= g1 < g2 < |groups| && 0 <= p < |groups[g1]| && 0 <= q < |groups[g2]| ==>
      groups[g1][p].end <= groups[g2][q].start
  }

  /** Every activity of the groups ends no later than s[q] starts, for q from `from` on. */
  predicate EndsBefore(groups: seq<seq<Activity>>, s: seq<Activity>, from: int)
  {
    forall g, p, q :: 0 <= g < |groups| && 0 <= p < |groups[g]| && 0 <= q < |s| && from <= q ==>
      groups[g][p].end <= s[q].start
  }

  lemma ChainedAppend(g: seq<Activity>, a: Activity)
    requires Chained(g)
    requires exists k :: 0 <= k < |g| && Overlaps(g[k], a)
    ensures Chained(g + [a])
  {
    var k :| 0 <= k < |g| && Overlaps(g[k], a);
    var h := g + [a];
    forall p | 0 < p < |h| ensures OverlapsEarlier(h, p) {
      if p == |g| {
        assert h[k] == g[k] && h[p] == a;
        assert Overlaps(h[k], h[p]);
      } else {
        assert OverlapsEarlier(g, p);
        var q :| 0 <= q < p && Overlaps(g[q], g[p]);
        assert h[q] == g[q] && h[p] == g[p];
        assert Overlaps(h[q], h[p]);
      }
    }
  }

  /** The inner loop: does `a` overlap some member of the group? */
  method OverlapsAnyOf(group: seq<Activity>, a: Activity) returns (found: bool)
    ensures found <==> exists k :: 0 <= k < |group| && Overlaps(group[k], a)
  {
    found := false;
    var k := 0;
    while k < |group| && !found
      invariant 0 <= k <= |group|
      invariant found <==> exists j :: 0 <= j < k && Overlaps(group[j], a)
    {
      found := Overlaps(group[k], a);
      k := k + 1;
    }
  }

  /** The groups so far partition sorted[..start] into non-empty chained
      groups that, when `wf` holds, lie apart from each other and from the
      activities still to come. */
  predicate Partial(sorted: seq<Activity>, groups: seq<seq<Activity>>, start: int, wf: bool)
    requires 0 <= start <= |sorted|
  {
    && Flatten(groups) == sorted[..start]
    && (forall g :: 0 <= g < |groups| ==> groups[g] != [] && Chained(groups[g]))
    && (wf ==> Separated(groups) && EndsBefore(groups, sorted, start))
  }

  /** Closing the current group sorted[start..i], when sorted[i] (if any)
      overlaps none of it, keeps the groups apart. */
  lemma CloseGroup(sorted: seq<Activity>, groups: seq<seq<Activity>>, start: int, i: int, wf: bool)
    requires 0 <= start < i <= |sorted|
    requires wf ==> Sorted(false, sorted) && AllWellFormed(sorted)
    requires Partial(sorted, groups, start, wf) && Chained(sorted[start..i])
    requires wf && i < |sorted| ==> forall j :: start <= j < i ==> !Overlaps(sorted[j], sorted[i])
    ensures Partial(sorted, groups + [sorted[start..i]], i, wf)
  {
    var current: seq<Activity> := sorted[start..i];
    var gs: seq<seq<Activity>> := groups + [current];
    FlattenAppend(groups, current);
    assert sorted[..start] + sorted[start..i] == sorted[..i];
    assert forall g :: 0 <= g < |groups| ==> gs[g] == groups[g];
    if wf {
      forall g: int, p: int, q: int | 0 <= g < |gs| && 0 <= p < |gs[g]| && 0 <= q < |sorted| && i <= q
        ensures gs[g][p].end <= sorted[q].start
      {
        if g == |groups| {
          assert gs[g][p] == sorted[start + p];
          assert KeyLe(false, sorted[start + p], sorted[i]);
          assert i == q || KeyLe(false, sorted[i], sorted[q]);
        }
      }
      forall g1: int, g2: int, p: int, q: int | 0 <= g1 < g2 < |gs| && 0 <= p < |gs[g1]| && 0 <= q < |gs[g2]|
        ensures gs[g1][p].end <= gs[g2][q].start
      {
        if g2 == |groups| {
          assert gs[g2][q] == sorted[start + q];
        }
      }
    }
  }

  /** Separated groups share no overlapping pair, in either order. */
  lemma SeparatedApart(groups: seq<seq<Activity>>)
    requires Separated(groups)
    ensures forall g1, g2, p, q ::
      0 <= g1 < |groups| && 0 <= g2 < |groups| && g1 != g2 && 0 <= p < |groups[g1]| && 0 <= q < |groups[g2]|
      ==> !Overlaps(groups[g1][p], groups[g2][q])
  {
  }

  /** The sweep over activities already in start order. */
  method GroupSorted(sorted: seq<Activity>, ghost wf: bool) returns (groups: seq<seq<Activity>>)
    requires sorted != []
    requires wf ==> Sorted(false, sorted) && AllWellFormed(sorted)
    ensures Partial(sorted, groups, |sorted|, wf)
  {
    groups := [];
    var current := [sorted[0]];
    ghost var start := 0;
    for i := 1 to |sorted|
      invariant 0 <= start < i
      invariant current == sorted[start..i] && Chained(current)
      invariant Partial(sorted, groups, start, wf)
    {
      var activity := sorted[i];
      var overlapsWithGroup := OverlapsAnyOf(current, activity);
      if overlapsWithGroup {
        ChainedAppend(current, activity);
        current := current + [activity];
      } else {
        forall j | start <= j < i ensures !Overlaps(sorted[j], sorted[i]) {
          assert current[j - start] == sorted[j];
        }
        CloseGroup(sorted, groups, start, i, wf);
        groups := groups + [current];
        current := [activity];
        start := i;
      }
    }
    CloseGroup(sorted, groups, start, |sorted|, wf);
    assert sorted[start..|sorted|] == current;
    groups := groups + [current];
  }

  /** groupOverlappingActivities: no groups for no activities; otherwise
      non-empty groups that, laid end to end, are the activities in start
      order, each member after the first overlapping an earlier member of its
      group; and, when every activity ends after it starts, no activity of one
      group overlaps an activity of another. */
  method GroupOverlapping(acts: seq<Activity>) returns (groups: seq<seq<Activity>>)
    ensures acts == [] <==> groups == []
    ensures forall g :: 0 <= g < |groups| ==> groups[g] != []
    ensures Flatten(groups) == SortActivities(false, acts)
    ensures forall g :: 0 <= g < |groups| ==> Chained(groups[g])
    ensures AllWellFormed(acts) ==> Separated(groups)
    ensures AllWellFormed(acts) ==>
      forall g1, g2, p, q ::
        0 <= g1 < |groups| && 0 <= g2 < |groups| && g1 != g2 && 0 <= p < |groups[g1]| && 0 <= q < |groups[g2]|
        ==> !Overlaps(groups[g1][p], groups[g2][q])
  {
    if |acts| == 0 {
      return [];
    }
    var sorted := SortActivities(false, acts);
    SortCorrect(false, acts);
    SortLength(false, acts);
    ghost var wf := AllWellFormed(acts);
    if wf {
      WellFormedPermutation(acts, sorted);
    }
    groups := GroupSorted(sorted, wf);
    assert sorted[..|sorted|] == sorted;
    if wf {
      SeparatedApart(groups);
    }
  }
}
