/** The layout engine of one day column: the day's activities in display
    order, their transitive overlap groups and the first-fit columns inside
    each group. */
module DayColumns {
  import opened Activities
  import opened Sorting
  import opened SweepGrouping

  // ---------------------------------------------------------------------
  // Display order

  /** What the sort of the day column yields as written: its comparator
      calls `timeToMinutes` before that constant is initialised, so the sort
      throws as soon as it compares two activities. */
  datatype SortOutcome = Done(sorted: seq<Activity>) | ReferenceError

  function SortAsWritten(acts: seq<Activity>): SortOutcome
  {
    if |acts| < 2 then Done(acts) else ReferenceError
  }

  /** Two activities are enough to make the column fail, where the intended
      order puts the earlier one first. */
  lemma SortAsWrittenThrows(a: Activity, b: Activity)
    requires a.start > b.start
    ensures SortAsWritten([a, b]).ReferenceError?
    ensures SortActivities(true, [a, b]) == [b, a]
  {
    assert [a, b][1..] == [b];
    assert SortActivities(true, [b]) == [b];
    assert [b][1..] == [];
    assert Insert(true, a, [b]) == [b] + Insert(true, a, []);
  }

  /** The intended display order: by start time, longer activities first on
      equal starts, equal keys in their given order. */
  function DayOrder(acts: seq<Activity>): (r: seq<Activity>)
    ensures Sorted(true, r) && multiset(r) == multiset(acts)
    ensures forall k :: WithKey(true, k, r) == WithKey(true, k, acts)
  {
    SortCorrect(true, acts);
    SortActivities(true, acts)
  }

  // ---------------------------------------------------------------------
  // Transitive overlap groups

  function Unused(n: int, used: set<int>): set<int>
  {
    set j | 0 <= j < n && j !in used
  }

  /** flat[t] is acts[order[t]] for every t. */
  predicate Picks(acts: seq<Activity>, order: seq<int>, flat: seq<Activity>)
  {
    |flat| == |order| &&
    forall t :: 0 <= t < |order| ==> 0 <= order[t] < |acts| && flat[t] == acts[order[t]]
  }

  predicate Distinct(order: seq<int>)
  {
    forall s, t :: 0 <= s < t < |order| ==> order[s] != order[t]
  }

  /** No member of the group overlaps an activity whose index is not used. */
  predicate GroupClosed(group: seq<Activity>, acts: seq<Activity>, used: set<int>)
  {
    forall k, j :: 0 <= k < |group| && 0 <= j < |acts| && j !in used ==> !Overlaps(group[k], acts[j])
  }

  /** No activity of one group overlaps an activity of another group. */
  predicate Apart(groups: seq<seq<Activity>>)
  {
    forall g1, g2, p, q ::
      0 <= g1 < |groups| && 0 <= g2 < |groups| && g1 != g2 && 0 <= p < |groups[g1]| && 0 <= q < |groups[g2]|
      ==> !Overlaps(groups[g1][p], groups[g2][q])
  }

  /** No activity of the finished groups overlaps a member of `group`. */
  predicate ApartFrom(groups: seq<seq<Activity>>, group: seq<Activity>)
  {
    forall g, p, k :: 0 <= g < |groups| && 0 <= p < |groups[g]| && 0 <= k < |group| ==>
      !Overlaps(groups[g][p], group[k])
  }

  /** The state of the grouping between two steps: `groups` are finished,
      `group` is being grown, `order` lists the used indices in the order
      their activities were placed. */
  ghost predicate Grouping(acts: seq<Activity>, groups: seq<seq<Activity>>, group: seq<Activity>,
                     used: set<int>, order: seq<int>)
  {
    && (forall j :: j in used ==> 0 <= j < |acts|)
    && (forall j :: j in used <==> j in order)
    && Distinct(order)
    && Picks(acts, order, Flatten(groups) + group)
    && (forall g :: 0 <= g < |groups| ==> groups[g] != [] && Chained(groups[g]))
    && Apart(groups)
    && (forall g :: 0 <= g < |groups| ==> GroupClosed(groups[g], acts, used))
    && ApartFrom(groups, group)
    && Chained(group)
  }

  /** Adding the unused activity acts[j], which overlaps a member of the
      group, keeps the state consistent and leaves fewer unused indices. */
  lemma PushStep(acts: seq<Activity>, groups: seq<seq<Activity>>, group: seq<Activity>,
                 used: set<int>, order: seq<int>, j: int)
    requires Grouping(acts, groups, group, used, order)
    requires 0 <= j < |acts| && j !in used
    requires exists k :: 0 <= k < |group| && Overlaps(group[k], acts[j])
    ensures Grouping(acts, groups, group + [acts[j]], used + {j}, order + [j])
    ensures Unused(|acts|, used + {j}) < Unused(|acts|, used)
  {
    ChainedAppend(group, acts[j]);
    var flat := Flatten(groups) + group;
    assert flat + [acts[j]] == Flatten(groups) + (group + [acts[j]]);
    assert j in Unused(|acts|, used);
    forall g | 0 <= g < |groups| ensures GroupClosed(groups[g], acts, used + {j}) {
      assert GroupClosed(groups[g], acts, used);
    }
    var h := group + [acts[j]];
    forall g, p, k | 0 <= g < |groups| && 0 <= p < |groups[g]| && 0 <= k < |h|
      ensures !Overlaps(groups[g][p], h[k])
    {
      if k == |group| {
        assert GroupClosed(groups[g], acts, used);
        assert !Overlaps(groups[g][p], acts[j]);
      } else {
        assert h[k] == group[k];
      }
    }
  }

  /** A group that overlaps no unused activity is finished. */
  lemma CloseStep(acts: seq<Activity>, groups: seq<seq<Activity>>, group: seq<Activity>,
                  used: set<int>, order: seq<int>)
    requires Grouping(acts, groups, group, used, order)
    requires group != [] && GroupClosed(group, acts, used)
    ensures Grouping(acts, groups + [group], [], used, order)
  {
    var gs := groups + [group];
    FlattenAppend(groups, group);
    assert Flatten(gs) + [] == Flatten(groups) + group;
    forall g1, g2, p, q | 0 <= g1 < |gs| && 0 <= g2 < |gs| && g1 != g2 &&
      0 <= p < |gs[g1]| && 0 <= q < |gs[g2]|
      ensures !Overlaps(gs[g1][p], gs[g2][q])
    {
      if g2 == |groups| {
        assert !Overlaps(groups[g1][p], group[q]);
      } else if g1 == |groups| {
        assert !Overlaps(groups[g2][q], group[p]);
      } else {
        assert gs[g1] == groups[g1] && gs[g2] == groups[g2];
      }
    }
  }

  /** One pass of the `while (changed)` loop: every unused activity that
      overlaps the group joins it, by increasing index. Without a change,
      the group overlaps no unused activity. */
  method GrowPass(acts: seq<Activity>, groups: seq<seq<Activity>>, group0: seq<Activity>,
                  used0: set<int>, ghost order0: seq<int>)
    returns (group: seq<Activity>, used: set<int>, ghost order: seq<int>, changed: bool)
    requires Grouping(acts, groups, group0, used0, order0) && group0 != []
    ensures Grouping(acts, groups, group, used, order) && group != []
    ensures used0 <= used && order0 <= order
    ensures forall s, t :: |order0| <= s < t < |order| ==> order[s] < order[t]
    ensures changed ==> Unused(|acts|, used) < Unused(|acts|, used0)
    ensures !changed ==> used == used0 && group == group0 && order == order0
    ensures !changed ==> GroupClosed(group, acts, used)
  {
    group, used, order, changed := group0, used0, order0, false;
    for other := 0 to |acts|
      invariant Grouping(acts, groups, group, used, order) && group != []
      invariant used0 <= used && order0 <= order
      invariant forall s :: |order0| <= s < |order| ==> order[s] < other
      invariant forall s, t :: |order0| <= s < t < |order| ==> order[s] < order[t]
      invariant changed ==> Unused(|acts|, used) < Unused(|acts|, used0)
      invariant !changed ==> used == used0 && group == group0 && order == order0
      invariant !changed ==> forall k, j :: 0 <= k < |group| && 0 <= j < other && j !in used ==>
        !Overlaps(group[k], acts[j])
    {
      if other !in used {
        var found := OverlapsAnyOf(group, acts[other]);
        if found {
          PushStep(acts, groups, group, used, order, other);
          assert Unused(|acts|, used) <= Unused(|acts|, used0);
          group, used, order := group + [acts[other]], used + {other}, order + [other];
          changed := true;
        }
      }
    }
  }

  /** groupOverlappingActivities of the day column: each activity not yet
      used starts a group, which absorbs every unused activity overlapping
      one of its members until a pass adds nothing. The groups partition the
      input: `order` lists every input index exactly once, and the groups
      laid end to end are the activities at those indices. No activity of
      one group overlaps an activity of another, and every member after the
      first overlaps an earlier member of its group. Each group starts at
      the lowest index that no earlier group holds. */
  method GroupTransitive(acts: seq<Activity>) returns (groups: seq<seq<Activity>>, ghost order: seq<int>)
    ensures forall g :: 0 <= g < |groups| ==> groups[g] != [] && Chained(groups[g])
    ensures Picks(acts, order, Flatten(groups)) && Distinct(order)
    ensures forall j :: 0 <= j < |acts| ==> j in order
    ensures Apart(groups)
    ensures forall g :: 0 <= g < |groups| ==> StartsLeast(groups, order, g)
  {
    var used;
    groups, used, order := GroupAll(acts);
    FinishGrouping(acts, groups, used, order);
  }

  /** The outer loop: every activity not yet in a group starts one. */
  method GroupAll(acts: seq<Activity>)
    returns (groups: seq<seq<Activity>>, used: set<int>, ghost order: seq<int>)
    ensures Grouping(acts, groups, [], used, order)
    ensures forall j :: 0 <= j < |acts| ==> j in used
    ensures forall g :: 0 <= g < |groups| ==> StartsLeast(groups, order, g)
  {
    groups := [];
    order := [];
    used := {};
    GroupingStart(acts);
    for index := 0 to |acts|
      invariant Grouping(acts, groups, [], used, order)
      invariant forall j :: 0 <= j < index ==> j in used
      invariant forall g :: 0 <= g < |groups| ==> StartsLeast(groups, order, g)
    {
      if index !in used {
        var groups1, used1, order1 := BuildGroup(acts, groups, used, order, index);
        NewGroupStartsLeast(acts, groups, used, order, groups1, order1, index);
        groups, used, order := groups1, used1, order1;
      }
    }
  }

  /** Group g starts at the lowest index that the groups before it do not
      hold: order lists the groups' indices group by group, and every index
      below group g's first is listed before it. */
  ghost predicate StartsLeast(groups: seq<seq<Activity>>, order: seq<int>, g: int)
    requires 0 <= g < |groups|
  {
    var off := |Flatten(groups[..g])|;
    off < |order| && forall j :: 0 <= j < order[off] ==> j in order[..off]
  }

  /** The group the outer loop starts at the first unused index keeps every
      group starting at its lowest free index. */
  lemma NewGroupStartsLeast(acts: seq<Activity>, groups0: seq<seq<Activity>>, used0: set<int>,
                            order0: seq<int>, groups: seq<seq<Activity>>, order: seq<int>, index: int)
    requires Grouping(acts, groups0, [], used0, order0)
    requires forall j :: 0 <= j < index ==> j in used0
    requires forall g :: 0 <= g < |groups0| ==> StartsLeast(groups0, order0, g)
    requires |groups| == |groups0| + 1 && groups[..|groups0|] == groups0
    requires order0 + [index] <= order
    ensures forall g :: 0 <= g < |groups| ==> StartsLeast(groups, order, g)
  {
    assert Flatten(groups0) + [] == Flatten(groups0);
    assert |order0| == |Flatten(groups0)|;
    forall g | 0 <= g < |groups| ensures StartsLeast(groups, order, g) {
      var off := |Flatten(groups[..g])|;
      if g < |groups0| {
        assert groups[..g] == groups0[..g];
        assert StartsLeast(groups0, order0, g);
        assert order[..off] == order0[..off];
      } else {
        assert groups[..g] == groups0;
        assert order[off] == index;
        assert order[..off] == order0;
      }
    }
  }

  lemma GroupingStart(acts: seq<Activity>)
    ensures Grouping(acts, [], [], {}, [])
  {
    assert Flatten([]) + [] == [];
  }

  /** Once every index is used, the finished groups partition the input. */
  lemma FinishGrouping(acts: seq<Activity>, groups: seq<seq<Activity>>, used: set<int>, order: seq<int>)
    requires Grouping(acts, groups, [], used, order)
    requires forall j :: 0 <= j < |acts| ==> j in used
    ensures forall g :: 0 <= g < |groups| ==> groups[g] != [] && Chained(groups[g])
    ensures Picks(acts, order, Flatten(groups)) && Distinct(order)
    ensures forall j :: 0 <= j < |acts| ==> j in order
    ensures Apart(groups)
  {
    assert Flatten(groups) + [] == Flatten(groups);
  }

  /** The group started by the unused activity acts[index], grown until a
      pass adds nothing, and appended to the finished groups. */
  method BuildGroup(acts: seq<Activity>, groups0: seq<seq<Activity>>, used0: set<int>,
                    ghost order0: seq<int>, index: int)
    returns (groups: seq<seq<Activity>>, used: set<int>, ghost order: seq<int>)
    requires Grouping(acts, groups0, [], used0, order0)
    requires 0 <= index < |acts| && index !in used0
    requires forall j :: 0 <= j < index ==> j in used0
    ensures Grouping(acts, groups, [], used, order)
    ensures forall j :: 0 <= j <= index ==> j in used
    ensures |groups| == |groups0| + 1 && groups[..|groups0|] == groups0
    ensures order0 + [index] <= order
  {
    var group := [acts[index]];
    StartStep(acts, groups0, used0, order0, index);
    used := used0 + {index};
    order := order0 + [index];
    var changed := true;
    while changed
      invariant Grouping(acts, groups0, group, used, order) && group != []
      invariant forall j :: 0 <= j <= index ==> j in used
      invariant !changed ==> GroupClosed(group, acts, used)
      invariant order0 + [index] <= order
      decreases Unused(|acts|, used), changed
    {
      group, used, order, changed := GrowPass(acts, groups0, group, used, order);
    }
    CloseStep(acts, groups0, group, used, order);
    groups := groups0 + [group];
    assert groups[..|groups0|] == groups0;
  }

  /** An unused activity on its own starts a consistent group. */
  lemma StartStep(acts: seq<Activity>, groups: seq<seq<Activity>>, used: set<int>, order: seq<int>, index: int)
    requires Grouping(acts, groups, [], used, order)
    requires 0 <= index < |acts| && index !in used
    ensures Grouping(acts, groups, [acts[index]], used + {index}, order + [index])
  {
    assert Flatten(groups) + [] + [acts[index]] == Flatten(groups) + [acts[index]];
    forall g | 0 <= g < |groups| ensures GroupClosed(groups[g], acts, used + {index}) {
      assert GroupClosed(groups[g], acts, used);
    }
    forall g, p | 0 <= g < |groups| && 0 <= p < |groups[g]| ensures !Overlaps(groups[g][p], acts[index]) {
      assert GroupClosed(groups[g], acts, used);
    }
  }

  // ---------------------------------------------------------------------
  // First-fit columns

  /** The activities of s placed in column c, in the order of s. */
  function Members(s: seq<Activity>, cols: seq<int>, c: int): seq<Activity>
    requires |s| == |cols|
  {
    if s == [] then []
    else Members(s[..|s| - 1], cols[..|s| - 1], c) + (if cols[|s| - 1] == c then [s[|s| - 1]] else [])
  }

  lemma MembersStep(s: seq<Activity>, cols: seq<int>, a: Activity, target: int, c: int)
    requires |s| == |cols|
    ensures Members(s + [a], cols + [target], c) == Members(s, cols, c) + (if target == c then [a] else [])
  {
    assert (s + [a])[..|s|] == s;
    assert (cols + [target])[..|s|] == cols;
  }

  lemma {:induction false} MembersAbsent(s: seq<Activity>, cols: seq<int>, c: int)
    requires |s| == |cols|
    requires forall t :: 0 <= t < |cols| ==> cols[t] != c
    ensures Members(s, cols, c) == []
  {
    if s != [] {
      MembersAbsent(s[..|s| - 1], cols[..|s| - 1], c);
    }
  }

  /** Some activity of the column overlaps `a`. */
  predicate Blocked(column: seq<Activity>, a: Activity)
  {
    exists k :: 0 <= k < |column| && Overlaps(column[k], a)
  }

  predicate NoOverlapIn(column: seq<Activity>)
  {
    forall p, q :: 0 <= p < q < |column| ==> !Overlaps(column[p], column[q])
  }

  /** Every activity went to the first column it could go to: each column
      before its own held, when it was placed, an activity overlapping it. */
  predicate FirstFit(group: seq<Activity>, colOf: seq<int>)
    requires |colOf| <= |group|
  {
    forall t, c :: 0 <= t < |colOf| && 0 <= c < colOf[t] ==>
      Blocked(Members(group[..t], colOf[..t], c), group[t])
  }

  /** The columns after the first i activities of the group are placed. */
  predicate Placed(group: seq<Activity>, i: int, columns: seq<seq<Activity>>, colOf: seq<int>)
    requires 0 <= i <= |group|
  {
    && |colOf| == i
    && (forall t :: 0 <= t < i ==> 0 <= colOf[t] < |columns|)
    && (forall c :: 0 <= c < |columns| ==> columns[c] == Members(group[..i], colOf, c))
    && (forall c :: 0 <= c < |columns| ==> columns[c] != [] && NoOverlapIn(columns[c]))
    && |columns| <= i
    && FirstFit(group, colOf)
  }

  /** The first column that nothing overlapping `a` occupies, or the number
      of columns when every column is blocked. */
  method FirstFreeColumn(columns: seq<seq<Activity>>, a: Activity) returns (target: int)
    ensures 0 <= target <= |columns|
    ensures forall c :: 0 <= c < target ==> Blocked(columns[c], a)
    ensures target < |columns| ==> !Blocked(columns[target], a)
  {
    target := 0;
    while target < |columns|
      invariant 0 <= target <= |columns|
      invariant forall c :: 0 <= c < target ==> Blocked(columns[c], a)
    {
      var clash := OverlapsAnyOf(columns[target], a);
      if !clash {
        return;
      }
      target := target + 1;
    }
  }

  /** Placing group[i] in column `target` keeps the layout consistent. */
  lemma PlaceStep(group: seq<Activity>, i: int, columns: seq<seq<Activity>>, colOf: seq<int>, target: int)
    requires 0 <= i < |group| && Placed(group, i, columns, colOf)
    requires 0 <= target <= |columns|
    requires forall c :: 0 <= c < target ==> Blocked(columns[c], group[i])
    requires target < |columns| ==> !Blocked(columns[target], group[i])
    ensures Placed(group, i + 1,
                   if target < |columns| then columns[target := columns[target] + [group[i]]]
                   else columns + [[group[i]]],
                   colOf + [target])
  {
    var next := if target < |columns| then columns[target := columns[target] + [group[i]]] else columns + [[group[i]]];
    PlaceMembers(group, i, columns, colOf, target, next);
    if target < |columns| {
      PlaceNoOverlap(columns[target], group[i]);
    }
    PlaceFirstFit(group, i, columns, colOf, target);
  }

  lemma PlaceMembers(group: seq<Activity>, i: int, columns: seq<seq<Activity>>, colOf: seq<int>, target: int,
                     next: seq<seq<Activity>>)
    requires 0 <= i < |group| && |colOf| == i
    requires forall t :: 0 <= t < i ==> 0 <= colOf[t] < |columns|
    requires forall c :: 0 <= c < |columns| ==> columns[c] == Members(group[..i], colOf, c)
    requires 0 <= target <= |columns|
    requires next == if target < |columns| then columns[target := columns[target] + [group[i]]]
                     else columns + [[group[i]]]
    ensures forall c :: 0 <= c < |next| ==> next[c] == Members(group[..i + 1], colOf + [target], c)
  {
    assert group[..i + 1] == group[..i] + [group[i]];
    forall c | 0 <= c < |next| ensures next[c] == Members(group[..i + 1], colOf + [target], c) {
      MembersStep(group[..i], colOf, group[i], target, c);
      if c == |columns| {
        MembersAbsent(group[..i], colOf, c);
      }
    }
  }

  lemma PlaceNoOverlap(col: seq<Activity>, a: Activity)
    requires NoOverlapIn(col) && !Blocked(col, a)
    ensures NoOverlapIn(col + [a])
  {
    forall p, q | 0 <= p < q < |col| + 1 ensures !Overlaps((col + [a])[p], (col + [a])[q]) {
      if q == |col| {
        assert !Overlaps(col[p], a);
      }
    }
  }

  lemma PlaceFirstFit(group: seq<Activity>, i: int, columns: seq<seq<Activity>>, colOf: seq<int>, target: int)
    requires 0 <= i < |group| && |colOf| == i && FirstFit(group, colOf)
    requires forall c :: 0 <= c < |columns| ==> columns[c] == Members(group[..i], colOf, c)
    requires 0 <= target <= |columns|
    requires forall c :: 0 <= c < target ==> Blocked(columns[c], group[i])
    ensures FirstFit(group, colOf + [target])
  {
    var cols := colOf + [target];
    forall t, c | 0 <= t < |cols| && 0 <= c < cols[t]
      ensures Blocked(Members(group[..t], cols[..t], c), group[t])
    {
      if t == i {
        assert cols[..t] == colOf;
        assert Members(group[..i], colOf, c) == columns[c];
      } else {
        assert cols[..t] == colOf[..t];
      }
    }
  }

  /** createColumns: each activity of a group, in order, goes to the first
      column holding nothing that overlaps it, or opens a new column. Every
      activity is in exactly one column (column c holds exactly the
      activities assigned to c, in group order), no column is empty, there
      are no more columns than activities, no two activities of a column
      overlap, and each activity's earlier columns were all blocked. */
  method CreateColumns(group: seq<Activity>) returns (columns: seq<seq<Activity>>, ghost colOf: seq<int>)
    ensures |colOf| == |group| && forall t :: 0 <= t < |group| ==> 0 <= colOf[t] < |columns|
    ensures forall c :: 0 <= c < |columns| ==> columns[c] == Members(group, colOf, c)
    ensures forall c :: 0 <= c < |columns| ==> columns[c] != [] && NoOverlapIn(columns[c])
    ensures |columns| <= |group| && (group != [] ==> columns != [])
    ensures FirstFit(group, colOf)
  {
    columns := [];
    colOf := [];
    for i := 0 to |group|
      invariant Placed(group, i, columns, colOf)
    {
      var target := FirstFreeColumn(columns, group[i]);
      PlaceStep(group, i, columns, colOf, target);
      if target < |columns| {
        columns := columns[target := columns[target] + [group[i]]];
      } else {
        columns := columns + [[group[i]]];
      }
      colOf := colOf + [target];
    }
    assert group[..|group|] == group;
    if group != [] {
      assert 0 <= colOf[0] < |columns|;
    }
  }

  /** Every activity is among the members of its own column. */
  lemma {:induction false} MembersHas(s: seq<Activity>, cols: seq<int>, t: int)
    requires |s| == |cols| && 0 <= t < |s|
    ensures s[t] in Members(s, cols, cols[t])
  {
    var n := |s| - 1;
    if t < n {
      MembersHas(s[..n], cols[..n], t);
    }
  }

  /** Two activities placed in the same overlap-free column do not overlap. */
  lemma {:induction false} SameColumnApart(s: seq<Activity>, cols: seq<int>, c: int, i: int, j: int)
    requires |s| == |cols| && 0 <= i < j < |s|
    requires cols[i] == c && cols[j] == c
    requires NoOverlapIn(Members(s, cols, c))
    ensures !Overlaps(s[i], s[j])
  {
    var n := |s| - 1;
    var earlier := Members(s[..n], cols[..n], c);
    if j == n {
      MembersHas(s[..n], cols[..n], i);
      var p :| 0 <= p < |earlier| && earlier[p] == s[i];
      assert Members(s, cols, c)[p] == s[i] && Members(s, cols, c)[|earlier|] == s[j];
    } else {
      assert NoOverlapIn(earlier) by {
        forall p, q | 0 <= p < q < |earlier| ensures !Overlaps(earlier[p], earlier[q]) {
          assert Members(s, cols, c)[p] == earlier[p] && Members(s, cols, c)[q] == earlier[q];
        }
      }
      SameColumnApart(s[..n], cols[..n], c, i, j);
    }
  }

  /** The columns the activities at the positions `idx` went to. */
  function ColumnsOf(idx: seq<int>, colOf: seq<int>): set<int>
    requires forall k :: 0 <= k < |idx| ==> 0 <= idx[k] < |colOf|
  {
    set k | 0 <= k < |idx| :: colOf[idx[k]]
  }

  /** Positions that go to pairwise different columns go to as many columns. */
  lemma {:induction false} InjectiveColumns(idx: seq<int>, colOf: seq<int>)
    requires forall k :: 0 <= k < |idx| ==> 0 <= idx[k] < |colOf|
    requires forall p, q :: 0 <= p < q < |idx| ==> colOf[idx[p]] != colOf[idx[q]]
    ensures |ColumnsOf(idx, colOf)| == |idx|
  {
    if idx != [] {
      var n := |idx| - 1;
      InjectiveColumns(idx[..n], colOf);
      assert ColumnsOf(idx, colOf) == ColumnsOf(idx[..n], colOf) + {colOf[idx[n]]};
      assert colOf[idx[n]] !in ColumnsOf(idx[..n], colOf);
    }
  }

  predicate InRange(v: int, n: int)
  {
    0 <= v < n
  }

  function Range(n: nat): set<int>
  {
    set v | 0 <= v < n && InRange(v, n)
  }

  lemma {:induction false} RangeSize(n: nat)
    ensures |Range(n)| == n
  {
    if n > 0 {
      RangeSize(n - 1);
      assert Range(n) == Range(n - 1) + {n - 1};
    }
  }

  /** A set of integers in [0, n) has at most n elements. */
  lemma RangeBound(values: set<int>, n: nat)
    requires forall v :: v in values ==> 0 <= v < n
    ensures |values| <= n
  {
    assert values <= Range(n);
    assert values * Range(n) == values;
    assert |Range(n) - values| == |Range(n)| - |values * Range(n)|;
    RangeSize(n);
  }

  /** The columns are a proper colouring of the overlap relation: the
      activities at pairwise different positions `clique` of the group that
      pairwise overlap lie in as many different columns, so the layout never
      has fewer columns than the largest set of mutually overlapping
      activities. */
  lemma ColumnsCoverCliques(group: seq<Activity>, columns: seq<seq<Activity>>, colOf: seq<int>, clique: seq<int>)
    requires |colOf| == |group| && forall t :: 0 <= t < |group| ==> 0 <= colOf[t] < |columns|
    requires forall c :: 0 <= c < |columns| ==> columns[c] == Members(group, colOf, c) && NoOverlapIn(columns[c])
    requires forall k :: 0 <= k < |clique| ==> 0 <= clique[k] < |group|
    requires forall p, q :: 0 <= p < q < |clique| ==>
      clique[p] != clique[q] && Overlaps(group[clique[p]], group[clique[q]])
    ensures |clique| <= |columns|
  {
    forall p, q | 0 <= p < q < |clique| ensures colOf[clique[p]] != colOf[clique[q]] {
      var s, t := clique[p], clique[q];
      if colOf[s] == colOf[t] {
        if s < t {
          SameColumnApart(group, colOf, colOf[s], s, t);
        } else {
          SameColumnApart(group, colOf, colOf[s], t, s);
          OverlapsSymmetric(group[s], group[t]);
        }
      }
    }
    InjectiveColumns(clique, colOf);
    RangeBound(ColumnsOf(clique, colOf), |columns|);
  }

  // ---------------------------------------------------------------------
  // Overlap warning

  /** `activityGroups.some(group => group.length > 3)`. */
  function OverlapWarning(groups: seq<seq<Activity>>): (w: bool)
    ensures w <==> exists g :: 0 <= g < |groups| && |groups[g]| > 3
  {
    if groups == [] then false
    else |groups[0]| > 3 || OverlapWarning(groups[1..])
  }
}
