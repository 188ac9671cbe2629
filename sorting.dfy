/** The two activity orders of the week grid, both by the stable
    Array.prototype.sort: by start time alone (sortActivitiesByTime and the
    sweep grouping) and by start time with the longer activity first on equal
    starts (the day column's order). */
module Sorting {
  import opened Activities

  /** `a` may precede `b`: an earlier start, or an equal start and, when
      `longerFirst`, a duration at least as long. */
  predicate KeyLe(longerFirst: bool, a: Activity, b: Activity)
  {
    a.start < b.start || (a.start == b.start && (!longerFirst || Duration(a) >= Duration(b)))
  }

  /** The comparator returns 0: neither activity goes first. */
  predicate SameKey(longerFirst: bool, a: Activity, b: Activity)
  {
    KeyLe(longerFirst, a, b) && KeyLe(longerFirst, b, a)
  }

  predicate Sorted(longerFirst: bool, s: seq<Activity>)
  {
    forall i, j :: 0 <= i < j < |s| ==> KeyLe(longerFirst, s[i], s[j])
  }

  /** The activities of s that compare equal to k, in the order of s. */
  function WithKey(longerFirst: bool, k: Activity, s: seq<Activity>): seq<Activity>
  {
    if s == [] then []
    else (if SameKey(longerFirst, k, s[0]) then [s[0]] else []) + WithKey(longerFirst, k, s[1..])
  }

  /** x goes in front of the first element it may precede. */
  function Insert(longerFirst: bool, x: Activity, s: seq<Activity>): seq<Activity>
  {
    if s == [] then [x]
    else if KeyLe(longerFirst, x, s[0]) then [x] + s
    else [s[0]] + Insert(longerFirst, x, s[1..])
  }

  /** The result of a stable sort with the comparator KeyLe describes. */
  function SortActivities(longerFirst: bool, s: seq<Activity>): seq<Activity>
  {
    if s == [] then [] else Insert(longerFirst, s[0], SortActivities(longerFirst, s[1..]))
  }

  lemma {:induction false} InsertMultiset(longerFirst: bool, x: Activity, s: seq<Activity>)
    ensures multiset(Insert(longerFirst, x, s)) == multiset(s) + multiset{x}
  {
    if s != [] && !KeyLe(longerFirst, x, s[0]) {
      InsertMultiset(longerFirst, x, s[1..]);
      assert s == [s[0]] + s[1..];
    }
  }

  lemma {:induction false} InsertSorted(longerFirst: bool, x: Activity, s: seq<Activity>)
    requires Sorted(longerFirst, s)
    ensures Sorted(longerFirst, Insert(longerFirst, x, s))
  {
    if s != [] && !KeyLe(longerFirst, x, s[0]) {
      var rest := Insert(longerFirst, x, s[1..]);
      InsertSorted(longerFirst, x, s[1..]);
      InsertMultiset(longerFirst, x, s[1..]);
      forall j | 0 <= j < |rest| ensures KeyLe(longerFirst, s[0], rest[j]) {
        assert rest[j] in multiset(rest);
        assert rest[j] == x || rest[j] in multiset(s[1..]);
        if rest[j] != x {
          assert rest[j] in s[1..];
        }
      }
    }
  }

  lemma {:induction false} InsertWithKey(longerFirst: bool, k: Activity, x: Activity, s: seq<Activity>)
    ensures WithKey(longerFirst, k, Insert(longerFirst, x, s))
      == (if SameKey(longerFirst, k, x) then [x] else []) + WithKey(longerFirst, k, s)
  {
    if s == [] {
    } else if KeyLe(longerFirst, x, s[0]) {
      assert Insert(longerFirst, x, s) == [x] + s;
      assert ([x] + s)[1..] == s;
    } else {
      var r := Insert(longerFirst, x, s);
      assert r[1..] == Insert(longerFirst, x, s[1..]);
      InsertWithKey(longerFirst, k, x, s[1..]);
    }
  }

  /** The sort returns a permutation of its input in comparator order, and it
      is stable: the activities that compare equal keep their input order. */
  lemma {:induction false} SortCorrect(longerFirst: bool, s: seq<Activity>)
    ensures Sorted(longerFirst, SortActivities(longerFirst, s))
    ensures multiset(SortActivities(longerFirst, s)) == multiset(s)
    ensures forall k :: WithKey(longerFirst, k, SortActivities(longerFirst, s)) == WithKey(longerFirst, k, s)
  {
    if s != [] {
      var tail := SortActivities(longerFirst, s[1..]);
      SortCorrect(longerFirst, s[1..]);
      InsertSorted(longerFirst, s[0], tail);
      InsertMultiset(longerFirst, s[0], tail);
      assert s == [s[0]] + s[1..];
      forall k ensures WithKey(longerFirst, k, SortActivities(longerFirst, s)) == WithKey(longerFirst, k, s) {
        InsertWithKey(longerFirst, k, s[0], tail);
      }
    }
  }

  /** A permutation of activities that all end after they start is one too. */
  lemma WellFormedPermutation(s: seq<Activity>, t: seq<Activity>)
    requires multiset(s) == multiset(t) && AllWellFormed(s)
    ensures AllWellFormed(t)
  {
    forall i | 0 <= i < |t| ensures WellFormed(t[i]) {
      assert t[i] in multiset(s);
    }
  }

  lemma {:induction false} SortLength(longerFirst: bool, s: seq<Activity>)
    ensures |SortActivities(longerFirst, s)| == |s|
  {
    SortCorrect(longerFirst, s);
    assert |multiset(SortActivities(longerFirst, s))| == |multiset(s)|;
  }
}
