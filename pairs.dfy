/** The `list.forEach((x, i) => list.slice(i + 1).forEach(y => ...))`
    pattern of the week view and the statistics: every pair of positions
    i < j, visited in increasing order, keeping the pairs a test selects. */
module Pairs {

  /** (i1, j1) is visited before (i2, j2). */
  predicate PairBefore(p: (int, int), q: (int, int))
  {
    p.0 < q.0 || (p.0 == q.0 && p.1 < q.1)
  }

  /** The pairs are listed in visiting order, so none is listed twice. */
  predicate Increasing(ps: seq<(int, int)>)
  {
    forall a, b :: 0 <= a < b < |ps| ==> PairBefore(ps[a], ps[b])
  }

  lemma IncreasingDistinct(ps: seq<(int, int)>)
    requires Increasing(ps)
    ensures forall a, b :: 0 <= a < |ps| && 0 <= b < |ps| && a != b ==> ps[a] != ps[b]
  {
    forall a, b | 0 <= a < |ps| && 0 <= b < |ps| && a != b ensures ps[a] != ps[b] {
      if a < b {
        assert PairBefore(ps[a], ps[b]);
      } else {
        assert PairBefore(ps[b], ps[a]);
      }
    }
  }

  /** The passing pairs (i, j) of row i with j >= from, by increasing j. */
  function RowPairs<T>(s: seq<T>, test: (T, T) -> bool, i: int, from: int): (r: seq<(int, int)>)
    requires 0 <= i < from <= |s|
    ensures forall k :: 0 <= k < |r| ==> r[k].0 == i && from <= r[k].1 < |s| && test(s[i], s[r[k].1])
    decreases |s| - from
  {
    if from == |s| then []
    else (if test(s[i], s[from]) then [(i, from)] else []) + RowPairs(s, test, i, from + 1)
  }

  /** The passing pairs whose first position is at least i, row by row:
      the reference the nested loops are proved against. */
  function PassingPairs<T>(s: seq<T>, test: (T, T) -> bool, i: int): (r: seq<(int, int)>)
    requires 0 <= i <= |s|
    ensures forall k :: 0 <= k < |r| ==> i <= r[k].0 < r[k].1 < |s| && test(s[r[k].0], s[r[k].1])
    decreases |s| - i
  {
    if i == |s| then [] else RowPairs(s, test, i, i + 1) + PassingPairs(s, test, i + 1)
  }

  /** Every passing pair of row i from `from` on is listed. */
  lemma {:induction false} RowComplete<T>(s: seq<T>, test: (T, T) -> bool, i: int, from: int)
    requires 0 <= i < from <= |s|
    ensures forall j :: from <= j < |s| && test(s[i], s[j]) ==> (i, j) in RowPairs(s, test, i, from)
    decreases |s| - from
  {
    if from < |s| {
      RowComplete(s, test, i, from + 1);
    }
  }

  /** A row is listed by increasing second position. */
  lemma {:induction false} RowIncreasing<T>(s: seq<T>, test: (T, T) -> bool, i: int, from: int)
    requires 0 <= i < from <= |s|
    ensures Increasing(RowPairs(s, test, i, from))
    decreases |s| - from
  {
    if from < |s| {
      RowIncreasing(s, test, i, from + 1);
    }
  }

  /** Every passing pair whose first position is at least i is listed. */
  lemma {:induction false} PassingComplete<T>(s: seq<T>, test: (T, T) -> bool, i: int)
    requires 0 <= i <= |s|
    ensures forall a, b :: i <= a < b < |s| && test(s[a], s[b]) ==> (a, b) in PassingPairs(s, test, i)
    decreases |s| - i
  {
    if i < |s| {
      RowComplete(s, test, i, i + 1);
      PassingComplete(s, test, i + 1);
    }
  }

  /** The passing pairs are listed in visiting order. */
  lemma {:induction false} PassingIncreasing<T>(s: seq<T>, test: (T, T) -> bool, i: int)
    requires 0 <= i <= |s|
    ensures Increasing(PassingPairs(s, test, i))
    decreases |s| - i
  {
    if i < |s| {
      RowIncreasing(s, test, i, i + 1);
      PassingIncreasing(s, test, i + 1);
      var row, rest := RowPairs(s, test, i, i + 1), PassingPairs(s, test, i + 1);
      var all := row + rest;
      forall a, b | 0 <= a < b < |all| ensures PairBefore(all[a], all[b]) {
        if b < |row| {
          assert all[a] == row[a] && all[b] == row[b];
        } else if a >= |row| {
          assert all[a] == rest[a - |row|] && all[b] == rest[b - |row|];
        } else {
          assert all[a] == row[a] && all[b] == rest[b - |row|];
        }
      }
    }
  }

  /** The positions (i, j), i < j, whose elements pass `test`, in the order
      the nested loops visit them: exactly the passing pairs, each once. */
  method SelectedPairs<T>(s: seq<T>, test: (T, T) -> bool) returns (ps: seq<(int, int)>)
    ensures forall k :: 0 <= k < |ps| ==> 0 <= ps[k].0 < ps[k].1 < |s| && test(s[ps[k].0], s[ps[k].1])
    ensures forall i, j :: 0 <= i < j < |s| && test(s[i], s[j]) ==> (i, j) in ps
    ensures Increasing(ps)
    ensures ps == PassingPairs(s, test, 0)
  {
    ps := [];
    for i := 0 to |s|
      invariant ps + PassingPairs(s, test, i) == PassingPairs(s, test, 0)
    {
      var before := ps;
      ps := PairsFrom(s, test, i, ps);
      assert before + PassingPairs(s, test, i) == ps + PassingPairs(s, test, i + 1);
    }
    assert ps == PassingPairs(s, test, 0);
    PassingComplete(s, test, 0);
    PassingIncreasing(s, test, 0);
  }

  /** The inner loop: the passing pairs (i, j), j > i, appended to ps, in
      increasing j. */
  method PairsFrom<T>(s: seq<T>, test: (T, T) -> bool, i: int, ps0: seq<(int, int)>) returns (ps: seq<(int, int)>)
    requires 0 <= i < |s|
    ensures ps == ps0 + RowPairs(s, test, i, i + 1)
  {
    ps := ps0;
    for j := i + 1 to |s|
      invariant ps + RowPairs(s, test, i, j) == ps0 + RowPairs(s, test, i, i + 1)
    {
      var before := ps;
      if test(s[i], s[j]) {
        ps := ps + [(i, j)];
      }
      assert before + RowPairs(s, test, i, j) == ps + RowPairs(s, test, i, j + 1);
    }
  }
}
