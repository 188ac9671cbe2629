/** getStatistics of both stores: counts of a week's activities per member,
    per type and per day, and the same-member conflicts. JavaScript objects
    used as counters are association lists in insertion order. */
module Statistics {
  import opened Activities
  import opened Pairs
  import opened WeekView

  // ---------------------------------------------------------------------
  // Counters

  /** `obj[k] || 0` of a counter object. */
  function Lookup(c: seq<(string, nat)>, k: string): nat
  {
    if c == [] then 0 else if c[0].0 == k then c[0].1 else Lookup(c[1..], k)
  }

  /** The keys of a counter, in insertion order. */
  function Keys<V>(c: seq<(string, V)>): (r: seq<string>)
    ensures |r| == |c| && forall i :: 0 <= i < |c| ==> r[i] == c[i].0
  {
    if c == [] then [] else [c[0].0] + Keys(c[1..])
  }

  predicate DistinctKeys<V>(c: seq<(string, V)>)
  {
    forall i, j :: 0 <= i < j < |c| ==> c[i].0 != c[j].0
  }

  /** The sum of the counts. */
  function Total(c: seq<(string, nat)>): nat
  {
    if c == [] then 0 else c[0].1 + Total(c[1..])
  }

  /** `if (!obj[k]) obj[k] = 0; obj[k]++`: the count of k goes up by one, a
      new key going last. */
  function Bump(c: seq<(string, nat)>, k: string): seq<(string, nat)>
  {
    if c == [] then [(k, 1)]
    else if c[0].0 == k then [(k, c[0].1 + 1)] + c[1..]
    else [c[0]] + Bump(c[1..], k)
  }

  /** Bumping a key adds one to its count and to the total, leaves the
      other counts alone and keeps the keys distinct. */
  lemma BumpFacts(c: seq<(string, nat)>, k: string)
    requires DistinctKeys(c)
    ensures DistinctKeys(Bump(c, k))
    ensures Lookup(Bump(c, k), k) == Lookup(c, k) + 1
    ensures forall j :: j != k ==> Lookup(Bump(c, k), j) == Lookup(c, j)
    ensures Total(Bump(c, k)) == Total(c) + 1
    ensures forall j :: j in Keys(Bump(c, k)) <==> j == k || j in Keys(c)
  {
    BumpLookup(c, k);
    BumpTotal(c, k);
    BumpKeys(c, k);
    BumpDistinct(c, k);
  }

  lemma {:induction false} BumpLookup(c: seq<(string, nat)>, k: string)
    ensures Lookup(Bump(c, k), k) == Lookup(c, k) + 1
    ensures forall j :: j != k ==> Lookup(Bump(c, k), j) == Lookup(c, j)
  {
    if c != [] && c[0].0 != k {
      BumpLookup(c[1..], k);
    }
  }

  lemma {:induction false} BumpTotal(c: seq<(string, nat)>, k: string)
    ensures Total(Bump(c, k)) == Total(c) + 1
  {
    if c != [] && c[0].0 != k {
      BumpTotal(c[1..], k);
    }
  }

  lemma {:induction false} BumpKeys(c: seq<(string, nat)>, k: string)
    ensures forall j :: j in Keys(Bump(c, k)) <==> j == k || j in Keys(c)
  {
    if c != [] {
      var b := Bump(c, k);
      assert Keys(c) == [c[0].0] + Keys(c[1..]);
      if c[0].0 != k {
        BumpKeys(c[1..], k);
        assert Keys(b) == [c[0].0] + Keys(Bump(c[1..], k));
      } else {
        assert Keys(b) == [k] + Keys(c[1..]);
      }
    }
  }

  lemma {:induction false} BumpDistinct(c: seq<(string, nat)>, k: string)
    requires DistinctKeys(c)
    ensures DistinctKeys(Bump(c, k))
  {
    if c != [] {
      var b := Bump(c, k);
      if c[0].0 != k {
        BumpDistinct(c[1..], k);
        BumpKeys(c[1..], k);
        assert Keys(c) == [c[0].0] + Keys(c[1..]);
        forall j | 0 < j < |b| ensures b[0].0 != b[j].0 {
          assert b[j] == Bump(c[1..], k)[j - 1];
          assert b[j].0 in Keys(Bump(c[1..], k));
        }
      } else {
        assert b[1..] == c[1..];
      }
    }
  }

  /** The number of times k occurs in keys. */
  function Occ(keys: seq<string>, k: string): nat
  {
    if keys == [] then 0 else Occ(keys[..|keys| - 1], k) + (if keys[|keys| - 1] == k then 1 else 0)
  }

  /** The counter holds, for each key, the number of times it occurs in
      `keys`, and no other key. */
  ghost predicate CounterOf(c: seq<(string, nat)>, keys: seq<string>)
  {
    && DistinctKeys(c)
    && Total(c) == |keys|
    && (forall k :: Lookup(c, k) == Occ(keys, k))
    && (forall k :: k in Keys(c) <==> k in keys)
  }

  lemma CountOne(c: seq<(string, nat)>, keys: seq<string>, k: string)
    requires CounterOf(c, keys)
    ensures CounterOf(Bump(c, k), keys + [k])
  {
    BumpFacts(c, k);
    assert (keys + [k])[..|keys|] == keys;
  }

  // ---------------------------------------------------------------------
  // Per-member lists

  /** `obj[k]?.activities || []` of the per-member object. */
  function LookupList(c: seq<(string, seq<Activity>)>, k: string): seq<Activity>
  {
    if c == [] then [] else if c[0].0 == k then c[0].1 else LookupList(c[1..], k)
  }

  /** Create the member's entry if missing, then push the activity. */
  function Push(c: seq<(string, seq<Activity>)>, k: string, a: Activity): seq<(string, seq<Activity>)>
  {
    if c == [] then [(k, [a])]
    else if c[0].0 == k then [(k, c[0].1 + [a])] + c[1..]
    else [c[0]] + Push(c[1..], k, a)
  }

  lemma PushFacts(c: seq<(string, seq<Activity>)>, k: string, a: Activity)
    requires DistinctKeys(c)
    ensures DistinctKeys(Push(c, k, a))
    ensures LookupList(Push(c, k, a), k) == LookupList(c, k) + [a]
    ensures forall j :: j != k ==> LookupList(Push(c, k, a), j) == LookupList(c, j)
    ensures forall j :: j in Keys(Push(c, k, a)) <==> j == k || j in Keys(c)
  {
    PushLookup(c, k, a);
    PushKeys(c, k, a);
    PushDistinct(c, k, a);
  }

  lemma {:induction false} PushLookup(c: seq<(string, seq<Activity>)>, k: string, a: Activity)
    ensures LookupList(Push(c, k, a), k) == LookupList(c, k) + [a]
    ensures forall j :: j != k ==> LookupList(Push(c, k, a), j) == LookupList(c, j)
  {
    if c != [] && c[0].0 != k {
      PushLookup(c[1..], k, a);
    }
  }

  lemma {:induction false} PushKeys(c: seq<(string, seq<Activity>)>, k: string, a: Activity)
    ensures forall j :: j in Keys(Push(c, k, a)) <==> j == k || j in Keys(c)
  {
    if c != [] {
      var b := Push(c, k, a);
      assert Keys(c) == [c[0].0] + Keys(c[1..]);
      if c[0].0 != k {
        PushKeys(c[1..], k, a);
        assert Keys(b) == [c[0].0] + Keys(Push(c[1..], k, a));
      } else {
        assert Keys(b) == [k] + Keys(c[1..]);
      }
    }
  }

  lemma {:induction false} PushDistinct(c: seq<(string, seq<Activity>)>, k: string, a: Activity)
    requires DistinctKeys(c)
    ensures DistinctKeys(Push(c, k, a))
  {
    if c != [] {
      var b := Push(c, k, a);
      if c[0].0 != k {
        PushDistinct(c[1..], k, a);
        PushKeys(c[1..], k, a);
        assert Keys(c) == [c[0].0] + Keys(c[1..]);
        forall j | 0 < j < |b| ensures b[0].0 != b[j].0 {
          assert b[j] == Push(c[1..], k, a)[j - 1];
          assert b[j].0 in Keys(Push(c[1..], k, a));
        }
      } else {
        assert b[1..] == c[1..];
      }
    }
  }

  /** A distinct-keyed list finds each entry under its own key. */
  lemma {:induction false} LookupListAt(c: seq<(string, seq<Activity>)>, e: int)
    requires DistinctKeys(c) && 0 <= e < |c|
    ensures LookupList(c, c[e].0) == c[e].1
  {
    if e > 0 {
      LookupListAt(c[1..], e - 1);
    }
  }

  function Repeat(a: Activity, n: nat): (r: seq<Activity>)
    ensures |r| == n && forall i :: 0 <= i < n ==> r[i] == a
  {
    if n == 0 then [] else Repeat(a, n - 1) + [a]
  }

  /** The activities of s listed for member m: each activity once per time
      m occurs among its participants, in the order of s. */
  function ForMember(s: seq<Activity>, m: string): seq<Activity>
  {
    if s == [] then []
    else ForMember(s[..|s| - 1], m) + Repeat(s[|s| - 1], Occ(s[|s| - 1].participants, m))
  }

  /** Every activity listed for m is an activity of s that m takes part in. */
  lemma {:induction false} ForMemberSound(s: seq<Activity>, m: string)
    ensures forall x :: x in ForMember(s, m) ==> x in s && m in x.participants
  {
    if s != [] {
      var init := s[..|s| - 1];
      var last := s[|s| - 1];
      ForMemberSound(init, m);
      OccPositive(last.participants, m);
      forall x | x in ForMember(s, m) ensures x in s && m in x.participants {
        if x in ForMember(init, m) {
          assert x in init;
        } else {
          assert x in Repeat(last, Occ(last.participants, m));
        }
      }
    }
  }

  lemma {:induction false} OccPositive(keys: seq<string>, k: string)
    ensures Occ(keys, k) > 0 <==> k in keys
  {
    if keys != [] {
      OccPositive(keys[..|keys| - 1], k);
      assert keys == keys[..|keys| - 1] + [keys[|keys| - 1]];
    }
  }

  lemma {:induction false} OccAppend(a: seq<string>, b: seq<string>, k: string)
    ensures Occ(a + b, k) == Occ(a, k) + Occ(b, k)
  {
    if b == [] {
      assert a + b == a;
    } else {
      assert (a + b)[..|a + b| - 1] == a + b[..|b| - 1];
      OccAppend(a, b[..|b| - 1], k);
    }
  }

  /** A member's count is the number of times the member is listed as a
      participant in the week. */
  lemma {:induction false} ForMemberCount(s: seq<Activity>, m: string)
    ensures |ForMember(s, m)| == Occ(AllParticipants(s), m)
  {
    if s != [] {
      ForMemberCount(s[..|s| - 1], m);
      OccAppend(AllParticipants(s[..|s| - 1]), s[|s| - 1].participants, m);
    }
  }

  /** Every activity of s that m takes part in is on m's list. */
  lemma {:induction false} ForMemberComplete(s: seq<Activity>, m: string, a: Activity)
    requires a in s && m in a.participants
    ensures a in ForMember(s, m)
  {
    var last := s[|s| - 1];
    if a == last {
      OccPositive(last.participants, m);
      assert Repeat(last, Occ(last.participants, m))[0] == a;
    } else {
      assert s == s[..|s| - 1] + [last];
      ForMemberComplete(s[..|s| - 1], m, a);
    }
  }

  /** All participant entries of s, activity after activity. */
  function AllParticipants(s: seq<Activity>): seq<string>
  {
    if s == [] then [] else AllParticipants(s[..|s| - 1]) + s[|s| - 1].participants
  }

  /** The per-member lists after the activities `done`: each member's list
      is ForMember, and the members listed are those taking part. */
  ghost predicate ListsOf(c: seq<(string, seq<Activity>)>, done: seq<Activity>)
  {
    && DistinctKeys(c)
    && (forall m :: LookupList(c, m) == ForMember(done, m))
    && (forall m :: m in Keys(c) <==> m in AllParticipants(done))
  }

  /** The per-member lists after `done` and the first j participants of
      the next activity a. */
  ghost predicate MemberLists(c: seq<(string, seq<Activity>)>, done: seq<Activity>, a: Activity, j: int)
    requires 0 <= j <= |a.participants|
  {
    && DistinctKeys(c)
    && (forall m :: LookupList(c, m) == ForMember(done, m) + Repeat(a, Occ(a.participants[..j], m)))
    && (forall m :: m in Keys(c) <==> m in AllParticipants(done) + a.participants[..j])
  }

  /** One more entry of a list counted. */
  lemma OccStep(s: seq<string>, j: int, m: string)
    requires 0 <= j < |s|
    ensures Occ(s[..j + 1], m) == Occ(s[..j], m) + (if s[j] == m then 1 else 0)
  {
    assert s[..j + 1][..j] == s[..j];
  }

  lemma ListOneLookup(c: seq<(string, seq<Activity>)>, done: seq<Activity>, a: Activity, j: int)
    requires 0 <= j < |a.participants| && MemberLists(c, done, a, j)
    ensures forall m ::
      LookupList(Push(c, a.participants[j], a), m) == ForMember(done, m) + Repeat(a, Occ(a.participants[..j + 1], m))
  {
    var p := a.participants[j];
    PushLookup(c, p, a);
    forall m ensures LookupList(Push(c, p, a), m) == ForMember(done, m) + Repeat(a, Occ(a.participants[..j + 1], m)) {
      OccStep(a.participants, j, m);
      var n := Occ(a.participants[..j], m);
      if m == p {
        assert Repeat(a, n + 1) == Repeat(a, n) + [a];
        assert (ForMember(done, m) + Repeat(a, n)) + [a] == ForMember(done, m) + (Repeat(a, n) + [a]);
      }
    }
  }

  lemma ListOneKeys(c: seq<(string, seq<Activity>)>, done: seq<Activity>, a: Activity, j: int)
    requires 0 <= j < |a.participants| && MemberLists(c, done, a, j)
    ensures forall m :: m in Keys(Push(c, a.participants[j], a)) <==> m in AllParticipants(done) + a.participants[..j + 1]
  {
    var p := a.participants[j];
    PushKeys(c, p, a);
    assert AllParticipants(done) + a.participants[..j + 1] == (AllParticipants(done) + a.participants[..j]) + [p];
  }

  lemma ListOne(c: seq<(string, seq<Activity>)>, done: seq<Activity>, a: Activity, j: int)
    requires 0 <= j < |a.participants| && MemberLists(c, done, a, j)
    ensures MemberLists(Push(c, a.participants[j], a), done, a, j + 1)
  {
    PushDistinct(c, a.participants[j], a);
    ListOneLookup(c, done, a, j);
    ListOneKeys(c, done, a, j);
  }

  /** The inner loop: a's participants in turn get a pushed on their list. */
  method PushParticipants(c0: seq<(string, seq<Activity>)>, done: seq<Activity>, a: Activity)
    returns (c: seq<(string, seq<Activity>)>)
    requires ListsOf(c0, done)
    ensures ListsOf(c, done + [a])
  {
    c := c0;
    ListStart(c, done, a);
    for j := 0 to |a.participants|
      invariant MemberLists(c, done, a, j)
    {
      ListOne(c, done, a, j);
      c := Push(c, a.participants[j], a);
    }
    ListFinish(c, done, a);
  }

  lemma ListStart(c: seq<(string, seq<Activity>)>, done: seq<Activity>, a: Activity)
    requires ListsOf(c, done)
    ensures MemberLists(c, done, a, 0)
  {
    assert a.participants[..0] == [];
    assert AllParticipants(done) + [] == AllParticipants(done);
    forall m ensures LookupList(c, m) == ForMember(done, m) + Repeat(a, Occ(a.participants[..0], m)) {
      assert ForMember(done, m) + [] == ForMember(done, m);
    }
  }

  lemma ListFinish(c: seq<(string, seq<Activity>)>, done: seq<Activity>, a: Activity)
    requires MemberLists(c, done, a, |a.participants|)
    ensures ListsOf(c, done + [a])
  {
    assert a.participants[..|a.participants|] == a.participants;
    assert (done + [a])[..|done|] == done;
    assert AllParticipants(done + [a]) == AllParticipants(done) + a.participants;
    forall m ensures LookupList(c, m) == ForMember(done + [a], m) {
      assert ForMember(done + [a], m) == ForMember(done, m) + Repeat(a, Occ(a.participants, m));
    }
  }

  lemma CountNext(c: seq<(string, nat)>, s: seq<Activity>, a: Activity, byName: bool)
    requires CounterOf(c, TypesOf(s, byName))
    ensures CounterOf(Bump(c, TypeKey(a, byName)), TypesOf(s + [a], byName))
  {
    assert (s + [a])[..|s|] == s;
    CountOne(c, TypesOf(s, byName), TypeKey(a, byName));
  }

  lemma CountDayNext(c: seq<(string, nat)>, s: seq<Activity>, a: Activity)
    requires CounterOf(c, DaysOf(s))
    ensures CounterOf(Bump(c, a.day), DaysOf(s + [a]))
  {
    assert (s + [a])[..|s|] == s;
    CountOne(c, DaysOf(s), a.day);
  }

  // ---------------------------------------------------------------------
  // Statistics

  /** A conflict of the statistics: two activities of one member on the
      same day whose times overlap. */
  datatype MemberConflict = MemberConflict(activity1: Activity, activity2: Activity, day: string)

  predicate SameDayOverlap(a: Activity, b: Activity)
  {
    a.day == b.day && Overlaps(a, b)
  }

  /** The conflict records of the given position pairs of one member's list. */
  function MemberRecords(list: seq<Activity>, ps: seq<(int, int)>): (r: seq<MemberConflict>)
    requires forall k :: 0 <= k < |ps| ==> 0 <= ps[k].0 < |list| && 0 <= ps[k].1 < |list|
    ensures |r| == |ps|
    ensures forall k :: 0 <= k < |ps| ==>
      r[k] == MemberConflict(list[ps[k].0], list[ps[k].1], list[ps[k].0].day)
  {
    seq(|ps|, k requires 0 <= k < |ps| => MemberConflict(list[ps[k].0], list[ps[k].1], list[ps[k].0].day))
  }

  datatype Stats = Stats(
    totalActivities: nat,
    byMember: seq<(string, seq<Activity>)>,
    byType: seq<(string, nat)>,
    byDay: seq<(string, nat)>,
    conflicts: seq<MemberConflict>,
    recurringActivities: nat)

  /** The key of the per-type count: the activity's type in the current
      store; its name, or 'Okänd aktivitet' without one, in the older one. */
  function TypeKey(a: Activity, byName: bool): string
  {
    if byName then (if a.name == "" then "Okänd aktivitet" else a.name) else a.typeId
  }

  function DaysOf(s: seq<Activity>): (r: seq<string>)
    ensures |r| == |s| && forall i :: 0 <= i < |s| ==> r[i] == s[i].day
  {
    if s == [] then [] else DaysOf(s[..|s| - 1]) + [s[|s| - 1].day]
  }

  function TypesOf(s: seq<Activity>, byName: bool): (r: seq<string>)
    ensures |r| == |s| && forall i :: 0 <= i < |s| ==> r[i] == TypeKey(s[i], byName)
  {
    if s == [] then [] else TypesOf(s[..|s| - 1], byName) + [TypeKey(s[|s| - 1], byName)]
  }

  /** The number of activities in a recurring group. */
  function GroupedCount(s: seq<Activity>): (n: nat)
    ensures n <= |s|
  {
    if s == [] then 0 else GroupedCount(s[..|s| - 1]) + (if s[|s| - 1].recurringGroupId != "" then 1 else 0)
  }

  /** The counting pass over the week's activities. */
  method CountWeek(week: seq<Activity>, byName: bool)
    returns (byMember: seq<(string, seq<Activity>)>, byType: seq<(string, nat)>, byDay: seq<(string, nat)>)
    ensures ListsOf(byMember, week)
    ensures CounterOf(byType, TypesOf(week, byName))
    ensures CounterOf(byDay, DaysOf(week))
    ensures Total(byType) == |week| && Total(byDay) == |week|
  {
    byMember, byType, byDay := [], [], [];
    for i := 0 to |week|
      invariant ListsOf(byMember, week[..i])
      invariant CounterOf(byType, TypesOf(week[..i], byName))
      invariant CounterOf(byDay, DaysOf(week[..i]))
    {
      var activity := week[i];
      assert week[..i + 1] == week[..i] + [activity];
      byMember := PushParticipants(byMember, week[..i], activity);
      CountNext(byType, week[..i], activity, byName);
      byType := Bump(byType, TypeKey(activity, byName));
      CountDayNext(byDay, week[..i], activity);
      byDay := Bump(byDay, activity.day);
    }
    assert week[..|week|] == week;
  }

  /** Every conflict is two activities of one member, on the same day,
      whose times overlap. */
  ghost predicate ConflictsSound(conflicts: seq<MemberConflict>)
  {
    forall k :: 0 <= k < |conflicts| ==>
      && conflicts[k].activity1.day == conflicts[k].day
      && conflicts[k].activity2.day == conflicts[k].day
      && Overlaps(conflicts[k].activity1, conflicts[k].activity2)
      && Shared(conflicts[k].activity1.participants, conflicts[k].activity2.participants) != []
  }

  /** Within the lists of the first n members, every earlier-later pair on
      the same day that overlaps is reported. */
  ghost predicate ConflictsComplete(byMember: seq<(string, seq<Activity>)>, n: int, conflicts: seq<MemberConflict>)
    requires 0 <= n <= |byMember|
  {
    forall e, i, j :: 0 <= e < n && 0 <= i < j < |byMember[e].1| && SameDayOverlap(byMember[e].1[i], byMember[e].1[j]) ==>
      MemberConflict(byMember[e].1[i], byMember[e].1[j], byMember[e].1[i].day) in conflicts
  }

  /** The conflict records of one member's list: one per earlier-later
      pair on the same day that overlaps, in the order the loops visit
      them. */
  function ListConflicts(list: seq<Activity>): seq<MemberConflict>
  {
    MemberRecords(list, PassingPairs(list, SameDayOverlap, 0))
  }

  /** The conflicts of the per-member table, member by member: a pair that
      two members share is recorded once for each of them. */
  function ConflictList(byMember: seq<(string, seq<Activity>)>): seq<MemberConflict>
  {
    if byMember == [] then []
    else ConflictList(byMember[..|byMember| - 1]) + ListConflicts(byMember[|byMember| - 1].1)
  }

  /** Every record of a member's list is on one day, overlapping, and
      shares the member. */
  lemma ListConflictsSound(m: string, list: seq<Activity>)
    requires forall x :: x in list ==> m in x.participants
    ensures ConflictsSound(ListConflicts(list))
  {
    var found := ListConflicts(list);
    forall k | 0 <= k < |found|
      ensures Shared(found[k].activity1.participants, found[k].activity2.participants) != []
    {
      assert m in found[k].activity1.participants && m in found[k].activity2.participants;
    }
  }

  /** Every earlier-later pair of the list on the same day that overlaps
      has its record. */
  lemma ListConflictsComplete(list: seq<Activity>)
    ensures forall i, j :: 0 <= i < j < |list| && SameDayOverlap(list[i], list[j]) ==>
      MemberConflict(list[i], list[j], list[i].day) in ListConflicts(list)
  {
    var ps := PassingPairs(list, SameDayOverlap, 0);
    var found := ListConflicts(list);
    PassingComplete(list, SameDayOverlap, 0);
    forall i, j | 0 <= i < j < |list| && SameDayOverlap(list[i], list[j])
      ensures MemberConflict(list[i], list[j], list[i].day) in found
    {
      var k :| 0 <= k < |ps| && ps[k] == (i, j);
      assert found[k] == MemberConflict(list[i], list[j], list[i].day);
    }
  }

  /** One member's conflicts: the selected pairs of its list, each once,
      in visiting order. */
  method MemberConflicts(m: string, list: seq<Activity>) returns (found: seq<MemberConflict>)
    requires forall x :: x in list ==> m in x.participants
    ensures found == ListConflicts(list)
    ensures var ps := PassingPairs(list, SameDayOverlap, 0);
      && |found| == |ps| && Increasing(ps)
      && forall k :: 0 <= k < |ps| ==>
           && 0 <= ps[k].0 < ps[k].1 < |list| && SameDayOverlap(list[ps[k].0], list[ps[k].1])
           && found[k] == MemberConflict(list[ps[k].0], list[ps[k].1], list[ps[k].0].day)
    ensures ConflictsSound(found)
    ensures forall i, j :: 0 <= i < j < |list| && SameDayOverlap(list[i], list[j]) ==>
      MemberConflict(list[i], list[j], list[i].day) in found
  {
    var ps := SelectedPairs(list, SameDayOverlap);
    found := MemberRecords(list, ps);
    ListConflictsSound(m, list);
    ListConflictsComplete(list);
  }

  /** getStatistics over the activities of one week. `byName` selects the
      older store's variant, which counts types by name and also reports
      the number of activities in a recurring group. */
  method GetStatistics(week: seq<Activity>, byName: bool) returns (stats: Stats)
    ensures stats.totalActivities == |week|
    ensures DistinctKeys(stats.byMember)
    ensures forall m :: LookupList(stats.byMember, m) == ForMember(week, m)
    ensures forall m :: m in Keys(stats.byMember) <==> m in AllParticipants(week)
    ensures CounterOf(stats.byType, TypesOf(week, byName))
    ensures CounterOf(stats.byDay, DaysOf(week))
    ensures Total(stats.byType) == stats.totalActivities && Total(stats.byDay) == stats.totalActivities
    ensures ConflictsSound(stats.conflicts)
    ensures ConflictsComplete(stats.byMember, |stats.byMember|, stats.conflicts)
    ensures stats.conflicts == ConflictList(stats.byMember)
    ensures stats.recurringActivities == if byName then GroupedCount(week) else 0
  {
    var byMember, byType, byDay := CountWeek(week, byName);
    var conflicts: seq<MemberConflict> := [];
    for e := 0 to |byMember|
      invariant ConflictsSound(conflicts)
      invariant ConflictsComplete(byMember, e, conflicts)
      invariant conflicts == ConflictList(byMember[..e])
    {
      var (m, list) := byMember[e];
      LookupListAt(byMember, e);
      ForMemberSound(week, m);
      var found := MemberConflicts(m, list);
      conflicts := conflicts + found;
      assert byMember[..e + 1][..e] == byMember[..e];
    }
    assert byMember[..|byMember|] == byMember;
    var recurring := if byName then GroupedCount(week) else 0;
    stats := Stats(|week|, byMember, byType, byDay, conflicts, recurring);
  }
}
