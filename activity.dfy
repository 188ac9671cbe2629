/** The activity record shared by the week grid, the day columns and both
    schedule stores. */
module Activities {
  import opened TimeHelpers

  /** One scheduled activity. `start` and `end` are the minute counts of the
      stored "HH:MM" start and end times. The source's missing or falsy fields
      are modelled by neutral values: `week == 0` and `year == 0` stand for an
      absent week or year, `recurringGroupId == ""` for an absent group and an
      empty `participants` list for an absent one. */
  datatype Activity = Activity(
    id: string,
    name: string,
    typeId: string,
    day: string,
    start: int,
    end: int,
    participants: seq<string>,
    week: int,
    year: int,
    recurring: bool,
    recurringGroupId: string)

  /** isOverlapping on two activities: their half-open minute ranges meet. */
  predicate Overlaps(a: Activity, b: Activity)
  {
    IsOverlapping(a.start, a.end, b.start, b.end)
  }

  /** The activity ends after it starts, as the activity form requires. */
  predicate WellFormed(a: Activity)
  {
    a.start < a.end
  }

  predicate AllWellFormed(s: seq<Activity>)
  {
    forall i :: 0 <= i < |s| ==> WellFormed(s[i])
  }

  function Duration(a: Activity): int
  {
    a.end - a.start
  }

  /** The groups of a layout laid end to end. */
  function Flatten(groups: seq<seq<Activity>>): seq<Activity>
  {
    if groups == [] then [] else Flatten(groups[..|groups| - 1]) + groups[|groups| - 1]
  }

  lemma FlattenAppend(groups: seq<seq<Activity>>, g: seq<Activity>)
    ensures Flatten(groups + [g]) == Flatten(groups) + g
  {
    assert (groups + [g])[..|groups|] == groups;
  }

  /** An activity with a non-empty range overlaps itself. */
  lemma OverlapsReflexive(a: Activity)
    requires WellFormed(a)
    ensures Overlaps(a, a)
  {
  }

  lemma OverlapsSymmetric(a: Activity, b: Activity)
    ensures Overlaps(a, b) == Overlaps(b, a)
  {
    OverlapSymmetric(a.start, a.end, b.start, b.end);
  }
}
