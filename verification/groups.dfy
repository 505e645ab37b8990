/** The group record the client receives from the server, and the two
    progress figures it derives from it: the active day (first incomplete
    stage) and the number of completed stages. */
module Groups {
  import opened Wrappers
  import opened Values
  import Seqs

  /** Number of worksheet stages, `day1` … `day5`. */
  const DayCount: int := 5

  /** The reserved stage field that marks a stage as done. */
  const CompletedKey: string := "completed"

  /** A stage record: an open map from field name to value. */
  type Stage = map<string, Value>

  /** The five `dayN` entries of a group, in order. `None` stands for an entry
      that is `undefined` or `null` (a stage with no data yet). */
  type Days = s: seq<Option<Stage>> | |s| == DayCount witness [None, None, None, None, None]

  datatype Group = Group(id: string, groupName: string, members: seq<string>, days: Days)

  predicate ValidDay(day: int)
  {
    1 <= day <= DayCount
  }

  /** `stage?.completed`: `undefined` when the stage or the key is missing. */
  function CompletedOf(stage: Option<Stage>): (r: Option<Value>)
    ensures r.Some? <==> stage.Some? && CompletedKey in stage.value
    ensures r.Some? ==> r.value == stage.value[CompletedKey]
  {
    if stage.Some? && CompletedKey in stage.value then Some(stage.value[CompletedKey]) else None
  }

  /** A stage counts as complete when its `completed` entry is truthy. */
  predicate StageComplete(stage: Option<Stage>)
  {
    TruthyOpt(CompletedOf(stage))
  }

  predicate IsComplete(g: Group, day: int)
    requires ValidDay(day)
  {
    StageComplete(g.days[day - 1])
  }

  predicate AllComplete(g: Group)
  {
    forall d :: 1 <= d <= DayCount ==> IsComplete(g, d)
  }

  /** The stage the project page opens on: the first day whose `completed`
      is falsy, or the last day when every stage is complete. */
  function ActiveDay(g: Group): (r: int)
    ensures ValidDay(r)
    ensures forall d :: 1 <= d < r ==> IsComplete(g, d)
    ensures !IsComplete(g, r) || AllComplete(g)
    ensures AllComplete(g) ==> r == DayCount
  {
    var first := Seqs.FindIndex(g.days, (s: Option<Stage>) => !StageComplete(s));
    if first == -1 then DayCount else first + 1
  }

  /** The list `[g.day1?.completed, …, g.day5?.completed]`. */
  function CompletedFlags(g: Group): (r: seq<Option<Value>>)
    ensures |r| == DayCount
    ensures forall i :: 0 <= i < DayCount ==> (TruthyOpt(r[i]) <==> IsComplete(g, i + 1))
  {
    [CompletedOf(g.days[0]), CompletedOf(g.days[1]), CompletedOf(g.days[2]),
     CompletedOf(g.days[3]), CompletedOf(g.days[4])]
  }

  /** The days, numbered from 1, whose stage is complete. */
  function CompletedDays(g: Group): set<int>
  {
    set d | 1 <= d <= DayCount && IsComplete(g, d)
  }

  /** The progress badge `completed/5`: how many of the flags are truthy. */
  function CompletedCount(g: Group): (r: nat)
    ensures r <= DayCount
  {
    |Seqs.Filter(CompletedFlags(g), TruthyOpt)|
  }

  /** The badge counts the completed days, whatever order they are in. */
  lemma CountIsCompletedDays(g: Group)
    ensures CompletedCount(g) == |CompletedDays(g)|
  {
    var flags := CompletedFlags(g);
    Seqs.FilterLengthCounts(flags, TruthyOpt);
    assert CompletedDays(g) == Seqs.PassingPositions(flags, TruthyOpt);
  }

  /** The badge reads 5/5 exactly when every stage is complete. */
  lemma {:induction false} FullCountIffAllComplete(g: Group)
    ensures CompletedCount(g) == DayCount <==> AllComplete(g)
  {
    var flags := CompletedFlags(g);
    assert CompletedCount(g) == |Seqs.Filter(flags, TruthyOpt)|;
    Seqs.FilterFullIff(flags, TruthyOpt);
    assert AllComplete(g) <==> forall i :: 0 <= i < |flags| ==> TruthyOpt(flags[i]) by {
      if AllComplete(g) {
        forall i | 0 <= i < |flags|
          ensures TruthyOpt(flags[i])
        {
          assert IsComplete(g, i + 1);
        }
      }
      if forall i :: 0 <= i < |flags| ==> TruthyOpt(flags[i]) {
        forall d | 1 <= d <= DayCount
          ensures IsComplete(g, d)
        {
          assert TruthyOpt(flags[d - 1]);
        }
      }
    }
  }

  /** Every day before the active one is complete, so the count is at least
      the number of days before it. */
  lemma {:induction false} ActiveDayBelowCount(g: Group)
    ensures ActiveDay(g) - 1 <= CompletedCount(g)
  {
    var flags := CompletedFlags(g);
    var k := ActiveDay(g) - 1;
    assert CompletedCount(g) == |Seqs.Filter(flags, TruthyOpt)|;
    forall i | 0 <= i < k
      ensures TruthyOpt(flags[i])
    {
      assert IsComplete(g, i + 1);
    }
    Seqs.FilterKeepsPrefix(flags, TruthyOpt, k);
  }

  /** The active day is the only day that is preceded by complete days only
      and is itself incomplete, or is the last day when all are complete. */
  lemma ActiveDayUnique(g: Group, r: int)
    requires ValidDay(r)
    requires forall d :: 1 <= d < r ==> IsComplete(g, d)
    requires !IsComplete(g, r) || AllComplete(g)
    requires AllComplete(g) ==> r == DayCount
    ensures ActiveDay(g) == r
  {
  }

  lemma SameCompletedDays(g1: Group, g2: Group)
    requires forall d :: 1 <= d <= DayCount ==> (IsComplete(g1, d) <==> IsComplete(g2, d))
    ensures CompletedDays(g1) == CompletedDays(g2)
  {
  }

  /** Two groups whose stages agree on completion show the same active day
      and the same badge, whatever else their stages hold. */
  lemma SameProgress(g1: Group, g2: Group)
    requires forall d :: 1 <= d <= DayCount ==> (IsComplete(g1, d) <==> IsComplete(g2, d))
    ensures ActiveDay(g1) == ActiveDay(g2)
    ensures CompletedCount(g1) == CompletedCount(g2)
  {
    assert AllComplete(g1) <==> AllComplete(g2);
    ActiveDayUnique(g2, ActiveDay(g1));
    SameCompletedDays(g1, g2);
    CountIsCompletedDays(g1);
    CountIsCompletedDays(g2);
  }
}
