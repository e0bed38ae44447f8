/**
 The bookkeeping of a job's executions on values: the run registry of an execution host, capped at
 ten entries, and the count that decides whether a job's execution is complete.
 */
module JobRuns {
  import opened Lists

  const MAX_RUNS := 10

  /** The run ids stored so far, and the number of calls that did not find theirs. */
  datatype Registry = Registry(ids: seq<string>, count: nat)

  /** One call: the registry afterwards, and whether the caller gets a run. */
  function Register(r: Registry, id: string): (Registry, bool) {
    if id in r.ids then (r, true)
    else if r.count + 1 > MAX_RUNS then (r.(count := r.count + 1), false)
    else (Registry(r.ids + [id], r.count + 1), true)
  }

  /** The registry of a fresh execution after a sequence of calls. */
  function After(calls: seq<string>): Registry {
    if calls == [] then Registry([], 0)
    else Register(After(calls[..|calls| - 1]), calls[|calls| - 1]).0
  }

  // ----- First appearances -----

  /** The distinct elements in order of first appearance. */
  function Distinct(s: seq<string>): seq<string> {
    if s == [] then []
    else
      var before, last := Distinct(s[..|s| - 1]), s[|s| - 1];
      if last in before then before else before + [last]
  }

  function Elements(s: seq<string>): set<string> {
    set x | x in s
  }

  lemma {:induction false} DistinctHasElements(s: seq<string>)
    ensures NoDuplicates(Distinct(s))
    ensures Elements(Distinct(s)) == Elements(s)
    ensures |Distinct(s)| == |Elements(s)|
  {
    if s != [] {
      var before, last := s[..|s| - 1], s[|s| - 1];
      DistinctHasElements(before);
      assert Elements(s) == Elements(before) + {last};
      assert last in Distinct(before) <==> last in Elements(before);
    }
  }

  lemma {:induction false} DistinctOfNoDuplicates(s: seq<string>)
    ensures |Distinct(s)| <= |s|
    ensures |Distinct(s)| == |s| <==> NoDuplicates(s)
  {
    if s != [] {
      var before, last := s[..|s| - 1], s[|s| - 1];
      DistinctOfNoDuplicates(before);
      DistinctHasElements(before);
      assert last in Distinct(before) <==> last in Elements(before);
      if last in before {
        var i :| 0 <= i < |before| && before[i] == last;
        assert s[i] == s[|s| - 1];
      } else if NoDuplicates(before) {
        assert NoDuplicates(s);
      } else {
        var i, j :| 0 <= i < j < |before| && before[i] == before[j];
        assert s[i] == s[j];
      }
    }
  }

  // ----- The registry -----

  function Min(a: nat, b: nat): nat {
    if a < b then a else b
  }

  /** The calls whose id is not stored, with repetitions. */
  function Refused(calls: seq<string>, stored: seq<string>): seq<string> {
    if calls == [] then []
    else
      var before, last := Refused(calls[..|calls| - 1], stored), calls[|calls| - 1];
      if last in stored then before else before + [last]
  }

  lemma {:induction false} NothingRefused(calls: seq<string>, stored: seq<string>)
    requires forall c | c in calls :: c in stored
    ensures Refused(calls, stored) == []
  {
    if calls != [] {
      NothingRefused(calls[..|calls| - 1], stored);
      assert calls[|calls| - 1] in calls;
    }
  }

  lemma {:induction false} RefusedElements(calls: seq<string>, stored: seq<string>)
    ensures Elements(Refused(calls, stored)) == Elements(calls) - Elements(stored)
  {
    if calls != [] {
      var before, last := calls[..|calls| - 1], calls[|calls| - 1];
      RefusedElements(before, stored);
      var refused := Refused(before, stored);
      assert Elements(refused + [last]) == Elements(refused) + {last};
      assert last in stored <==> last in Elements(stored);
      assert Elements(calls) == Elements(before) + {last};
    }
  }

  lemma DistinctContains(calls: seq<string>, c: string)
    ensures c in Distinct(calls) <==> c in calls
  {
    DistinctHasElements(calls);
    assert c in Elements(Distinct(calls)) <==> c in Elements(calls);
  }

  /**
   The registry holds exactly the first ten distinct ids in order of first appearance; its count is
   their number plus the number of calls, repetitions included, whose id is not among them.
   */
  lemma {:induction false} RegistryAfterCalls(calls: seq<string>)
    ensures After(calls).ids == Distinct(calls)[..Min(MAX_RUNS, |Distinct(calls)|)]
    ensures After(calls).count == |After(calls).ids| + |Refused(calls, After(calls).ids)|
  {
    if calls != [] {
      var before, last := calls[..|calls| - 1], calls[|calls| - 1];
      RegistryAfterCalls(before);
      var r := After(before);
      DistinctContains(before, last);
      if |Distinct(before)| <= MAX_RUNS {
        assert r.ids == Distinct(before);
        forall c | c in before ensures c in r.ids {
          DistinctContains(before, c);
        }
        NothingRefused(before, r.ids);
        NothingRefused(before, r.ids + [last]);
      }
    }
  }

  /** Ids that were stored or refused stay so. */
  lemma {:induction false} IdsStay(calls: seq<string>, k: nat, id: string)
    requires k <= |calls|
    ensures id in After(calls[..k]).ids ==> id in After(calls).ids
    ensures id in calls[..k] && id !in After(calls[..k]).ids ==>
            id !in After(calls).ids && After(calls).count >= MAX_RUNS
    decreases |calls|
  {
    if k == |calls| {
      assert calls[..k] == calls;
      RegistryAfterCalls(calls);
      if id in calls && id !in After(calls).ids {
        DistinctContains(calls, id);
        assert |After(calls).ids| == MAX_RUNS;
      }
    } else {
      var before := calls[..|calls| - 1];
      assert before[..k] == calls[..k];
      IdsStay(before, k, id);
    }
  }

  /** A call gets a run exactly when its id is among the stored ones, then and at the end of all calls. */
  lemma AnswerOfCall(calls: seq<string>, k: nat)
    requires k < |calls|
    ensures Register(After(calls[..k]), calls[k]).1 <==> calls[k] in After(calls).ids
  {
    AfterOneMore(calls, k);
    assert calls[..k + 1][k] == calls[k];
    IdsStay(calls, k + 1, calls[k]);
  }

  lemma AfterOneMore(calls: seq<string>, k: nat)
    requires k < |calls|
    ensures After(calls[..k + 1]) == Register(After(calls[..k]), calls[k]).0
  {
    assert calls[..k + 1][..k] == calls[..k];
  }

  /** The count is the number of distinct ids exactly when no refused id was asked for twice. */
  lemma CountIsDistinctExactly(calls: seq<string>)
    ensures After(calls).count == |Distinct(calls)| <==> NoDuplicates(Refused(calls, After(calls).ids))
    ensures |Distinct(calls)| <= MAX_RUNS ==> After(calls).count == |Distinct(calls)|
  {
    var ids := After(calls).ids;
    var refused := Refused(calls, ids);
    RegistryAfterCalls(calls);
    DistinctHasElements(calls);
    DistinctHasElements(refused);
    RefusedElements(calls, ids);
    DistinctOfNoDuplicates(refused);
    assert Elements(ids) <= Elements(calls) by {
      forall c | c in ids ensures c in calls {
        assert c in Distinct(calls);
        DistinctContains(calls, c);
      }
    }
    assert |Elements(ids)| == |ids| by {
      assert NoDuplicates(ids);
      NoDuplicatesCardinality(ids);
    }
    assert |Distinct(calls)| == |ids| + |Distinct(refused)|;
    if |Distinct(calls)| <= MAX_RUNS {
      assert |Distinct(refused)| == 0;
      assert forall c | c in refused :: c in Elements(refused);
    }
  }

  /** Asking twice for the same refused id counts it twice: twelve calls, eleven ids, a count of twelve. */
  lemma RefusedTwiceCountsTwice()
    ensures var ids := ["0", "1", "2", "3", "4", "5", "6", "7", "8", "9"];
      After(ids + ["x", "x"]).count == 12 && |Distinct(ids + ["x", "x"])| == 11
  {
    var ids := ["0", "1", "2", "3", "4", "5", "6", "7", "8", "9"];
    var once, twice := ids + ["x"], ids + ["x", "x"];
    assert once[..10] == ids && twice[..11] == once;
    assert NoDuplicates(once);
    DistinctOfNoDuplicates(once);
    CountIsDistinctExactly(ids);
    DistinctOfNoDuplicates(ids);
    RegistryAfterCalls(ids);
    DistinctContains(ids, "x");
    assert "x" !in ids;
    DistinctContains(once, "x");
    assert once[10] == "x";
  }

  lemma NoDuplicatesCardinality(s: seq<string>)
    requires NoDuplicates(s)
    ensures |Elements(s)| == |s|
  {
    DistinctOfNoDuplicates(s);
    DistinctHasElements(s);
  }

  // ----- Completion -----

  /** The decision, given for each host the number of its runs that have a status. */
  predicate Complete(counts: seq<nat>) {
    Sum(counts) >= |counts|
  }

  ghost predicate AllFinished(counts: seq<nat>) {
    forall c | c in counts :: c > 0
  }

  /** The number of hosts without a finished run. */
  function Unfinished(counts: seq<nat>): nat {
    if counts == [] then 0
    else Unfinished(counts[..|counts| - 1]) + if counts[|counts| - 1] == 0 then 1 else 0
  }

  /** The number of finished runs beyond the first of each host. */
  function Surplus(counts: seq<nat>): nat {
    if counts == [] then 0
    else Surplus(counts[..|counts| - 1]) + if counts[|counts| - 1] == 0 then 0 else counts[|counts| - 1] - 1
  }

  lemma {:induction false} TotalBySurplus(counts: seq<nat>)
    ensures Sum(counts) + Unfinished(counts) == |counts| + Surplus(counts)
    ensures Unfinished(counts) == 0 <==> AllFinished(counts)
  {
    if counts != [] {
      var before, last := counts[..|counts| - 1], counts[|counts| - 1];
      TotalBySurplus(before);
      assert counts == before + [last];
      assert last in counts;
      assert forall c | c in before :: c in counts;
    }
  }

  /** Repeated runs of one host stand in for missing runs of another, one for one. */
  lemma CompleteExactly(counts: seq<nat>)
    ensures Complete(counts) <==> Unfinished(counts) <= Surplus(counts)
  {
    TotalBySurplus(counts);
  }

  /** The decision agrees with every host having finished unless hosts are missing and made up for. */
  lemma CompleteIsAllFinishedExactly(counts: seq<nat>)
    ensures AllFinished(counts) ==> Complete(counts)
    ensures (Complete(counts) <==> AllFinished(counts)) <==> !(0 < Unfinished(counts) <= Surplus(counts))
  {
    TotalBySurplus(counts);
  }

  /** Without repeated runs it is exactly that. */
  lemma {:induction false} CompleteWithoutRepeats(counts: seq<nat>)
    requires forall c | c in counts :: c <= 1
    ensures Surplus(counts) == 0
    ensures Complete(counts) <==> AllFinished(counts)
  {
    if counts != [] {
      var before := counts[..|counts| - 1];
      assert counts[|counts| - 1] in counts;
      assert forall c | c in before :: c in counts;
      CompleteWithoutRepeats(before);
    }
    TotalBySurplus(counts);
  }

  /** Two finished runs of one host and none of the other count as complete. */
  lemma CompleteWithoutAllFinished()
    ensures Complete([2, 0]) && !AllFinished([2, 0])
  {
    assert [2, 0][..1] == [2] && [2][..0] == [];
    assert 0 in [2, 0];
  }
}
