/** A job, its execution hosts and their runs as objects, updated in place. */
module JobExecution {
  import opened Options
  import opened JobRuns
  import opened Lists

  class Run {
    const runId: string
    var status: Option<string>

    constructor (runId: string)
      ensures this.runId == runId && status == None
    {
      this.runId := runId;
      status := None;
    }
  }

  function Ids(runs: seq<Run>): (ids: seq<string>)
    ensures |ids| == |runs|
  {
    seq(|runs|, i requires 0 <= i < |runs| => runs[i].runId)
  }

  /** The number of runs with a status. */
  function WithStatus(runs: seq<Run>): nat
    reads runs
  {
    if runs == [] then 0
    else WithStatus(runs[..|runs| - 1]) + if runs[|runs| - 1].status.Some? then 1 else 0
  }

  lemma {:induction false} WithStatusCounts(runs: seq<Run>)
    ensures WithStatus(runs) == |set i | 0 <= i < |runs| && runs[i].status.Some?|
  {
    if runs != [] {
      var before, last := runs[..|runs| - 1], |runs| - 1;
      WithStatusCounts(before);
      var earlier := set i | 0 <= i < |before| && before[i].status.Some?;
      var all := set i | 0 <= i < |runs| && runs[i].status.Some?;
      assert all == if runs[last].status.Some? then earlier + {last} else earlier;
    }
  }

  class Execution {
    var runCount: Option<nat>
    var runs: Option<seq<Run>>

    function RunList(): seq<Run>
      reads this
    {
      if runs.Some? then runs.value else []
    }

    function View(): Registry
      reads this
    {
      Registry(Ids(RunList()), if runCount.Some? then runCount.value else 0)
    }

    constructor ()
      ensures View() == After([])
    {
      runCount, runs := None, None;
    }

    /** The run with the id; a new one if there is none and fewer than eleven were asked for; otherwise none. */
    method GetOrCreateRun(runId: string) returns (r: Option<Run>)
      modifies this
      ensures (View(), r.Some?) == Register(old(View()), runId)
      ensures r.Some? ==> r.value.runId == runId && r.value in RunList()
      ensures r.Some? ==> r.value in old(RunList()) || (fresh(r.value) && r.value.status == None)
      ensures old(RunList()) <= RunList()
    {
      if runs.None? {
        runs := Some([]);
      }
      var k := 0;
      while k < |runs.value|
        invariant 0 <= k <= |runs.value|
        invariant runId !in Ids(runs.value)[..k]
      {
        assert Ids(runs.value)[k] == runs.value[k].runId;
        if runs.value[k].runId == runId {
          assert runId in Ids(runs.value);
          return Some(runs.value[k]);
        }
        k := k + 1;
      }
      assert Ids(runs.value)[..k] == Ids(runs.value);
      if runCount.None? {
        runCount := Some(1);
      } else {
        runCount := Some(runCount.value + 1);
      }
      if runCount.value > MAX_RUNS {
        return None;
      }
      var run := new Run(runId);
      assert Ids(runs.value + [run]) == Ids(runs.value) + [runId];
      runs := Some(runs.value + [run]);
      r := Some(run);
    }
  }

  class Host {
    const name: string
    var execution: Execution?

    constructor (name: string)
      ensures this.name == name && execution == null
    {
      this.name := name;
      execution := null;
    }

    function Runs(): seq<Run>
      reads this, execution
    {
      if execution == null then [] else execution.RunList()
    }

    /** The number of runs of this host with a status. */
    function Finished(): nat
      reads this, execution, Runs()
    {
      WithStatus(Runs())
    }
  }

  function Names(hosts: seq<Host>): (names: seq<string>)
    ensures |names| == |hosts|
  {
    seq(|hosts|, i requires 0 <= i < |hosts| => hosts[i].name)
  }

  /** All objects that decide how far the hosts have come. */
  ghost function Footprint(hosts: seq<Host>): set<object>
    reads hosts, set h | h in hosts :: h.execution
  {
    if hosts == [] then {}
    else
      var before, last := hosts[..|hosts| - 1], hosts[|hosts| - 1];
      assert last in hosts && forall h | h in before :: h in hosts;
      Footprint(before) + {last} + (if last.execution == null then {} else {last.execution as object})
      + (set r | r in last.Runs() :: r as object)
  }

  /** The number of runs with a status, for every host. */
  ghost function FinishedCounts(hosts: seq<Host>): (counts: seq<nat>)
    reads hosts, set h | h in hosts :: h.execution
    reads Footprint(hosts)
    ensures |counts| == |hosts|
  {
    if hosts == [] then []
    else
      var before, last := hosts[..|hosts| - 1], hosts[|hosts| - 1];
      assert last in hosts && forall h | h in before :: h in hosts;
      var runs := last.Runs();
      assert forall r: object | r in runs :: r in Footprint(hosts);
      FinishedCounts(before) + [last.Finished()]
  }

  /** The counts are, host by host, the numbers of its runs that have a status. */
  lemma {:induction false} FinishedCountsExactly(hosts: seq<Host>, k: nat)
    requires k < |hosts|
    ensures var runs := hosts[k].Runs();
      FinishedCounts(hosts)[k] == |set i | 0 <= i < |runs| && runs[i].status.Some?|
  {
    var before := hosts[..|hosts| - 1];
    if k < |before| {
      FinishedCountsExactly(before, k);
    } else {
      WithStatusCounts(hosts[k].Runs());
    }
  }

  class Job {
    var executionHosts: Option<seq<Host>>

    function Hosts(): seq<Host>
      reads this
    {
      if executionHosts.Some? then executionHosts.value else []
    }

    constructor ()
      ensures executionHosts == None
    {
      executionHosts := None;
    }

    /** The host with the name, created and appended if there is none. */
    method GetOrCreateExecutionHost(name: string) returns (host: Host)
      modifies this
      ensures host in Hosts() && host.name == name
      ensures executionHosts.Some? && old(Hosts()) <= Hosts()
      ensures host in old(Hosts()) || (fresh(host) && host.execution == null)
      ensures Names(Hosts()) == old(Names(Hosts())) + if name in old(Names(Hosts())) then [] else [name]
    {
      if executionHosts.None? {
        executionHosts := Some([]);
      }
      var hosts := executionHosts.value;
      var k := 0;
      while k < |hosts|
        invariant 0 <= k <= |hosts|
        invariant name !in Names(hosts)[..k]
      {
        assert Names(hosts)[k] == hosts[k].name;
        if hosts[k].name == name {
          return hosts[k];
        }
        k := k + 1;
      }
      assert Names(hosts)[..k] == Names(hosts);
      host := new Host(name);
      executionHosts := Some(hosts + [host]);
    }

    /** Whether there are hosts and at least as many runs with a status as hosts. */
    method IsExecutionComplete() returns (complete: bool)
      ensures complete <==> executionHosts.Some? && Complete(FinishedCounts(Hosts()))
    {
      if executionHosts.None? {
        return false;
      }
      var hosts := executionHosts.value;
      var total, current := |hosts|, 0;
      var k := 0;
      while k < |hosts|
        invariant 0 <= k <= |hosts|
        invariant current == Sum(FinishedCounts(hosts[..k]))
      {
        assert hosts[..k + 1][..k] == hosts[..k];
        var execution := hosts[k].execution;
        if execution != null && execution.runs.Some? {
          var runs := execution.runs.value;
          var j := 0;
          while j < |runs|
            invariant 0 <= j <= |runs|
            invariant current == Sum(FinishedCounts(hosts[..k])) + WithStatus(runs[..j])
          {
            assert runs[..j + 1][..j] == runs[..j];
            if runs[j].status.Some? {
              current := current + 1;
            }
            j := j + 1;
          }
          assert runs[..j] == runs;
        }
        assert FinishedCounts(hosts[..k + 1]) == FinishedCounts(hosts[..k]) + [hosts[k].Finished()];
        k := k + 1;
      }
      assert hosts[..k] == hosts;
      complete := current >= total;
    }
  }
}
