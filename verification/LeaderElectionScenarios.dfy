/**
 Runs of the leader election that show which of its guarantees are as strong as they can be: what
 the safety lemmas leave open really happens.
 */
module LeaderElectionScenarios {
  import opened Options
  import opened LeaderElection
  import opened LeaderElectionReachability

  /** The nodes of these runs; all of them may be stopped. */
  const NODES: set<nat> := {0, 1}

  lemma Start(nodes: nat) returns (c: Cluster)
    ensures c == Cluster(seq(nodes, _ => INITIAL_NODE), None) && Initial(c) && Reaches(c, c, NODES)
  {
    c := Cluster(seq(nodes, _ => INITIAL_NODE), None);
    Stay(c, NODES);
  }

  /** A loop step of node `i`, the others being as in `base`. */
  lemma LoopStepOf(c: Cluster, base: seq<Node>, d: Cluster, i: nat) returns (e: Cluster)
    requires Reaches(c, d, NODES) && i < |base| == |d.nodes| && d.nodes == base[i := d.nodes[i]]
    ensures Reaches(c, e, NODES) && |e.nodes| == |base| && e.nodes == base[i := e.nodes[i]]
    ensures (e.nodes[i], e.holder) == LoopStep(i, d.nodes[i], d.holder, Returns)
  {
    e := Step(c, d, NODES, Loop(i, Returns));
  }

  lemma WinLockOf(c: Cluster, base: seq<Node>, d: Cluster, i: nat) returns (e: Cluster)
    requires Reaches(c, d, NODES) && i < |base| == |d.nodes| && d.nodes == base[i := d.nodes[i]]
    requires d.nodes[i].loop == AwaitLock && d.holder == None
    ensures Reaches(c, e, NODES) && e.holder == Some(i)
    ensures e.nodes == base[i := d.nodes[i].(leader := true, registered := true, loop := PublishAppointed)]
  {
    e := LoopStepOf(c, base, d, i);
    e := LoopStepOf(c, base, e, i);
    e := LoopStepOf(c, base, e, i);
    e := LoopStepOf(c, base, e, i);
  }

  /** An undisturbed iteration, from the top of the loop until the flag is set. */
  lemma Elect(c: Cluster, d: Cluster, i: nat) returns (e: Cluster)
    requires Reaches(c, d, NODES) && i < |d.nodes| && d.nodes[i] == INITIAL_NODE && d.holder == None
    ensures Reaches(c, e, NODES) && e.holder == Some(i)
    ensures e.nodes == d.nodes[i := INITIAL_NODE.(leader := true, registered := true, loop := PublishAppointed)]
  {
    e := LoopStepOf(c, d.nodes, d, i);
    e := LoopStepOf(c, d.nodes, e, i);
    e := WinLockOf(c, d.nodes, e, i);
  }

  /** Two flags can be set at once: stop releases the lock before it clears the flag. */
  lemma TwoFlagsSet() returns (c: Cluster, d: Cluster)
    ensures Initial(c) && Reaches(c, d, NODES) && |d.nodes| == 2
    ensures d.nodes[0].leader && d.nodes[1].leader && d.holder == Some(1)
  {
    c := Start(2);
    d := Elect(c, c, 0);
    d := Step(c, d, NODES, Stop(0, Returns));
    d := Step(c, d, NODES, Stop(0, Returns));
    d := Step(c, d, NODES, Stop(0, Returns));
    d := Elect(c, d, 1);
  }

  /** A stop call of node `i` without a lock on record, up to the cleared flag. */
  lemma StopFollower(c: Cluster, base: seq<Node>, d: Cluster, i: nat) returns (e: Cluster)
    requires Reaches(c, d, NODES) && i in NODES && i < |base| == |d.nodes| && d.nodes == base[i := d.nodes[i]]
    requires d.nodes[i].stop == StopIdle && !d.nodes[i].registered
    ensures Reaches(c, e, NODES) && e.holder == d.holder
    ensures e.nodes == base[i := d.nodes[i].(exit := true, leader := false, stop := PublishDismissed)]
  {
    e := Step(c, d, NODES, Stop(i, Returns));
    e := Step(c, e, NODES, Stop(i, Returns));
    e := Step(c, e, NODES, Stop(i, Returns));
  }

  /** A follower that waits for the lock of a live leader can be stopped and still be elected later. */
  lemma StoppedFollowerBehindLeader() returns (c: Cluster, d: Cluster)
    ensures Initial(c) && Reaches(c, d, NODES) && |d.nodes| == 2
    ensures LiveLeader(d.nodes[0]) && d.holder == Some(0)
    ensures d.nodes[1].exit && !d.nodes[1].leader && FlagCanReturn(d, 1)
  {
    c := Start(2);
    d := Elect(c, c, 0);
    var base := d.nodes;
    d := LoopStepOf(c, base, d, 1);
    d := LoopStepOf(c, base, d, 1);
    d := StopFollower(c, base, d, 1);
  }

  // ----- Runs of a single node -----

  ghost predicate NodeReaches(n: Node, holder: Option<nat>) {
    Reaches(Cluster([INITIAL_NODE], None), Cluster([n], holder), NODES)
  }

  lemma Boot()
    ensures Initial(Cluster([INITIAL_NODE], None)) && NodeReaches(INITIAL_NODE, None)
  {
    Stay(Cluster([INITIAL_NODE], None), NODES);
  }

  lemma LoopOnce(n: Node, holder: Option<nat>, outcome: Outcome) returns (n': Node, holder': Option<nat>)
    requires NodeReaches(n, holder)
    ensures (n', holder') == LoopStep(0, n, holder, outcome) && NodeReaches(n', holder')
  {
    var e := Step(Cluster([INITIAL_NODE], None), Cluster([n], holder), NODES, Loop(0, outcome));
    n', holder' := e.nodes[0], e.holder;
    assert e.nodes == [n'];
  }

  lemma StopOnce(n: Node, holder: Option<nat>, outcome: Outcome) returns (n': Node, holder': Option<nat>)
    requires NodeReaches(n, holder)
    ensures (n', holder') == StopStep(0, n, holder, outcome) && NodeReaches(n', holder')
  {
    var e := Step(Cluster([INITIAL_NODE], None), Cluster([n], holder), NODES, Stop(0, outcome));
    n', holder' := e.nodes[0], e.holder;
    assert e.nodes == [n'];
  }

  /** From the blocked lock client of a node whose flag is clear, the loop sets the flag. */
  lemma WinLock(n: Node) returns (n': Node)
    requires NodeReaches(n, None) && n.loop == AwaitLock
    ensures n' == n.(registered := true, leader := true, loop := PublishAppointed)
    ensures NodeReaches(n', Some(0))
  {
    var e := WinLockOf(Cluster([INITIAL_NODE], None), [n], Cluster([n], None), 0);
    n' := e.nodes[0];
    assert e.nodes == [n'];
  }

  /** A stop call gives the lock back, if it is on record. */
  lemma StopUntilReleased(n: Node, holder: Option<nat>) returns (n': Node)
    requires NodeReaches(n, holder) && n.stop == StopIdle
    requires holder == if n.registered then Some(0) else None
    ensures NodeReaches(n', None) && n' == n.(exit := true, registered := false, stop := ClearFlag)
  {
    var holder' := holder;
    n', holder' := StopOnce(n, holder', Returns);
    n', holder' := StopOnce(n', holder', Returns);
    if n.registered {
      n', holder' := StopOnce(n', holder', Returns);
      n', holder' := StopOnce(n', holder', Returns);
    }
  }

  /** A stop call gives the lock back and runs until it waits for the loop. */
  lemma StopUntilJoin(n: Node, holder: Option<nat>) returns (n': Node)
    requires NodeReaches(n, holder) && n.stop == StopIdle
    requires holder == if n.registered then Some(0) else None
    ensures NodeReaches(n', None)
    ensures n' == Node(true, false, false, n.loop, JoinLoop, n.published + [Publication(LeaderDismissed, true)])
  {
    n' := StopUntilReleased(n, holder);
    var holder': Option<nat>;
    n', holder' := StopOnce(n', None, Returns);
    n', holder' := StopOnce(n', holder', Returns);
  }

  /**
   A node can be leader and hold the lock for good after stop has returned and the loop has ended,
   when the loop was waiting for the lock while stop ran.
   */
  lemma LeaderAfterStopReturned() returns (n: Node)
    ensures NodeReaches(n, Some(0))
    ensures n.exit && n.stop == StopIdle && n.loop == LoopDone && n.leader
  {
    Boot();
    var holder: Option<nat>;
    n, holder := LoopOnce(INITIAL_NODE, None, Returns);
    n, holder := LoopOnce(n, holder, Returns);
    n := StopUntilJoin(n, None);
    n := WinLock(n);
    n, holder := LoopOnce(n, Some(0), Returns);
    n, holder := LoopOnce(n, holder, Returns);
    n, holder := LoopOnce(n, holder, Returns);
    n, holder := StopOnce(n, holder, Returns);
  }

  /** An elected node that has announced itself and is about to look at its flag again. */
  lemma AnnouncedLeader() returns (n: Node)
    ensures NodeReaches(n, Some(0))
    ensures n == Node(false, true, true, CheckLeader, StopIdle, n.published)
    ensures Appointments(n.published, false) == 1 && Appointments(n.published, true) == 0
  {
    Boot();
    var holder: Option<nat>;
    n, holder := LoopOnce(INITIAL_NODE, None, Returns);
    n, holder := LoopOnce(n, holder, Returns);
    n := WinLock(n);
    n, holder := LoopOnce(n, Some(0), Returns);
    n, holder := LoopOnce(n, holder, Returns);
    n, holder := LoopOnce(n, holder, Returns);
    AppointmentsAppend([], Publication(LeaderAppointed, false), false);
    AppointmentsAppend([], Publication(LeaderAppointed, false), true);
  }

  /** Both announcements that AtMostTwoAppointments allows can be sent in one run. */
  lemma TwoAppointments() returns (n: Node)
    ensures NodeReaches(n, Some(0))
    ensures Appointments(n.published, false) == 1 && Appointments(n.published, true) == 1
  {
    n := AnnouncedLeader();
    var first := n.published;
    n := StopUntilJoin(n, Some(0));
    AppointmentsAppend(first, Publication(LeaderDismissed, true), false);
    AppointmentsAppend(first, Publication(LeaderDismissed, true), true);
    var second := n.published;
    var holder: Option<nat>;
    n, holder := LoopOnce(n, None, Returns);
    n := WinLock(n);
    n, holder := LoopOnce(n, Some(0), Returns);
    AppointmentsAppend(second, Publication(LeaderAppointed, true), false);
    AppointmentsAppend(second, Publication(LeaderAppointed, true), true);
  }

  /** A failing host name lookup leaves the lock with a node that does not lead. */
  lemma LookupFailureOrphansLock() returns (n: Node)
    ensures NodeReaches(n, Some(0)) && Orphaned(Cluster([n], Some(0)), 0)
  {
    Boot();
    var holder: Option<nat>;
    n, holder := LoopOnce(INITIAL_NODE, None, Returns);
    n, holder := LoopOnce(n, holder, Returns);
    n, holder := LoopOnce(n, holder, Returns);
    n, holder := LoopOnce(n, holder, Returns);
    n, holder := LoopOnce(n, holder, Raises);
  }
}
