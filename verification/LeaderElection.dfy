/**
 Leader election: in every node a background loop and a stop call run side by side, share two
 events, and compete with the other nodes for one distributed lock.

 A node is described by the values of its events, by whether its lock client has the lock on
 record, and by the position of its two threads. One action lets one thread of one node take its
 next atomic step; a run is any sequence of actions over any number of nodes. What a step does
 when a call fails is chosen by the action, so "every run" covers every interleaving and every
 pattern of failures.
 */
module LeaderElection {
  import opened Options

  datatype Message = LeaderAppointed | LeaderDismissed

  /** A broadcast, together with whether the exit event was set when it was sent. */
  datatype Publication = Publication(message: Message, exitSet: bool)

  /** The next statement of the background loop. */
  datatype LoopPc =
    | LoopGuard          // test the exit event
    | CheckLeader        // test the leader flag
    | AwaitLock          // blocked in the lock client
    | RegisterLock       // lock granted, not yet on record
    | LogHostname        // lock on record, host name being looked up
    | SetFlag
    | PublishAppointed
    | WaitInterval       // the finally clause
    | LoopDone

  /** The next statement of stop. */
  datatype StopPc =
    | StopIdle           // no stop call is running
    | CheckRegistered    // exit set, looking for the lock on record
    | ReleaseLock
    | UnregisterLock
    | ClearFlag
    | PublishDismissed
    | JoinLoop

  datatype Node = Node(
    exit: bool,
    leader: bool,
    registered: bool,
    loop: LoopPc,
    stop: StopPc,
    published: seq<Publication>)

  /** Whether the external call made by a step returns or raises. */
  datatype Outcome = Returns | Raises

  const INITIAL_NODE: Node := Node(false, false, false, LoopGuard, StopIdle, [])

  /** One step of the background loop of node `id`: the node and the lock afterwards. */
  function LoopStep(id: nat, n: Node, holder: Option<nat>, outcome: Outcome): (Node, Option<nat>)
  {
    match n.loop
    case LoopGuard => (n.(loop := if n.exit then LoopDone else CheckLeader), holder)
    case CheckLeader => (n.(loop := if n.leader then WaitInterval else AwaitLock), holder)
    case AwaitLock =>
      if outcome.Raises? then (n.(loop := WaitInterval), holder)
      else if holder.None? then (n.(loop := RegisterLock), Some(id))
      else (n, holder)
    case RegisterLock => (n.(registered := true, loop := LogHostname), holder)
    case LogHostname => (n.(loop := if outcome.Raises? then WaitInterval else SetFlag), holder)
    case SetFlag => (n.(leader := true, loop := PublishAppointed), holder)
    case PublishAppointed =>
      if outcome.Raises? then (n.(loop := WaitInterval), holder)
      else (n.(published := n.published + [Publication(LeaderAppointed, n.exit)], loop := WaitInterval), holder)
    case WaitInterval => (n.(loop := LoopGuard), holder)
    case LoopDone => (n, holder)
  }

  /** One step of stop in node `id`. Releasing a lock that the node does not hold changes nothing. */
  function StopStep(id: nat, n: Node, holder: Option<nat>, outcome: Outcome): (Node, Option<nat>)
  {
    match n.stop
    case StopIdle => (n.(exit := true, stop := CheckRegistered), holder)
    case CheckRegistered => (n.(stop := if n.registered then ReleaseLock else ClearFlag), holder)
    case ReleaseLock => (n.(stop := UnregisterLock), if holder == Some(id) then None else holder)
    case UnregisterLock => (n.(registered := false, stop := ClearFlag), holder)
    case ClearFlag => (n.(leader := false, stop := PublishDismissed), holder)
    case PublishDismissed =>
      if outcome.Raises? then (n.(stop := StopIdle), holder)
      else (n.(published := n.published + [Publication(LeaderDismissed, n.exit)], stop := JoinLoop), holder)
    case JoinLoop => (if n.loop == LoopDone then n.(stop := StopIdle) else n, holder)
  }

  // ----- Runs of a cluster -----

  datatype Action =
    | Loop(node: nat, outcome: Outcome)
    | Stop(node: nat, outcome: Outcome)

  datatype Cluster = Cluster(nodes: seq<Node>, holder: Option<nat>)

  function Next(c: Cluster, a: Action): (r: Cluster)
    ensures |r.nodes| == |c.nodes|
  {
    if a.node >= |c.nodes| then c
    else
      var (n, holder) :=
        if a.Loop? then LoopStep(a.node, c.nodes[a.node], c.holder, a.outcome)
        else StopStep(a.node, c.nodes[a.node], c.holder, a.outcome);
      Cluster(c.nodes[a.node := n], holder)
  }

  function Run(c: Cluster, actions: seq<Action>): (r: Cluster)
    ensures |r.nodes| == |c.nodes|
    decreases |actions|
  {
    if actions == [] then c else Run(Next(c, actions[0]), actions[1..])
  }

  ghost predicate Initial(c: Cluster) {
    c.holder == None && forall i | 0 <= i < |c.nodes| :: c.nodes[i] == INITIAL_NODE
  }

  /** How often a node announced its appointment while its exit event was clear, or set. */
  function Appointments(published: seq<Publication>, exitSet: bool): nat {
    if published == [] then 0
    else
      Appointments(published[..|published| - 1], exitSet)
      + if published[|published| - 1] == Publication(LeaderAppointed, exitSet) then 1 else 0
  }

  // ----- Safety over every run -----

  predicate HasGrant(pc: LoopPc) {
    pc in {RegisterLock, LogHostname, SetFlag}
  }

  /** The loop has seen the leader flag clear and has not yet announced its appointment. */
  predicate Electing(pc: LoopPc) {
    pc == AwaitLock || HasGrant(pc) || pc == PublishAppointed
  }

  predicate IterationOver(pc: LoopPc) {
    pc == WaitInterval || pc == LoopGuard || pc == LoopDone
  }

  /** The events, the lock and the positions of the threads agree. */
  predicate LockInvariant(id: nat, n: Node, holder: Option<nat>) {
    && (!n.exit ==> n.stop == StopIdle && n.loop != LoopDone)
    && (!n.exit && n.loop == PublishAppointed ==> n.leader)
    && (!n.exit && (n.leader || HasGrant(n.loop)) ==> holder == Some(id))
  }

  /** What the numbers of announcements sent before and after the exit event say about the node. */
  predicate AnnouncementInvariant(n: Node, before: nat, after: nat) {
    && before <= 1 && after <= 1
    && (before == 1 && !n.exit ==> n.leader && !Electing(n.loop))
    && (after == 1 ==> n.exit && IterationOver(n.loop))
  }

  ghost predicate NodeInvariant(id: nat, n: Node, holder: Option<nat>) {
    && LockInvariant(id, n, holder)
    && AnnouncementInvariant(n, Appointments(n.published, false), Appointments(n.published, true))
  }

  ghost predicate Invariant(c: Cluster) {
    forall i | 0 <= i < |c.nodes| :: NodeInvariant(i, c.nodes[i], c.holder)
  }

  lemma AppointmentsAppend(published: seq<Publication>, p: Publication, exitSet: bool)
    ensures Appointments(published + [p], exitSet) ==
            Appointments(published, exitSet) + if p == Publication(LeaderAppointed, exitSet) then 1 else 0
  {
    assert (published + [p])[..|published|] == published;
  }

  /** What a step adds to the number of announcements sent with the exit event in the given state. */
  function Added(n: Node, n': Node, exitSet: bool): nat {
    if n'.published == n.published + [Publication(LeaderAppointed, exitSet)] then 1 else 0
  }

  lemma AppointmentsAfter(n: Node, n': Node, m: Message, exitSet: bool)
    requires n'.published == n.published || n'.published == n.published + [Publication(m, n.exit)]
    ensures Appointments(n'.published, exitSet) == Appointments(n.published, exitSet) + Added(n, n', exitSet)
  {
    if n'.published != n.published {
      AppointmentsAppend(n.published, Publication(m, n.exit), exitSet);
      assert n'.published[|n.published|] == Publication(m, n.exit);
    }
  }

  lemma LoopStepKeepsInvariant(id: nat, n: Node, holder: Option<nat>, outcome: Outcome)
    requires NodeInvariant(id, n, holder)
    ensures var (n', holder') := LoopStep(id, n, holder, outcome); NodeInvariant(id, n', holder')
  {
    var (n', holder') := LoopStep(id, n, holder, outcome);
    AppointmentsAfter(n, n', LeaderAppointed, false);
    AppointmentsAfter(n, n', LeaderAppointed, true);
    LoopStepCounts(id, n, holder, outcome, Appointments(n.published, false), Appointments(n.published, true));
  }

  lemma LoopStepCounts(id: nat, n: Node, holder: Option<nat>, outcome: Outcome, before: nat, after: nat)
    requires LockInvariant(id, n, holder) && AnnouncementInvariant(n, before, after)
    ensures var (n', holder') := LoopStep(id, n, holder, outcome);
      && LockInvariant(id, n', holder')
      && AnnouncementInvariant(n', before + Added(n, n', false), after + Added(n, n', true))
  {
    var (n', holder') := LoopStep(id, n, holder, outcome);
    if n.loop == PublishAppointed && outcome.Returns? {
      assert n'.published[|n.published|] == Publication(LeaderAppointed, n.exit);
    } else {
      assert n'.published == n.published;
      assert |n.published + [Publication(LeaderAppointed, true)]| == |n.published| + 1;
    }
  }

  lemma StopStepKeepsInvariant(id: nat, n: Node, holder: Option<nat>, outcome: Outcome)
    requires NodeInvariant(id, n, holder)
    ensures var (n', holder') := StopStep(id, n, holder, outcome); NodeInvariant(id, n', holder')
  {
    var (n', holder') := StopStep(id, n, holder, outcome);
    AppointmentsAfter(n, n', LeaderDismissed, false);
    AppointmentsAfter(n, n', LeaderDismissed, true);
    StopStepCounts(id, n, holder, outcome, Appointments(n.published, false), Appointments(n.published, true));
  }

  lemma StopStepCounts(id: nat, n: Node, holder: Option<nat>, outcome: Outcome, before: nat, after: nat)
    requires LockInvariant(id, n, holder) && AnnouncementInvariant(n, before, after)
    ensures var (n', holder') := StopStep(id, n, holder, outcome);
      && LockInvariant(id, n', holder')
      && AnnouncementInvariant(n', before + Added(n, n', false), after + Added(n, n', true))
  {
    var (n', holder') := StopStep(id, n, holder, outcome);
    if n.stop == PublishDismissed && outcome.Returns? {
      assert n'.published[|n.published|] == Publication(LeaderDismissed, n.exit);
    } else {
      assert n'.published == n.published;
      assert |n.published + [Publication(LeaderAppointed, true)]| == |n.published| + 1;
    }
  }

  lemma NextKeepsInvariant(c: Cluster, a: Action)
    requires Invariant(c)
    ensures Invariant(Next(c, a))
  {
    if a.node < |c.nodes| {
      assert NodeInvariant(a.node, c.nodes[a.node], c.holder);
      if a.Loop? {
        LoopStepKeepsInvariant(a.node, c.nodes[a.node], c.holder, a.outcome);
      } else {
        StopStepKeepsInvariant(a.node, c.nodes[a.node], c.holder, a.outcome);
      }
    }
  }

  lemma {:induction false} RunKeepsInvariant(c: Cluster, actions: seq<Action>)
    requires Invariant(c)
    ensures Invariant(Run(c, actions))
    decreases |actions|
  {
    if actions != [] {
      NextKeepsInvariant(c, actions[0]);
      RunKeepsInvariant(Next(c, actions[0]), actions[1..]);
    }
  }

  /** A node that has not been told to exit and considers itself leader. */
  predicate LiveLeader(n: Node) {
    n.leader && !n.exit
  }

  /** In every run, a live leader holds the lock, so there is at most one. */
  lemma AtMostOneLiveLeader(c: Cluster, actions: seq<Action>, i: nat, j: nat)
    requires Initial(c)
    requires i < |c.nodes| && LiveLeader(Run(c, actions).nodes[i])
    ensures Run(c, actions).holder == Some(i)
    ensures j < |c.nodes| && LiveLeader(Run(c, actions).nodes[j]) ==> i == j
  {
    RunKeepsInvariant(c, actions);
    var d := Run(c, actions);
    assert NodeInvariant(i, d.nodes[i], d.holder);
    assert j < |c.nodes| ==> NodeInvariant(j, d.nodes[j], d.holder);
  }

  /** In every run, a node announces itself at most once before its exit event is set and at most once after. */
  lemma AtMostTwoAppointments(c: Cluster, actions: seq<Action>, i: nat)
    requires Initial(c) && i < |c.nodes|
    ensures var published := Run(c, actions).nodes[i].published;
      && Appointments(published, false) <= 1
      && Appointments(published, true) <= 1
  {
    RunKeepsInvariant(c, actions);
    var d := Run(c, actions);
    assert NodeInvariant(i, d.nodes[i], d.holder);
  }

  // ----- After the exit event -----

  /** How many statements the loop can still execute once the exit event is set. */
  function LoopRank(pc: LoopPc): nat {
    match pc
    case CheckLeader => 8
    case AwaitLock => 7
    case RegisterLock => 6
    case LogHostname => 5
    case SetFlag => 4
    case PublishAppointed => 3
    case WaitInterval => 2
    case LoopGuard => 1
    case LoopDone => 0
  }

  /** The number of statements the loop of node `i` completes during a run. */
  function LoopMoves(c: Cluster, actions: seq<Action>, i: nat): nat
    requires i < |c.nodes|
    decreases |actions|
  {
    if actions == [] then 0
    else
      var d := Next(c, actions[0]);
      (if d.nodes[i].loop != c.nodes[i].loop then 1 else 0) + LoopMoves(d, actions[1..], i)
  }

  /** Once the exit event is set it stays set, and the loop runs at most to its end, never starting an iteration. */
  lemma {:induction false} ExitEndsLoop(c: Cluster, actions: seq<Action>, i: nat)
    requires i < |c.nodes| && c.nodes[i].exit
    ensures Run(c, actions).nodes[i].exit
    ensures LoopRank(Run(c, actions).nodes[i].loop) + LoopMoves(c, actions, i) <= LoopRank(c.nodes[i].loop)
    decreases |actions|
  {
    if actions != [] {
      ExitEndsLoop(Next(c, actions[0]), actions[1..], i);
    }
  }

  /** A set flag stays set, whatever fails and whatever other nodes do, until a stop call of its node. */
  lemma {:induction false} FlagStaysUntilStop(c: Cluster, actions: seq<Action>, i: nat)
    requires i < |c.nodes| && c.nodes[i].leader
    requires forall a | a in actions && a.Stop? :: a.node != i
    ensures Run(c, actions).nodes[i].leader
    decreases |actions|
  {
    if actions != [] {
      assert actions[0] in actions && forall a | a in actions[1..] :: a in actions;
      FlagStaysUntilStop(Next(c, actions[0]), actions[1..], i);
    }
  }

  // ----- One iteration, and one stop call, on their own -----

  /** The loop's remaining statements of an iteration; the call at `failing`, if any, raises. */
  function FinishIteration(id: nat, n: Node, holder: Option<nat>, failing: Option<LoopPc>): (Node, Option<nat>)
    decreases LoopRank(n.loop)
  {
    if n.loop == LoopGuard || n.loop == LoopDone then (n, holder)
    else
      var (n', holder') := LoopStep(id, n, holder, if failing == Some(n.loop) then Raises else Returns);
      if n'.loop == n.loop then (n, holder) else FinishIteration(id, n', holder', failing)
  }

  /**
   An iteration does nothing for a leader or when acquiring raises, and blocks while another node has
   the lock. Otherwise the node keeps the lock whatever fails later, has its flag set unless the host
   name lookup raises, and announces itself unless that raises.
   */
  lemma IterationExactly(id: nat, n: Node, holder: Option<nat>, failing: Option<LoopPc>)
    requires n.loop == CheckLeader
    ensures FinishIteration(id, n, holder, failing) ==
      if n.leader || failing == Some(AwaitLock) then (n.(loop := LoopGuard), holder)
      else if holder.Some? then (n.(loop := AwaitLock), holder)
      else
        var granted := n.(registered := true, loop := LoopGuard);
        var leading := granted.(leader := true);
        var announced := leading.(published := n.published + [Publication(LeaderAppointed, n.exit)]);
        (if failing == Some(LogHostname) then granted
         else if failing == Some(PublishAppointed) then leading
         else announced, Some(id))
  {
    var over := n.(loop := WaitInterval);
    assert FinishIteration(id, over, holder, failing) == FinishIteration(id, n.(loop := LoopGuard), holder, failing);
    if n.leader {
      assert FinishIteration(id, n, holder, failing) == FinishIteration(id, over, holder, failing);
    } else {
      var waiting := n.(loop := AwaitLock);
      assert FinishIteration(id, n, holder, failing) == FinishIteration(id, waiting, holder, failing);
      if failing != Some(AwaitLock) && holder.None? {
        GrantExactly(id, n.(loop := RegisterLock), failing);
      }
    }
  }

  lemma GrantExactly(id: nat, n: Node, failing: Option<LoopPc>)
    requires n.loop == RegisterLock && !n.leader
    ensures FinishIteration(id, n, Some(id), failing) ==
      var granted := n.(registered := true, loop := LoopGuard);
      var leading := granted.(leader := true);
      var announced := leading.(published := n.published + [Publication(LeaderAppointed, n.exit)]);
      (if failing == Some(LogHostname) then granted
       else if failing == Some(PublishAppointed) then leading
       else announced, Some(id))
  {
    var h := Some(id);
    var n1 := LoopStep(id, n, h, Returns).0;
    assert FinishIteration(id, n, h, failing) == FinishIteration(id, n1, h, failing);
    var n2 := LoopStep(id, n1, h, if failing == Some(LogHostname) then Raises else Returns).0;
    assert FinishIteration(id, n1, h, failing) == FinishIteration(id, n2, h, failing);
    if failing != Some(LogHostname) {
      var n3 := LoopStep(id, n2, h, Returns).0;
      assert FinishIteration(id, n2, h, failing) == FinishIteration(id, n3, h, failing);
      var n4 := LoopStep(id, n3, h, if failing == Some(PublishAppointed) then Raises else Returns).0;
      assert FinishIteration(id, n3, h, failing) == FinishIteration(id, n4, h, failing);
      assert FinishIteration(id, n4, h, failing) == FinishIteration(id, n4.(loop := LoopGuard), h, failing);
    } else {
      assert FinishIteration(id, n2, h, failing) == FinishIteration(id, n2.(loop := LoopGuard), h, failing);
    }
  }

  function StopRank(pc: StopPc): nat {
    match pc
    case CheckRegistered => 5
    case ReleaseLock => 4
    case UnregisterLock => 3
    case ClearFlag => 2
    case PublishDismissed => 1
    case _ => 0
  }

  /** The remaining statements of a stop call until it waits for the loop or has raised. */
  function FinishStop(id: nat, n: Node, holder: Option<nat>, outcome: Outcome): (Node, Option<nat>)
    decreases StopRank(n.stop)
  {
    if n.stop == StopIdle || n.stop == JoinLoop then (n, holder)
    else
      var (n', holder') := StopStep(id, n, holder, outcome);
      FinishStop(id, n', holder', outcome)
  }

  /**
   A stop call sets the exit event, gives back the lock if it is on record, clears the flag in any case,
   and announces the dismissal unless that raises; then it waits for the loop.
   */
  lemma StopExactly(id: nat, n: Node, holder: Option<nat>, outcome: Outcome)
    requires n.stop == StopIdle
    ensures var (begun, holder') := StopStep(id, n, holder, outcome);
      var stopped := n.(exit := true, leader := false, registered := false);
      var dismissed := n.published + [Publication(LeaderDismissed, true)];
      FinishStop(id, begun, holder', outcome) ==
        (if outcome.Raises? then stopped else stopped.(published := dismissed, stop := JoinLoop),
         if n.registered && holder == Some(id) then None else holder)
  {
    var n1 := StopStep(id, n, holder, outcome).0;
    var n2 := StopStep(id, n1, holder, outcome).0;
    assert FinishStop(id, n1, holder, outcome) == FinishStop(id, n2, holder, outcome);
    if n.registered {
      var (n3, h) := StopStep(id, n2, holder, outcome);
      var n4 := StopStep(id, n3, h, outcome).0;
      assert FinishStop(id, n2, holder, outcome) == FinishStop(id, n3, h, outcome) == FinishStop(id, n4, h, outcome);
      ClearExactly(id, n4, h, outcome);
    } else {
      ClearExactly(id, n2, holder, outcome);
    }
  }

  lemma ClearExactly(id: nat, n: Node, holder: Option<nat>, outcome: Outcome)
    requires n.stop == ClearFlag
    ensures var dismissed := n.published + [Publication(LeaderDismissed, n.exit)];
      FinishStop(id, n, holder, outcome) ==
        (if outcome.Raises? then n.(leader := false, stop := StopIdle)
         else n.(leader := false, published := dismissed, stop := JoinLoop), holder)
  {
    var n1 := StopStep(id, n, holder, outcome).0;
    var n2 := StopStep(id, n1, holder, outcome).0;
    assert FinishStop(id, n, holder, outcome) == FinishStop(id, n1, holder, outcome);
    assert FinishStop(id, n1, holder, outcome) == FinishStop(id, n2, holder, outcome);
  }
}
