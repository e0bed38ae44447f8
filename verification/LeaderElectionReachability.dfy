/**
 What can still happen: exactly when a flag that stop has cleared can come back, and exactly when
 some node can still become a live leader.
 */
module LeaderElectionReachability {
  import opened Options
  import opened LeaderElection

  /** The run contains steps of stop calls for nodes in `stoppable` only. */
  ghost predicate Permitted(actions: seq<Action>, stoppable: set<nat>) {
    forall a | a in actions && a.Stop? :: a.node in stoppable
  }

  ghost predicate Reaches(c: Cluster, d: Cluster, stoppable: set<nat>) {
    exists actions: seq<Action> :: Permitted(actions, stoppable) && Run(c, actions) == d
  }

  lemma {:induction false} RunAppend(c: Cluster, actions: seq<Action>, a: Action)
    ensures Run(c, actions + [a]) == Next(Run(c, actions), a)
    decreases |actions|
  {
    if actions == [] {
      assert Run(Next(c, a), []) == Next(c, a);
    } else {
      RunAppend(Next(c, actions[0]), actions[1..], a);
      assert (actions + [a])[1..] == actions[1..] + [a];
    }
  }

  lemma Stay(c: Cluster, stoppable: set<nat>)
    ensures Reaches(c, c, stoppable)
  {
    assert Permitted([], stoppable) && Run(c, []) == c;
  }

  lemma Step(c: Cluster, d: Cluster, stoppable: set<nat>, a: Action) returns (e: Cluster)
    requires Reaches(c, d, stoppable) && (a.Stop? ==> a.node in stoppable)
    ensures e == Next(d, a) && Reaches(c, e, stoppable)
  {
    var actions :| Permitted(actions, stoppable) && Run(c, actions) == d;
    RunAppend(c, actions, a);
    assert Permitted(actions + [a], stoppable);
    e := Next(d, a);
  }

  // ----- Setting the flag -----

  /** The loop is between its leader check and the setting of the flag. */
  predicate InFlight(pc: LoopPc) {
    pc == CheckLeader || pc == AwaitLock || HasGrant(pc)
  }

  /** The distance of the loop from having set the flag. */
  function ElectionRank(pc: LoopPc): nat {
    match pc
    case WaitInterval => 7
    case LoopGuard => 6
    case CheckLeader => 5
    case AwaitLock => 4
    case RegisterLock => 3
    case LogHostname => 2
    case SetFlag => 1
    case PublishAppointed => 0
    case LoopDone => 0
  }

  /** With the lock free or already granted, the loop on its own sets the flag, unless it is about to end. */
  lemma LoopSetsFlag(c0: Cluster, c: Cluster, stoppable: set<nat>, i: nat) returns (d: Cluster)
    requires Invariant(c) && Reaches(c0, c, stoppable) && i < |c.nodes|
    requires c.nodes[i].leader || HasGrant(c.nodes[i].loop) || c.holder == None
    requires c.nodes[i].leader || InFlight(c.nodes[i].loop) || !c.nodes[i].exit
    ensures Reaches(c0, d, stoppable) && |d.nodes| == |c.nodes|
    ensures d.nodes[i].leader && d.nodes[i].exit == c.nodes[i].exit
    decreases ElectionRank(c.nodes[i].loop)
  {
    if c.nodes[i].leader {
      d := c;
    } else {
      assert NodeInvariant(i, c.nodes[i], c.holder);
      NextKeepsInvariant(c, Loop(i, Returns));
      d := Step(c0, c, stoppable, Loop(i, Returns));
      d := LoopSetsFlag(c0, d, stoppable, i);
    }
  }

  // ----- Giving the lock back -----

  /** A node that holds the lock can still release it: it has the lock on record, or is about to. */
  predicate CanRelease(n: Node) {
    n.loop == RegisterLock || n.stop == ReleaseLock || (n.registered && n.stop != UnregisterLock)
  }

  /** The distance of stop from releasing the lock. */
  function ReleaseRank(pc: StopPc): nat {
    match pc
    case UnregisterLock => 5
    case ClearFlag => 4
    case PublishDismissed => 3
    case JoinLoop => 3
    case StopIdle => 2
    case CheckRegistered => 1
    case ReleaseLock => 0
  }

  /** A next step towards the release: put the lock on record, get out of the running stop call, call stop. */
  function TowardsRelease(j: nat, n: Node): Action {
    if n.stop == ReleaseLock || n.stop == UnregisterLock then Stop(j, Returns)
    else if n.loop == RegisterLock then Loop(j, Returns)
    else if n.stop == JoinLoop && n.loop != LoopDone then Loop(j, Raises)
    else Stop(j, Raises)
  }

  lemma HolderReleases(c0: Cluster, c: Cluster, stoppable: set<nat>, j: nat) returns (d: Cluster)
    requires Invariant(c) && Reaches(c0, c, stoppable) && j < |c.nodes| && j in stoppable
    requires c.holder == Some(j) && CanRelease(c.nodes[j])
    ensures Reaches(c0, d, stoppable) && Invariant(d) && d.holder == None && d.nodes == c.nodes[j := d.nodes[j]]
    ensures c.nodes[j].stop != JoinLoop && c.nodes[j].loop != RegisterLock ==> d.nodes[j].loop == c.nodes[j].loop
    decreases ReleaseRank(c.nodes[j].stop), LoopRank(c.nodes[j].loop)
  {
    var a := TowardsRelease(j, c.nodes[j]);
    assert NodeInvariant(j, c.nodes[j], c.holder);
    NextKeepsInvariant(c, a);
    d := Step(c0, c, stoppable, a);
    if c.nodes[j].stop != ReleaseLock {
      d := HolderReleases(c0, d, stoppable, j);
    }
  }

  // ----- When a cleared flag can come back -----

  /** The lock is free, or its holder can release it; the node itself only while its stop does not wait for its loop. */
  predicate LockObtainable(c: Cluster, i: nat) {
    c.holder.None? ||
    (c.holder.value < |c.nodes| && CanRelease(c.nodes[c.holder.value])
     && (c.holder.value == i ==> c.nodes[i].stop != JoinLoop))
  }

  predicate FlagCanReturn(c: Cluster, i: nat)
    requires i < |c.nodes|
  {
    HasGrant(c.nodes[i].loop) || (InFlight(c.nodes[i].loop) && LockObtainable(c, i))
  }

  lemma FlagStaysClearOnce(c: Cluster, a: Action, i: nat)
    requires i < |c.nodes| && c.nodes[i].exit && !c.nodes[i].leader && !FlagCanReturn(c, i)
    ensures var d := Next(c, a); d.nodes[i].exit && !d.nodes[i].leader && !FlagCanReturn(d, i)
  {
  }

  lemma {:induction false} FlagStaysClear(c: Cluster, actions: seq<Action>, i: nat)
    requires i < |c.nodes| && c.nodes[i].exit && !c.nodes[i].leader && !FlagCanReturn(c, i)
    ensures !Run(c, actions).nodes[i].leader
    decreases |actions|
  {
    if actions != [] {
      FlagStaysClearOnce(c, actions[0], i);
      FlagStaysClear(Next(c, actions[0]), actions[1..], i);
    }
  }

  lemma FlagReturns(c: Cluster, i: nat)
    requires Invariant(c) && i < |c.nodes| && !c.nodes[i].leader && FlagCanReturn(c, i)
    ensures exists actions: seq<Action> :: Run(c, actions).nodes[i].leader
  {
    var stoppable := if c.holder.Some? then {c.holder.value} else {};
    Stay(c, stoppable);
    var d := c;
    if !HasGrant(c.nodes[i].loop) && c.holder.Some? {
      d := HolderReleases(c, c, stoppable, c.holder.value);
    }
    d := LoopSetsFlag(c, d, stoppable, i);
    var actions :| Permitted(actions, stoppable) && Run(c, actions) == d;
    assert Run(c, actions).nodes[i].leader;
  }

  /**
   The flag that stop has cleared can come back exactly when the loop was past its leader check and
   has the lock or can still get it: stop neither waits for the loop before it clears the flag nor
   clears it again afterwards.
   */
  lemma FlagReturnsExactly(c: Cluster, i: nat)
    requires Invariant(c) && i < |c.nodes| && c.nodes[i].exit && !c.nodes[i].leader
    ensures (exists actions: seq<Action> :: Run(c, actions).nodes[i].leader) <==> FlagCanReturn(c, i)
  {
    if FlagCanReturn(c, i) {
      FlagReturns(c, i);
    } else {
      forall actions: seq<Action> ensures !Run(c, actions).nodes[i].leader {
        FlagStaysClear(c, actions, i);
      }
    }
  }

  // ----- When a node can become a live leader -----

  ghost predicate HasLiveLeader(c: Cluster) {
    exists i :: 0 <= i < |c.nodes| && LiveLeader(c.nodes[i])
  }

  /** Some node other than `j` has not been told to exit. */
  ghost predicate OthersLive(c: Cluster, j: Option<nat>) {
    exists k :: 0 <= k < |c.nodes| && Some(k) != j && !c.nodes[k].exit
  }

  lemma OthersWereLive(c: Cluster, a: Action, j: Option<nat>)
    requires OthersLive(Next(c, a), j)
    ensures OthersLive(c, j)
  {
    var d := Next(c, a);
    var k :| 0 <= k < |d.nodes| && Some(k) != j && !d.nodes[k].exit;
    assert !c.nodes[k].exit;
  }

  /** A live node that leads or is being elected. */
  predicate Rising(n: Node) {
    !n.exit && (n.leader || HasGrant(n.loop))
  }

  /**
   Either the lock is free and some node is live; or its holder is live and leads or is being
   elected; or its holder may be stopped, can still release the lock, and another node is live.
   */
  ghost predicate LeaderPossible(c: Cluster, stoppable: set<nat>) {
    if c.holder.None? then OthersLive(c, None)
    else
      var j := c.holder.value;
      && j < |c.nodes|
      && (Rising(c.nodes[j]) || (j in stoppable && CanRelease(c.nodes[j]) && OthersLive(c, c.holder)))
  }

  /** No step of a node makes it rise or able to release, except by taking the free lock. */
  lemma StepOpensNothing(c: Cluster, a: Action)
    requires a.node < |c.nodes| && LockInvariant(a.node, c.nodes[a.node], c.holder)
    ensures var n, n', d := c.nodes[a.node], Next(c, a).nodes[a.node], Next(c, a);
      && (d.holder == c.holder
          || (c.holder == None && d.holder == Some(a.node) && n'.exit == n.exit)
          || (a.Stop? && c.holder == Some(a.node) && d.holder == None && n.exit && n.stop == ReleaseLock))
      && (c.holder != None ==> (Rising(n') ==> Rising(n)) && (CanRelease(n') ==> CanRelease(n)))
  {
  }

  lemma StillImpossible(c: Cluster, a: Action, stoppable: set<nat>)
    requires Invariant(c) && !LeaderPossible(c, stoppable)
    requires a.Stop? ==> a.node in stoppable
    ensures !LeaderPossible(Next(c, a), stoppable)
  {
    if a.node < |c.nodes| {
      assert NodeInvariant(a.node, c.nodes[a.node], c.holder);
      StepOpensNothing(c, a);
      var d := Next(c, a);
      if OthersLive(d, d.holder) {
        OthersWereLive(c, a, d.holder);
      }
      if OthersLive(c, None) && c.holder == Some(a.node) && c.nodes[a.node].exit {
        var k :| 0 <= k < |c.nodes| && Some(k) != None && !c.nodes[k].exit;
        assert Some(k) != c.holder;
      }
    }
  }

  lemma {:induction false} NeverALeader(c: Cluster, actions: seq<Action>, stoppable: set<nat>)
    requires Invariant(c) && !LeaderPossible(c, stoppable) && Permitted(actions, stoppable)
    ensures !HasLiveLeader(Run(c, actions))
    decreases |actions|
  {
    if actions == [] {
      forall i | 0 <= i < |c.nodes| ensures !LiveLeader(c.nodes[i]) {
        assert NodeInvariant(i, c.nodes[i], c.holder);
      }
    } else {
      assert actions[0] in actions;
      StillImpossible(c, actions[0], stoppable);
      NextKeepsInvariant(c, actions[0]);
      NeverALeader(Next(c, actions[0]), actions[1..], stoppable);
    }
  }

  lemma BecomesLeader(c: Cluster, stoppable: set<nat>) returns (d: Cluster)
    requires Invariant(c) && LeaderPossible(c, stoppable)
    ensures Reaches(c, d, stoppable) && HasLiveLeader(d)
  {
    Stay(c, stoppable);
    d := c;
    var k: nat;
    if c.holder.None? {
      k :| k < |c.nodes| && !c.nodes[k].exit;
    } else if Rising(c.nodes[c.holder.value]) {
      k := c.holder.value;
    } else {
      k :| k < |c.nodes| && Some(k) != c.holder && !c.nodes[k].exit;
      d := HolderReleases(c, c, stoppable, c.holder.value);
    }
    d := LoopSetsFlag(c, d, stoppable, k);
    assert LiveLeader(d.nodes[k]);
  }

  /**
   In runs that stop only certain nodes, all or none for instance, some node can become or be a live
   leader exactly when LeaderPossible holds.
   */
  lemma LiveLeaderPossibleExactly(c: Cluster, stoppable: set<nat>)
    requires Invariant(c)
    ensures (exists actions: seq<Action> :: Permitted(actions, stoppable) && HasLiveLeader(Run(c, actions)))
       <==> LeaderPossible(c, stoppable)
  {
    if LeaderPossible(c, stoppable) {
      var d := BecomesLeader(c, stoppable);
      var actions :| Permitted(actions, stoppable) && Run(c, actions) == d;
      assert HasLiveLeader(Run(c, actions));
    } else {
      forall actions: seq<Action> | Permitted(actions, stoppable) ensures !HasLiveLeader(Run(c, actions)) {
        NeverALeader(c, actions, stoppable);
      }
    }
  }

  // ----- A lock nobody leads with -----

  /** The node holds the lock although its loop is back at the top without having set the flag. */
  predicate Orphaned(c: Cluster, j: nat) {
    && j < |c.nodes| && c.holder == Some(j)
    && !c.nodes[j].exit && !c.nodes[j].leader
    && c.nodes[j].loop in {LoopGuard, CheckLeader, AwaitLock, WaitInterval}
  }

  lemma {:induction false} OrphanStays(c: Cluster, actions: seq<Action>, j: nat)
    requires Orphaned(c, j)
    requires forall a | a in actions && a.Stop? :: a.node != j
    ensures Orphaned(Run(c, actions), j)
    decreases |actions|
  {
    if actions != [] {
      assert actions[0] in actions;
      OrphanStays(Next(c, actions[0]), actions[1..], j);
    }
  }

  /**
   When the host name lookup raises after the lock was granted, the node keeps the lock without
   leading. From then on, until that node is stopped, no run whatsoever produces a live leader.
   */
  lemma OrphanedLockPreventsLeaders(c: Cluster, actions: seq<Action>, j: nat)
    requires Invariant(c) && Orphaned(c, j)
    requires forall a | a in actions && a.Stop? :: a.node != j
    ensures Orphaned(Run(c, actions), j)
    ensures !HasLiveLeader(Run(c, actions))
  {
    OrphanStays(c, actions, j);
    var others := set a | a in actions && a.node != j :: a.node;
    assert Permitted(actions, others);
    LiveLeaderPossibleExactly(c, others);
  }
}
