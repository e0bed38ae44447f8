/**
 The objects behind the leader election: every service updates its own fields in place, and all
 share one lock. Each atomic step of a service is the step the state machine takes, and executing
 any schedule on any number of services is a run of the cluster.
 */
module LeaderElectionService {
  import opened Options
  import opened LeaderElection

  class DistributedLock {
    var holder: Option<nat>

    constructor ()
      ensures holder == None
    {
      holder := None;
    }
  }

  class Service {
    const id: nat
    var exit: bool
    var isLeader: bool
    var registered: bool
    var loopAt: LoopPc
    var stopAt: StopPc
    var published: seq<Publication>

    function View(): Node
      reads this
    {
      Node(exit, isLeader, registered, loopAt, stopAt, published)
    }

    constructor (id: nat)
      ensures this.id == id && View() == INITIAL_NODE
    {
      this.id := id;
      exit, isLeader, registered := false, false, false;
      loopAt, stopAt, published := LoopGuard, StopIdle, [];
    }

    method Publish(message: Message)
      modifies this`published
      ensures published == old(published) + [Publication(message, exit)]
    {
      published := published + [Publication(message, exit)];
    }

    /** The next statement of the background loop. */
    method AdvanceLoop(lock: DistributedLock, outcome: Outcome)
      modifies this, lock
      ensures (View(), lock.holder) == LoopStep(id, old(View()), old(lock.holder), outcome)
    {
      match loopAt
      case LoopGuard =>
        loopAt := if exit then LoopDone else CheckLeader;
      case CheckLeader =>
        loopAt := if isLeader then WaitInterval else AwaitLock;
      case AwaitLock =>
        if outcome.Raises? {
          loopAt := WaitInterval;
        } else if lock.holder.None? {
          lock.holder := Some(id);
          loopAt := RegisterLock;
        }
      case RegisterLock =>
        registered := true;
        loopAt := LogHostname;
      case LogHostname =>
        loopAt := if outcome.Raises? then WaitInterval else SetFlag;
      case SetFlag =>
        isLeader := true;
        loopAt := PublishAppointed;
      case PublishAppointed =>
        if outcome.Returns? {
          Publish(LeaderAppointed);
        }
        loopAt := WaitInterval;
      case WaitInterval =>
        loopAt := LoopGuard;
      case LoopDone =>
    }

    /** The next statement of stop; from StopIdle, a new call. */
    method AdvanceStop(lock: DistributedLock, outcome: Outcome)
      modifies this, lock
      ensures (View(), lock.holder) == StopStep(id, old(View()), old(lock.holder), outcome)
    {
      match stopAt
      case StopIdle =>
        exit := true;
        stopAt := CheckRegistered;
      case CheckRegistered =>
        stopAt := if registered then ReleaseLock else ClearFlag;
      case ReleaseLock =>
        if lock.holder == Some(id) {
          lock.holder := None;
        }
        stopAt := UnregisterLock;
      case UnregisterLock =>
        registered := false;
        stopAt := ClearFlag;
      case ClearFlag =>
        isLeader := false;
        stopAt := PublishDismissed;
      case PublishDismissed =>
        if outcome.Raises? {
          stopAt := StopIdle;
        } else {
          Publish(LeaderDismissed);
          stopAt := JoinLoop;
        }
      case JoinLoop =>
        if loopAt == LoopDone {
          stopAt := StopIdle;
        }
    }
  }

  ghost predicate Deployed(services: seq<Service>) {
    && (forall i | 0 <= i < |services| :: services[i].id == i)
    && forall i, j | 0 <= i < j < |services| :: services[i] != services[j]
  }

  function Snapshot(services: seq<Service>, lock: DistributedLock): Cluster
    reads services, lock
  {
    Cluster(seq(|services|, i requires 0 <= i < |services| reads services => services[i].View()), lock.holder)
  }

  /** Lets the services take steps in the given order. */
  method Execute(services: seq<Service>, lock: DistributedLock, schedule: seq<Action>)
    requires Deployed(services)
    modifies services, lock
    ensures Snapshot(services, lock) == Run(old(Snapshot(services, lock)), schedule)
  {
    ghost var start := Snapshot(services, lock);
    var k := 0;
    while k < |schedule|
      invariant 0 <= k <= |schedule|
      invariant Run(Snapshot(services, lock), schedule[k..]) == Run(start, schedule)
    {
      var a := schedule[k];
      ghost var before := Snapshot(services, lock);
      if a.node < |services| {
        var service := services[a.node];
        if a.Loop? {
          service.AdvanceLoop(lock, a.outcome);
        } else {
          service.AdvanceStop(lock, a.outcome);
        }
      }
      assert Snapshot(services, lock) == Next(before, a);
      k := k + 1;
    }
  }

  /** Whatever the schedule, at most one freshly started service ends up a live leader, and it holds the lock. */
  method ExecuteFromStart(services: seq<Service>, lock: DistributedLock, schedule: seq<Action>)
    requires Deployed(services) && Initial(Snapshot(services, lock))
    modifies services, lock
    ensures forall i | 0 <= i < |services| && services[i].isLeader && !services[i].exit :: lock.holder == Some(i)
  {
    ghost var start := Snapshot(services, lock);
    Execute(services, lock, schedule);
    forall i | 0 <= i < |services| && services[i].isLeader && !services[i].exit
      ensures lock.holder == Some(i)
    {
      assert LiveLeader(Snapshot(services, lock).nodes[i]);
      AtMostOneLiveLeader(start, schedule, i, i);
    }
  }
}
