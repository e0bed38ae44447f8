/**
 What calls of the client provider can still lead to: every call can always be brought to its
 return, and ambiguous requests can always lead to a caller with a client of another service.
 */
module ClientCacheReachability {
  import opened ClientCache
  import opened Lists
  import opened Options

  // ----- Progress -----

  function Ranks(threads: seq<Thread>): (ranks: seq<nat>)
    ensures |ranks| == |threads|
  {
    seq(|threads|, i requires 0 <= i < |threads| => Remaining(threads[i].pc))
  }

  ghost predicate AllReturned(s: System) {
    forall i | 0 <= i < |s.threads| :: s.threads[i].pc.Returned?
  }

  /** A call that is not waiting: the lock holder, or any other call while the lock is free. */
  lemma SomeCallMoves(s: System) returns (i: nat)
    requires Invariant(s) && !AllReturned(s)
    ensures i < |s.threads| && !s.threads[i].pc.Returned?
    ensures s.threads[i].pc.AwaitLock? ==> s.provider.lock == None
  {
    if s.provider.lock.Some? {
      i := s.provider.lock.value;
      assert ThreadInvariant(i, s.threads[i], s.provider);
    } else {
      i :| i < |s.threads| && !s.threads[i].pc.Returned?;
    }
  }

  lemma {:induction false} CompleteCalls(s: System) returns (actions: seq<Action>)
    requires Invariant(s)
    ensures AllReturned(Run(s, actions))
    decreases Sum(Ranks(s.threads))
  {
    if AllReturned(s) {
      actions := [];
    } else {
      var i := SomeCallMoves(s);
      var a := Action(i, Returns);
      var s' := Next(s, a);
      StepsLeadToReturn(s, i, Returns);
      SumOfUpdate(Ranks(s.threads), i, Remaining(s'.threads[i].pc));
      assert Ranks(s'.threads) == Ranks(s.threads)[i := Remaining(s'.threads[i].pc)];
      NextKeepsInvariant(s, a);
      var rest := CompleteCalls(s');
      actions := [a] + rest;
      assert actions[1..] == rest;
    }
  }

  /** There is no deadlock: from every reachable system some continuation returns every call. */
  lemma AllCallsCanReturn(s: System, actions: seq<Action>)
    requires Initial(s)
    ensures exists more: seq<Action> :: AllReturned(Run(Run(s, actions), more))
  {
    InitialInvariant(s);
    RunKeepsInvariant(s, actions);
    var more := CompleteCalls(Run(s, actions));
  }

  // ----- Ambiguous requests -----

  ghost predicate Reaches(s: System, d: System) {
    exists actions: seq<Action> :: Run(s, actions) == d
  }

  lemma {:induction false} RunAppend(s: System, actions: seq<Action>, a: Action)
    ensures Run(s, actions + [a]) == Next(Run(s, actions), a)
    decreases |actions|
  {
    if actions == [] {
      assert Run(Next(s, a), []) == Next(s, a);
    } else {
      RunAppend(Next(s, actions[0]), actions[1..], a);
      assert (actions + [a])[1..] == actions[1..] + [a];
    }
  }

  /** A successful step of thread `i`, the others being as in `base`. */
  lemma Advance(s: System, base: seq<Thread>, d: System, i: nat) returns (e: System)
    requires Reaches(s, d) && i < |base| == |d.threads| && d.threads == base[i := d.threads[i]]
    ensures Reaches(s, e) && |e.threads| == |base| && e.threads == base[i := e.threads[i]]
    ensures (e.threads[i], e.provider) == Step(i, d.threads[i], d.provider, Returns)
  {
    var actions :| Run(s, actions) == d;
    RunAppend(s, actions, Action(i, Returns));
    e := Next(d, Action(i, Returns));
  }

  /** A call on its own that finds nothing under its key builds and stores a client for its request. */
  lemma BuildAlone(s: System, d: System, i: nat) returns (e: System, client: Client)
    requires Reaches(s, d) && i < |d.threads| && d.threads[i].pc == CheckSupported
    requires d.threads[i].request.service in d.provider.supported
    requires d.threads[i].key !in d.provider.clients && d.provider.lock == None
    ensures Reaches(s, e) && Serves(client, d.threads[i].request)
    ensures e.threads == d.threads[i := d.threads[i].(pc := Returned(Ok(client)))]
    ensures e.provider.supported == d.provider.supported && e.provider.lock == None
    ensures e.provider.clients == d.provider.clients[d.threads[i].key := client]
  {
    e := Advance(s, d.threads, d, i);
    e := Advance(s, d.threads, e, i);
    e := Advance(s, d.threads, e, i);
    e := Advance(s, d.threads, e, i);
    e := Advance(s, d.threads, e, i);
    client := e.threads[i].pc.client;
    e := Advance(s, d.threads, e, i);
    e := Advance(s, d.threads, e, i);
  }

  /** A call that finds a client under its key returns it. */
  lemma FetchAlone(s: System, d: System, i: nat) returns (e: System)
    requires Reaches(s, d) && i < |d.threads| && d.threads[i].pc == CheckSupported
    requires d.threads[i].request.service in d.provider.supported && d.threads[i].key in d.provider.clients
    ensures Reaches(s, e)
    ensures e.threads == d.threads[i := d.threads[i].(pc := Returned(Ok(d.provider.clients[d.threads[i].key])))]
  {
    e := Advance(s, d.threads, d, i);
    e := Advance(s, d.threads, e, i);
    e := Advance(s, d.threads, e, i);
  }

  lemma ConfusedCallerNotServed(s: System, i: nat, j: nat) returns (d: System)
    requires Initial(s) && i < |s.threads| && j < |s.threads| && Confused(s.threads[i], s.threads[j])
    requires s.threads[i].request.service in s.provider.supported
    requires s.threads[j].request.service in s.provider.supported
    ensures Reaches(s, d) && |d.threads| == |s.threads| && !Served(d.threads[j])
  {
    assert Run(s, []) == s;
    var client;
    d, client := BuildAlone(s, s, i);
    d := FetchAlone(s, d, j);
  }

  /**
   Every run gives every caller a client for its own service and region exactly when no two supported
   requests share a key without agreeing on both.
   */
  lemma EveryCallerIsServedExactly(s: System)
    requires Initial(s)
    ensures (forall actions: seq<Action>, i | 0 <= i < |s.threads| :: Served(Run(s, actions).threads[i]))
       <==> Unambiguous(s)
  {
    if Unambiguous(s) {
      forall actions: seq<Action>, i | 0 <= i < |s.threads| ensures Served(Run(s, actions).threads[i]) {
        UnambiguousCallersAreServed(s, actions, i);
      }
    } else {
      var i, j :| 0 <= i < |s.threads| && 0 <= j < |s.threads| && Confused(s.threads[i], s.threads[j])
        && s.threads[i].request.service in s.provider.supported && s.threads[j].request.service in s.provider.supported;
      var d := ConfusedCallerNotServed(s, i, j);
      var actions :| Run(s, actions) == d;
      assert !Served(Run(s, actions).threads[j]);
    }
  }
}
