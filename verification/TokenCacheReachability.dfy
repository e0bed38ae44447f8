/**
 What calls of the token service can still lead to: every call can always be brought to its return,
 and a cached grant, expired or not, can be replaced exactly when some forcing call is still to do so.
 */
module TokenCacheReachability {
  import opened Lists
  import opened Options
  import opened TokenCache

  // ----- Progress -----

  /** How many statements a call executes at most until it returns, not counting those spent waiting. */
  function Remaining(pc: Pc): nat {
    match pc
    case FirstLook => 9
    case FirstDecode => 8
    case FirstReturn => 1
    case AwaitLock => 7
    case SecondLook => 6
    case SecondDecode => 5
    case SecondReturn => 2
    case Post => 4
    case Store(_) => 2
    case Release(_) => 1
    case Returned(_) => 0
  }

  function Ranks(threads: seq<Thread>): (ranks: seq<nat>)
    ensures |ranks| == |threads|
  {
    seq(|threads|, i requires 0 <= i < |threads| => Remaining(threads[i].pc))
  }

  ghost predicate AllReturned(s: System) {
    forall i | 0 <= i < |s.threads| :: s.threads[i].pc.Returned?
  }

  lemma StepLeadsToReturn(s: System, i: nat, outcome: Outcome)
    requires Invariant(s) && i < |s.threads| && !s.threads[i].pc.Returned?
    requires s.threads[i].pc.AwaitLock? ==> s.service.lock.None?
    ensures Remaining(Next(s, Advance(i, outcome)).threads[i].pc) < Remaining(s.threads[i].pc)
  {
    assert ThreadInvariant(i, s.threads[i], s.service);
  }

  lemma {:induction false} CompleteCalls(s: System) returns (actions: seq<Action>)
    requires Invariant(s)
    ensures AllReturned(Run(s, actions))
    decreases Sum(Ranks(s.threads))
  {
    if AllReturned(s) {
      actions := [];
    } else {
      var i: nat;
      if s.service.lock.Some? {
        i := s.service.lock.value;
        assert ThreadInvariant(i, s.threads[i], s.service);
      } else {
        i :| i < |s.threads| && !s.threads[i].pc.Returned?;
      }
      var a := Advance(i, Responds(true));
      var s' := Next(s, a);
      StepLeadsToReturn(s, i, Responds(true));
      SumOfUpdate(Ranks(s.threads), i, Remaining(s'.threads[i].pc));
      assert Ranks(s'.threads) == Ranks(s.threads)[i := Remaining(s'.threads[i].pc)];
      NextKeepsInvariant(s, a);
      var rest := CompleteCalls(s');
      actions := [a] + rest;
      assert actions[1..] == rest;
    }
  }

  /** There is no deadlock: from every reachable system some continuation returns every call. */
  lemma AllCallsCanReturn(s: System, actions: seq<Action>)
    requires Initial(s)
    ensures exists more: seq<Action> :: AllReturned(Run(Run(s, actions), more))
  {
    RunKeepsInvariant(s, actions);
    var more := CompleteCalls(Run(s, actions));
  }

  // ----- Forcing calls renew -----

  /** The call forces a renewal and is still to send its request. */
  predicate MayRequest(t: Thread) {
    t.force && MayPost(t.pc)
  }

  lemma NextRequestsGrow(s: System, a: Action)
    requires Invariant(s)
    ensures s.service.Requests() <= Next(s, a).service.Requests()
    ensures s.service.grant.Some? ==> Next(s, a).service.grant.Some?
    ensures s.service.grant.Some? ==> s.service.grant.value.serial <= Next(s, a).service.grant.value.serial
  {
    if a.Advance? && a.thread < |s.threads| {
      assert ThreadInvariant(a.thread, s.threads[a.thread], s.service);
    }
  }

  /** How far the holder of the lock is from giving it back. */
  function HolderRank(s: System): nat {
    var lock := s.service.lock;
    if lock.Some? && lock.value < |s.threads| then Remaining(s.threads[lock.value].pc) else 0
  }

  /**
   A call that is still to renew the grant can be brought to store its answer, once the holder of the
   lock has given it back. The new grant is a later one, and if its request was still to come, it is sent.
   */
  lemma {:induction false} Renew(s: System, j: nat) returns (actions: seq<Action>)
    requires Invariant(s) && j < |s.threads| && MayRenew(s.threads[j])
    ensures var d := Run(s, actions);
      && d.service.grant.Some? && d.threads[j].pc == Release(Ok(d.service.grant.value))
      && (s.service.grant.Some? ==> s.service.grant.value.serial < d.service.grant.value.serial)
      && s.service.Requests() <= d.service.Requests()
      && (MayRequest(s.threads[j]) ==> s.service.Requests() < d.service.Requests())
    decreases Remaining(s.threads[j].pc), HolderRank(s)
  {
    assert ThreadInvariant(j, s.threads[j], s.service);
    var waiting := s.threads[j].pc.AwaitLock? && s.service.lock.Some?;
    var k := if waiting then s.service.lock.value else j;
    assert ThreadInvariant(k, s.threads[k], s.service);
    var a := Advance(k, Responds(true));
    var s' := Next(s, a);
    if s.threads[j].pc.Store? {
      actions := [a];
      assert Run(s, actions) == Run(s', []);
    } else {
      StepLeadsToReturn(s, k, Responds(true));
      NextKeepsInvariant(s, a);
      NextRequestsGrow(s, a);
      var rest := Renew(s', j);
      actions := [a] + rest;
      assert actions[1..] == rest;
    }
  }

  lemma {:induction false} NoMoreRequests(s: System, actions: seq<Action>)
    requires Invariant(s) && s.service.grant.Some?
    requires forall j | 0 <= j < |s.threads| :: !MayRequest(s.threads[j])
    ensures Run(s, actions).service.Requests() == s.service.Requests()
    decreases |actions|
  {
    if actions != [] {
      var a, s' := actions[0], Next(s, actions[0]);
      NextKeepsInvariant(s, a);
      if a.Advance? && a.thread < |s.threads| {
        assert ThreadInvariant(a.thread, s.threads[a.thread], s.service);
      }
      NoMoreRequests(s', actions[1..]);
    }
  }

  /**
   With a cached grant, usable or not, another request is possible exactly while a forcing call is
   still to send one.
   */
  lemma RequestPossibleExactly(s: System)
    requires Invariant(s) && s.service.grant.Some?
    ensures (exists actions: seq<Action> :: Run(s, actions).service.Requests() > s.service.Requests())
       <==> exists j :: 0 <= j < |s.threads| && MayRequest(s.threads[j])
  {
    if j :| 0 <= j < |s.threads| && MayRequest(s.threads[j]) {
      var actions := Renew(s, j);
      assert Run(s, actions).service.Requests() > s.service.Requests();
    } else {
      forall actions: seq<Action> ensures Run(s, actions).service.Requests() == s.service.Requests() {
        NoMoreRequests(s, actions);
      }
    }
  }

  /**
   A cached grant, usable or not, can be replaced exactly while some forcing call has not stored its
   answer. An expired grant is no exception.
   */
  lemma RenewalPossibleExactly(s: System)
    requires Invariant(s) && s.service.grant.Some?
    ensures (exists actions: seq<Action> :: Run(s, actions).service.grant != s.service.grant)
       <==> exists j :: 0 <= j < |s.threads| && MayRenew(s.threads[j])
  {
    if j :| 0 <= j < |s.threads| && MayRenew(s.threads[j]) {
      var actions := Renew(s, j);
      assert Run(s, actions).service.grant != s.service.grant;
    } else {
      forall actions: seq<Action> ensures Run(s, actions).service.grant == s.service.grant {
        GrantStays(s, actions);
      }
    }
  }

  /** `n` steps of call `i`, whose request, if it sends one, ends as given. */
  function Repeat(s: System, i: nat, outcome: Outcome, n: nat): System
    decreases n
  {
    if n == 0 then s else Repeat(Next(s, Advance(i, outcome)), i, outcome, n - 1)
  }

  lemma {:induction false} RunRepeat(s: System, i: nat, outcome: Outcome, n: nat, rest: seq<Action>)
    returns (actions: seq<Action>)
    ensures Run(s, actions) == Run(Repeat(s, i, outcome, n), rest)
    decreases n
  {
    if n == 0 {
      actions := rest;
    } else {
      var a := Advance(i, outcome);
      var later := RunRepeat(Next(s, a), i, outcome, n - 1, rest);
      actions := [a] + later;
      assert actions[1..] == later;
    }
  }

  // ----- A call on its own -----

  /** What a call does when no other one is under way: the answer, and the service afterwards. */
  function Alone(service: Service, force: bool, outcome: Outcome): (Answer, Service) {
    if !force && service.grant.Some? then
      var g := service.grant.value;
      var answer :=
        if !g.decodable then Err(UnauthorizedAccess)
        else if g.serial in service.expired then Err(TokenExpired)
        else Ok(g);
      (answer, service)
    else
      match outcome
      case Raises => (Err(RequestFailed), service.(failed := service.failed + 1))
      case Responds(decodable) =>
        var g := Grant(service.Requests(), decodable);
        var stored := service.(grant := Some(g));
        (Ok(g), if force then stored.(forced := stored.forced + 1) else stored.(unforced := stored.unforced + 1))
  }

  /** The states of a call and the service, the other calls being as in `base`. */
  lemma StepOf(base: seq<Thread>, s: System, i: nat, outcome: Outcome) returns (d: System)
    requires i < |base| == |s.threads| && s.threads == base[i := s.threads[i]]
    ensures d == Next(s, Advance(i, outcome)) && |d.threads| == |base| && d.threads == base[i := d.threads[i]]
    ensures (d.threads[i], d.service) == Step(i, s.threads[i], s.service, outcome)
  {
    d := Next(s, Advance(i, outcome));
  }

  lemma FetchAlone(s: System, i: nat, outcome: Outcome)
    requires i < |s.threads| && s.threads[i].pc == FirstLook && s.service.lock == None
    requires s.threads[i].force || s.service.grant.None?
    ensures var (answer, service) := Alone(s.service, s.threads[i].force, outcome);
      Repeat(s, i, outcome, 6) == System(service, s.threads[i := s.threads[i].(pc := Returned(answer))])
  {
    var s1 := StepOf(s.threads, s, i, outcome);
    var s2 := StepOf(s.threads, s1, i, outcome);
    var s3 := StepOf(s.threads, s2, i, outcome);
    var s4 := StepOf(s.threads, s3, i, outcome);
    var s5 := StepOf(s.threads, s4, i, outcome);
    var s6 := StepOf(s.threads, s5, i, outcome);
    assert Repeat(s4, i, outcome, 2) == Repeat(s5, i, outcome, 1) == Repeat(s6, i, outcome, 0);
    assert Repeat(s2, i, outcome, 4) == Repeat(s3, i, outcome, 3) == Repeat(s4, i, outcome, 2);
    assert Repeat(s, i, outcome, 6) == Repeat(s1, i, outcome, 5) == Repeat(s2, i, outcome, 4);
  }

  lemma {:induction false} ReturnedStays(s: System, i: nat, outcome: Outcome, n: nat)
    requires i < |s.threads| && s.threads[i].pc.Returned?
    ensures Repeat(s, i, outcome, n) == s
    decreases n
  {
    if n > 0 {
      assert Next(s, Advance(i, outcome)).threads == s.threads;
      ReturnedStays(s, i, outcome, n - 1);
    }
  }

  lemma LookAlone(s: System, i: nat, outcome: Outcome)
    requires i < |s.threads| && s.threads[i] == Thread(false, FirstLook) && s.service.grant.Some?
    ensures var (answer, service) := Alone(s.service, false, outcome);
      Repeat(s, i, outcome, 6) == System(service, s.threads[i := Thread(false, Returned(answer))])
  {
    ExpiryEscapes(s.service, s.service.grant.value);
    var s1 := StepOf(s.threads, s, i, outcome);
    var s2 := StepOf(s.threads, s1, i, outcome);
    var s3 := StepOf(s.threads, s2, i, outcome);
    assert Repeat(s, i, outcome, 6) == Repeat(s1, i, outcome, 5);
    assert Repeat(s1, i, outcome, 5) == Repeat(s2, i, outcome, 4) == Repeat(s3, i, outcome, 3);
    ReturnedStays(s3, i, outcome, 3);
  }

  /**
   A call on its own, while the lock is free, does within six statements what Alone says: it answers
   with the cached grant if that is usable, raises for another one, and otherwise fetches and stores.
   */
  lemma CallAloneExactly(s: System, i: nat, outcome: Outcome)
    requires i < |s.threads| && s.threads[i].pc == FirstLook && s.service.lock == None
    ensures var (answer, service) := Alone(s.service, s.threads[i].force, outcome);
      Repeat(s, i, outcome, 6) == System(service, s.threads[i := s.threads[i].(pc := Returned(answer))])
  {
    if s.threads[i].force || s.service.grant.None? {
      FetchAlone(s, i, outcome);
    } else {
      LookAlone(s, i, outcome);
    }
  }

  // ----- An expired grant -----

  const TWO_CALLS: System :=
    System(Service(None, None, {}, 0, 0, 0), [Thread(false, FirstLook), Thread(false, FirstLook)])

  const FETCHED: System :=
    System(Service(Some(Grant(0, true)), None, {}, 0, 0, 1),
           [Thread(false, Returned(Ok(Grant(0, true)))), Thread(false, FirstLook)])

  /** After the first call and the expiry of its token the second call raises. */
  lemma SecondCallFails()
    ensures var o := Responds(true);
      var failed := Repeat(Next(Repeat(TWO_CALLS, 0, o, 6), Expire(0)), 1, o, 6);
      && failed.service == FETCHED.service.(expired := {0})
      && failed.threads == [FETCHED.threads[0], Thread(false, Returned(Err(TokenExpired)))]
  {
    CallAloneExactly(TWO_CALLS, 0, Responds(true));
    assert Repeat(TWO_CALLS, 0, Responds(true), 6) == FETCHED;
    var expired := Next(FETCHED, Expire(0));
    assert expired.service.expired == {0};
    CallAloneExactly(expired, 1, Responds(true));
  }

  /**
   One call fetches a grant, its token expires, and the next call, forcing nothing, raises instead of
   renewing it.
   */
  lemma ExpiredGrantFailsNextCall() returns (s: System, actions: seq<Action>)
    ensures Initial(s) && |s.threads| == 2 && !s.threads[0].force && !s.threads[1].force
    ensures var d := Run(s, actions);
      && Unusable(d.service) && d.service.Requests() == 1
      && d.threads[0].pc == Returned(Ok(d.service.grant.value))
      && d.threads[1].pc == Returned(Err(TokenExpired))
  {
    s := TWO_CALLS;
    SecondCallFails();
    var o := Responds(true);
    var later := RunRepeat(Next(Repeat(s, 0, o, 6), Expire(0)), 1, o, 6, []);
    assert ([Expire(0)] + later)[1..] == later;
    actions := RunRepeat(s, 0, o, 6, [Expire(0)] + later);
  }
}
