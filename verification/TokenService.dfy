/**
 The token service as an object whose cached grant the calls replace in place. Each read and write
 of shared state is a step of the state machine, so executing any interleaving is one of its runs.
 */
module TokenService {
  import opened Options
  import opened TokenCache

  /** One grant type of the service: its cached grant, its lock, and the token endpoint's own records. */
  class GrantCache {
    var grant: Option<Grant>
    var lockOwner: Option<nat>
    var expired: set<nat>
    var failed: nat
    var forced: nat
    var unforced: nat

    function View(): Service
      reads this
    {
      Service(grant, lockOwner, expired, failed, forced, unforced)
    }

    constructor ()
      ensures View() == Service(None, None, {}, 0, 0, 0)
    {
      grant, lockOwner, expired := None, None, {};
      failed, forced, unforced := 0, 0, 0;
    }

    /** A request to the token endpoint that is answered; answers are told apart by their number. */
    method PostRequest(force: bool, decodable: bool) returns (g: Grant)
      modifies this`forced, this`unforced
      ensures g == Grant(old(View()).Requests(), decodable)
      ensures View() ==
        if force then old(View()).(forced := old(forced) + 1) else old(View()).(unforced := old(unforced) + 1)
    {
      g := Grant(failed + forced + unforced, decodable);
      if force {
        forced := forced + 1;
      } else {
        unforced := unforced + 1;
      }
    }

    method Expire(serial: nat)
      modifies this`expired
      ensures View() == old(View()).(expired := old(expired) + {serial})
    {
      expired := expired + {serial};
    }
  }

  class GetAccessToken {
    const id: nat
    const force: bool
    var at: Pc

    function View(): Thread
      reads this
    {
      Thread(force, at)
    }

    constructor (id: nat, force: bool)
      ensures this.id == id && View() == Thread(force, FirstLook)
    {
      this.id, this.force, at := id, force, FirstLook;
    }

    /** The next statement of the call; a call that waits for the lock, or has returned, does nothing. */
    method Advance(cache: GrantCache, outcome: Outcome)
      modifies this, cache
      ensures (View(), cache.View()) == Step(id, old(View()), old(cache.View()), outcome)
    {
      match at
      case FirstLook =>
        at := if force || cache.grant.None? then AwaitLock else FirstDecode;
      case FirstDecode =>
        if cache.grant.Some? {
          match cache.View().IsTokenExpired(cache.grant.value) {
            case Ok(expired) => at := if expired then AwaitLock else FirstReturn;
            case Err(e) => at := Returned(Err(e));
          }
        }
      case FirstReturn =>
        if cache.grant.Some? {
          at := Returned(Ok(cache.grant.value));
        }
      case AwaitLock =>
        if cache.lockOwner.None? {
          cache.lockOwner := Some(id);
          at := SecondLook;
        }
      case SecondLook =>
        at := if force || cache.grant.None? then Post else SecondDecode;
      case SecondDecode =>
        if cache.grant.Some? {
          match cache.View().IsTokenExpired(cache.grant.value) {
            case Ok(expired) => at := if expired then Post else SecondReturn;
            case Err(e) => at := Release(Err(e));
          }
        }
      case SecondReturn =>
        if cache.grant.Some? {
          at := Release(Ok(cache.grant.value));
        }
      case Post =>
        if outcome.Raises? {
          cache.failed := cache.failed + 1;
          at := Release(Err(RequestFailed));
        } else {
          var g := cache.PostRequest(force, outcome.decodable);
          at := Store(g);
        }
      case Store(g) =>
        cache.grant := Some(g);
        at := Release(Ok(g));
      case Release(answer) =>
        cache.lockOwner := None;
        at := Returned(answer);
      case Returned(_) =>
    }
  }

  ghost predicate Started(calls: seq<GetAccessToken>) {
    && (forall i | 0 <= i < |calls| :: calls[i].id == i)
    && forall i, j | 0 <= i < j < |calls| :: calls[i] != calls[j]
  }

  function Snapshot(calls: seq<GetAccessToken>, cache: GrantCache): System
    reads calls, cache
  {
    System(cache.View(), seq(|calls|, i requires 0 <= i < |calls| reads calls => calls[i].View()))
  }

  /** Lets the calls execute their statements, and tokens expire, in the given order. */
  method Execute(calls: seq<GetAccessToken>, cache: GrantCache, schedule: seq<Action>)
    requires Started(calls)
    modifies calls, cache
    ensures Snapshot(calls, cache) == Run(old(Snapshot(calls, cache)), schedule)
  {
    ghost var start := Snapshot(calls, cache);
    var k := 0;
    while k < |schedule|
      invariant 0 <= k <= |schedule|
      invariant Run(Snapshot(calls, cache), schedule[k..]) == Run(start, schedule)
    {
      var a := schedule[k];
      ghost var before := Snapshot(calls, cache);
      match a {
        case Expire(serial) => cache.Expire(serial);
        case Advance(thread, outcome) =>
          if thread < |calls| {
            calls[thread].Advance(cache, outcome);
          }
      }
      assert Snapshot(calls, cache) == Next(before, a);
      k := k + 1;
    }
  }

  /**
   From a fresh service, whatever the schedule: at most one request more than the forcing calls and
   the failed requests, and every call that has returned a grant saw it cached while it ran.
   */
  method ExecuteFromStart(calls: seq<GetAccessToken>, cache: GrantCache, schedule: seq<Action>)
    requires Started(calls) && Initial(Snapshot(calls, cache))
    modifies calls, cache
    ensures cache.View().Requests() <= ForcedCalls(old(Snapshot(calls, cache)).threads) + cache.failed + 1
    ensures forall i | 0 <= i < |calls| && calls[i].at.Returned? && calls[i].at.answer.Ok? ::
      exists k: nat | k <= |schedule| :: (
        var moment := Run(old(Snapshot(calls, cache)), schedule[..k]);
        moment.service.grant == Some(calls[i].at.answer.value) && InCall(moment.threads[i].pc))
  {
    ghost var start := Snapshot(calls, cache);
    Execute(calls, cache, schedule);
    RequestsAreBounded(start, schedule);
    forall i | 0 <= i < |calls| && calls[i].at.Returned? && calls[i].at.answer.Ok?
      ensures exists k: nat | k <= |schedule| :: (
        var moment := Run(start, schedule[..k]);
        moment.service.grant == Some(calls[i].at.answer.value) && InCall(moment.threads[i].pc))
    {
      assert Snapshot(calls, cache).threads[i] == calls[i].View();
      var k := ReturnedGrantWasCached(start, schedule, i, calls[i].at.answer.value);
    }
  }
}
