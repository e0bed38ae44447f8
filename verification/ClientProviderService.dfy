/**
 The client provider as an object whose dictionary the calls fill in place. Each statement of a
 call is a step of the state machine, so executing any interleaving of calls is one of its runs.
 */
module ClientProviderService {
  import opened Options
  import opened ClientCache

  class AwsClientProvider {
    const supported: set<string>
    const configuredRegion: Option<string>
    const sessionRegion: Option<string>
    var clients: map<string, Client>
    var lockOwner: Option<nat>
    var built: seq<Build>

    function View(): Provider
      reads this
    {
      Provider(supported, clients, lockOwner, built)
    }

    constructor (supported: set<string>, configuredRegion: Option<string>, sessionRegion: Option<string>)
      ensures View() == Provider(supported, map[], None, [])
      ensures this.configuredRegion == configuredRegion && this.sessionRegion == sessionRegion
    {
      this.supported, this.configuredRegion, this.sessionRegion := supported, configuredRegion, sessionRegion;
      clients, lockOwner, built := map[], None, [];
    }

    /** The session's factory: it either raises or returns a new client. */
    method BuildFor(key: string, request: Request) returns (client: Client)
      modifies this`built
      ensures client == Client(request.service, request.region, |old(built)|)
      ensures built == old(built) + [Build(key, client)]
    {
      client := Client(request.service, request.region, |built|);
      built := built + [Build(key, client)];
    }
  }

  class ClientCall {
    const id: nat
    const request: Request
    const key: string
    var at: Pc

    function View(): Thread
      reads this
    {
      Thread(request, key, at)
    }

    /** A call of get_client: the region defaults and the key are computed before anything shared is read. */
    constructor (id: nat, provider: AwsClientProvider, service: string, region: Option<string>)
      ensures this.id == id && at == CheckSupported
      ensures request == Request(service, EffectiveRegion(region, provider.configuredRegion, provider.sessionRegion))
      ensures key == request.Key()
    {
      this.id := id;
      var effective := EffectiveRegion(region, provider.configuredRegion, provider.sessionRegion);
      request := Request(service, effective);
      key := if effective.Some? && effective.value != "" then service + "." + effective.value else service;
      at := CheckSupported;
      new;
      assert service + "" == service;
      assert effective.Some? ==> service + ("." + effective.value) == service + "." + effective.value;
    }

    /** The next statement of the call; a call that waits for the lock, or has returned, does nothing. */
    method Advance(provider: AwsClientProvider, outcome: Outcome)
      modifies this, provider
      ensures (View(), provider.View()) == Step(id, old(View()), old(provider.View()), outcome)
    {
      match at
      case CheckSupported =>
        at := if request.service in provider.supported then FirstLook else Returned(Err(Unsupported));
      case FirstLook =>
        at := if key in provider.clients then FirstFetch else AwaitLock;
      case FirstFetch =>
        if key in provider.clients {
          at := Returned(Ok(provider.clients[key]));
        }
      case AwaitLock =>
        if provider.lockOwner.None? {
          provider.lockOwner := Some(id);
          at := SecondLook;
        }
      case SecondLook =>
        at := if key in provider.clients then SecondFetch else BuildClient;
      case SecondFetch =>
        if key in provider.clients {
          at := Release(Ok(provider.clients[key]));
        }
      case BuildClient =>
        if outcome.Raises? {
          at := Release(Err(BuildFailed));
        } else {
          var client := provider.BuildFor(key, request);
          at := Store(client);
        }
      case Store(client) =>
        provider.clients := provider.clients[key := client];
        at := Release(Ok(client));
      case Release(answer) =>
        provider.lockOwner := None;
        at := Returned(answer);
      case Returned(_) =>
    }
  }

  ghost predicate Started(calls: seq<ClientCall>) {
    && (forall i | 0 <= i < |calls| :: calls[i].id == i)
    && forall i, j | 0 <= i < j < |calls| :: calls[i] != calls[j]
  }

  function Snapshot(calls: seq<ClientCall>, provider: AwsClientProvider): System
    reads calls, provider
  {
    System(provider.View(), seq(|calls|, i requires 0 <= i < |calls| reads calls => calls[i].View()))
  }

  /** Lets the calls execute their statements in the given order. */
  method Execute(calls: seq<ClientCall>, provider: AwsClientProvider, schedule: seq<Action>)
    requires Started(calls)
    modifies calls, provider
    ensures Snapshot(calls, provider) == Run(old(Snapshot(calls, provider)), schedule)
  {
    ghost var start := Snapshot(calls, provider);
    var k := 0;
    while k < |schedule|
      invariant 0 <= k <= |schedule|
      invariant Run(Snapshot(calls, provider), schedule[k..]) == Run(start, schedule)
    {
      var a := schedule[k];
      ghost var before := Snapshot(calls, provider);
      if a.thread < |calls| {
        calls[a.thread].Advance(provider, a.outcome);
      }
      assert Snapshot(calls, provider) == Next(before, a);
      k := k + 1;
    }
  }
}
