/**
 The AWS client provider: any number of threads ask for a client, look into a shared dictionary
 without the lock, look again under the lock, and only then build, store and release.

 Threads interleave at every read and write of the shared state. The main result is that the
 provider cannot be told apart from a memo table whose get-or-build is a single atomic operation.
 */
module ClientCache {
  import opened Options
  import opened Text

  /** A client object, told apart from the others by when it was built. */
  datatype Client = Client(service: string, region: Option<string>, serial: nat)

  datatype Error = Unsupported | BuildFailed

  // ----- Keys -----

  predicate IsEmpty(region: Option<string>) {
    region.None? || IsBlank(region.value)
  }

  /** The first of the caller's, the configured and the session's region that is not empty, or else the session's. */
  function EffectiveRegion(requested: Option<string>, configured: Option<string>, session: Option<string>)
    : (r: Option<string>)
    ensures var regions := [requested, configured, session];
      exists k :: (
        && 0 <= k < 3 && r == regions[k] && (k < 2 ==> !IsEmpty(r))
        && forall j | 0 <= j < k :: IsEmpty(regions[j]))
  {
    var regions := [requested, configured, session];
    assert regions[0] == requested && regions[1] == configured && regions[2] == session;
    var region := if IsEmpty(requested) then configured else requested;
    if IsEmpty(region) then session else region
  }

  function RegionSuffix(region: Option<string>): string {
    if region.Some? && region.value != "" then "." + region.value else ""
  }

  function ClientKey(service: string, region: Option<string>): string {
    service + RegionSuffix(region)
  }

  predicate PlainRegion(region: Option<string>) {
    region.Some? && region.value != "" && '.' !in region.value
  }

  lemma LastDot(service: string, region: Option<string>)
    requires PlainRegion(region)
    ensures var k := ClientKey(service, region);
      |service| < |k| && k[|service|] == '.' && forall j | |service| < j < |k| :: k[j] != '.'
  {
    var k := ClientKey(service, region);
    forall j | |service| < j < |k| ensures k[j] != '.' {
      assert k[j] == region.value[j - |service| - 1];
    }
  }

  /** With plain regions no two requests share a key, whatever dots their service names contain. */
  lemma KeysOfPlainRegionsDiffer(s1: string, r1: Option<string>, s2: string, r2: Option<string>)
    requires PlainRegion(r1) && PlainRegion(r2)
    requires ClientKey(s1, r1) == ClientKey(s2, r2)
    ensures s1 == s2 && r1 == r2
  {
    var k := ClientKey(s1, r1);
    LastDot(s1, r1);
    LastDot(s2, r2);
    assert |s1| == |s2|;
    assert s1 == k[..|s1|] == s2;
    assert r1.value == k[|s1| + 1..] == r2.value;
  }

  /** Without a region the key is the service name alone. */
  lemma KeyWithoutRegion(service: string)
    ensures ClientKey(service, None) == service && ClientKey(service, Some("")) == service
  {
    assert service + "" == service;
  }

  /** In general they can: the dot may belong to the service name or to the region. */
  lemma KeysCanCollide()
    ensures ClientKey("s3", Some("bucket.us-east-1")) == ClientKey("s3.bucket", Some("us-east-1"))
  {
  }

  // ----- Threads and steps -----

  datatype Request = Request(service: string, region: Option<string>) {
    function Key(): string {
      ClientKey(service, region)
    }
  }

  type Answer = Result<Client, Error>

  /** The next statement of a call. */
  datatype Pc =
    | CheckSupported
    | FirstLook
    | FirstFetch             // key seen without the lock, value not yet read
    | AwaitLock
    | SecondLook
    | SecondFetch            // key seen under the lock, value not yet read
    | BuildClient
    | Store(client: Client)
    | Release(answer: Answer)
    | Returned(answer: Answer)

  /** A call with its local variables; the key depends on the arguments alone. */
  datatype Thread = Thread(request: Request, key: string, pc: Pc)

  /** A client the builder returned, and the key it was built for. */
  datatype Build = Build(key: string, client: Client)

  datatype Provider = Provider(
    supported: set<string>,
    clients: map<string, Client>,
    lock: Option<nat>,
    built: seq<Build>)

  datatype Outcome = Returns | Raises

  /** One step of thread `id`. A step that cannot be taken leaves everything as it is. */
  function Step(id: nat, t: Thread, p: Provider, outcome: Outcome): (Thread, Provider)
  {
    var key := t.key;
    match t.pc
    case CheckSupported =>
      (t.(pc := if t.request.service in p.supported then FirstLook else Returned(Err(Unsupported))), p)
    case FirstLook => (t.(pc := if key in p.clients then FirstFetch else AwaitLock), p)
    case FirstFetch => if key in p.clients then (t.(pc := Returned(Ok(p.clients[key]))), p) else (t, p)
    case AwaitLock => if p.lock.None? then (t.(pc := SecondLook), p.(lock := Some(id))) else (t, p)
    case SecondLook => (t.(pc := if key in p.clients then SecondFetch else BuildClient), p)
    case SecondFetch => if key in p.clients then (t.(pc := Release(Ok(p.clients[key]))), p) else (t, p)
    case BuildClient =>
      if outcome.Raises? then (t.(pc := Release(Err(BuildFailed))), p)
      else
        var client := Client(t.request.service, t.request.region, |p.built|);
        (t.(pc := Store(client)), p.(built := p.built + [Build(key, client)]))
    case Store(client) => (t.(pc := Release(Ok(client))), p.(clients := p.clients[key := client]))
    case Release(answer) => (t.(pc := Returned(answer)), p.(lock := None))
    case Returned(_) => (t, p)
  }

  datatype System = System(provider: Provider, threads: seq<Thread>)

  datatype Action = Action(thread: nat, outcome: Outcome)

  function Next(s: System, a: Action): (r: System)
    ensures |r.threads| == |s.threads|
  {
    if a.thread >= |s.threads| then s
    else
      var (t, p) := Step(a.thread, s.threads[a.thread], s.provider, a.outcome);
      System(p, s.threads[a.thread := t])
  }

  function Run(s: System, actions: seq<Action>): (r: System)
    ensures |r.threads| == |s.threads|
    decreases |actions|
  {
    if actions == [] then s else Run(Next(s, actions[0]), actions[1..])
  }

  ghost predicate Initial(s: System) {
    && s.provider.clients == map[] && s.provider.lock == None && s.provider.built == []
    && (forall i | 0 <= i < |s.threads| :: s.threads[i].pc == CheckSupported)
    && forall i | 0 <= i < |s.threads| :: s.threads[i].key == s.threads[i].request.Key()
  }

  // ----- What every step keeps -----

  predicate Locked(pc: Pc) {
    pc.SecondLook? || pc.SecondFetch? || pc.BuildClient? || pc.Store? || pc.Release?
  }

  predicate AnswerStored(answer: Answer, key: string, clients: map<string, Client>) {
    answer.Ok? ==> key in clients && clients[key] == answer.value
  }

  ghost predicate ThreadInvariant(id: nat, t: Thread, p: Provider) {
    && (Locked(t.pc) <==> p.lock == Some(id))
    && (t.pc.FirstFetch? || t.pc.SecondFetch? ==> t.key in p.clients)
    && (t.pc.BuildClient? || t.pc.Store? ==> t.key !in p.clients)
    && (t.pc.Store? ==> |p.built| > 0 && p.built[|p.built| - 1] == Build(t.key, t.pc.client)
                        && Serves(t.pc.client, t.request))
    && (t.pc.Release? || t.pc.Returned? ==> AnswerStored(t.pc.answer, t.key, p.clients))
  }

  predicate Serves(c: Client, request: Request) {
    c.service == request.service && c.region == request.region
  }

  /** All clients built so far are stored under their key, except that the last may still be on its way. */
  ghost predicate ProviderInvariant(p: Provider, storing: bool) {
    var stored := if storing && |p.built| > 0 then |p.built| - 1 else |p.built|;
    && (forall k | k in p.clients :: Build(k, p.clients[k]) in p.built)
    && (forall i | 0 <= i < stored :: p.built[i].key in p.clients)
    && (forall i, j | 0 <= i < j < |p.built| :: p.built[i].key != p.built[j].key)
  }

  predicate Storing(s: System) {
    var lock := s.provider.lock;
    lock.Some? && lock.value < |s.threads| && s.threads[lock.value].pc.Store?
  }

  ghost predicate Invariant(s: System) {
    && ProviderInvariant(s.provider, Storing(s))
    && (s.provider.lock.Some? ==> s.provider.lock.value < |s.threads|)
    && forall i | 0 <= i < |s.threads| :: ThreadInvariant(i, s.threads[i], s.provider)
  }

  lemma OthersKeepInvariant(id: nat, t: Thread, p: Provider, outcome: Outcome, j: nat, u: Thread)
    requires ThreadInvariant(id, t, p) && ThreadInvariant(j, u, p) && id != j
    ensures ThreadInvariant(j, u, Step(id, t, p, outcome).1)
  {
  }

  /** A step of the lock holder keeps every client under its own key, and every key built only once. */
  lemma HolderKeepsProvider(id: nat, t: Thread, p: Provider, outcome: Outcome)
    requires ThreadInvariant(id, t, p) && Locked(t.pc) && ProviderInvariant(p, t.pc.Store?)
    ensures var (t', p') := Step(id, t, p, outcome); ProviderInvariant(p', t'.pc.Store?)
  {
    var (t', p') := Step(id, t, p, outcome);
    if t.pc.BuildClient? && outcome.Returns? {
      forall i | 0 <= i < |p.built| ensures p.built[i].key != t.key {
        assert p.built[i].key in p.clients;
      }
    }
  }

  lemma NextKeepsInvariant(s: System, a: Action)
    requires Invariant(s)
    ensures Invariant(Next(s, a))
  {
    if a.thread < |s.threads| {
      var id := a.thread;
      var t, p := s.threads[id], s.provider;
      var s' := Next(s, a);
      var (t', p') := Step(id, t, p, a.outcome);
      forall j | 0 <= j < |s.threads| ensures ThreadInvariant(j, s'.threads[j], p') {
        if j != id {
          OthersKeepInvariant(id, t, p, a.outcome, j, s.threads[j]);
        }
      }
      if Locked(t.pc) {
        HolderKeepsProvider(id, t, p, a.outcome);
      }
    }
  }

  lemma InitialInvariant(s: System)
    requires Initial(s)
    ensures Invariant(s)
  {
  }

  lemma {:induction false} RunKeepsInvariant(s: System, actions: seq<Action>)
    requires Invariant(s)
    ensures Invariant(Run(s, actions))
    decreases |actions|
  {
    if actions != [] {
      NextKeepsInvariant(s, actions[0]);
      RunKeepsInvariant(Next(s, actions[0]), actions[1..]);
    }
  }

  // ----- Refinement of an atomic memo table -----

  /** The specification: looking up and, failing that, building and storing happen at once. */
  predicate AtomicGet(supported: set<string>, table: map<string, Client>, t: Thread, answer: Answer,
                      table': map<string, Client>)
  {
    if t.request.service !in supported then answer == Err(Unsupported) && table' == table
    else if t.key in table then answer == Ok(table[t.key]) && table' == table
    else if answer.Ok? then Serves(answer.value, t.request) && table' == table[t.key := answer.value]
    else answer == Err(BuildFailed) && table' == table
  }

  /** The answer a call can no longer avoid giving, if there is one. */
  function Decision(t: Thread, clients: map<string, Client>): Option<Answer> {
    match t.pc
    case FirstFetch | SecondFetch => if t.key in clients then Some(Ok(clients[t.key])) else None
    case Release(answer) => Some(answer)
    case Returned(answer) => Some(answer)
    case _ => None
  }

  /** A completed atomic operation: which thread performed it, and what it was told. */
  datatype Operation = Operation(thread: nat, answer: Answer)

  /** The operation that takes effect with an action, if the acting thread decides on its answer by it. */
  function TakesEffect(s: System, a: Action): seq<Operation> {
    if a.thread >= |s.threads| then []
    else
      var before := Decision(s.threads[a.thread], s.provider.clients);
      var s' := Next(s, a);
      var after := Decision(s'.threads[a.thread], s'.provider.clients);
      if before.None? && after.Some? then [Operation(a.thread, after.value)] else []
  }

  function History(s: System, actions: seq<Action>): seq<Operation>
    decreases |actions|
  {
    if actions == [] then [] else TakesEffect(s, actions[0]) + History(Next(s, actions[0]), actions[1..])
  }

  /** Executing the operations one after the other on the memo table turns `table` into `table'`. */
  ghost predicate Sequential(s: System, table: map<string, Client>, operations: seq<Operation>,
                             table': map<string, Client>)
    decreases |operations|
  {
    if operations == [] then table' == table
    else
      var op := operations[0];
      exists middle: map<string, Client> ::
        && op.thread < |s.threads|
        && AtomicGet(s.provider.supported, table, s.threads[op.thread], op.answer, middle)
        && Sequential(s, middle, operations[1..], table')
  }

  /** The threads of a system keep their requests, and the provider its list of services. */
  ghost predicate SameCalls(s: System, s': System) {
    && |s.threads| == |s'.threads| && s.provider.supported == s'.provider.supported
    && forall i | 0 <= i < |s.threads| ::
      s.threads[i].request == s'.threads[i].request && s.threads[i].key == s'.threads[i].key
  }

  /** An unsupported call never looks at the shared state. */
  predicate Checked(t: Thread, supported: set<string>) {
    t.pc.CheckSupported? || t.pc == Returned(Err(Unsupported)) || t.request.service in supported
  }

  ghost predicate OnlySupported(s: System) {
    forall i | 0 <= i < |s.threads| :: Checked(s.threads[i], s.provider.supported)
  }

  /** A step is either invisible or exactly one atomic operation, and the caller's answer stays decided. */
  lemma StepRefines(id: nat, t: Thread, p: Provider, outcome: Outcome)
    requires ThreadInvariant(id, t, p) && Checked(t, p.supported)
    ensures var (t', p') := Step(id, t, p, outcome);
      var before, after := Decision(t, p.clients), Decision(t', p'.clients);
      && t'.request == t.request && t'.key == t.key && p'.supported == p.supported && Checked(t', p.supported)
      && (before.Some? ==> after == before)
      && if before.None? && after.Some? then AtomicGet(p.supported, p.clients, t, after.value, p'.clients)
         else p'.clients == p.clients
  {
  }

  /** What one thread does neither takes back nor makes the decision of another. */
  lemma StepLeavesOthers(id: nat, t: Thread, p: Provider, outcome: Outcome, j: nat, u: Thread)
    requires ThreadInvariant(id, t, p) && ThreadInvariant(j, u, p) && id != j
    ensures Decision(u, Step(id, t, p, outcome).1.clients) == Decision(u, p.clients)
  {
  }

  /** Every action either is invisible or is exactly one atomic operation, and only its thread decides. */
  lemma ActionRefinesMemoTable(s: System, a: Action)
    requires Invariant(s) && OnlySupported(s)
    ensures SameCalls(s, Next(s, a)) && OnlySupported(Next(s, a))
    ensures var clients, clients' := s.provider.clients, Next(s, a).provider.clients;
      if TakesEffect(s, a) == [] then clients' == clients
      else AtomicGet(s.provider.supported, clients, s.threads[a.thread], TakesEffect(s, a)[0].answer, clients')
    ensures forall i | 0 <= i < |s.threads| ::
      var before := Decision(s.threads[i], s.provider.clients);
      before.Some? || i != a.thread ==> Decision(Next(s, a).threads[i], Next(s, a).provider.clients) == before
  {
    if a.thread < |s.threads| {
      var id, t, p := a.thread, s.threads[a.thread], s.provider;
      assert ThreadInvariant(id, t, p) && Checked(t, p.supported);
      StepRefines(id, t, p, a.outcome);
      forall i | 0 <= i < |s.threads| && i != id
        ensures Decision(s.threads[i], Step(id, t, p, a.outcome).1.clients) == Decision(s.threads[i], p.clients)
      {
        StepLeavesOthers(id, t, p, a.outcome, i, s.threads[i]);
      }
    }
  }

  lemma {:induction false} SequentialOfSameCalls(s: System, s': System, table: map<string, Client>,
                                                 operations: seq<Operation>, table': map<string, Client>)
    requires SameCalls(s, s') && Sequential(s', table, operations, table')
    ensures Sequential(s, table, operations, table')
    decreases |operations|
  {
    if operations != [] {
      var op := operations[0];
      var middle: map<string, Client> :|
        && op.thread < |s.threads|
        && AtomicGet(s.provider.supported, table, s'.threads[op.thread], op.answer, middle)
        && Sequential(s', middle, operations[1..], table');
      SequentialOfSameCalls(s, s', middle, operations[1..], table');
    }
  }

  /** The operations of one thread in a history. */
  function OperationsOf(operations: seq<Operation>, i: nat): seq<Operation> {
    if operations == [] then []
    else (if operations[0].thread == i then [operations[0]] else []) + OperationsOf(operations[1..], i)
  }

  lemma {:induction false} RunRefines(s: System, actions: seq<Action>)
    requires Invariant(s) && OnlySupported(s)
    ensures SameCalls(s, Run(s, actions)) && OnlySupported(Run(s, actions))
    ensures Sequential(s, s.provider.clients, History(s, actions), Run(s, actions).provider.clients)
    decreases |actions|
  {
    if actions != [] {
      var a, s' := actions[0], Next(s, actions[0]);
      NextKeepsInvariant(s, a);
      ActionRefinesMemoTable(s, a);
      RunRefines(s', actions[1..]);
      var rest, final := History(s', actions[1..]), Run(s, actions).provider.clients;
      SequentialOfSameCalls(s, s', s'.provider.clients, rest, final);
      var op := TakesEffect(s, a);
      if op == [] {
        assert op + rest == rest;
      } else {
        assert (op + rest)[0] == op[0] && (op + rest)[1..] == rest;
      }
    }
  }

  lemma {:induction false} OneOperationPerCall(s: System, actions: seq<Action>, i: nat)
    requires Invariant(s) && OnlySupported(s) && i < |s.threads|
    ensures var before := Decision(s.threads[i], s.provider.clients);
      var after := Decision(Run(s, actions).threads[i], Run(s, actions).provider.clients);
      && (before.Some? ==> after == before)
      && OperationsOf(History(s, actions), i)
         == if before.None? && after.Some? then [Operation(i, after.value)] else []
    decreases |actions|
  {
    if actions != [] {
      var a, s' := actions[0], Next(s, actions[0]);
      NextKeepsInvariant(s, a);
      ActionRefinesMemoTable(s, a);
      OneOperationPerCall(s', actions[1..], i);
      var op, rest := TakesEffect(s, a), History(s', actions[1..]);
      if op == [] {
        assert op + rest == rest;
      } else {
        assert (op + rest)[0] == op[0] && (op + rest)[1..] == rest;
      }
    }
  }

  /**
   In every run of any number of calls, the atomic operations, each taking effect during its call,
   lead from the empty table to the provider's dictionary.
   */
  lemma DictionaryIsMemoTable(s: System, actions: seq<Action>)
    requires Initial(s)
    ensures Sequential(s, map[], History(s, actions), Run(s, actions).provider.clients)
  {
    InitialInvariant(s);
    RunRefines(s, actions);
    assert s.provider.clients == map[];
  }

  /** In every run, every returned call performed exactly one of these operations, and returned its answer. */
  lemma ReturnedCallsAreOperations(s: System, actions: seq<Action>, i: nat)
    requires Initial(s) && i < |s.threads|
    requires Run(s, actions).threads[i].pc.Returned?
    ensures OperationsOf(History(s, actions), i) == [Operation(i, Run(s, actions).threads[i].pc.answer)]
  {
    InitialInvariant(s);
    var d := Run(s, actions);
    assert Decision(s.threads[i], s.provider.clients) == None;
    assert Decision(d.threads[i], d.provider.clients) == Some(d.threads[i].pc.answer);
    OneOperationPerCall(s, actions, i);
  }

  // ----- Consequences for callers -----

  /** In every run, each key is built successfully at most once, and what is stored was built for its key. */
  lemma EachKeyBuiltOnce(s: System, actions: seq<Action>)
    requires Initial(s)
    ensures var p := Run(s, actions).provider;
      && (forall i, j | 0 <= i < j < |p.built| :: p.built[i].key != p.built[j].key)
      && forall k | k in p.clients :: Build(k, p.clients[k]) in p.built
  {
    InitialInvariant(s);
    RunKeepsInvariant(s, actions);
  }

  lemma StepKeepsStored(id: nat, t: Thread, p: Provider, outcome: Outcome, key: string)
    requires ThreadInvariant(id, t, p) && key in p.clients
    ensures var (t', p') := Step(id, t, p, outcome); key in p'.clients && p'.clients[key] == p.clients[key]
  {
  }

  /** A stored client is never replaced or dropped, whatever happens later. */
  lemma {:induction false} StoredClientsStay(s: System, actions: seq<Action>, key: string)
    requires Invariant(s) && key in s.provider.clients
    ensures key in Run(s, actions).provider.clients
    ensures Run(s, actions).provider.clients[key] == s.provider.clients[key]
    decreases |actions|
  {
    if actions != [] {
      var a := actions[0];
      NextKeepsInvariant(s, a);
      if a.thread < |s.threads| {
        assert ThreadInvariant(a.thread, s.threads[a.thread], s.provider);
        StepKeepsStored(a.thread, s.threads[a.thread], s.provider, a.outcome, key);
      }
      StoredClientsStay(Next(s, a), actions[1..], key);
    }
  }

  /** The client of a build was built for the supported request of some thread, under that request's key. */
  ghost predicate BuiltForSomeone(b: Build, s: System) {
    exists i :: 0 <= i < |s.threads| && BuiltFor(b, s.threads[i], s.provider.supported)
  }

  predicate BuiltFor(b: Build, t: Thread, supported: set<string>) {
    t.key == b.key && Serves(b.client, t.request) && t.request.service in supported
  }

  lemma BuiltForSameCalls(b: Build, s: System, s': System)
    requires BuiltForSomeone(b, s) && SameCalls(s', s)
    ensures BuiltForSomeone(b, s')
  {
    var i :| 0 <= i < |s.threads| && BuiltFor(b, s.threads[i], s.provider.supported);
    assert BuiltFor(b, s'.threads[i], s'.provider.supported);
  }

  lemma NextBuildsForThreads(s: System, a: Action)
    requires OnlySupported(s) && forall b | b in s.provider.built :: BuiltForSomeone(b, s)
    ensures SameCalls(s, Next(s, a)) && OnlySupported(Next(s, a))
    ensures forall b | b in Next(s, a).provider.built :: BuiltForSomeone(b, Next(s, a))
  {
    var s' := Next(s, a);
    assert a.thread < |s.threads| ==> Checked(s.threads[a.thread], s.provider.supported);
    forall b | b in s'.provider.built ensures BuiltForSomeone(b, s') {
      if b in s.provider.built {
        BuiltForSameCalls(b, s, s');
      } else {
        assert BuiltFor(b, s'.threads[a.thread], s'.provider.supported);
      }
    }
  }

  lemma {:induction false} RunBuildsForThreads(s: System, actions: seq<Action>)
    requires OnlySupported(s) && forall b | b in s.provider.built :: BuiltForSomeone(b, s)
    ensures SameCalls(s, Run(s, actions)) && OnlySupported(Run(s, actions))
    ensures forall b | b in Run(s, actions).provider.built :: BuiltForSomeone(b, Run(s, actions))
    decreases |actions|
  {
    if actions != [] {
      NextBuildsForThreads(s, actions[0]);
      RunBuildsForThreads(Next(s, actions[0]), actions[1..]);
    }
  }

  /** No two supported requests share a key unless they are for the same service and region. */
  ghost predicate Unambiguous(s: System) {
    forall i, j | 0 <= i < |s.threads| && 0 <= j < |s.threads| && Confused(s.threads[i], s.threads[j]) ::
      !(s.threads[i].request.service in s.provider.supported && s.threads[j].request.service in s.provider.supported)
  }

  predicate Confused(t: Thread, u: Thread) {
    t.request.Key() == u.request.Key() && t.request != u.request
  }

  /** A call that has returned a client has returned one for its own service and region. */
  predicate Served(t: Thread) {
    t.pc.Returned? && t.pc.answer.Ok? ==> Serves(t.pc.answer.value, t.request)
  }

  /** If requests are unambiguous, every caller gets a client built for its own service and region, in every run. */
  lemma UnambiguousCallersAreServed(s: System, actions: seq<Action>, i: nat)
    requires Initial(s) && i < |s.threads| && Unambiguous(s)
    ensures Served(Run(s, actions).threads[i])
  {
    InitialInvariant(s);
    RunKeepsInvariant(s, actions);
    RunBuildsForThreads(s, actions);
    var d := Run(s, actions);
    var t := d.threads[i];
    assert ThreadInvariant(i, t, d.provider) && Checked(t, d.provider.supported);
    if t.pc.Returned? && t.pc.answer.Ok? {
      var b := Build(t.key, t.pc.answer.value);
      assert b in d.provider.built;
      var j :| 0 <= j < |d.threads| && BuiltFor(b, d.threads[j], d.provider.supported);
      assert !Confused(s.threads[j], s.threads[i]);
    }
  }

  /** In particular so when all regions in use are plain. */
  lemma CallersGetTheirOwnClient(s: System, actions: seq<Action>, i: nat)
    requires Initial(s) && i < |s.threads|
    requires forall j | 0 <= j < |s.threads| :: PlainRegion(s.threads[j].request.region)
    ensures var t := Run(s, actions).threads[i];
      t.pc.Returned? && t.pc.answer.Ok? ==> Serves(t.pc.answer.value, s.threads[i].request)
  {
    forall j, k | 0 <= j < |s.threads| && 0 <= k < |s.threads| ensures !Confused(s.threads[j], s.threads[k]) {
      var q, r := s.threads[j].request, s.threads[k].request;
      if q.Key() == r.Key() {
        KeysOfPlainRegionsDiffer(q.service, q.region, r.service, r.region);
      }
    }
    InitialInvariant(s);
    RunBuildsForThreads(s, actions);
    UnambiguousCallersAreServed(s, actions, i);
  }

  // ----- The lock is always given back -----

  function Remaining(pc: Pc): nat {
    match pc
    case CheckSupported => 8
    case FirstLook => 7
    case FirstFetch => 1
    case AwaitLock => 6
    case SecondLook => 5
    case SecondFetch => 2
    case BuildClient => 4
    case Store(_) => 2
    case Release(_) => 1
    case Returned(_) => 0
  }

  /** Every statement of a call brings it nearer to its return, unless it waits for another thread's lock. */
  lemma StepsLeadToReturn(s: System, i: nat, outcome: Outcome)
    requires Invariant(s) && i < |s.threads| && !s.threads[i].pc.Returned?
    ensures var pc, pc' := s.threads[i].pc, Next(s, Action(i, outcome)).threads[i].pc;
      if pc.AwaitLock? && s.provider.lock.Some? then pc' == pc && s.provider.lock != Some(i)
      else Remaining(pc') < Remaining(pc)
  {
    assert ThreadInvariant(i, s.threads[i], s.provider);
  }

  /** A returned call does not hold the lock, and a failed build left the dictionary as it was. */
  lemma FailedBuildLeavesNoTrace(s: System, i: nat)
    requires Invariant(s) && i < |s.threads| && s.threads[i].pc == BuildClient
    ensures var s' := Next(s, Action(i, Raises));
      var s'' := Next(s', Action(i, Raises));
      && s''.threads[i].pc == Returned(Err(BuildFailed))
      && s''.provider == s.provider.(lock := None)
  {
    assert ThreadInvariant(i, s.threads[i], s.provider);
  }

  /** In every run in which all builds raise, nothing is stored, whatever else happens. */
  lemma {:induction false} FailedBuildsLeaveNoTrace(s: System, actions: seq<Action>)
    requires forall i | 0 <= i < |s.threads| :: !s.threads[i].pc.Store?
    requires forall a | a in actions :: a.outcome == Raises
    ensures var p := Run(s, actions).provider; p.clients == s.provider.clients && p.built == s.provider.built
    decreases |actions|
  {
    if actions != [] {
      assert actions[0] in actions;
      FailedBuildsLeaveNoTrace(Next(s, actions[0]), actions[1..]);
    }
  }
}
