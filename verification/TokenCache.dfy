/**
 The token service's cached grant: calls, some of them forcing a renewal, look at the cached grant,
 look again under a lock, and only then request and store a new one.

 The cached grant is read three times per look (is it there, does its token decode, return it),
 and other calls may act between any two reads. Tokens may expire at any moment. Both grant types
 of the service follow this protocol, each with its own field and lock.
 */
module TokenCache {
  import opened Options

  /** An answer of the token endpoint; without a decodable access token it is stored all the same. */
  datatype Grant = Grant(serial: nat, decodable: bool)

  /** What may be raised: by the JWT library, by the token service itself, or by the request. */
  datatype Error =
    | ExpiredSignatureError
    | InvalidTokenError
    | TokenExpired
    | UnauthorizedAccess
    | RequestFailed

  type Answer = Result<Grant, Error>

  /** The next statement of a call. */
  datatype Pc =
    | FirstLook
    | FirstDecode
    | FirstReturn
    | AwaitLock
    | SecondLook
    | SecondDecode
    | SecondReturn
    | Post
    | Store(grant: Grant)
    | Release(answer: Answer)
    | Returned(answer: Answer)

  datatype Thread = Thread(force: bool, pc: Pc)

  /** The cached grant, its lock, the tokens past their expiry, and the requests sent so far. */
  datatype Service = Service(
    grant: Option<Grant>,
    lock: Option<nat>,
    expired: set<nat>,
    failed: nat,          // requests that raised
    forced: nat,          // answered requests of forcing calls
    unforced: nat)        // answered requests of the other calls
  {
    function Requests(): nat {
      failed + forced + unforced
    }

    /** The JWT library: the signature is verified first, the expiry after it. */
    function JwtDecode(g: Grant): Result<(), Error> {
      if !g.decodable then Err(InvalidTokenError)
      else if g.serial in expired then Err(ExpiredSignatureError)
      else Ok(())
    }

    /** Decoding catches what the library raises, and raises an error of the service instead. */
    function DecodeToken(g: Grant): Result<(), Error> {
      match JwtDecode(g)
      case Err(ExpiredSignatureError) => Err(TokenExpired)
      case Err(InvalidTokenError) => Err(UnauthorizedAccess)
      case other => other
    }

    /** The expiry test catches the library's expiry error around decoding. */
    function IsTokenExpired(g: Grant): Result<bool, Error> {
      match DecodeToken(g)
      case Ok(_) => Ok(false)
      case Err(ExpiredSignatureError) => Ok(true)
      case Err(e) => Err(e)
    }
  }

  /**
   The expiry escapes: the test answers false exactly for a usable token, raises for every other one,
   and never answers true.
   */
  lemma ExpiryEscapes(s: Service, g: Grant)
    ensures s.IsTokenExpired(g) == Ok(false) <==> g.decodable && g.serial !in s.expired
    ensures s.IsTokenExpired(g) == Err(TokenExpired) <==> g.decodable && g.serial in s.expired
    ensures s.IsTokenExpired(g) != Ok(true)
  {
  }

  datatype Outcome = Responds(decodable: bool) | Raises

  /** One step of call `id`. A step that cannot be taken leaves everything as it is. */
  function Step(id: nat, t: Thread, s: Service, outcome: Outcome): (Thread, Service)
  {
    match t.pc
    case FirstLook => (t.(pc := if t.force || s.grant.None? then AwaitLock else FirstDecode), s)
    case FirstDecode =>
      if s.grant.None? then (t, s)
      else
        (t.(pc := match s.IsTokenExpired(s.grant.value)
                  case Ok(expired) => if expired then AwaitLock else FirstReturn
                  case Err(e) => Returned(Err(e))), s)
    case FirstReturn => if s.grant.None? then (t, s) else (t.(pc := Returned(Ok(s.grant.value))), s)
    case AwaitLock => if s.lock.None? then (t.(pc := SecondLook), s.(lock := Some(id))) else (t, s)
    case SecondLook => (t.(pc := if t.force || s.grant.None? then Post else SecondDecode), s)
    case SecondDecode =>
      if s.grant.None? then (t, s)
      else
        (t.(pc := match s.IsTokenExpired(s.grant.value)
                  case Ok(expired) => if expired then Post else SecondReturn
                  case Err(e) => Release(Err(e))), s)
    case SecondReturn => if s.grant.None? then (t, s) else (t.(pc := Release(Ok(s.grant.value))), s)
    case Post =>
      if outcome.Raises? then (t.(pc := Release(Err(RequestFailed))), s.(failed := s.failed + 1))
      else
        var g := Grant(s.Requests(), outcome.decodable);
        (t.(pc := Store(g)), if t.force then s.(forced := s.forced + 1) else s.(unforced := s.unforced + 1))
    case Store(g) => (t.(pc := Release(Ok(g))), s.(grant := Some(g)))
    case Release(answer) => (t.(pc := Returned(answer)), s.(lock := None))
    case Returned(_) => (t, s)
  }

  datatype System = System(service: Service, threads: seq<Thread>)

  datatype Action =
    | Advance(thread: nat, outcome: Outcome)
    | Expire(serial: nat)

  function Next(s: System, a: Action): (r: System)
    ensures |r.threads| == |s.threads|
  {
    match a
    case Expire(serial) => s.(service := s.service.(expired := s.service.expired + {serial}))
    case Advance(i, outcome) =>
      if i >= |s.threads| then s
      else
        var (t, service) := Step(i, s.threads[i], s.service, outcome);
        System(service, s.threads[i := t])
  }

  function Run(s: System, actions: seq<Action>): (r: System)
    ensures |r.threads| == |s.threads|
    decreases |actions|
  {
    if actions == [] then s else Run(Next(s, actions[0]), actions[1..])
  }

  ghost predicate Initial(s: System) {
    && s.service == Service(None, None, {}, 0, 0, 0)
    && forall i | 0 <= i < |s.threads| :: s.threads[i].pc == FirstLook
  }

  // ----- What every step keeps -----

  predicate Locked(pc: Pc) {
    pc.SecondLook? || pc.SecondDecode? || pc.SecondReturn? || pc.Post? || pc.Store? || pc.Release?
  }

  predicate Reading(pc: Pc) {
    pc.FirstDecode? || pc.FirstReturn? || pc.SecondDecode? || pc.SecondReturn?
  }

  predicate ThreadInvariant(id: nat, t: Thread, s: Service) {
    && (Locked(t.pc) <==> s.lock == Some(id))
    && (Reading(t.pc) ==> !t.force && s.grant.Some?)
    && (t.pc.Post? && !t.force ==> s.grant.None?)
    && (t.pc.Store? && !t.force ==> s.grant.None? && s.unforced == 1)
    && (t.pc.Post? && s.grant.None? ==> s.unforced == 0)
    && (s.unforced == 1 && s.grant.None? ==> s.lock.Some? && (s.lock == Some(id) ==> t.pc.Store?))
    && (t.pc.Store? ==> t.pc.grant.serial < s.Requests()
                        && (s.grant.Some? ==> s.grant.value.serial < t.pc.grant.serial))
  }

  /** Grants are numbered by the requests sent before them. */
  predicate ServiceInvariant(s: Service) {
    s.unforced <= 1 && (s.grant.Some? ==> s.grant.value.serial < s.Requests())
  }

  ghost predicate Invariant(s: System) {
    && ServiceInvariant(s.service)
    && (s.service.lock.Some? ==> s.service.lock.value < |s.threads|)
    && forall i | 0 <= i < |s.threads| :: ThreadInvariant(i, s.threads[i], s.service)
  }

  lemma StepKeepsInvariant(id: nat, t: Thread, s: Service, outcome: Outcome, j: nat, u: Thread)
    requires ThreadInvariant(id, t, s) && ThreadInvariant(j, u, s) && ServiceInvariant(s)
    ensures var (t', s') := Step(id, t, s, outcome);
      && ServiceInvariant(s')
      && ThreadInvariant(id, t', s')
      && (id != j ==> ThreadInvariant(j, u, s'))
  {
  }

  lemma NextKeepsInvariant(s: System, a: Action)
    requires Invariant(s)
    ensures Invariant(Next(s, a))
  {
    if a.Advance? && a.thread < |s.threads| {
      var s' := Next(s, a);
      StepKeepsInvariant(a.thread, s.threads[a.thread], s.service, a.outcome, a.thread, s.threads[a.thread]);
      forall j | 0 <= j < |s.threads| ensures ThreadInvariant(j, s'.threads[j], s'.service) {
        StepKeepsInvariant(a.thread, s.threads[a.thread], s.service, a.outcome, j, s.threads[j]);
      }
    }
  }

  lemma {:induction false} RunKeepsInvariant(s: System, actions: seq<Action>)
    requires Invariant(s)
    ensures Invariant(Run(s, actions))
    decreases |actions|
  {
    if actions != [] {
      NextKeepsInvariant(s, actions[0]);
      RunKeepsInvariant(Next(s, actions[0]), actions[1..]);
    }
  }

  // ----- How many requests are sent -----

  predicate MayPost(pc: Pc) {
    pc.FirstLook? || pc.AwaitLock? || pc.SecondLook? || pc.Post?
  }

  /** The number of forcing calls that may still send a request. */
  function PendingForced(threads: seq<Thread>): nat {
    if threads == [] then 0
    else PendingForced(threads[1..]) + if threads[0].force && MayPost(threads[0].pc) then 1 else 0
  }

  /** The number of forcing calls. */
  function ForcedCalls(threads: seq<Thread>): nat {
    if threads == [] then 0
    else ForcedCalls(threads[1..]) + if threads[0].force then 1 else 0
  }

  lemma {:induction false} PendingAfterUpdate(threads: seq<Thread>, i: nat, t: Thread)
    requires i < |threads|
    ensures PendingForced(threads[i := t]) + (if threads[i].force && MayPost(threads[i].pc) then 1 else 0)
         == PendingForced(threads) + if t.force && MayPost(t.pc) then 1 else 0
  {
    if i > 0 {
      PendingAfterUpdate(threads[1..], i - 1, t);
      assert threads[i := t][1..] == threads[1..][i - 1 := t];
    } else {
      assert threads[i := t][1..] == threads[1..];
    }
  }

  lemma {:induction false} PendingAtMostForced(threads: seq<Thread>)
    ensures PendingForced(threads) <= ForcedCalls(threads)
  {
    if threads != [] {
      PendingAtMostForced(threads[1..]);
    }
  }

  lemma {:induction false} ForcedRequestsBounded(s: System, actions: seq<Action>)
    ensures Run(s, actions).service.forced <= s.service.forced + PendingForced(s.threads)
    decreases |actions|
  {
    if actions != [] {
      var a, s' := actions[0], Next(s, actions[0]);
      if a.Advance? && a.thread < |s.threads| {
        PendingAfterUpdate(s.threads, a.thread, s'.threads[a.thread]);
      }
      ForcedRequestsBounded(s', actions[1..]);
    }
  }

  /**
   In every run of any number of calls, with tokens expiring or undecodable at will, the requests
   number at most the forcing calls plus the failed requests plus one.
   */
  lemma RequestsAreBounded(s: System, actions: seq<Action>)
    requires Initial(s)
    ensures var service := Run(s, actions).service;
      service.Requests() <= ForcedCalls(s.threads) + service.failed + 1
  {
    RunKeepsInvariant(s, actions);
    ForcedRequestsBounded(s, actions);
    PendingAtMostForced(s.threads);
  }

  // ----- What callers get -----

  predicate Answers(pc: Pc, g: Grant) {
    pc == Release(Ok(g)) || pc == Returned(Ok(g))
  }

  predicate InCall(pc: Pc) {
    pc != FirstLook && !pc.Returned?
  }

  lemma AnswerIsCached(s: System, a: Action, i: nat, g: Grant)
    requires i < |s.threads| && !Answers(s.threads[i].pc, g) && Answers(Next(s, a).threads[i].pc, g)
    ensures InCall(s.threads[i].pc)
    ensures s.service.grant == Some(g)
         || (Next(s, a).service.grant == Some(g) && InCall(Next(s, a).threads[i].pc))
  {
  }

  lemma {:induction false} AnswersStay(s: System, actions: seq<Action>, i: nat, g: Grant)
    requires i < |s.threads| && (s.threads[i].pc.Release? || s.threads[i].pc.Returned?)
    ensures Answers(Run(s, actions).threads[i].pc, g) ==> Answers(s.threads[i].pc, g)
    decreases |actions|
  {
    if actions != [] {
      AnswersStay(Next(s, actions[0]), actions[1..], i, g);
    }
  }

  /** Every grant a call returns, forcing or not, was the cached one at some moment during the call. */
  lemma {:induction false} ReturnedGrantWasCached(s: System, actions: seq<Action>, i: nat, g: Grant) returns (k: nat)
    requires i < |s.threads| && !Answers(s.threads[i].pc, g) && Answers(Run(s, actions).threads[i].pc, g)
    ensures k <= |actions|
    ensures var moment := Run(s, actions[..k]); moment.service.grant == Some(g) && InCall(moment.threads[i].pc)
    decreases |actions|
  {
    var a, s' := actions[0], Next(s, actions[0]);
    if Answers(s'.threads[i].pc, g) {
      AnswerIsCached(s, a, i, g);
      if s.service.grant == Some(g) {
        k := 0;
      } else {
        k := 1;
        assert actions[..1] == [a];
        assert Run(s, [a]) == Run(s', []);
      }
    } else {
      var rest := ReturnedGrantWasCached(s', actions[1..], i, g);
      k := rest + 1;
      assert actions[..k][1..] == actions[1..][..rest];
      assert Run(s, actions[..k]) == Run(s', actions[1..][..rest]);
    }
  }

  // ----- Expiry -----

  predicate Unusable(service: Service) {
    service.grant.Some? && service.DecodeToken(service.grant.value).Err?
  }

  /** The call has seen, or is going to see, the cached grant only to decode it. */
  predicate WillDecode(pc: Pc) {
    pc.FirstLook? || pc.FirstDecode? || pc.AwaitLock? || pc.SecondLook? || pc.SecondDecode?
    || (pc.Release? && pc.answer.Err?) || (pc.Returned? && pc.answer.Err?)
  }

  /** The call forces a renewal and has not stored its answer. */
  predicate MayRenew(t: Thread) {
    t.force && (MayPost(t.pc) || t.pc.Store?)
  }

  lemma GrantStaysOnce(s: System, a: Action)
    requires Invariant(s) && s.service.grant.Some?
    requires forall j | 0 <= j < |s.threads| :: !MayRenew(s.threads[j])
    ensures var s' := Next(s, a);
      && s'.service.grant == s.service.grant && s'.service.Requests() == s.service.Requests()
      && forall j | 0 <= j < |s'.threads| :: !MayRenew(s'.threads[j])
  {
    if a.Advance? && a.thread < |s.threads| {
      assert ThreadInvariant(a.thread, s.threads[a.thread], s.service);
    }
  }

  /** A cached grant, usable or not, stays when no forcing call is still to store its answer, and no request is sent. */
  lemma {:induction false} GrantStays(s: System, actions: seq<Action>)
    requires Invariant(s) && s.service.grant.Some?
    requires forall j | 0 <= j < |s.threads| :: !MayRenew(s.threads[j])
    ensures Run(s, actions).service.grant == s.service.grant
    ensures Run(s, actions).service.Requests() == s.service.Requests()
    decreases |actions|
  {
    if actions != [] {
      NextKeepsInvariant(s, actions[0]);
      GrantStaysOnce(s, actions[0]);
      GrantStays(Next(s, actions[0]), actions[1..]);
    }
  }

  /**
   A cached grant whose token has expired or does not decode is not renewed unless a forcing call is
   still to do so: until one comes, no request is sent, the grant stays, and calls can only fail.
   */
  lemma {:induction false} UnusableGrantStays(s: System, actions: seq<Action>, i: nat)
    requires Invariant(s) && Unusable(s.service)
    requires forall j | 0 <= j < |s.threads| :: !MayRenew(s.threads[j])
    requires i < |s.threads| && WillDecode(s.threads[i].pc)
    ensures var d := Run(s, actions);
      && d.service.grant == s.service.grant && d.service.Requests() == s.service.Requests()
      && WillDecode(d.threads[i].pc)
      && (d.threads[i].pc.Returned? ==> d.threads[i].pc.answer.Err?)
    decreases |actions|
  {
    if actions != [] {
      var a, s' := actions[0], Next(s, actions[0]);
      NextKeepsInvariant(s, a);
      GrantStaysOnce(s, a);
      if a.Advance? && a.thread < |s.threads| {
        assert ThreadInvariant(a.thread, s.threads[a.thread], s.service);
      }
      UnusableGrantStays(s', actions[1..], i);
    }
  }

  // ----- A usable grant -----

  predicate Usable(service: Service) {
    service.grant.Some? && service.grant.value.decodable && service.grant.value.serial !in service.expired
  }

  /** The call looks at the cached grant, on its first or second look, or answers with it. */
  predicate WillAnswer(pc: Pc, g: Grant) {
    pc.FirstLook? || pc.FirstDecode? || pc.FirstReturn? || pc.AwaitLock? || pc.SecondLook? || pc.SecondDecode?
    || pc.SecondReturn? || Answers(pc, g)
  }

  /**
   While the cached grant does not expire and no forcing call is still to replace it, no request is
   sent and every call that does not force a renewal, and returns, returns the cached grant.
   */
  lemma {:induction false} UsableGrantIsReturned(s: System, actions: seq<Action>, i: nat, g: Grant)
    requires Invariant(s) && Usable(s.service) && s.service.grant == Some(g)
    requires forall j | 0 <= j < |s.threads| :: !MayRenew(s.threads[j])
    requires forall a | a in actions :: a != Expire(g.serial)
    requires i < |s.threads| && !s.threads[i].force && WillAnswer(s.threads[i].pc, g)
    ensures var d := Run(s, actions);
      && d.service.grant == Some(g) && d.service.Requests() == s.service.Requests()
      && WillAnswer(d.threads[i].pc, g)
      && (d.threads[i].pc.Returned? ==> d.threads[i].pc.answer == Ok(g))
    decreases |actions|
  {
    if actions != [] {
      var a, s' := actions[0], Next(s, actions[0]);
      assert a in actions && forall b | b in actions[1..] :: b in actions;
      NextKeepsInvariant(s, a);
      GrantStaysOnce(s, a);
      ExpiryEscapes(s.service, g);
      if a.Advance? && a.thread < |s.threads| {
        assert ThreadInvariant(a.thread, s.threads[a.thread], s.service);
      }
      UsableGrantIsReturned(s', actions[1..], i, g);
    }
  }
}
