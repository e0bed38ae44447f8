/**
 Loops over cloud pages and batches: listing EC2 instances, as a list or through a callback,
 listing the instances of a spot fleet up to a limit, and detaching instances in batches.
 */
module CloudPages {
  import opened Lists
  import opened Options

  /** A response: its items, if it carries any, and the token of the next page, unless it is the last. */
  datatype Page<T> = Page(items: Option<seq<T>>, nextToken: Option<string>)

  /** The token that requests page `n`. */
  function TokenOf<T>(pages: seq<Page<T>>, n: nat): Option<string>
    requires n < |pages|
  {
    if n == 0 then None else pages[n - 1].nextToken
  }

  /** A finite chain: non-empty tokens, not yet taken, lead from each page to the next, and none from the last. */
  ghost predicate Chain<T>(pages: seq<Page<T>>, taken: set<string>) {
    && pages != []
    && match pages[0].nextToken
       case None => |pages| == 1
       case Some(token) => token != "" && token !in taken && Chain(pages[1..], taken + {token})
  }

  /** The page whose token is `n`'s is page `n - 1` alone, and only the last page has no token. */
  lemma {:induction false} ChainTokens<T>(pages: seq<Page<T>>, taken: set<string>, m: nat, n: nat)
    requires Chain(pages, taken) && m <= n < |pages|
    ensures pages[n].nextToken.Some? <==> n + 1 < |pages|
    ensures pages[n].nextToken.Some? ==> pages[n].nextToken.value != "" && pages[n].nextToken.value !in taken
    ensures m < n ==> pages[m].nextToken != pages[n].nextToken
  {
    if 0 < n {
      ChainTokens(pages[1..], taken + {pages[0].nextToken.value}, if m == 0 then 0 else m - 1, n - 1);
    }
  }

  /** The requests for the first `n` pages, each once and in order. */
  function RequestsFor<T>(pages: seq<Page<T>>, n: nat): seq<Option<string>>
    requires n <= |pages|
  {
    if n == 0 then [] else RequestsFor(pages, n - 1) + [TokenOf(pages, n - 1)]
  }

  /** The first request carries no token, every later one the token of the page before. */
  lemma {:induction false} RequestAt<T>(pages: seq<Page<T>>, n: nat, k: nat)
    requires k < n <= |pages|
    ensures |RequestsFor(pages, n)| == n
    ensures RequestsFor(pages, n)[k] == if k == 0 then None else pages[k - 1].nextToken
  {
    if n == 1 {
      assert RequestsFor(pages, 0) == [];
    } else {
      RequestAt(pages, n - 1, if k < n - 1 then k else 0);
    }
  }

  /** An API that answers a token with the page it belongs to, and keeps a log of what it was asked. */
  class PagedApi<T> {
    const pages: seq<Page<T>>
    var requests: seq<Option<string>>

    constructor (pages: seq<Page<T>>)
      ensures this.pages == pages && requests == []
    {
      this.pages := pages;
      requests := [];
    }

    method Request(token: Option<string>, ghost n: nat) returns (page: Page<T>)
      requires Chain(pages, {}) && n < |pages| && token == TokenOf(pages, n)
      modifies this
      ensures page == pages[n]
      ensures requests == old(requests) + [token]
    {
      requests := requests + [token];
      if n > 0 {
        ChainTokens(pages, {}, 0, n - 1);
      }
      if token.None? {
        return pages[0];
      }
      var k := 0;
      while pages[k].nextToken != token
        invariant 0 <= k < n
        decreases n - k
      {
        k := k + 1;
      }
      ChainTokens(pages, {}, k, n - 1);
      page := pages[k + 1];
    }

    /** One turn of the paging loops: requests page `n`, and says whether and with which token to go on. */
    method NextPage(nextToken: Option<string>, ghost before: seq<Option<string>>, ghost n: nat)
      returns (page: Page<T>, more: bool, following: Option<string>)
      requires Chain(pages, {}) && n < |pages| && nextToken == TokenOf(pages, n)
      requires requests == before + RequestsFor(pages, n)
      modifies this
      ensures page == pages[n]
      ensures requests == before + RequestsFor(pages, n + 1)
      ensures more == (n + 1 < |pages|) && (more ==> following == TokenOf(pages, n + 1))
    {
      ChainTokens(pages, {}, 0, n);
      if n > 0 {
        ChainTokens(pages, {}, 0, n - 1);
      }
      page := Request(if nextToken.Some? && nextToken.value != "" then nextToken else None, n);
      following := nextToken;
      more := true;
      if page.nextToken.Some? {
        following := page.nextToken;
      } else {
        more := false;
      }
    }
  }

  /** The number of pages before the first one without items. */
  function Filled<T>(pages: seq<Page<T>>): (n: nat)
    ensures n <= |pages| && (n < |pages| ==> pages[n].items.None?)
    ensures forall i | 0 <= i < n :: pages[i].items.Some?
  {
    if pages == [] || pages[0].items.None? then 0 else 1 + Filled(pages[1..])
  }

  lemma FilledBeyond<T>(pages: seq<Page<T>>, n: nat)
    requires n <= Filled(pages) && n < |pages|
    ensures if pages[n].items.Some? then n + 1 <= Filled(pages) else n == Filled(pages)
  {
  }

  // ----- Instances -----

  datatype Reservation = Reservation(
    ownerId: Option<string>, requesterId: Option<string>, reservationId: Option<string>, instances: Option<seq<string>>)

  /** An instance with the fields of its reservation attached. */
  datatype Instance = Instance(
    instanceId: string, ownerId: Option<string>, requesterId: Option<string>, reservationId: Option<string>)

  function InstanceIn(r: Reservation, instanceId: string): Instance {
    Instance(instanceId, r.ownerId, r.requesterId, r.reservationId)
  }

  function InstancesOf(r: Reservation): seq<Instance> {
    if r.instances.None? then []
    else seq(|r.instances.value|, i requires 0 <= i < |r.instances.value| => InstanceIn(r, r.instances.value[i]))
  }

  function InstancesOfAll(rs: seq<Reservation>): seq<Instance> {
    if rs == [] then [] else InstancesOfAll(rs[..|rs| - 1]) + InstancesOf(rs[|rs| - 1])
  }

  /** Every instance is listed once, in order, with the fields of its own reservation. */
  lemma {:induction false} InstanceAt(rs: seq<Reservation>, k: nat, i: nat)
    requires k < |rs| && rs[k].instances.Some? && i < |rs[k].instances.value|
    ensures var all, n := InstancesOfAll(rs), |InstancesOfAll(rs[..k])| + i;
      && n < |all| && all[n].instanceId == rs[k].instances.value[i]
      && all[n].ownerId == rs[k].ownerId
      && all[n].requesterId == rs[k].requesterId
      && all[n].reservationId == rs[k].reservationId
  {
    var before := rs[..|rs| - 1];
    if k < |before| {
      InstanceAt(before, k, i);
      assert before[..k] == rs[..k];
    }
  }

  function SizeOf(r: Reservation): nat {
    if r.instances.None? then 0 else |r.instances.value|
  }

  lemma {:induction false} NoOtherInstances(rs: seq<Reservation>)
    ensures |InstancesOfAll(rs)| == Sum(seq(|rs|, k requires 0 <= k < |rs| => SizeOf(rs[k])))
  {
    var sizes := seq(|rs|, k requires 0 <= k < |rs| => SizeOf(rs[k]));
    if rs != [] {
      var before := rs[..|rs| - 1];
      NoOtherInstances(before);
      assert sizes[..|rs| - 1] == seq(|before|, k requires 0 <= k < |before| => SizeOf(before[k]));
    }
  }

  /** What the first `n` pages deliver, page by page. */
  function Deliveries(pages: seq<Page<Reservation>>, n: nat): seq<seq<Instance>>
    requires n <= Filled(pages)
  {
    if n == 0 then [] else Deliveries(pages, n - 1) + [InstancesOfAll(pages[n - 1].items.value)]
  }

  /** Each page is delivered once, in its place. */
  lemma {:induction false} DeliveryAt(pages: seq<Page<Reservation>>, n: nat, k: nat)
    requires k < n <= Filled(pages)
    ensures |Deliveries(pages, n)| == n && Deliveries(pages, n)[k] == InstancesOfAll(pages[k].items.value)
  {
    if n == 1 {
      assert Deliveries(pages, 0) == [];
    } else {
      DeliveryAt(pages, n - 1, if k < n - 1 then k else 0);
    }
  }

  lemma ConcatOfNextDelivery(delivered: seq<seq<Instance>>, next: seq<Instance>)
    ensures Concat(delivered + [next]) == Concat(delivered) + next
  {
    assert (delivered + [next])[..|delivered|] == delivered;
  }

  /** A paging callback that records what it is called with. */
  class PagingCallback {
    var received: seq<seq<Instance>>

    constructor ()
      ensures received == []
    {
      received := [];
    }

    method Call(instances: seq<Instance>, ghost before: seq<seq<Instance>>, ghost delivered: seq<seq<Instance>>)
      requires received == before + delivered
      modifies this
      ensures received == before + (delivered + [instances])
    {
      received := received + [instances];
    }
  }

  method CollectInstances(reservations: seq<Reservation>) returns (instances: seq<Instance>)
    ensures instances == InstancesOfAll(reservations)
  {
    instances := [];
    for k := 0 to |reservations|
      invariant instances == InstancesOfAll(reservations[..k])
    {
      assert reservations[..k + 1][..k] == reservations[..k];
      var r := reservations[k];
      if r.instances.Some? {
        var ids := r.instances.value;
        for i := 0 to |ids|
          invariant instances == InstancesOfAll(reservations[..k]) + InstancesOf(r)[..i]
        {
          instances := instances + [InstanceIn(r, ids[i])];
        }
        assert InstancesOf(r)[..|ids|] == InstancesOf(r);
      }
    }
    assert reservations[..|reservations|] == reservations;
  }

  /**
   Requests every page once, in order, until the first without reservations or the last, and
   delivers the instances of all pages before it: to the callback page by page, or as one list.
   */
  method DescribeInstances(ec2: PagedApi<Reservation>, callback: PagingCallback?)
    returns (result: Option<seq<Instance>>)
    requires Chain(ec2.pages, {})
    modifies ec2, callback
    ensures var n, all := Filled(ec2.pages), |ec2.pages|;
      && ec2.requests == old(ec2.requests) + RequestsFor(ec2.pages, if n < all then n + 1 else all)
      && (callback == null ==> result == Some(Concat(Deliveries(ec2.pages, n))))
      && (callback != null ==> result == None && callback.received == old(callback.received) + Deliveries(ec2.pages, n))
  {
    ghost var pages := ec2.pages;
    var token, nextToken: Option<string> := true, None;
    result := if callback == null then Some([]) else None;
    ghost var n, delivered := 0, [];
    while token
      invariant n <= Filled(pages)
      invariant ec2.requests == old(ec2.requests) + RequestsFor(pages, n)
      invariant token ==> n < |pages| && nextToken == TokenOf(pages, n)
      invariant !token ==> n == |pages|
      invariant delivered == Deliveries(pages, n)
      invariant callback == null ==> result == Some(Concat(delivered))
      invariant callback != null ==> result == None && callback.received == old(callback.received) + delivered
      decreases |pages| - n, token
    {
      var page;
      page, token, nextToken := ec2.NextPage(nextToken, old(ec2.requests), n);
      FilledBeyond(pages, n);
      if page.items.None? {
        break;
      }
      var instances := CollectInstances(page.items.value);
      ConcatOfNextDelivery(delivered, instances);
      if callback == null {
        result := Some(result.value + instances);
      } else {
        callback.Call(instances, old(callback.received), delivered);
      }
      delivered := delivered + [instances];
      n := n + 1;
    }
  }

  // ----- Spot fleet instances -----

  function Listed(pages: seq<Page<string>>, n: nat): seq<string>
    requires n <= |pages| && forall i | 0 <= i < n :: pages[i].items.Some?
  {
    if n == 0 then [] else Listed(pages, n - 1) + pages[n - 1].items.value
  }

  lemma {:induction false} ListedIsConcatenation(pages: seq<Page<string>>, n: nat)
    requires n <= |pages| && forall i | 0 <= i < n :: pages[i].items.Some?
    ensures Listed(pages, n) == Concat(seq(n, i requires 0 <= i < n => pages[i].items.value))
  {
    var lists := seq(n, i requires 0 <= i < n => pages[i].items.value);
    if n > 0 {
      ListedIsConcatenation(pages, n - 1);
      assert lists[..n - 1] == seq(n - 1, i requires 0 <= i < n - 1 => pages[i].items.value);
    }
  }

  /**
   The listing ends after `n` pages: they all have items, no shorter non-empty prefix reaches the
   limit, and either they reach it, or there is no further page, or the next one has no items.
   */
  ghost predicate EndsAfter(pages: seq<Page<string>>, maxResults: int, n: nat) {
    && n <= |pages|
    && (forall i | 0 <= i < n :: pages[i].items.Some?)
    && (forall k | 0 < k < n :: |Listed(pages, k)| < maxResults)
    && (n == |pages| || pages[n].items.None? || (n > 0 && |Listed(pages, n)| >= maxResults))
  }

  /** These conditions determine the number of pages. */
  lemma EndIsUnique(pages: seq<Page<string>>, maxResults: int, m: nat, n: nat)
    requires EndsAfter(pages, maxResults, m) && EndsAfter(pages, maxResults, n)
    ensures m == n
  {
  }

  /** The number of pages requested by a listing of `n` pages: a page without items is seen too. */
  ghost function PagesSeen(pages: seq<Page<string>>, maxResults: int, n: nat): (m: nat)
    requires EndsAfter(pages, maxResults, n)
    ensures m <= |pages|
  {
    if n == |pages| || (n > 0 && |Listed(pages, n)| >= maxResults) then n else n + 1
  }

  /** In list mode the result is the shortest prefix of pages that reaches the limit, or everything there is. */
  method DescribeSpotFleetInstances(ec2: PagedApi<string>, maxResults: int) returns (result: seq<string>)
    requires Chain(ec2.pages, {})
    modifies ec2
    ensures exists n :: (
      && EndsAfter(ec2.pages, maxResults, n)
      && result == Listed(ec2.pages, n)
      && ec2.requests == old(ec2.requests) + RequestsFor(ec2.pages, PagesSeen(ec2.pages, maxResults, n)))
  {
    ghost var pages := ec2.pages;
    var token, nextToken: Option<string> := true, None;
    result := [];
    ghost var n := 0;
    while token
      invariant n <= |pages|
      invariant forall i | 0 <= i < n :: pages[i].items.Some?
      invariant forall k | 0 < k <= n :: |Listed(pages, k)| < maxResults
      invariant ec2.requests == old(ec2.requests) + RequestsFor(pages, n)
      invariant token ==> n < |pages| && nextToken == TokenOf(pages, n)
      invariant !token ==> n == |pages|
      invariant result == Listed(pages, n)
      decreases |pages| - n, token
    {
      var page;
      page, token, nextToken := ec2.NextPage(nextToken, old(ec2.requests), n);
      if page.items.None? {
        assert EndsAfter(pages, maxResults, n);
        return;
      }
      result := result + page.items.value;
      n := n + 1;
      if |result| >= maxResults {
        assert EndsAfter(pages, maxResults, n);
        return;
      }
    }
    assert EndsAfter(pages, maxResults, n);
  }

  // ----- Detaching in batches -----

  const MAX_DETACH := 20

  /** The ids cut into batches of the largest size allowed. */
  function Batches(ids: seq<string>): seq<seq<string>> {
    if ids == [] then []
    else if |ids| <= MAX_DETACH then [ids]
    else [ids[..MAX_DETACH]] + Batches(ids[MAX_DETACH..])
  }

  /** There are as few batches as the size limit permits, none is empty, and together they are the ids in order. */
  lemma {:induction false} BatchesCoverIds(ids: seq<string>)
    ensures |Batches(ids)| == (|ids| + 19) / 20
    ensures forall b | b in Batches(ids) :: 1 <= |b| <= 20
    ensures Concat(Batches(ids)) == ids
  {
    if |ids| > MAX_DETACH {
      BatchesCoverIds(ids[MAX_DETACH..]);
      ConcatFirst(ids[..MAX_DETACH], Batches(ids[MAX_DETACH..]));
    } else if ids != [] {
      ConcatFirst(ids, []);
    }
  }

  lemma NextBatch(ids: seq<string>, start: nat, end: nat)
    requires start < |ids| && end == if start + MAX_DETACH <= |ids| then start + MAX_DETACH else |ids|
    ensures Batches(ids[start..]) == [ids[start..end]] + Batches(ids[end..])
  {
    var rest := ids[start..];
    if |rest| > MAX_DETACH {
      assert rest[..MAX_DETACH] == ids[start..end] && rest[MAX_DETACH..] == ids[end..];
    } else {
      assert rest == ids[start..end] && ids[end..] == [];
    }
  }

  class AutoScaling {
    var detached: seq<seq<string>>

    constructor ()
      ensures detached == []
    {
      detached := [];
    }

    method Detach(ids: seq<string>)
      modifies this
      ensures detached == old(detached) + [ids]
    {
      detached := detached + [ids];
    }

    /** Detaches the instances with one call per batch, in order. */
    method DetachInstances(ids: seq<string>)
      modifies this
      ensures detached == old(detached) + Batches(ids)
    {
      var start, remaining: int := 0, |ids|;
      while remaining > 0
        invariant 0 <= start && remaining == |ids| - start
        invariant detached + Batches(ids[if start <= |ids| then start else |ids|..]) == old(detached) + Batches(ids)
      {
        var end := if start + MAX_DETACH <= |ids| then start + MAX_DETACH else |ids|;
        NextBatch(ids, start, end);
        Detach(ids[start..end]);
        start := start + MAX_DETACH;
        remaining := remaining - MAX_DETACH;
      }
    }
  }
}
