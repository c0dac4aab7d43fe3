/** The pool of pages kept for the CPU's own translation tables: a list of bump-allocated pools, refilled
    while a reserve is left because a refill may itself need pages.  Requests are for one page. */
module PagePool {
  import opened Machine

  const POOL_SIZE: nat := 0x20_0000
  const POOL_PAGES: nat := 512
  const MIN_PAGES_AVAILABLE: nat := 5

  /** A pool of 512 pages at `base`, the first of which holds this record. */
  datatype Pool = Pool(base: nat, offset: nat, freePages: nat) {
    /** What is not free has been handed out from the front, after the header. */
    ghost predicate Sound() {
      && base % POOL_SIZE == 0 && 0 < base
      && freePages <= POOL_PAGES - 1
      && offset == (POOL_PAGES - freePages) * PAGE_SIZE
    }

    ghost predicate Handed(a: nat) {
      base + PAGE_SIZE <= a < base + offset && a % PAGE_SIZE == 0
    }

    /** Hand out the next page, in 64-bit arithmetic. */
    function Take(): Pool {
      Pool(base, (offset + PAGE_SIZE) % WORD_LIMIT, (freePages + WORD_LIMIT - 1) % WORD_LIMIT)
    }
  }

  /** Taking a page keeps a pool sound, and the page inside it, if and only if a page is free. */
  lemma TakeSoundIff(p: Pool)
    requires p.Sound()
    ensures p.Take().Sound() <==> p.freePages >= 1
    ensures p.base + p.offset + PAGE_SIZE <= p.base + POOL_SIZE <==> p.freePages >= 1
  {
  }

  ghost function TotalFree(pools: seq<Pool>): nat {
    if pools == [] then 0 else TotalFree(pools[..|pools| - 1]) + pools[|pools| - 1].freePages
  }

  lemma {:induction false} TotalFreeUpdate(pools: seq<Pool>, k: nat, p: Pool)
    requires k < |pools|
    ensures TotalFree(pools[k := p]) == TotalFree(pools) - pools[k].freePages + p.freePages
    decreases |pools|
  {
    var n := |pools| - 1;
    if k < n {
      TotalFreeUpdate(pools[..n], k, p);
      assert pools[k := p][..n] == pools[..n][k := p];
    } else {
      assert pools[k := p][..n] == pools[..n];
    }
  }

  lemma {:induction false} TotalFreeCons(p: Pool, pools: seq<Pool>)
    ensures TotalFree([p] + pools) == p.freePages + TotalFree(pools)
    decreases |pools|
  {
    var n := |pools| - 1;
    if pools == [] {
      assert [p] + pools == [p];
    } else {
      TotalFreeCons(p, pools[..n]);
      assert ([p] + pools)[..n + 1] == [p] + pools[..n];
    }
  }

  lemma {:induction false} TotalFreeZero(pools: seq<Pool>)
    ensures TotalFree(pools) == 0 <==> forall k :: 0 <= k < |pools| ==> pools[k].freePages == 0
    decreases |pools|
  {
    if pools != [] {
      var n := |pools| - 1;
      TotalFreeZero(pools[..n]);
      assert forall k :: 0 <= k < n ==> pools[..n][k] == pools[k];
    }
  }

  ghost predicate AllSound(pools: seq<Pool>) {
    && (forall k :: 0 <= k < |pools| ==> pools[k].Sound())
    && (forall j, k :: 0 <= j < k < |pools| ==> pools[j].base != pools[k].base)
  }

  /** The pages issued are exactly those below the pools' bump pointers. */
  ghost predicate Tracks(pools: seq<Pool>, issued: seq<nat>) {
    && (forall a :: a in issued ==> exists k :: 0 <= k < |pools| && pools[k].Handed(a))
    && (forall k, a :: 0 <= k < |pools| && pools[k].Handed(a) ==> a in issued)
  }

  lemma PoolsApart(p: Pool, q: Pool, a: nat)
    requires p.Sound() && q.Sound() && p.base <= a < p.base + POOL_SIZE && q.base <= a < q.base + POOL_SIZE
    ensures p.base == q.base
  {
  }

  lemma HandedAfter(p: Pool, b: nat)
    requires p.Sound() && p.freePages >= 1
    ensures p.Take().Handed(b) <==> p.Handed(b) || b == p.base + p.offset
    ensures !p.Handed(p.base + p.offset) && p.base <= p.base + p.offset < p.base + POOL_SIZE
    ensures p.Take().Sound() && p.Take().base == p.base && p.Take().freePages == p.freePages - 1
  {
  }

  lemma HandedInside(p: Pool, a: nat)
    requires p.Sound() && p.Handed(a)
    ensures a % PAGE_SIZE == 0 && p.base + PAGE_SIZE <= a && a + PAGE_SIZE <= p.base + POOL_SIZE
  {
    var x, b := a / PAGE_SIZE, p.base / POOL_SIZE;
    assert a == 4096 * x && p.base == 4096 * (512 * b);
    assert x < 512 * b + (POOL_PAGES - p.freePages);
  }

  /** The next page of a pool with a free page has not been issued before. */
  lemma TakeIsNew(pools: seq<Pool>, k: nat, issued: seq<nat>)
    requires AllSound(pools) && Tracks(pools, issued) && k < |pools| && pools[k].freePages >= 1
    ensures pools[k].base + pools[k].offset !in issued
  {
    var a := pools[k].base + pools[k].offset;
    HandedAfter(pools[k], a);
    if a in issued {
      var j :| 0 <= j < |pools| && pools[j].Handed(a);
      HandedInside(pools[j], a);
      PoolsApart(pools[j], pools[k], a);
    }
  }

  lemma TakeTracks(pools: seq<Pool>, k: nat, issued: seq<nat>)
    requires AllSound(pools) && Tracks(pools, issued) && k < |pools| && pools[k].freePages >= 1
    ensures AllSound(pools[k := pools[k].Take()])
    ensures Tracks(pools[k := pools[k].Take()], issued + [pools[k].base + pools[k].offset])
  {
    hide Pool.Handed, Pool.Take, Pool.Sound;
    var p := pools[k];
    var a := p.base + p.offset;
    var pools' := pools[k := p.Take()];
    HandedAfter(p, a);
    forall b | b in issued + [a] ensures exists j :: 0 <= j < |pools'| && pools'[j].Handed(b) {
      HandedAfter(p, b);
      if b == a {
        assert pools'[k].Handed(b);
      } else {
        var j :| 0 <= j < |pools| && pools[j].Handed(b);
        assert pools'[j].Handed(b);
      }
    }
    forall j, b | 0 <= j < |pools'| && pools'[j].Handed(b) ensures b in issued + [a] {
      HandedAfter(p, b);
      assert j != k ==> pools[j].Handed(b);
    }
  }

  function NewPool(base: nat): Pool {
    Pool(base, PAGE_SIZE, POOL_PAGES - 1)
  }

  /** An aligned region that is not already a pool. */
  ghost predicate Fresh(pools: seq<Pool>, base: nat) {
    base > 0 && base % POOL_SIZE == 0 && forall k :: 0 <= k < |pools| ==> pools[k].base != base
  }

  /** A new pool has handed out nothing. */
  lemma AddTracks(pools: seq<Pool>, base: nat, issued: seq<nat>)
    requires AllSound(pools) && Tracks(pools, issued) && Fresh(pools, base)
    ensures AllSound([NewPool(base)] + pools) && Tracks([NewPool(base)] + pools, issued)
  {
    var pools' := [NewPool(base)] + pools;
    assert forall k :: 0 < k < |pools'| ==> pools'[k] == pools[k - 1];
    assert forall a :: !pools'[0].Handed(a);
    forall a | a in issued ensures exists k :: 0 <= k < |pools'| && pools'[k].Handed(a) {
      var k :| 0 <= k < |pools| && pools[k].Handed(a);
      assert pools'[k + 1].Handed(a);
    }
  }

  ghost predicate SameBases(before: seq<Pool>, pools: seq<Pool>) {
    |pools| == |before| && forall k :: 0 <= k < |before| ==> pools[k].base == before[k].base
  }

  ghost predicate Grown(before: seq<Pool>, pools: seq<Pool>, base: nat) {
    |pools| == |before| + 1 && pools[0].base == base && SameBases(before, pools[1..])
  }

  lemma FreshAfter(before: seq<Pool>, pools: seq<Pool>, answer: nat, base: nat)
    requires Fresh(before, base) && (SameBases(before, pools) || (Grown(before, pools, answer) && base != answer))
    ensures Fresh(pools, base)
  {
    if Grown(before, pools, answer) {
      assert forall k :: 0 < k < |pools| ==> pools[k] == pools[1..][k - 1];
    }
  }

  /** The locked call on the pool that the search yields stays inside that pool if and only if some page
      is free: with none, the search still yields the last pool and the page lies beyond its end. */
  lemma LockedCallSafeIff(pools: seq<Pool>, k: nat)
    requires AllSound(pools) && k < |pools|
    requires forall j :: 0 <= j < k ==> pools[j].freePages < 1
    requires pools[k].freePages >= 1 || k == |pools| - 1
    ensures pools[k].Take().Sound() <==> TotalFree(pools) >= 1
    ensures TotalFree(pools) == 0 ==> pools[k].base + pools[k].offset == pools[k].base + POOL_SIZE
  {
    TakeSoundIff(pools[k]);
    TotalFreeZero(pools);
  }

  /** With its only pool used up, a locked request is answered with the page after the end of the pool. */
  lemma UsedUpExample()
    ensures var p := Pool(POOL_SIZE, POOL_SIZE, 0);
      AllSound([p]) && TotalFree([p]) == 0 && !p.Take().Sound() && p.base + p.offset == 2 * POOL_SIZE
  {
    TotalFreeZero([Pool(POOL_SIZE, POOL_SIZE, 0)]);
  }

  // ----- pages drawn --------------------------------------------------------------------------

  /** A request: how many requests the page allocator nests in a refill, and its answer to one. */
  datatype Request = Request(nested: nat, answer: nat)

  /** The pool that serves a request for one page: the first with a page free, otherwise the last. */
  ghost function Chosen(pools: seq<Pool>): (k: nat)
    requires pools != []
    ensures k < |pools|
  {
    if pools[0].freePages >= 1 || |pools| == 1 then 0 else 1 + Chosen(pools[1..])
  }

  lemma {:induction false} ChosenIs(pools: seq<Pool>, k: nat)
    requires k < |pools| && forall j :: 0 <= j < k ==> pools[j].freePages < 1
    requires pools[k].freePages >= 1 || k == |pools| - 1
    ensures Chosen(pools) == k
    decreases k
  {
    if k > 0 {
      assert pools[0].freePages < 1;
      forall j | 0 <= j < k - 1 ensures pools[1..][j].freePages < 1 {
        assert pools[1..][j] == pools[j + 1];
      }
      ChosenIs(pools[1..], k - 1);
    }
  }

  /** The page that such a request is given. */
  ghost function NextPage(pools: seq<Pool>): nat
    requires pools != []
  {
    pools[Chosen(pools)].base + pools[Chosen(pools)].offset
  }

  /** The pools after `n` such requests; without a pool nothing happens. */
  ghost function Drawn(pools: seq<Pool>, n: nat): seq<Pool> {
    if n == 0 || pools == [] then pools
    else
      var p := Drawn(pools, n - 1);
      if p == [] then [] else p[Chosen(p) := p[Chosen(p)].Take()]
  }

  /** The pages given to them, in order. */
  ghost function PagesDrawn(pools: seq<Pool>, n: nat): seq<nat> {
    if n == 0 then []
    else
      var p := Drawn(pools, n - 1);
      PagesDrawn(pools, n - 1) + if p == [] then [] else [NextPage(p)]
  }

  /** A request for one page: where it refills, the nested requests are served first, and then the first page of
      the new pool is returned; otherwise the next page of the pools there are. */
  ghost predicate Obtained(before: seq<Pool>, refill: bool, q: Request, pools: seq<Pool>, pages: seq<nat>, buffer: nat)
  {
    if refill then
      if q.answer == 0 then buffer == 0 && pools == Drawn(before, q.nested) && pages == PagesDrawn(before, q.nested)
      else
        && buffer == q.answer + PAGE_SIZE && pools == [NewPool(q.answer).Take()] + Drawn(before, q.nested)
        && pages == PagesDrawn(before, q.nested) + [buffer]
    else
      && buffer == (if before == [] then 0 else NextPage(before)) && pools == Drawn(before, 1)
      && pages == if before == [] then [] else [buffer]
  }

  lemma ObtainedNext(before: seq<Pool>, k: nat, q: Request)
    requires k < |before| && forall j :: 0 <= j < k ==> before[j].freePages < 1
    requires before[k].freePages >= 1 || k == |before| - 1
    ensures var buffer := before[k].base + before[k].offset;
      Obtained(before, false, q, before[k := before[k].Take()], [buffer], buffer)
  {
    ChosenIs(before, k);
    assert Drawn(before, 0) == before;
  }

  lemma ObtainedNothing(q: Request)
    ensures Obtained([], false, q, [], [], 0)
  {
  }

  lemma ObtainedRefused(before: seq<Pool>, nested: nat)
    ensures Obtained(before, true, Request(nested, 0), Drawn(before, nested), PagesDrawn(before, nested), 0)
  {
  }

  lemma ObtainedNew(before: seq<Pool>, q: Request, k: nat)
    requires q.answer != 0 && k <= |Drawn(before, q.nested)|
    requires var pools := [NewPool(q.answer)] + Drawn(before, q.nested);
      forall j :: 0 <= j < k ==> pools[j].freePages < 1
    ensures var pools := [NewPool(q.answer)] + Drawn(before, q.nested);
      var buffer := pools[k].base + pools[k].offset;
      Obtained(before, true, q, pools[k := pools[k].Take()], PagesDrawn(before, q.nested) + [buffer], buffer)
  {
    var pools := [NewPool(q.answer)] + Drawn(before, q.nested);
    assert pools[0] == NewPool(q.answer) && k == 0;
    assert pools[0 := pools[0].Take()] == [NewPool(q.answer).Take()] + Drawn(before, q.nested);
  }

  lemma DrawnNothing(pools: seq<Pool>)
    ensures Drawn(pools, 0) == pools && PagesDrawn(pools, 0) == []
  {
  }

  lemma DrawnNext(before: seq<Pool>, i: nat, q: Request, pools: seq<Pool>, pages: seq<nat>, buffer: nat)
    requires Obtained(Drawn(before, i), false, q, pools, pages, buffer)
    ensures Drawn(before, i + 1) == pools && PagesDrawn(before, i + 1) == PagesDrawn(before, i) + pages
  {
    var now := Drawn(before, i);
    assert Drawn(now, 0) == now;
    if before == [] {
      assert now == [];
    }
  }

  ghost predicate Distinct(s: seq<nat>) {
    forall j, k :: 0 <= j < k < |s| ==> s[j] != s[k]
  }

  lemma DistinctStep(s: seq<nat>, x: nat)
    requires Distinct(s) && x !in s
    ensures Distinct(s + [x])
  {
  }

  // ----- runs ---------------------------------------------------------------------------------

  /** With `free` pages left (`some`: there is a pool at all), a request is served without a refill. */
  predicate Ample(free: nat, some: bool) {
    some && free > MIN_PAGES_AVAILABLE + 1
  }

  /** If it refills, there is a free page for each request nested in the refill. */
  predicate Covered(free: nat, some: bool, nested: nat) {
    Ample(free, some) || !some || nested <= free
  }

  /** The pages left after a request. */
  function Left(free: nat, some: bool, q: Request): nat
    requires Covered(free, some, q.nested)
  {
    if Ample(free, some) then free - 1
    else free - (if some then q.nested else 0) + (if q.answer != 0 then POOL_PAGES - 2 else 0)
  }

  /** Every refill in a run of requests is covered. */
  predicate Affordable(requests: seq<Request>, free: nat, some: bool)
    decreases |requests|
  {
    requests == [] ||
    (Covered(free, some, requests[0].nested) &&
     Affordable(requests[1..], Left(free, some, requests[0]), some || requests[0].answer != 0))
  }

  /** The pages left after an affordable run. */
  function FinallyLeft(requests: seq<Request>, free: nat, some: bool): nat
    requires Affordable(requests, free, some)
    decreases |requests|
  {
    if requests == [] then free
    else FinallyLeft(requests[1..], Left(free, some, requests[0]), some || requests[0].answer != 0)
  }

  /** From a reserve of six, a run with up to six requests nested in each refill is affordable if every
      refill is answered, and the reserve of six is always restored. */
  lemma {:induction false} SteadyRun(requests: seq<Request>, free: nat)
    requires free >= MIN_PAGES_AVAILABLE + 1
    requires forall i :: 0 <= i < |requests| ==>
      requests[i].nested <= MIN_PAGES_AVAILABLE + 1 && requests[i].answer != 0
    ensures Affordable(requests, free, true)
    ensures FinallyLeft(requests, free, true) >= MIN_PAGES_AVAILABLE + 1
    decreases |requests|
  {
    if requests != [] {
      SteadyRun(requests[1..], Left(free, true, requests[0]));
    }
  }

  /** One refused refill is enough to lose the reserve: the next refill is not covered. */
  lemma RefusedRefillExample()
    ensures !Affordable([Request(6, 0), Request(1, 0x20_0000)], 6, true)
  {
    var requests := [Request(6, 0), Request(1, 0x20_0000)];
    assert requests[1..][0] == Request(1, 0x20_0000);
  }

  /** Whether the run is affordable, and what it leaves, depends on the requests from `n` on. */
  ghost predicate Pending(requests: seq<Request>, free: nat, some: bool, n: nat, now: nat, has: bool) {
    && n <= |requests|
    && (Affordable(requests, free, some) <==> Affordable(requests[n..], now, has))
    && (Affordable(requests, free, some) ==>
          FinallyLeft(requests, free, some) == FinallyLeft(requests[n..], now, has))
  }

  lemma PendingStep(requests: seq<Request>, free: nat, some: bool, n: nat, now: nat, has: bool)
    requires Pending(requests, free, some, n, now, has) && n < |requests|
    ensures if Covered(now, has, requests[n].nested)
            then Pending(requests, free, some, n + 1, Left(now, has, requests[n]), has || requests[n].answer != 0)
            else !Affordable(requests, free, some)
  {
    assert requests[n..][1..] == requests[n + 1..];
  }

  lemma PendingStart(requests: seq<Request>, free: nat, some: bool)
    ensures Pending(requests, free, some, 0, free, some)
  {
    assert requests[0..] == requests;
  }

  lemma PendingDone(requests: seq<Request>, free: nat, some: bool, now: nat, has: bool)
    requires Pending(requests, free, some, |requests|, now, has)
    ensures Affordable(requests, free, some) && FinallyLeft(requests, free, some) == now
  {
  }

  ghost function Joined(pages: seq<seq<nat>>): seq<nat> {
    if pages == [] then [] else Joined(pages[..|pages| - 1]) + pages[|pages| - 1]
  }

  /** A run of requests from the pools `trace[0]`: request by request, what became of the pools, which pages were
      given out and which was returned. */
  ghost predicate Run(requests: seq<Request>, trace: seq<seq<Pool>>, pages: seq<seq<nat>>, buffers: seq<nat>) {
    && |trace| == |buffers| + 1 && |pages| == |buffers| <= |requests|
    && forall i :: 0 <= i < |buffers| ==>
         Obtained(trace[i], !Ample(TotalFree(trace[i]), trace[i] != []), requests[i], trace[i + 1], pages[i],
           buffers[i])
  }

  lemma RunNothing(requests: seq<Request>, pools: seq<Pool>)
    ensures Run(requests, [pools], [], []) && Joined([]) == []
  {
  }

  lemma RunStep(requests: seq<Request>, trace: seq<seq<Pool>>, pages: seq<seq<nat>>, buffers: seq<nat>,
    pools: seq<Pool>, given: seq<nat>, buffer: nat)
    requires Run(requests, trace, pages, buffers) && |buffers| < |requests|
    requires var now := trace[|buffers|];
      Obtained(now, !Ample(TotalFree(now), now != []), requests[|buffers|], pools, given, buffer)
    ensures Run(requests, trace + [pools], pages + [given], buffers + [buffer])
    ensures Joined(pages + [given]) == Joined(pages) + given
  {
    hide Obtained;
    assert (pages + [given])[..|pages|] == pages;
  }

  lemma ReturnedIsGiven(before: seq<Pool>, refill: bool, q: Request, pools: seq<Pool>, pages: seq<nat>, buffer: nat)
    requires Obtained(before, refill, q, pools, pages, buffer) && buffer != 0
    ensures pages != [] && pages[|pages| - 1] == buffer
  {
  }

  lemma LaterIsNew(s: seq<nat>, given: seq<nat>, x: nat)
    requires Distinct(s + given) && x in given
    ensures x !in s && x in s + given
  {
    var k :| 0 <= k < |given| && given[k] == x;
    assert (s + given)[|s| + k] == x;
    forall j | 0 <= j < |s| ensures s[j] != x {
      assert (s + given)[j] == s[j];
    }
  }

  lemma TakeKeepsBase(p: Pool)
    ensures p.Take().base == p.base
  {
  }

  /** The pool that the search yields for one page has one if and only if any is free. */
  lemma FoundFreeIff(pools: seq<Pool>, k: nat)
    requires AllSound(pools) && k < |pools| && forall j :: 0 <= j < k ==> pools[j].freePages < 1
    requires pools[k].freePages >= 1 || k == |pools| - 1
    ensures pools[k].freePages >= 1 <==> TotalFree(pools) >= 1
    ensures TotalFree(pools) == 0 ==> k == |pools| - 1 && pools[k].offset == POOL_SIZE
  {
    TotalFreeZero(pools);
  }

  class Allocator {
    /** The list, most recent pool first. */
    var pools: seq<Pool>
    var totalFree: nat
    var locked: bool
    /** Every page ever returned, by nested and other calls alike, in order. */
    ghost var issued: seq<nat>
    /** A page was taken from a pool that had none free. */
    ghost var overdrawn: bool

    /** The counters agree with the pools; no page is lost and none is handed out twice. */
    ghost predicate Valid()
      reads this
    {
      && AllSound(pools) && Tracks(pools, issued) && Distinct(issued) && !overdrawn
      && totalFree == TotalFree(pools)
      && |issued| + totalFree == (POOL_PAGES - 1) * |pools|
    }

    constructor ()
      ensures Valid() && pools == [] && !locked && issued == []
    {
      pools, totalFree, locked, issued, overdrawn := [], 0, false, [], false;
    }

    /** FindPoolToAllocateFrom: the first pool with enough pages; if there is none, the last pool of the
        list, and nothing only if the list is empty. */
    method FindPoolToAllocateFrom(pages: nat) returns (found: bool, k: nat)
      ensures found <==> pools != []
      ensures found ==> k < |pools| && forall j :: 0 <= j < k ==> pools[j].freePages < pages
      ensures found ==> pools[k].freePages >= pages || k == |pools| - 1
    {
      found, k := false, 0;
      var i := 0;
      while i < |pools|
        invariant 0 <= i <= |pools| && (found <==> i > 0) && (found ==> k == i - 1)
        invariant forall j :: 0 <= j < i ==> pools[j].freePages < pages
      {
        found, k := true, i;
        if pages <= pools[i].freePages {
          break;
        }
        i := i + 1;
      }
    }

    /** What a one-page call needs so as not to overdraw a pool: a locked call needs a free page; one that
        refills needs a free page for each request nested in the refill. */
    ghost predicate Safe(nested: nat)
      reads this
    {
      if locked then pools == [] || totalFree >= 1 else Covered(totalFree, pools != [], nested)
    }

    /** Hand out the next page of pool `k`. */
    method Commit(k: nat) returns (buffer: nat)
      requires (Valid() <==> !overdrawn) && k < |pools|
      modifies this`pools, this`totalFree, this`issued, this`overdrawn
      ensures (Valid() <==> !overdrawn) && SameBases(old(pools), pools)
      ensures overdrawn <==> old(overdrawn) || old(pools[k].freePages) == 0
      ensures buffer == old(pools[k].base + pools[k].offset) && issued == old(issued) + [buffer]
      ensures pools == old(pools)[k := old(pools)[k].Take()]
      ensures totalFree == if old(totalFree) >= 1 then old(totalFree) - 1 else WORD_LIMIT - 1
      ensures old(Valid()) ==> (Valid() <==> old(pools[k].freePages) >= 1)
      ensures old(Valid()) && Valid() ==>
        totalFree == old(totalFree) - 1 && buffer > 0 && buffer !in old(issued)
    {
      hide Tracks, TotalFree, Pool.Handed, Pool.Take, Distinct;
      buffer := pools[k].base + pools[k].offset;
      if Valid() && pools[k].freePages >= 1 {
        HandedAfter(pools[k], 0);
        TakeIsNew(pools, k, issued);
        TakeTracks(pools, k, issued);
        TotalFreeUpdate(pools, k, pools[k].Take());
        TotalFreeZero(pools);
        DistinctStep(issued, buffer);
      }
      TakeKeepsBase(pools[k]);
      overdrawn := overdrawn || pools[k].freePages == 0;
      pools := pools[k := pools[k].Take()];
      totalFree := if totalFree >= 1 then totalFree - 1 else WORD_LIMIT - 1;
      issued := issued + [buffer];
    }

    lemma Counted()
      requires Valid()
      ensures totalFree == TotalFree(pools) && Distinct(issued) && !overdrawn
    {
    }

    lemma FoundFree(k: nat)
      requires Valid() && k < |pools| && forall j :: 0 <= j < k ==> pools[j].freePages < 1
      requires pools[k].freePages >= 1 || k == |pools| - 1
      ensures pools[k].freePages >= 1 <==> totalFree >= 1
      ensures totalFree == 0 ==> k == |pools| - 1 && pools[k].offset == POOL_SIZE
    {
      FoundFreeIff(pools, k);
    }

    /** AllocatePageTableMemory(1).  The call overdraws a pool if and only if it is not safe.  A safe call
        returns NULL or a page that is aligned, inside a pool, off its header, and was never returned
        before; an unlocked one that succeeds leaves a reserve of six.  A locked call never refills, and
        when it is not safe returns the page after the end of the last pool. */
    method AllocatePageTableMemory(nested: nat, answer: nat) returns (buffer: nat, ghost pages: seq<nat>)
      requires (Valid() <==> !overdrawn) && (answer == 0 || Fresh(pools, answer))
      modifies this
      ensures (Valid() <==> !overdrawn) && locked == old(locked) && (old(overdrawn) ==> overdrawn)
      ensures SameBases(old(pools), pools) || (!locked && Grown(old(pools), pools, answer))
      ensures old(Valid()) ==> (Valid() <==> old(Safe(nested)))
      ensures issued == old(issued) + pages
      ensures Obtained(old(pools), !locked && !Ample(old(totalFree), old(pools) != []), Request(nested, answer), pools,
                pages, buffer)
      ensures old(Valid()) && Valid() && locked ==>
        (buffer != 0 <==> pools != []) && totalFree == old(totalFree) - if pools == [] then 0 else 1
      ensures old(Valid()) && Valid() && !locked ==>
        && totalFree == Left(old(totalFree), old(pools) != [], Request(nested, answer))
        && (buffer == 0 <==> !Ample(old(totalFree), old(pools) != []) && answer == 0)
        && (buffer != 0 ==> totalFree >= MIN_PAGES_AVAILABLE + 1)
        && (pools != [] <==> old(pools) != [] || answer != 0)
      ensures old(Valid()) && !Valid() && locked ==>
        buffer == pools[|pools| - 1].base + POOL_SIZE && totalFree == WORD_LIMIT - 1
      ensures |pools| == |old(pools)| + 1 <==> !locked && answer != 0 && (old(pools) == [] || old(totalFree) <= 6)
      decreases if locked then 0 else 2, 0
    {
      hide Allocator.Valid, Fresh, Pool.Take, PagesDrawn, Drawn, Obtained;
      ghost var q := Request(nested, answer);
      pages := [];
      var found, k := FindPoolToAllocateFrom(1);
      if (!found || totalFree < 1 || totalFree - 1 <= MIN_PAGES_AVAILABLE) && !locked {
        var ok := Refill(nested, answer);
        pages := PagesDrawn(old(pools), nested);
        if !ok {
          ObtainedRefused(old(pools), nested);
          return 0, pages;
        }
        found, k := FindPoolToAllocateFrom(1);
        ObtainedNew(old(pools), q, k);
      } else if found {
        ObtainedNext(pools, k, q);
      }
      if !found {
        ObtainedNothing(q);
        return 0, pages;
      }
      if Valid() {
        FoundFree(k);
      }
      buffer := Commit(k);
      assert [] + [buffer] == [buffer];
      pages := pages + [buffer];
    }

    /** GetMorePages(1): obtains a new pool.  The page allocator makes `nested` one-page requests of its
        own before it answers with an aligned region, or with NULL.  They overdraw a pool if and only if
        there are more of them than free pages. */
    method GetMorePages(nested: nat, answer: nat) returns (ok: bool)
      requires (Valid() <==> !overdrawn) && (locked || nested == 0) && (answer == 0 || Fresh(pools, answer))
      modifies this
      ensures (Valid() <==> !overdrawn) && locked == old(locked) && (old(overdrawn) ==> overdrawn)
      ensures ok <==> answer != 0
      ensures if ok then Grown(old(pools), pools, answer) else SameBases(old(pools), pools)
      ensures old(Valid()) ==> (Valid() <==> old(pools) == [] || nested <= old(totalFree))
      ensures old(issued) + PagesDrawn(old(pools), nested) == issued
      ensures pools == if ok then [NewPool(answer)] + Drawn(old(pools), nested) else Drawn(old(pools), nested)
      ensures old(Valid()) && Valid() ==>
        totalFree + (if old(pools) == [] then 0 else nested) == old(totalFree) + if ok then POOL_PAGES - 1 else 0
      decreases 1, 0
    {
      hide AllSound, Tracks, TotalFree, Fresh, Distinct, Drawn, PagesDrawn, Obtained;
      DrawnNothing(pools);
      var i := 0;
      while i < nested
        invariant 0 <= i <= nested && locked == old(locked) && SameBases(old(pools), pools)
        invariant (Valid() <==> !overdrawn) && (old(overdrawn) ==> overdrawn)
        invariant old(Valid()) ==> (Valid() <==> old(pools) == [] || i <= old(totalFree))
        invariant old(issued) + PagesDrawn(old(pools), i) == issued && pools == Drawn(old(pools), i)
        invariant old(Valid()) && Valid() ==> totalFree + (if old(pools) == [] then 0 else i) == old(totalFree)
      {
        ghost var pages;
        var page;
        page, pages := AllocatePageTableMemory(0, 0);
        DrawnNext(old(pools), i, Request(0, 0), pools, pages, page);
        i := i + 1;
      }
      ok := answer != 0;
      if ok {
        FreshAfter(old(pools), pools, answer, answer);
        if Valid() {
          AddTracks(pools, answer, issued);
          TotalFreeCons(NewPool(answer), pools);
        }
        pools := [NewPool(answer)] + pools;
        totalFree := totalFree + (POOL_PAGES - 1);
      }
    }

    /** A refill, under the lock. */
    method Refill(nested: nat, answer: nat) returns (ok: bool)
      requires (Valid() <==> !overdrawn) && !locked && (answer == 0 || Fresh(pools, answer))
      modifies this
      ensures (Valid() <==> !overdrawn) && !locked && (old(overdrawn) ==> overdrawn)
      ensures ok <==> answer != 0
      ensures if ok then Grown(old(pools), pools, answer) else SameBases(old(pools), pools)
      ensures old(Valid()) ==> (Valid() <==> old(pools) == [] || nested <= old(totalFree))
      ensures old(issued) + PagesDrawn(old(pools), nested) == issued
      ensures pools == if ok then [NewPool(answer)] + Drawn(old(pools), nested) else Drawn(old(pools), nested)
      ensures old(Valid()) && Valid() ==>
        totalFree + (if old(pools) == [] then 0 else nested) == old(totalFree) + if ok then POOL_PAGES - 1 else 0
      decreases 1, 1
    {
      hide AllSound, Tracks, TotalFree, Fresh, Distinct, Drawn, PagesDrawn, SameBases, Grown;
      locked := true;
      ok := GetMorePages(nested, answer);
      locked := false;
    }

    /** InitializePageTableMemory: the first pool, before any request, is a full reserve. */
    method InitializePageTableMemory(answer: nat) returns (ok: bool)
      requires Valid() && pools == [] && !locked && (answer == 0 || Fresh(pools, answer))
      modifies this
      ensures Valid() && !locked && (ok <==> answer != 0) && issued == old(issued)
      ensures pools == if ok then [Pool(answer, 4096, 511)] else []
      ensures ok ==> totalFree == POOL_PAGES - 1 > MIN_PAGES_AVAILABLE
    {
      DrawnNothing(pools);
      ok := GetMorePages(0, answer);
    }

    /** Every page returned is aligned, inside its pool and off the pool's header page. */
    lemma IssuedInside(a: nat)
      requires Valid() && a in issued
      ensures a % PAGE_SIZE == 0
      ensures exists k ::
        0 <= k < |pools| && pools[k].base + PAGE_SIZE <= a && a + PAGE_SIZE <= pools[k].base + POOL_SIZE
    {
      var k :| 0 <= k < |pools| && pools[k].Handed(a);
      HandedInside(pools[k], a);
    }

    /** Any run of unlocked requests.  No pool is overdrawn if and only if the run is affordable, which can be
        told from the requests and the pages free at the start.  Then all pages given out, to nested and other
        requests alike, are different (`Valid`), a request fails only if its refill was refused, and the pages
        left are accounted for. */
    method Serve(requests: seq<Request>)
      returns (buffers: seq<nat>, ghost trace: seq<seq<Pool>>, ghost pages: seq<seq<nat>>)
      requires Valid() && !locked
      requires forall i :: 0 <= i < |requests| ==> requests[i].answer == 0 || Fresh(pools, requests[i].answer)
      requires forall i, j :: 0 <= i < j < |requests| && requests[i].answer != 0 ==>
        requests[i].answer != requests[j].answer
      modifies this
      ensures |buffers| == |requests| && !locked
      ensures overdrawn <==> !Affordable(requests, old(totalFree), old(pools) != [])
      ensures !overdrawn ==>
        && Valid() && totalFree == FinallyLeft(requests, old(totalFree), old(pools) != [])
        && Run(requests, trace, pages, buffers) && trace[0] == old(pools) && trace[|buffers|] == pools
        && issued == old(issued) + Joined(pages)
        && (forall i, j :: 0 <= i < j < |buffers| && buffers[i] != 0 ==> buffers[i] != buffers[j])
        && (forall i :: 0 <= i < |buffers| && buffers[i] == 0 ==> requests[i].answer == 0)
    {
      hide Allocator.Valid, TotalFree, Covered, Left, Fresh, SameBases, Grown, Distinct, Obtained, Joined, Run, Pending,
        Affordable, FinallyLeft;
      buffers, trace, pages := [], [pools], [];
      RunNothing(requests, pools);
      var n := 0;
      ghost var free, some := totalFree, pools != [];
      PendingStart(requests, free, some);
      Counted();
      while n < |requests|
        invariant 0 <= n <= |requests| && |buffers| == n && !locked && (Valid() <==> !overdrawn)
        invariant forall i :: n <= i < |requests| ==> requests[i].answer == 0 || Fresh(pools, requests[i].answer)
        invariant overdrawn ==> !Affordable(requests, free, some)
        invariant !overdrawn ==> Pending(requests, free, some, n, totalFree, pools != [])
        invariant !overdrawn ==> Run(requests, trace, pages, buffers) && issued == old(issued) + Joined(pages)
        invariant !overdrawn ==> |trace| == n + 1 && trace[0] == old(pools) && trace[n] == pools
        invariant !overdrawn ==> forall i :: 0 <= i < n && buffers[i] != 0 ==> buffers[i] in issued
        invariant !overdrawn ==> forall i, j :: 0 <= i < j < n && buffers[i] != 0 ==> buffers[i] != buffers[j]
        invariant !overdrawn ==> forall i :: 0 <= i < n && buffers[i] == 0 ==> requests[i].answer == 0
      {
        ghost var before, now, had, log := pools, totalFree, pools != [], issued;
        if !overdrawn {
          PendingStep(requests, free, some, n, now, had);
          Counted();
        }
        var page;
        ghost var given;
        page, given := AllocatePageTableMemory(requests[n].nested, requests[n].answer);
        forall i | n < i < |requests| && requests[i].answer != 0 ensures Fresh(pools, requests[i].answer) {
          FreshAfter(before, pools, requests[n].answer, requests[i].answer);
        }
        assert Request(requests[n].nested, requests[n].answer) == requests[n];
        if !overdrawn {
          Counted();
          RunStep(requests, trace, pages, buffers, pools, given, page);
          if page != 0 {
            ReturnedIsGiven(before, !Ample(now, had), requests[n], pools, given, page);
            LaterIsNew(log, given, page);
          }
        }
        trace, pages := trace + [pools], pages + [given];
        buffers := buffers + [page];
        n := n + 1;
      }
      if !overdrawn {
        PendingDone(requests, free, some, totalFree, pools != []);
      }
    }
  }
}
