/** The processors as the MP services scheduler sees them, and the facts about their states that the
    scheduler's steps keep. */
module MpState {
  datatype CpuState = Idle | Ready | Blocked | Busy | Finished

  /** The processors: which one is the BSP, which are enabled, and the state of each. */
  datatype Cpus = Cpus(bsp: nat, enabled: seq<bool>, state: seq<CpuState>) {
    predicate Shaped() {
      |enabled| == |state| && bsp < |state|
    }

    /** Processor `i` is an enabled AP. */
    predicate Ap(i: int) {
      0 <= i < |state| && i < |enabled| && i != bsp && enabled[i]
    }

    predicate Is(i: int, s: CpuState) {
      Ap(i) && state[i] == s
    }

    function Put(i: nat, s: CpuState): Cpus
      requires i < |state|
    {
      Cpus(bsp, enabled, state[i := s])
    }

    /** The enabled APs that have not come back to Idle. */
    ghost function Active(): set<nat> {
      set i: nat | i < |state| && Ap(i) && state[i] != Idle
    }

    ghost function Executing(): set<nat> {
      set i: nat | i < |state| && Is(i, Busy)
    }

    /** Disabled APs are idle: only an idle AP can be disabled. */
    ghost predicate Rest() {
      forall i :: 0 <= i < |state| && i != bsp && !Ap(i) ==> state[i] == Idle
    }

    /** The enabled APs below `k`, in ascending order. */
    ghost function ApsBelow(k: nat): seq<nat> {
      if k == 0 then [] else if Ap(k - 1) then ApsBelow(k - 1) + [k - 1] else ApsBelow(k - 1)
    }

    /** APs in the set have finished their procedure. */
    function Finish(done: set<nat>): Cpus {
      Cpus(bsp, enabled, seq(|state|, i requires 0 <= i < |state| => if i in done then Finished else state[i]))
    }
  }

  lemma {:induction false} ApsBelowSame(c: Cpus, d: Cpus, k: nat)
    requires c.bsp == d.bsp && c.enabled == d.enabled && |c.state| == |d.state|
    ensures c.ApsBelow(k) == d.ApsBelow(k)
    decreases k
  {
    if k > 0 {
      ApsBelowSame(c, d, k - 1);
    }
  }

  lemma {:induction false} ApsBelowGap(c: Cpus, a: nat, b: nat)
    requires a <= b && forall j :: a <= j < b ==> !c.Ap(j)
    ensures c.ApsBelow(a) == c.ApsBelow(b)
    decreases b
  {
    if a < b {
      ApsBelowGap(c, a, b - 1);
    }
  }

  lemma {:induction false} ApsBelowAscending(c: Cpus, k: nat)
    ensures forall x :: x in c.ApsBelow(k) <==> x < k && c.Ap(x)
    ensures forall i, j :: 0 <= i < j < |c.ApsBelow(k)| ==> c.ApsBelow(k)[i] < c.ApsBelow(k)[j]
    decreases k
  {
    if k > 0 {
      ApsBelowAscending(c, k - 1);
      var s := c.ApsBelow(k - 1);
      assert forall i :: 0 <= i < |s| ==> s[i] in s;
    }
  }

  lemma PutActive(c: Cpus, i: nat, s: CpuState)
    requires c.Shaped() && c.Ap(i)
    ensures c.Put(i, s).Active() == if s == Idle then c.Active() - {i} else c.Active() + {i}
    ensures |c.Put(i, s).Active()|
      == |c.Active()| + (if s == Idle then 0 else 1) - (if c.state[i] == Idle then 0 else 1)
  {
    var d := c.Put(i, s);
    assert i in c.Active() <==> c.state[i] != Idle;
    assert forall j :: d.Ap(j) <==> c.Ap(j);
    assert d.Active() == if s == Idle then c.Active() - {i} else c.Active() + {i};
  }

  lemma PutExecuting(c: Cpus, i: nat, s: CpuState)
    requires c.Shaped() && c.Ap(i)
    ensures c.Put(i, s).Executing() == if s == Busy then c.Executing() + {i} else c.Executing() - {i}
    ensures i in c.Executing() <==> c.state[i] == Busy
  {
    var d := c.Put(i, s);
    assert forall j :: d.Ap(j) <==> c.Ap(j);
  }

  /** An enabled AP that still has, or still awaits, work. */
  ghost predicate Unfinished(c: Cpus, i: int) {
    c.Ap(i) && c.state[i] != Idle && c.state[i] != Finished
  }

  /** Only AP steps lie between the two. */
  ghost predicate OnlyFinished(c: Cpus, d: Cpus) {
    && d.bsp == c.bsp && d.enabled == c.enabled && |d.state| == |c.state|
    && (forall i :: Unfinished(d, i) ==> Unfinished(c, i))
    && (forall i :: c.Ap(i) && c.state[i] != Idle ==> d.state[i] != Idle)
  }

  lemma FinishActive(c: Cpus, done: set<nat>)
    requires c.Shaped() && done <= c.Executing()
    ensures c.Finish(done).Shaped() && c.Finish(done).Active() == c.Active()
    ensures c.Finish(done).Executing() == c.Executing() - done
    ensures OnlyFinished(c, c.Finish(done))
  {
  }

  // ----- one at a time ------------------------------------------------------------------------

  /** The one AP under way in single-thread mode: those below it are done, those above it wait. */
  ghost predicate OneAtATime(c: Cpus, front: nat) {
    && c.Shaped() && front <= |c.state|
    && (front < |c.state| ==> c.Ap(front) && c.state[front] != Idle && c.state[front] != Blocked)
    && (forall j :: c.Ap(j) && j < front ==> c.state[j] == Idle)
    && (forall j :: c.Ap(j) && j > front ==> c.state[j] == Blocked)
  }

  /** All at once: the APs from `front` on have still to be dispatched. */
  ghost predicate AllAtOnce(c: Cpus, front: nat) {
    && c.Shaped() && front <= |c.state|
    && forall j :: c.Ap(j) ==> c.state[j] != Blocked && (c.state[j] == Ready <==> j >= front)
  }

  /** How far the attempts to dispatch have come. */
  ghost function Attempted(c: Cpus, single: bool, front: nat): nat {
    if single && front < |c.state| && c.state[front] != Ready then front + 1 else front
  }

  ghost predicate Scheduled(c: Cpus, single: bool, front: nat, attempts: seq<nat>) {
    && c.Rest()
    && (if single then OneAtATime(c, front) else AllAtOnce(c, front))
    && attempts == c.ApsBelow(Attempted(c, single, front))
  }

  /** No AP below `i` is waiting to be dispatched. */
  ghost predicate NoneReadyBelow(c: Cpus, i: int) {
    forall j :: c.Ap(j) && j < i ==> c.state[j] != Ready
  }

  lemma FinishScheduled(c: Cpus, single: bool, front: nat, attempts: seq<nat>, done: set<nat>)
    requires Scheduled(c, single, front, attempts) && done <= c.Executing()
    ensures Scheduled(c.Finish(done), single, front, attempts)
    ensures forall i :: NoneReadyBelow(c, i) ==> NoneReadyBelow(c.Finish(done), i)
  {
    var d := c.Finish(done);
    ApsBelowSame(c, d, Attempted(c, single, front));
  }

  /** Dispatching a ready AP advances the attempts by that AP. */
  lemma DispatchScheduled(c: Cpus, single: bool, front: nat, attempts: seq<nat>, i: nat)
    requires Scheduled(c, single, front, attempts) && c.Is(i, Ready) && NoneReadyBelow(c, i)
    ensures single ==> front == i && c.Executing() == {}
    ensures Scheduled(c.Put(i, Busy), single, if single then i else i + 1, attempts + [i])
    ensures NoneReadyBelow(c.Put(i, Busy), i + 1) && NoneReadyBelow(c.Put(i, Busy), i)
  {
    var d := c.Put(i, Busy);
    ApsBelowSame(c, d, i + 1);
    if !single {
      ApsBelowGap(c, front, i);
    }
  }

  /** The AP under way is done (or could not start) and the next blocked one, if any, gets ready. */
  lemma AdvanceScheduled(c: Cpus, front: nat, attempts: seq<nat>, next: nat)
    requires Scheduled(c, true, front, attempts) && front < |c.state| && c.state[front] != Ready
    requires front < next <= |c.state| && (next < |c.state| ==> c.Is(next, Blocked))
    requires forall j :: c.Ap(j) && front < j < next ==> c.state[j] != Blocked
    ensures next < |c.state| ==> Scheduled(c.Put(front, Idle).Put(next, Ready), true, next, attempts)
    ensures next == |c.state| ==> Scheduled(c.Put(front, Idle), true, next, attempts)
  {
    var d := if next < |c.state| then c.Put(front, Idle).Put(next, Ready) else c.Put(front, Idle);
    ApsBelowSame(c, d, next);
    ApsBelowGap(c, front + 1, next);
  }

  /** Collecting a finished AP in parallel mode. */
  lemma CollectScheduled(c: Cpus, front: nat, attempts: seq<nat>, i: nat)
    requires Scheduled(c, false, front, attempts) && c.Ap(i) && c.state[i] != Ready
    ensures Scheduled(c.Put(i, Idle), false, front, attempts)
  {
    ApsBelowSame(c, c.Put(i, Idle), front);
  }

  /** The processor after `i` is retired, with `next` the first blocked one (or none). */
  function Retired(c: Cpus, single: bool, i: nat, next: nat): Cpus
    requires i < |c.state|
  {
    if single && next < |c.state| then c.Put(i, Idle).Put(next, Ready) else c.Put(i, Idle)
  }

  ghost predicate FirstBlocked(c: Cpus, next: nat) {
    && next <= |c.state|
    && (next < |c.state| ==> next != c.bsp && c.state[next] == Blocked)
    && forall j :: 0 <= j < next && j != c.bsp ==> c.state[j] != Blocked
  }

  lemma RetireScheduled(c: Cpus, single: bool, front: nat, attempts: seq<nat>, i: nat, next: nat)
    requires Scheduled(c, single, front, attempts) && (c.Is(i, Busy) || c.Is(i, Finished))
    requires NoneReadyBelow(c, i) && (single ==> FirstBlocked(c, next))
    ensures Scheduled(Retired(c, single, i, next), single, if single then next else front, attempts)
    ensures NoneReadyBelow(Retired(c, single, i, next), i + 1)
  {
    if single {
      assert front == i;
      AdvanceScheduled(c, front, attempts, next);
    } else {
      CollectScheduled(c, front, attempts, i);
    }
  }

  lemma RetireActive(c: Cpus, single: bool, front: nat, attempts: seq<nat>, i: nat, next: nat)
    requires Scheduled(c, single, front, attempts) && (c.Is(i, Busy) || c.Is(i, Finished))
    requires single ==> FirstBlocked(c, next)
    ensures |Retired(c, single, i, next).Active()| == |c.Active()| - 1
    ensures Retired(c, single, i, next).Executing() == c.Executing() - {i}
  {
    PutActive(c, i, Idle);
    PutExecuting(c, i, Idle);
    if single && next < |c.state| {
      PutActive(c.Put(i, Idle), next, Ready);
      PutExecuting(c.Put(i, Idle), next, Ready);
    }
  }

  // ----- collecting ---------------------------------------------------------------------------

  /** An enabled AP that has still to be dispatched. */
  ghost predicate Waiting(c: Cpus, j: int) {
    c.Is(j, Ready) || c.Is(j, Blocked)
  }

  /** Apart from `i`, no AP is dispatched, finishes or is collected. */
  ghost predicate Settled(c: Cpus, d: Cpus, i: nat) {
    && d.bsp == c.bsp && d.enabled == c.enabled && |d.state| == |c.state|
    && (forall j :: 0 <= j < |c.state| && j != i && !Waiting(c, j) ==> d.state[j] == c.state[j])
    && (forall j :: Waiting(c, j) && j != i ==> Waiting(d, j))
  }

  lemma SettledTransitive(c: Cpus, d: Cpus, e: Cpus, i: nat)
    requires Settled(c, d, i) && Settled(d, e, i)
    ensures Settled(c, e, i)
  {
    assert forall j :: c.Ap(j) <==> d.Ap(j);
    forall j | 0 <= j < |c.state| && j != i && !Waiting(c, j) ensures e.state[j] == c.state[j] {
      assert d.state[j] == c.state[j];
    }
  }

  lemma PutSettled(c: Cpus, i: nat, s: CpuState)
    requires i < |c.state|
    ensures Settled(c, c.Put(i, s), i)
  {
  }

  lemma RetireSettled(c: Cpus, single: bool, front: nat, attempts: seq<nat>, i: nat, next: nat)
    requires Scheduled(c, single, front, attempts)
    requires (c.Is(i, Busy) || c.Is(i, Finished)) && (single ==> FirstBlocked(c, next))
    ensures Settled(c, Retired(c, single, i, next), i) && Retired(c, single, i, next).state[i] == Idle
  {
  }

  // ----- timer ticks --------------------------------------------------------------------------

  /** Some step of the APs from `a` on and before `b` lets `j` finish. */
  ghost predicate Came(finishes: nat -> set<nat>, a: nat, b: nat, j: nat)
    decreases b
  {
    a < b && (Came(finishes, a, b - 1, j) || j in finishes(b - 1))
  }

  /** What a tick of the polling timer that began at step `start` has made of processor `j`, after `visits`
      visits and `steps` steps of the APs: an AP that had finished when it was visited is collected, one that
      finished later waits for the next tick, and nothing else changes. */
  ghost function TickState(c: Cpus, j: nat, finishes: nat -> set<nat>, start: nat, visits: nat, steps: nat): CpuState
    requires j < |c.state|
  {
    if c.Is(j, Finished) then (if j < visits then Idle else Finished)
    else if !c.Is(j, Busy) then c.state[j]
    else if j < visits && Came(finishes, start, start + j + 1, j) then Idle
    else if Came(finishes, start, start + steps, j) then Finished
    else Busy
  }

  ghost predicate Ticked(c: Cpus, d: Cpus, finishes: nat -> set<nat>, start: nat, visits: nat, steps: nat) {
    && d.bsp == c.bsp && d.enabled == c.enabled && |d.state| == |c.state|
    && forall j :: 0 <= j < |c.state| ==> d.state[j] == TickState(c, j, finishes, start, visits, steps)
  }

  /** A whole tick: one visit to each processor, and one step of the APs before each. */
  ghost predicate OneTick(c: Cpus, d: Cpus, finishes: nat -> set<nat>, start: nat) {
    Ticked(c, d, finishes, start, |c.state|, |c.state|)
  }

  /** The step of the APs at which tick `k` begins, with `n` steps to a tick. */
  ghost function StepAt(start: nat, n: nat, k: nat): nat {
    start + k * n
  }

  lemma StepAtNext(start: nat, n: nat, k: nat)
    ensures StepAt(start, n, 0) == start && StepAt(start, n, k + 1) == StepAt(start, n, k) + n
  {
  }

  /** The states after successive ticks, each determined by the one before and the APs' steps. */
  ghost predicate TickTrace(trace: seq<Cpus>, finishes: nat -> set<nat>, start: nat) {
    |trace| > 0 &&
    forall k :: 0 <= k < |trace| - 1 ==> OneTick(trace[k], trace[k + 1], finishes, StepAt(start, |trace[0].state|, k))
  }

  lemma TickTraceStep(trace: seq<Cpus>, d: Cpus, finishes: nat -> set<nat>, start: nat)
    requires TickTrace(trace, finishes, start)
    requires OneTick(trace[|trace| - 1], d, finishes, StepAt(start, |trace[0].state|, |trace| - 1))
    ensures TickTrace(trace + [d], finishes, start)
  {
    hide OneTick, StepAt;
  }

  lemma TickedStart(c: Cpus, finishes: nat -> set<nat>, start: nat)
    ensures Ticked(c, c, finishes, start, 0, 0)
  {
  }

  lemma TickedFinish(c: Cpus, d: Cpus, finishes: nat -> set<nat>, start: nat, visits: nat, steps: nat)
    requires Ticked(c, d, finishes, start, visits, steps)
    ensures Ticked(c, d.Finish(d.Executing() * finishes(start + steps)), finishes, start, visits, steps + 1)
  {
    var e := d.Finish(d.Executing() * finishes(start + steps));
    forall j | 0 <= j < |c.state| ensures e.state[j] == TickState(c, j, finishes, start, visits, steps + 1) {
      assert c.Ap(j) <==> d.Ap(j);
      assert d.state[j] == TickState(c, j, finishes, start, visits, steps);
      assert Came(finishes, start, start + steps + 1, j) <==>
        Came(finishes, start, start + steps, j) || j in finishes(start + steps);
    }
  }

  lemma TickedVisit(c: Cpus, d: Cpus, finishes: nat -> set<nat>, start: nat, k: nat)
    requires Ticked(c, d, finishes, start, k, k + 1) && k < |d.state|
    ensures Ticked(c, if d.Is(k, Finished) then d.Put(k, Idle) else d, finishes, start, k + 1, k + 1)
  {
    var e := if d.Is(k, Finished) then d.Put(k, Idle) else d;
    assert c.Ap(k) <==> d.Ap(k);
    forall j | 0 <= j < |c.state| ensures e.state[j] == TickState(c, j, finishes, start, k + 1, k + 1) {
      assert d.state[j] == TickState(c, j, finishes, start, k, k + 1);
    }
  }

  /** Without visits, APs only finish. */
  lemma TickedOnlyFinished(c: Cpus, d: Cpus, finishes: nat -> set<nat>, start: nat, steps: nat)
    requires Ticked(c, d, finishes, start, 0, steps)
    ensures OnlyFinished(c, d)
  {
    forall i | 0 <= i < |c.state| ensures d.state[i] == TickState(c, i, finishes, start, 0, steps) {
    }
    assert forall i :: c.Ap(i) <==> d.Ap(i);
  }

  // ----- passes of a blocking wait ------------------------------------------------------------

  /** The processors and the dispatches attempted so far. */
  datatype Snapshot = Snapshot(cpus: Cpus, attempts: seq<nat>)

  /** What has become of an AP some steps after an attempt to dispatch it. */
  ghost function Launched(j: nat, accepted: bool, finishes: nat -> set<nat>, a: nat, b: nat): CpuState {
    if !accepted then Idle else if Came(finishes, a, b, j) then Finished else Busy
  }

  /** Attempt `m` was made on an AP that was waiting, when it was visited. */
  ghost predicate Tried(a: Snapshot, b: Snapshot, accepts: nat -> bool, finishes: nat -> set<nat>, start: nat,
    visits: nat, steps: nat, m: nat)
    requires m < |b.attempts|
  {
    var j := b.attempts[m];
    && j < visits && Waiting(a.cpus, j) && j < |b.cpus.state|
    && b.cpus.state[j] == Launched(j, accepts(m), finishes, start + j + 1, start + steps)
  }

  /** What a pass of the blocking wait that began at step `start` has done after `visits` visits and `steps`
      steps of the APs.  APs that were idle, executing or finished fare as in a tick.  Of those waiting, the
      ones attempted were dispatched when they were visited, and the others wait still. */
  ghost predicate Swept(a: Snapshot, b: Snapshot, accepts: nat -> bool, finishes: nat -> set<nat>, start: nat,
    visits: nat, steps: nat)
  {
    && b.cpus.bsp == a.cpus.bsp && b.cpus.enabled == a.cpus.enabled && |b.cpus.state| == |a.cpus.state|
    && a.attempts <= b.attempts
    && (forall j :: 0 <= j < |a.cpus.state| && !Waiting(a.cpus, j) ==>
          b.cpus.state[j] == TickState(a.cpus, j, finishes, start, visits, steps))
    && (forall m :: |a.attempts| <= m < |b.attempts| ==> Tried(a, b, accepts, finishes, start, visits, steps, m))
    && (forall j :: Waiting(a.cpus, j) && j !in b.attempts[|a.attempts|..] ==> Waiting(b.cpus, j))
  }

  lemma SweptStart(a: Snapshot, accepts: nat -> bool, finishes: nat -> set<nat>, start: nat)
    ensures Swept(a, a, accepts, finishes, start, 0, 0)
  {
  }

  lemma CameStep(finishes: nat -> set<nat>, a: nat, b: nat, j: nat)
    requires a <= b
    ensures Came(finishes, a, b + 1, j) <==> Came(finishes, a, b, j) || j in finishes(b)
  {
  }

  lemma SweptFinish(a: Snapshot, b: Snapshot, accepts: nat -> bool, finishes: nat -> set<nat>, start: nat, k: nat)
    requires Swept(a, b, accepts, finishes, start, k, k)
    ensures Swept(a, Snapshot(b.cpus.Finish(b.cpus.Executing() * finishes(start + k)), b.attempts), accepts, finishes,
              start, k, k + 1)
  {
    var e := Snapshot(b.cpus.Finish(b.cpus.Executing() * finishes(start + k)), b.attempts);
    var steps := k + 1;
    assert forall j :: b.cpus.Ap(j) <==> a.cpus.Ap(j);
    forall j | 0 <= j < |a.cpus.state| && !Waiting(a.cpus, j)
      ensures e.cpus.state[j] == TickState(a.cpus, j, finishes, start, k, k + 1)
    {
      assert b.cpus.state[j] == TickState(a.cpus, j, finishes, start, k, k);
      CameStep(finishes, start, start + k, j);
    }
    forall m | |a.attempts| <= m < |b.attempts| ensures Tried(a, e, accepts, finishes, start, k, steps, m) {
      assert Tried(a, b, accepts, finishes, start, k, k, m);
      CameStep(finishes, start + b.attempts[m] + 1, start + k, b.attempts[m]);
    }
  }

  lemma CameNever(finishes: nat -> set<nat>, a: nat, j: nat)
    ensures !Came(finishes, a, a, j)
  {
  }

  /** The visit to processor `k` leaves it alone, collects it, or attempts to dispatch it. */
  ghost predicate Visited(b: Snapshot, e: Snapshot, accepts: nat -> bool, k: nat) {
    && k < |b.cpus.state| && Settled(b.cpus, e.cpus, k)
    && if b.cpus.Is(k, Ready) then
         e.attempts == b.attempts + [k] && e.cpus.state[k] == if accepts(|b.attempts|) then Busy else Idle
       else e.attempts == b.attempts && e.cpus.state[k] == if b.cpus.Is(k, Finished) then Idle else b.cpus.state[k]
  }

  lemma VisitedNothing(b: Snapshot, accepts: nat -> bool, k: nat)
    requires k < |b.cpus.state| && !b.cpus.Is(k, Ready) && !b.cpus.Is(k, Finished)
    ensures Visited(b, b, accepts, k)
  {
  }

  /** A processor that has not been visited has not been attempted. */
  lemma VisitedBefore(a: Snapshot, b: Snapshot, accepts: nat -> bool, finishes: nat -> set<nat>, start: nat, k: nat)
    requires Swept(a, b, accepts, finishes, start, k, k + 1) && k < |b.cpus.state|
    ensures k !in b.attempts[|a.attempts|..]
    ensures b.cpus.Is(k, Ready) ==> Waiting(a.cpus, k)
    ensures Waiting(a.cpus, k) ==> Waiting(b.cpus, k)
  {
    var recent := b.attempts[|a.attempts|..];
    forall i | 0 <= i < |recent| ensures recent[i] != k {
      assert Tried(a, b, accepts, finishes, start, k, k + 1, |a.attempts| + i);
    }
    assert b.cpus.Ap(k) <==> a.cpus.Ap(k);
    if !Waiting(a.cpus, k) {
      assert b.cpus.state[k] == TickState(a.cpus, k, finishes, start, k, k + 1);
    }
  }

  lemma SweptVisit(a: Snapshot, b: Snapshot, e: Snapshot, accepts: nat -> bool, finishes: nat -> set<nat>,
    start: nat, k: nat)
    requires Swept(a, b, accepts, finishes, start, k, k + 1) && Visited(b, e, accepts, k)
    ensures Swept(a, e, accepts, finishes, start, k + 1, k + 1)
  {
    assert forall j :: b.cpus.Ap(j) <==> a.cpus.Ap(j);
    VisitedBefore(a, b, accepts, finishes, start, k);
    var visits, known := k + 1, |a.attempts|;
    forall j | 0 <= j < |a.cpus.state| && !Waiting(a.cpus, j)
      ensures e.cpus.state[j] == TickState(a.cpus, j, finishes, start, k + 1, k + 1)
    {
      assert b.cpus.state[j] == TickState(a.cpus, j, finishes, start, k, k + 1);
    }
    forall m | known <= m < |e.attempts| ensures Tried(a, e, accepts, finishes, start, visits, visits, m) {
      if m < |b.attempts| {
        assert Tried(a, b, accepts, finishes, start, k, visits, m);
      }
    }
    assert e.attempts[known..] == b.attempts[known..] + if b.cpus.Is(k, Ready) then [k] else [];
  }

  ghost predicate OnePass(a: Snapshot, b: Snapshot, accepts: nat -> bool, finishes: nat -> set<nat>, start: nat) {
    && Swept(a, b, accepts, finishes, start, |a.cpus.state|, |a.cpus.state|)
    && NoneReadyBelow(b.cpus, |b.cpus.state|)
  }

  /** The snapshots after successive passes, and none leaves an AP ready. */
  ghost predicate PassTrace(trace: seq<Snapshot>, accepts: nat -> bool, finishes: nat -> set<nat>, start: nat) {
    |trace| > 0 &&
    forall k :: 0 <= k < |trace| - 1 ==> OnePass(trace[k], trace[k + 1], accepts, finishes,
                                           StepAt(start, |trace[0].cpus.state|, k))
  }

  lemma PassTraceStep(trace: seq<Snapshot>, d: Snapshot, accepts: nat -> bool, finishes: nat -> set<nat>, start: nat)
    requires PassTrace(trace, accepts, finishes, start)
    requires OnePass(trace[|trace| - 1], d, accepts, finishes, StepAt(start, |trace[0].cpus.state|, |trace| - 1))
    ensures PassTrace(trace + [d], accepts, finishes, start)
  {
    hide OnePass, StepAt;
  }

  /** With no AP left ready and some active, something was attempted; all at once, everything was. */
  lemma AttemptedSome(c: Cpus, single: bool, front: nat, attempts: seq<nat>)
    requires Scheduled(c, single, front, attempts) && NoneReadyBelow(c, |c.state|) && c.Active() != {}
    ensures attempts != [] && (!single ==> attempts == c.ApsBelow(|c.state|))
  {
    var i :| i in c.Active();
    ApsBelowAscending(c, |c.state|);
    if single {
      ApsBelowAscending(c, Attempted(c, single, front));
    } else {
      ApsBelowGap(c, front, |c.state|);
    }
  }

  lemma FinishNothing(c: Cpus)
    ensures c.Finish({}) == c
  {
  }

  /** A schedule that has attempted nothing has nothing executing or finished. */
  lemma NothingStarted(c: Cpus, single: bool, front: nat)
    requires Scheduled(c, single, front, [])
    ensures c.Executing() == {} && forall j :: c.Ap(j) ==> c.state[j] != Finished && c.state[j] != Busy
  {
    ApsBelowAscending(c, Attempted(c, single, front));
  }

  /** What the dispatch loop of a parallel non-blocking call, begun in `c` at step `start`, has made of the
      processors after `visits` visits and `steps` steps of the APs: the ready APs visited were dispatched when
      they were visited, and nothing else has changed. */
  ghost predicate Begun(c: Cpus, d: Cpus, finishes: nat -> set<nat>, start: nat, visits: nat, steps: nat) {
    && d.bsp == c.bsp && d.enabled == c.enabled && |d.state| == |c.state|
    && forall j :: 0 <= j < |c.state| ==>
         d.state[j] ==
         if c.Is(j, Ready) && j < visits then Launched(j, true, finishes, start + j + 1, start + steps) else c.state[j]
  }

  lemma BegunStart(c: Cpus, finishes: nat -> set<nat>, start: nat)
    ensures Begun(c, c, finishes, start, 0, 0)
  {
  }

  lemma BegunFinish(c: Cpus, d: Cpus, finishes: nat -> set<nat>, start: nat, k: nat)
    requires Begun(c, d, finishes, start, k, k) && c.Executing() == {}
    ensures Begun(c, d.Finish(d.Executing() * finishes(start + k)), finishes, start, k, k + 1)
  {
    var e := d.Finish(d.Executing() * finishes(start + k));
    forall j | 0 <= j < |c.state|
      ensures e.state[j] ==
        if c.Is(j, Ready) && j < k then Launched(j, true, finishes, start + j + 1, start + k + 1) else c.state[j]
    {
      if c.Is(j, Ready) && j < k {
        CameStep(finishes, start + j + 1, start + k, j);
        assert d.Is(j, Busy) <==> d.state[j] == Busy;
      } else {
        assert j !in c.Executing();
      }
    }
  }

  lemma BegunVisit(c: Cpus, d: Cpus, finishes: nat -> set<nat>, start: nat, k: nat)
    requires Begun(c, d, finishes, start, k, k + 1) && k < |d.state|
    ensures Begun(c, if d.Is(k, Ready) then d.Put(k, Busy) else d, finishes, start, k + 1, k + 1)
  {
    CameNever(finishes, start + k + 1, k);
    assert d.state[k] == c.state[k];
  }

  lemma BegunActive(c: Cpus, d: Cpus, finishes: nat -> set<nat>, start: nat, k: nat, i: nat)
    requires Begun(c, d, finishes, start, k, k) && c.Executing() == {} && d.Is(i, Busy)
    ensures c.Active() != {}
  {
    assert i !in c.Executing();
    assert i in c.Active();
  }

  lemma ReadyActive(c: Cpus, i: nat)
    requires c.Is(i, Ready)
    ensures |c.Active()| > 0
  {
    assert i in c.Active();
  }

  lemma NoneActiveBefore(c: Cpus, d: Cpus)
    requires c.bsp == d.bsp && c.enabled == d.enabled && |c.state| == |d.state| && forall j :: !d.Ap(j)
    ensures c.Active() == {}
  {
    assert forall j :: c.Ap(j) <==> d.Ap(j);
  }

  lemma NoneAttempted(c: Cpus, attempts: seq<nat>)
    requires Scheduled(c, false, |c.state|, attempts) && attempts == []
    ensures forall j :: !c.Ap(j)
  {
    ApsBelowAscending(c, |c.state|);
  }

  lemma DispatchedFront(c: Cpus, front: nat, attempts: seq<nat>)
    requires Scheduled(c, false, front, attempts) && NoneReadyBelow(c, |c.state|)
    ensures Scheduled(c, false, |c.state|, attempts)
  {
    ApsBelowGap(c, front, |c.state|);
  }

  lemma AttemptsAre(c: Cpus, front: nat, attempts: seq<nat>)
    requires Scheduled(c, false, front, attempts)
    ensures attempts == c.ApsBelow(front)
  {
  }

  /** With every AP dispatched, the attempts are all enabled APs; if there are none, there were none to await. */
  lemma AllStarted(entry: Cpus, c: Cpus, front: nat, attempts: seq<nat>)
    requires Scheduled(c, false, front, attempts) && NoneReadyBelow(c, |c.state|)
    requires entry.bsp == c.bsp && entry.enabled == c.enabled && |entry.state| == |c.state|
    ensures Scheduled(c, false, |c.state|, attempts) && attempts == c.ApsBelow(|c.state|)
    ensures attempts == [] ==> entry.Active() == {}
  {
    DispatchedFront(c, front, attempts);
    AttemptsAre(c, |c.state|, attempts);
    if attempts == [] {
      NoneAttempted(c, attempts);
      NoneActiveBefore(entry, c);
    }
  }

  lemma NoneBelowZero(c: Cpus)
    ensures NoneReadyBelow(c, 0)
  {
  }

  lemma NoneBelowNext(c: Cpus, i: nat)
    requires NoneReadyBelow(c, i) && !c.Is(i, Ready)
    ensures NoneReadyBelow(c, i + 1)
  {
  }

  ghost function ThisState(c: Cpus, j: nat, i: nat, finishes: nat -> set<nat>, t: nat): CpuState
    requires j < |c.state|
  {
    var s := if c.Is(j, Busy) && j in finishes(t) then Finished else c.state[j];
    if j == i && s == Finished then Idle else s
  }

  /** A tick of the timer of a call for AP `i`, at step `t` of the APs: the APs finish that do so at that step,
      and AP `i` is collected if it has. */
  ghost predicate ThisTick(c: Cpus, d: Cpus, i: nat, finishes: nat -> set<nat>, t: nat) {
    && d.bsp == c.bsp && d.enabled == c.enabled && |d.state| == |c.state|
    && forall j :: 0 <= j < |c.state| ==> d.state[j] == ThisState(c, j, i, finishes, t)
  }

  lemma ThisTicked(c: Cpus, i: nat, finishes: nat -> set<nat>, t: nat)
    requires c.Shaped() && c.Ap(i)
    ensures var e := c.Finish(c.Executing() * finishes(t));
      ThisTick(c, if e.state[i] == Finished then e.Put(i, Idle) else e, i, finishes, t)
  {
  }

  /** Apart from `i`, exactly those executing APs have finished that do so in `steps` steps from `start` on. */
  ghost predicate OthersAdvance(c: Cpus, d: Cpus, i: nat, finishes: nat -> set<nat>, start: nat, steps: nat) {
    && d.bsp == c.bsp && d.enabled == c.enabled && |d.state| == |c.state|
    && forall j :: 0 <= j < |c.state| && j != i ==> d.state[j] == TickState(c, j, finishes, start, 0, steps)
  }

  lemma OthersStart(c: Cpus, i: nat, finishes: nat -> set<nat>, start: nat)
    ensures OthersAdvance(c, c, i, finishes, start, 0)
  {
  }

  lemma OthersPut(c: Cpus, d: Cpus, i: nat, s: CpuState, finishes: nat -> set<nat>, start: nat, steps: nat)
    requires OthersAdvance(c, d, i, finishes, start, steps) && i < |d.state|
    ensures OthersAdvance(c, d.Put(i, s), i, finishes, start, steps)
  {
    forall j | 0 <= j < |c.state| && j != i
      ensures d.Put(i, s).state[j] == TickState(c, j, finishes, start, 0, steps)
    {
      assert d.state[j] == TickState(c, j, finishes, start, 0, steps);
    }
  }

  lemma OthersFinish(c: Cpus, d: Cpus, i: nat, finishes: nat -> set<nat>, start: nat, steps: nat)
    requires OthersAdvance(c, d, i, finishes, start, steps)
    ensures OthersAdvance(c, d.Finish(d.Executing() * finishes(start + steps)), i, finishes, start, steps + 1)
  {
    var e := d.Finish(d.Executing() * finishes(start + steps));
    forall j | 0 <= j < |c.state| && j != i ensures e.state[j] == TickState(c, j, finishes, start, 0, steps + 1) {
      assert c.Ap(j) <==> d.Ap(j);
      assert d.state[j] == TickState(c, j, finishes, start, 0, steps);
      CameStep(finishes, start, start + steps, j);
    }
  }

  /** A change of `i` alone, followed by steps. */
  lemma OthersAfter(c: Cpus, d: Cpus, e: Cpus, i: nat, finishes: nat -> set<nat>, start: nat, steps: nat)
    requires OthersAdvance(c, d, i, finishes, start, 0) && OthersAdvance(d, e, i, finishes, start, steps)
    ensures OthersAdvance(c, e, i, finishes, start, steps)
  {
    forall j | 0 <= j < |c.state| && j != i ensures e.state[j] == TickState(c, j, finishes, start, 0, steps) {
      assert c.Ap(j) <==> d.Ap(j);
      assert d.state[j] == TickState(c, j, finishes, start, 0, 0);
      assert e.state[j] == TickState(d, j, finishes, start, 0, steps);
    }
  }

  /** An AP unfinished at step `start` is so still when a pass that begins then looks at it. */
  ghost predicate LeftAt(c: Cpus, j: nat, finishes: nat -> set<nat>, start: nat) {
    Unfinished(c, j) && !(c.Is(j, Busy) && Came(finishes, start, start + j + 1, j))
  }

  lemma LeftAtVisit(c: Cpus, d: Cpus, i: nat, finishes: nat -> set<nat>, start: nat)
    requires Ticked(c, d, finishes, start, 0, i + 1) && i < |d.state|
    ensures Unfinished(d, i) <==> LeftAt(c, i, finishes, start)
  {
    assert c.Ap(i) <==> d.Ap(i);
    assert d.state[i] == TickState(c, i, finishes, start, 0, i + 1);
  }

  lemma LeftInside(c: Cpus, finishes: nat -> set<nat>, start: nat)
    ensures forall j: nat :: LeftAt(c, j, finishes, start) ==> j < |c.state|
  {
  }

  /** Without visits no AP gets ready, and none leaves the active ones. */
  lemma ReadyStays(c: Cpus, d: Cpus, finishes: nat -> set<nat>, start: nat)
    requires NoneReadyBelow(c, |c.state|) && c.Active() != {} && |c.state| == |d.state|
    requires d == c || Ticked(c, d, finishes, start, 0, |c.state|)
    ensures NoneReadyBelow(d, |d.state|) && d.Active() != {}
  {
    var i :| i in c.Active();
    if d != c {
      assert forall j :: c.Ap(j) <==> d.Ap(j);
      forall j | d.Ap(j) ensures c.state[j] != Ready ==> d.state[j] != Ready {
        assert d.state[j] == TickState(c, j, finishes, start, 0, |c.state|);
      }
      assert d.state[i] == TickState(c, i, finishes, start, 0, |c.state|);
      assert i in d.Active();
    }
  }

  lemma StillActive(c: Cpus, d: Cpus, i: int)
    requires OnlyFinished(c, d) && Unfinished(c, i)
    ensures d.Ap(i) && d.state[i] != Idle
  {
  }

  lemma UnfinishedIff(c: Cpus, single: bool, front: nat, attempts: seq<nat>, i: nat)
    requires Scheduled(c, single, front, attempts) && i < |c.state|
    ensures Unfinished(c, i) <==> i != c.bsp && c.state[i] != Idle && c.state[i] != Finished
  {
  }

  lemma OnlyFinishedReflexive(c: Cpus)
    ensures OnlyFinished(c, c)
  {
  }

  lemma OnlyFinishedTransitive(c: Cpus, d: Cpus, e: Cpus)
    requires OnlyFinished(c, d) && OnlyFinished(d, e)
    ensures OnlyFinished(c, e)
  {
  }

  /** In parallel mode with every AP dispatched, no AP is ready. */
  lemma AllDispatched(c: Cpus, attempts: seq<nat>, i: nat)
    requires Scheduled(c, false, |c.state|, attempts)
    ensures NoneReadyBelow(c, i)
  {
  }

  lemma ScheduledRest(c: Cpus, single: bool, front: nat, attempts: seq<nat>)
    requires Scheduled(c, single, front, attempts)
    ensures c.Rest()
  {
  }

  lemma EmptyActive(c: Cpus)
    ensures |c.Active()| == 0 <==> c.Active() == {}
  {
  }

  lemma QuietFinished(c: Cpus)
    ensures c.Active() == {} ==> forall i :: !Unfinished(c, i)
  {
    if c.Active() == {} {
      forall i ensures !Unfinished(c, i) {
        assert i >= 0 ==> i !in c.Active();
      }
    }
  }

  /** With nothing active every enabled AP has been attempted, in ascending order. */
  lemma QuietMeansAll(c: Cpus, single: bool, front: nat, attempts: seq<nat>)
    requires Scheduled(c, single, front, attempts) && c.Active() == {}
    ensures attempts == c.ApsBelow(|c.state|)
    ensures forall i :: c.Ap(i) ==> c.state[i] == Idle
  {
    assert forall i :: c.Ap(i) && c.state[i] != Idle ==> i in c.Active();
    ApsBelowGap(c, front, |c.state|);
  }

  lemma QuietAtRest(c: Cpus, single: bool, front: nat, attempts: seq<nat>)
    requires Scheduled(c, single, front, attempts) && |c.Active()| == 0
    ensures attempts == c.ApsBelow(|c.state|) && c.Rest() && c.Executing() == {}
    ensures forall i :: c.Ap(i) ==> c.state[i] == Idle
  {
    QuietMeansAll(c, single, front, attempts);
  }

  /** The APs of the attempts that the firmware refused; `accepts(k)` is its answer to the k-th. */
  ghost function Refusals(attempts: seq<nat>, accepts: nat -> bool): set<nat> {
    if attempts == [] then {}
    else
      var n := |attempts| - 1;
      Refusals(attempts[..n], accepts) + if accepts(n) then {} else {attempts[n]}
  }

  lemma RefusalsStep(attempts: seq<nat>, accepts: nat -> bool, i: nat)
    ensures Refusals(attempts + [i], accepts) ==
      if accepts(|attempts|) then Refusals(attempts, accepts) else Refusals(attempts, accepts) + {i}
  {
    assert (attempts + [i])[..|attempts|] == attempts;
  }

  lemma NoRefusals(accepts: nat -> bool)
    ensures Refusals([], accepts) == {}
  {
  }

  // ----- preparation --------------------------------------------------------------------------

  ghost function ApSet(c: Cpus, k: nat): (r: set<nat>)
    requires k <= |c.state|
    ensures forall j: nat :: j in r <==> j < k && c.Ap(j)
    ensures |r| == |c.ApsBelow(k)|
  {
    if k == 0 then {} else if c.Ap(k - 1) then ApSet(c, k - 1) + {k - 1} else ApSet(c, k - 1)
  }

  /** Enabling or disabling one AP changes the number of enabled APs by that one. */
  lemma ToggleCount(c: Cpus, i: nat, enable: bool)
    requires c.Shaped() && i < |c.state| && i != c.bsp
    ensures var d := Cpus(c.bsp, c.enabled[i := enable], c.state);
      |d.ApsBelow(|c.state|)| == |c.ApsBelow(|c.state|)| - (if c.enabled[i] then 1 else 0) + (if enable then 1 else 0)
  {
    var d := Cpus(c.bsp, c.enabled[i := enable], c.state);
    var n := |c.state|;
    assert forall j :: j != i ==> (d.Ap(j) <==> c.Ap(j));
    assert ApSet(d, n) - {i} == ApSet(c, n) - {i};
    assert |ApSet(d, n)| == |ApSet(d, n) - {i}| + (if enable then 1 else 0);
    assert |ApSet(c, n)| == |ApSet(c, n) - {i}| + (if c.enabled[i] then 1 else 0);
  }

  /** The first `k` processors are prepared: ready, or ready for the first and blocked for the others. */
  ghost predicate Prepared(entry: Cpus, c: Cpus, single: bool, k: nat) {
    && c.Shaped() && k <= |c.state| && c.bsp == entry.bsp && c.enabled == entry.enabled && |c.state| == |entry.state|
    && (forall j :: 0 <= j < |c.state| && (j >= k || !c.Ap(j)) ==> c.state[j] == entry.state[j])
    && (forall j :: 0 <= j < k && c.Ap(j) ==> c.state[j] == if single && c.ApsBelow(j) != [] then Blocked else Ready)
  }

  /** A parallel non-blocking call that began in `entry` has dispatched every AP among the first `visits`
      processors when it visited it, and the other APs are ready. */
  ghost predicate Started(entry: Cpus, d: Cpus, finishes: nat -> set<nat>, start: nat, visits: nat) {
    && d.bsp == entry.bsp && d.enabled == entry.enabled && |d.state| == |entry.state|
    && forall j :: 0 <= j < |d.state| ==>
         d.state[j] ==
         if !d.Ap(j) then entry.state[j]
         else if j < visits then Launched(j, true, finishes, start + j + 1, start + visits)
         else Ready
  }

  lemma BegunStarted(entry: Cpus, c: Cpus, d: Cpus, finishes: nat -> set<nat>, start: nat, visits: nat)
    requires Prepared(entry, c, false, |c.state|) && Begun(c, d, finishes, start, visits, visits)
    ensures Started(entry, d, finishes, start, visits)
  {
  }

  lemma PrepareStep(entry: Cpus, c: Cpus, single: bool, k: nat)
    requires Prepared(entry, c, single, k) && k < |c.state|
    ensures c.Shaped() && c.state[k] == entry.state[k] && (c.Ap(k) <==> entry.Ap(k))
    ensures !c.Ap(k) ==> Prepared(entry, c, single, k + 1) && c.ApsBelow(k + 1) == c.ApsBelow(k)
    ensures c.Ap(k) ==>
      Prepared(entry, c.Put(k, if single && c.ApsBelow(k) != [] then Blocked else Ready), single, k + 1)
    ensures c.Ap(k) ==> forall s ::
      c.Put(k, s).ApsBelow(k) == c.ApsBelow(k) && c.Put(k, s).ApsBelow(k + 1) == c.ApsBelow(k) + [k]
  {
    forall j: nat, s ensures c.Put(k, s).ApsBelow(j) == c.ApsBelow(j) {
      ApsBelowSame(c, c.Put(k, s), j);
    }
  }

  /** Processors that start a call listed as failed: disabled APs, and enabled ones that an earlier
      call left neither idle nor finished. */
  ghost function Unavailable(c: Cpus, k: nat): set<nat> {
    set j: nat | j < k && j < |c.state| && j != c.bsp && (!c.Ap(j) || Unfinished(c, j))
  }

  lemma PrepareStart(c: Cpus, single: bool)
    requires c.Shaped()
    ensures Prepared(c, c, single, 0) && Unavailable(c, 0) == {} && c.ApsBelow(0) == []
  {
  }

  /** No processor is unavailable if and only if every AP is enabled and idle or finished. */
  lemma UnavailableIff(c: Cpus)
    requires c.Shaped()
    ensures Unavailable(c, |c.state|) == {} <==>
      forall j :: 0 <= j < |c.state| && j != c.bsp ==> c.enabled[j] && (c.state[j] == Idle || c.state[j] == Finished)
  {
    if j :| 0 <= j < |c.state| && j != c.bsp && !(c.enabled[j] && (c.state[j] == Idle || c.state[j] == Finished)) {
      assert j in Unavailable(c, |c.state|);
    }
  }

  /** A disabled AP is listed by every call. */
  lemma DisabledListedExample()
    ensures Unavailable(Cpus(0, [true, true, false], [Idle, Idle, Idle]), 3) == {2}
  {
  }

  lemma UnavailableStep(c: Cpus, k: nat)
    requires c.Shaped() && k < |c.state|
    ensures k !in Unavailable(c, k)
    ensures Unavailable(c, k + 1) ==
      if k != c.bsp && (!c.Ap(k) || Unfinished(c, k)) then Unavailable(c, k) + {k} else Unavailable(c, k)
  {
  }

  lemma {:induction false} FirstAp(c: Cpus, k: nat) returns (front: nat)
    requires k <= |c.state|
    ensures k <= front <= |c.state| && (front < |c.state| ==> c.Ap(front)) && forall j :: k <= j < front ==> !c.Ap(j)
    decreases |c.state| - k
  {
    if k == |c.state| || c.Ap(k) {
      front := k;
    } else {
      front := FirstAp(c, k + 1);
    }
  }

  lemma PreparedAwaited(entry: Cpus, c: Cpus, single: bool)
    requires Prepared(entry, c, single, |c.state|)
    ensures |c.Active()| == |c.ApsBelow(|c.state|)| && c.Executing() == {}
  {
    assert c.Active() == ApSet(c, |c.state|);
  }

  /** Once prepared, everything is scheduled and every enabled AP is awaited. */
  lemma PreparedScheduled(entry: Cpus, c: Cpus, single: bool) returns (front: nat)
    requires Prepared(entry, c, single, |c.state|) && entry.Rest()
    ensures Scheduled(c, single, front, []) && c.Executing() == {}
    ensures |c.Active()| == |c.ApsBelow(|c.state|)|
  {
    PreparedAwaited(entry, c, single);
    front := 0;
    if single {
      front := FirstAp(c, 0);
      ApsBelowGap(c, 0, front);
      forall j | c.Ap(j) && j > front ensures c.state[j] == Blocked {
        ApsBelowAscending(c, j);
        assert front in c.ApsBelow(j);
      }
    }
  }

  /** An AP that is busy when a call begins is counted like any other. */
  lemma BusyCountedExample()
    ensures var entry, c := Cpus(0, [true, true], [Idle, Busy]), Cpus(0, [true, true], [Idle, Ready]);
      Prepared(entry, c, false, 2) && |c.Active()| == 1 == |c.ApsBelow(2)|
  {
    var entry, c := Cpus(0, [true, true], [Idle, Busy]), Cpus(0, [true, true], [Idle, Ready]);
    PreparedAwaited(entry, c, false);
    assert !c.Ap(0) && c.Ap(1) && c.ApsBelow(0) == [];
    assert c.ApsBelow(1) == [];
    assert c.ApsBelow(2) == c.ApsBelow(1) + [1];
  }

  /** A call that finds AP 1 still executing prepares both APs.  The dispatch of AP 1 is refused, since it is on;
      it is set idle and no longer awaited.  AP 2 is dispatched.  When AP 1 ends its earlier work it is counted
      as finished, the counts agree, and the call ends although AP 2 is executing. */
  lemma StaleApExample()
    ensures var entry, c := Cpus(0, [true, true, true], [Busy, Busy, Idle]),
                            Cpus(0, [true, true, true], [Busy, Ready, Ready]);
      var refused := c.Put(1, Busy).Put(1, Idle);
      var end := refused.Put(2, Busy).Put(1, Finished).Put(1, Idle);
      && entry.Is(1, Busy) && Prepared(entry, c, false, 3)
      && (var startCount, finishCount := |c.Active()| - 1, 1; startCount == finishCount) && end.Active() == {2}
  {
    var c := Cpus(0, [true, true, true], [Busy, Ready, Ready]);
    assert c.Active() == {1, 2};
  }

  // ----- the failed list ----------------------------------------------------------------------

  const END_OF_CPU_LIST: nat := 0xFFFF_FFFF

  ghost function Firsts(s: seq<nat>, n: nat): set<nat>
    requires n <= |s|
  {
    if n == 0 then {} else Firsts(s, n - 1) + {s[n - 1]}
  }

  /** The array for processors that failed: entries below `count`, then terminators. */
  datatype FailedList = Absent | List(slots: seq<nat>, count: nat) {
    ghost predicate Sound(n: nat, bsp: nat) {
      List? ==>
        && |slots| == n + 1 && count < |slots| && bsp < n <= END_OF_CPU_LIST
        && (forall k :: 0 <= k < count ==> slots[k] < n && slots[k] != bsp)
        && (forall j, k :: 0 <= j < k < count ==> slots[j] != slots[k])
        && (forall k :: count <= k < |slots| ==> slots[k] == END_OF_CPU_LIST)
    }

    ghost function Members(): set<nat> {
      if Absent? || count > |slots| then {} else Firsts(slots, count)
    }

    function Append(i: nat): FailedList
      requires List? ==> count < |slots|
    {
      if Absent? then this else List(slots[count := i], count + 1)
    }
  }

  lemma {:induction false} FirstsFrom(s: seq<nat>, n: nat, x: nat) returns (k: nat)
    requires n <= |s| && x in Firsts(s, n)
    ensures k < n && s[k] == x
    decreases n
  {
    if s[n - 1] == x {
      k := n - 1;
    } else {
      k := FirstsFrom(s, n - 1, x);
    }
  }

  lemma {:induction false} FirstsHas(s: seq<nat>, n: nat, k: nat)
    requires k < n <= |s|
    ensures s[k] in Firsts(s, n)
    decreases n
  {
    if k < n - 1 {
      FirstsHas(s, n - 1, k);
    }
  }

  lemma {:induction false} DistinctCount(s: seq<nat>, n: nat)
    requires n <= |s| && forall j, k :: 0 <= j < k < n ==> s[j] != s[k]
    ensures |Firsts(s, n)| == n
    decreases n
  {
    if n > 0 {
      DistinctCount(s, n - 1);
      if s[n - 1] in Firsts(s, n - 1) {
        var k := FirstsFrom(s, n - 1, s[n - 1]);
      }
    }
  }

  ghost function UpTo(n: nat): (r: set<nat>)
    ensures |r| == n && forall i: nat :: i in r <==> i < n
  {
    if n == 0 then {} else UpTo(n - 1) + {n - 1}
  }

  lemma SubsetSize(a: set<nat>, b: set<nat>)
    requires a <= b
    ensures |a| <= |b|
  {
    assert b == a + (b - a);
  }

  /** Processors other than the BSP: there are at most all but one. */
  lemma OthersBound(a: set<nat>, n: nat, bsp: nat)
    requires bsp < n && forall x :: x in a ==> x < n && x != bsp
    ensures |a| <= n - 1
  {
    SubsetSize(a, UpTo(n) - {bsp});
    assert UpTo(n) == (UpTo(n) - {bsp}) + {bsp};
  }

  lemma FailedCountBound(f: FailedList, n: nat, bsp: nat)
    requires f.List? && f.Sound(n, bsp)
    ensures f.count == |f.Members()| <= n - 1
  {
    DistinctCount(f.slots, f.count);
    forall x | x in f.Members() ensures x < n && x != bsp {
      var k := FirstsFrom(f.slots, f.count, x);
    }
    OthersBound(f.Members(), n, bsp);
  }

  lemma {:induction false} FirstsUpdate(s: seq<nat>, n: nat, i: nat, m: nat)
    requires m <= n < |s|
    ensures Firsts(s[n := i], m) == Firsts(s, m)
    decreases m
  {
    if m > 0 {
      FirstsUpdate(s, n, i, m - 1);
    }
  }

  /** A zeroed array set to terminators. */
  function FreshList(n: nat): FailedList {
    List(seq(n + 1, _ => END_OF_CPU_LIST), 0)
  }

  lemma FreshSound(n: nat, bsp: nat)
    requires bsp < n <= END_OF_CPU_LIST
    ensures FreshList(n).Sound(n, bsp) && FreshList(n).Members() == {}
  {
  }

  lemma AbsentSound(n: nat, bsp: nat)
    ensures Absent.Sound(n, bsp)
  {
  }

  lemma AppendSound(f: FailedList, n: nat, bsp: nat, i: nat)
    requires f.Sound(n, bsp) && i < n && i != bsp && i !in f.Members()
    ensures f.Append(i).Sound(n, bsp)
    ensures f.Append(i).Members() == if f.Absent? then {} else f.Members() + {i}
  {
    if f.List? {
      FailedCountBound(f, n, bsp);
      forall x | x in f.Members() + {i} ensures x < n && x != bsp {
        if x != i {
          var k := FirstsFrom(f.slots, f.count, x);
        }
      }
      OthersBound(f.Members() + {i}, n, bsp);
      FirstsUpdate(f.slots, f.count, i, f.count);
      forall k | 0 <= k < f.count ensures f.slots[k] != i {
        FirstsHas(f.slots, f.count, k);
      }
    }
  }
}
