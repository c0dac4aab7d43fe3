/** The MP services scheduler: the BSP dispatches, polls and collects the APs, blocking or from a timer,
    while they finish on their own.

  An AP changes only its own state, from Busy to Finished, and the BSP acts only on states that an AP
  does not change, so the APs' steps are placed between the BSP's visits to processors.
 */
module MpServices {
  import opened Machine
  import opened MpState

  const POLL_INTERVAL_US: nat := 50000

  datatype Status =
    | Success | TimedOut | NotReady | NotStarted | NotFound | InvalidParameter | Unsupported
    | StillPolling

  /** The health flag of EnableDisableAP, which may be absent. */
  datatype Health = Keep | Set(to: bool)

  // ----- the countdown of a blocking wait -----------------------------------------------------

  /** CalculateAndStallInterval: the poll interval, or what is left of the timeout if that is less. */
  function StallInterval(timeout: nat): (stall: nat)
    ensures 0 < stall <= POLL_INTERVAL_US && (timeout > 0 ==> stall <= timeout)
    ensures 0 < timeout && stall < POLL_INTERVAL_US ==> stall == timeout
  {
    if timeout < POLL_INTERVAL_US && timeout != 0 then timeout else POLL_INTERVAL_US
  }

  /** The 64-bit countdown after a stall; from zero (an infinite wait) it wraps. */
  function CountDown(remaining: nat): (r: nat)
    ensures r < WORD_LIMIT
  {
    (remaining + WORD_LIMIT - StallInterval(remaining)) % WORD_LIMIT
  }

  /** The number of stalls that use up a timeout. */
  function Polls(timeout: nat): nat {
    (timeout + POLL_INTERVAL_US - 1) / POLL_INTERVAL_US
  }

  /** The time that `count` stalls take. */
  function StallTotal(timeout: nat, count: nat): nat {
    if count * POLL_INTERVAL_US < timeout then count * POLL_INTERVAL_US else timeout
  }

  /** The countdown after `count` passes that did not end the wait. */
  ghost predicate Counted(timeout: nat, remaining: nat, stalled: nat, count: nat) {
    remaining < WORD_LIMIT && (timeout != 0 ==>
      && remaining + stalled == timeout && stalled == StallTotal(timeout, count)
      && (count > 0 ==> (count - 1) * POLL_INTERVAL_US < timeout))
  }

  lemma CountedStart(timeout: nat)
    requires timeout < WORD_LIMIT
    ensures Counted(timeout, timeout, 0, 0)
  {
  }

  /** One more stall: for a nonzero timeout it does not underflow, and time is conserved. */
  lemma CountedStep(timeout: nat, remaining: nat, stalled: nat, count: nat)
    requires Counted(timeout, remaining, stalled, count) && !(timeout != 0 && remaining == 0)
    ensures Counted(timeout, CountDown(remaining), stalled + StallInterval(remaining), count + 1)
    ensures timeout != 0 ==> StallInterval(remaining) <= remaining
  {
    if timeout != 0 {
      assert CountDown(remaining) == remaining - StallInterval(remaining);
    }
  }

  lemma CountedBound(timeout: nat, remaining: nat, stalled: nat, count: nat)
    requires Counted(timeout, remaining, stalled, count) && timeout != 0
    ensures stalled == StallTotal(timeout, count) <= timeout && count <= Polls(timeout)
    ensures remaining == 0 <==> count == Polls(timeout)
    ensures remaining == 0 <==> stalled == timeout
  {
  }

  /** How a blocking wait went: the snapshots before the first pass and after each, how long the BSP stalled,
      whether the timeout ended it, and then the APs found unfinished. */
  datatype Wait = Wait(trace: seq<Snapshot>, stalled: nat, timedOut: bool, unfinished: set<nat>)

  /** A blocking wait is due to end with pass `k` (counted from 0): nothing is active, or the time is up. */
  ghost predicate WaitEnds(trace: seq<Snapshot>, k: nat, timeout: nat)
    requires k + 1 < |trace|
  {
    trace[k + 1].cpus.Active() == {} || (timeout != 0 && k >= Polls(timeout))
  }

  /** No pass so far was due to end the wait. */
  ghost predicate Waits(trace: seq<Snapshot>, timeout: nat) {
    forall k :: 0 <= k < |trace| - 1 ==> !WaitEnds(trace, k, timeout)
  }

  /** The last pass, and none before it, was due to end the wait. */
  ghost predicate WaitedFor(trace: seq<Snapshot>, timeout: nat) {
    && |trace| >= 2 && WaitEnds(trace, |trace| - 2, timeout)
    && forall k :: 0 <= k < |trace| - 2 ==> !WaitEnds(trace, k, timeout)
  }

  lemma StartOfWait(a: Snapshot, accepts: nat -> bool, finishes: nat -> set<nat>, start: nat, timeout: nat)
    ensures PassTrace([a], accepts, finishes, start) && Waits([a], timeout)
    ensures StepAt(start, |a.cpus.state|, 0) == start
  {
  }

  lemma WaitsStep(trace: seq<Snapshot>, d: Snapshot, timeout: nat)
    requires Waits(trace, timeout) && |trace| > 0
    ensures if d.cpus.Active() == {} || (timeout != 0 && |trace| - 1 >= Polls(timeout))
            then WaitedFor(trace + [d], timeout) else Waits(trace + [d], timeout)
  {
    hide Cpus.Active, Polls;
    var t := trace + [d];
    forall k | 0 <= k < |trace| - 1 ensures !WaitEnds(t, k, timeout) {
      assert !WaitEnds(trace, k, timeout);
    }
  }

  ghost predicate Ended(trace: seq<Snapshot>, stalled: nat, timedOut: bool, polling: bool, timeout: nat, horizon: nat)
    requires |trace| > 0
  {
    var passes := |trace| - 1;
    && (if polling then passes == horizon && Waits(trace, timeout) && !timedOut
        else WaitedFor(trace, timeout) && (timedOut <==> trace[passes].cpus.Active() != {}))
    && (timeout != 0 ==> stalled == StallTotal(timeout, if polling || passes == 0 then passes else passes - 1))
    && (timedOut ==> timeout != 0 && stalled == timeout && passes == Polls(timeout) + 1)
  }

  ghost predicate Listed(w: Wait, finishes: nat -> set<nat>, start: nat, end: Snapshot, listing: bool)
    requires |w.trace| > 0
  {
    var last := w.trace[|w.trace| - 1];
    && |last.cpus.state| == |end.cpus.state| && end.attempts == last.attempts
    && if w.timedOut && listing then
         && Ticked(last.cpus, end.cpus, finishes, start, 0, |end.cpus.state|)
         && forall j: nat :: j in w.unfinished <==> LeftAt(last.cpus, j, finishes, start)
       else end.cpus == last.cpus && w.unfinished == {}
  }

  /** The wait of a call that began at step `start`: how it ran and ended, or goes on (`polling`), and what the
      final pass for the failed list (`listing`) then found. */
  ghost predicate Awaited(w: Wait, polling: bool, timeout: nat, horizon: nat, accepts: nat -> bool,
    finishes: nat -> set<nat>, start: nat, end: Snapshot, listing: bool)
  {
    && |w.trace| > 0 && PassTrace(w.trace, accepts, finishes, start)
    && Ended(w.trace, w.stalled, w.timedOut, polling, timeout, horizon)
    && Listed(w, finishes, StepAt(start, |end.cpus.state|, |w.trace| - 1), end, listing)
  }

  lemma LastPass(trace: seq<Snapshot>, accepts: nat -> bool, finishes: nat -> set<nat>, start: nat)
    requires PassTrace(trace, accepts, finishes, start) && |trace| >= 2
    ensures var last := trace[|trace| - 1].cpus; NoneReadyBelow(last, |last.state|)
  {
    hide Swept, StepAt, NoneReadyBelow;
    assert OnePass(trace[|trace| - 2], trace[|trace| - 2 + 1], accepts, finishes,
        StepAt(start, |trace[0].cpus.state|, |trace| - 2));
  }

  /** What a wait that has ended leaves behind. */
  lemma AfterWait(w: Wait, timeout: nat, horizon: nat, accepts: nat -> bool, finishes: nat -> set<nat>, start: nat,
    end: Snapshot, listing: bool, single: bool, front: nat)
    requires Awaited(w, false, timeout, horizon, accepts, finishes, start, end, listing)
    requires Scheduled(end.cpus, single, front, end.attempts)
    ensures !w.timedOut ==>
      && end.attempts == end.cpus.ApsBelow(|end.cpus.state|) && end.cpus.Rest() && end.cpus.Executing() == {}
      && forall i :: end.cpus.Ap(i) ==> end.cpus.state[i] == Idle
    ensures w.timedOut ==>
      end.attempts != [] && (!single ==> end.attempts == end.cpus.ApsBelow(|end.cpus.state|))
  {
    hide Scheduled, PassTrace, StallTotal, Polls, StepAt, Cpus.ApsBelow, Cpus.Rest, Cpus.Executing, Cpus.Active,
      NoneReadyBelow, Ticked, LeftAt;
    var passes := |w.trace| - 1;
    if !w.timedOut {
      EmptyActive(end.cpus);
      QuietAtRest(end.cpus, single, front, end.attempts);
    } else {
      LastPass(w.trace, accepts, finishes, start);
      ReadyStays(w.trace[passes].cpus, end.cpus, finishes, StepAt(start, |end.cpus.state|, passes));
      AttemptedSome(end.cpus, single, front, end.attempts);
    }
  }

  lemma NothingUnfinished(w: Wait, timeout: nat, horizon: nat, accepts: nat -> bool, finishes: nat -> set<nat>,
    start: nat, end: Snapshot)
    requires Awaited(w, false, timeout, horizon, accepts, finishes, start, end, true) && !w.timedOut
    ensures w.unfinished == {}
  {
    hide PassTrace, Ended, StepAt;
  }

  /** A non-blocking call that polls once a tick is due to end with tick `k` (counted from 0); `trace` holds
      the processors before the first tick and after each. */
  ghost predicate EndsAt(trace: seq<Cpus>, k: nat, timeout: nat)
    requires k + 1 < |trace|
  {
    trace[k + 1].Active() == {} || (timeout != 0 && (k + 1) * POLL_INTERVAL_US > timeout)
  }

  /** No tick so far was due to end the call. */
  ghost predicate Unended(trace: seq<Cpus>, timeout: nat) {
    forall k :: 0 <= k < |trace| - 1 ==> !EndsAt(trace, k, timeout)
  }

  /** The last tick, and none before it, was due to end the call. */
  ghost predicate EndsFirst(trace: seq<Cpus>, timeout: nat) {
    && |trace| >= 2 && EndsAt(trace, |trace| - 2, timeout)
    && forall k :: 0 <= k < |trace| - 2 ==> !EndsAt(trace, k, timeout)
  }

  lemma StartOfTrace(c: Cpus, finishes: nat -> set<nat>, start: nat, timeout: nat)
    ensures TickTrace([c], finishes, start) && Unended([c], timeout) && StepAt(start, |c.state|, 0) == start
  {
  }

  lemma UnendedStep(trace: seq<Cpus>, d: Cpus, timeout: nat)
    requires Unended(trace, timeout) && |trace| > 0
    ensures if d.Active() == {} || (timeout != 0 && |trace| * POLL_INTERVAL_US > timeout)
            then EndsFirst(trace + [d], timeout) else Unended(trace + [d], timeout)
  {
    hide Cpus.Active;
    var t := trace + [d];
    forall k | 0 <= k < |trace| - 1 ensures !EndsAt(t, k, timeout) {
      assert !EndsAt(trace, k, timeout);
    }
  }

  /** ... a call for one AP. */
  ghost predicate ThisEnds(trace: seq<Cpus>, k: nat, i: nat, timeout: nat)
    requires k + 1 < |trace|
  {
    trace[k + 1].Is(i, Idle) || (timeout != 0 && (k + 1) * POLL_INTERVAL_US > timeout)
  }

  /** A tick of the polling timer in microseconds: its period is given as the number POLL_INTERVAL_US to a
      service that takes units of 100 ns. */
  const TICK_US: nat := POLL_INTERVAL_US / 10

  /** The tick at which a non-blocking call times out. */
  function LastTick(timeout: nat): nat {
    timeout / POLL_INTERVAL_US + 1
  }

  /** That tick comes before the time has passed if and only if the timeout is longer than a tick. */
  lemma EarlyTimeoutIff(timeout: nat)
    requires timeout > 0
    ensures TICK_US * LastTick(timeout) < timeout <==> timeout > TICK_US
  {
    assert POLL_INTERVAL_US == 50000 && TICK_US == 5000;
    assert 50000 * (timeout / 50000) <= timeout;
  }

  /** A call for one AP with a wait event: its timeout and time taken, whether its timer is set, whether the
      event is still to be signalled, the caller's finished flag, and the number of signals. */
  datatype ThisCall = ThisCall(timeout: nat, taken: nat, armed: bool, waiting: bool, finished: bool, signals: nat) {
    predicate Late() { timeout != 0 && taken > timeout }
  }

  /** The number of enabled APs below `k`. */
  function CountAps(c: Cpus, k: nat): (n: nat)
    ensures n == |c.ApsBelow(k)|
  {
    if k == 0 then 0 else CountAps(c, k - 1) + if c.Ap(k - 1) then 1 else 0
  }

  class Scheduler {
    var cpus: Cpus
    var enabledCount: nat
    var healthy: seq<bool>
    var single: bool
    var startCount: nat
    var finishCount: nat
    /** The list of the last call for all APs, if it asked for one. */
    var failed: FailedList
    /** The APs that are executing a procedure right now. */
    var running: set<nat>
    ghost var front: nat
    /** Every dispatch attempted in this call, in order, and the firmware's answers. */
    var attempts: seq<nat>
    const accepts: nat -> bool
    /** At step t of the APs, those of `finishes(t)` that are executing finish. */
    const finishes: nat -> set<nat>
    var clock: nat
    /** The APs whose dispatch was refused in this call. */
    ghost var refused: set<nat>
    /** The processors listed as failed before anything was dispatched. */
    ghost var listed: set<nat>
    /** The largest number of APs that were executing at once in this call. */
    ghost var peak: nat
    var allTimeout: nat
    var allTimeTaken: nat
    /** The periodic timer that polls for a non-blocking call is set. */
    var armed: bool
    /** The single calls with a wait event, by AP. */
    var calls: map<nat, ThisCall>
    /** How often the caller's wait event has been signalled. */
    ghost var signals: nat

    /** What holds whenever the BSP is between two visits. */
    ghost predicate Inv()
      reads this
    {
      && cpus.Shaped() && running == cpus.Executing()
      && Scheduled(cpus, single, front, attempts)
      && startCount == finishCount + |cpus.Active()|
      && failed.Sound(|cpus.state|, cpus.bsp)
      && (single ==> peak <= 1) && refused == Refusals(attempts, accepts)
    }

    /** The count of enabled processors is right, and disabled ones are idle. */
    ghost predicate CountRight()
      reads this
    {
      && cpus.Shaped() && cpus.Rest() && |cpus.state| <= END_OF_CPU_LIST
      && enabledCount == 1 + |cpus.ApsBelow(|cpus.state|)| && |healthy| == |cpus.state|
    }

    /** Between calls no AP is executing. */
    ghost predicate AtRest()
      reads this
    {
      CountRight() && running == {} && cpus.Executing() == {}
    }

    constructor (bsp: nat, enabled: seq<bool>, accepts: nat -> bool, finishes: nat -> set<nat>)
      requires bsp < |enabled| <= END_OF_CPU_LIST
      ensures AtRest() && cpus.bsp == bsp && cpus.enabled == enabled
      ensures this.accepts == accepts && this.finishes == finishes && clock == 0
      ensures forall i :: 0 <= i < |cpus.state| ==> cpus.state[i] == if i == bsp then Busy else Idle
      ensures failed == Absent && !armed && calls == map[] && healthy == seq(|enabled|, _ => true)
    {
      var c := Cpus(bsp, enabled, seq(|enabled|, i => if i == bsp then Busy else Idle));
      cpus := c;
      this.accepts, this.finishes, clock := accepts, finishes, 0;
      single, startCount, finishCount, failed, running := false, 0, 0, Absent, {};
      attempts, allTimeout, allTimeTaken, armed, calls := [], 0, 0, false, map[];
      front, refused, listed, peak, signals := 0, {}, {}, 0, 0;
      enabledCount, healthy := 1 + CountAps(c, |enabled|), seq(|enabled|, _ => true);
    }

    /** The AP exists, is enabled and has no work. */
    predicate Startable(i: nat)
      reads this
    {
      cpus.Is(i, Idle) || cpus.Is(i, Finished)
    }

    /** At rest with one AP, which is idle. */
    lemma StartsIdle()
      requires AtRest() && cpus.enabled == [true, true] && cpus.bsp == 0 && cpus.state[1] == Idle
      ensures Startable(1) && enabledCount == 2
    {
      assert !cpus.Ap(0) && cpus.Ap(1) && cpus.ApsBelow(0) == [];
      assert cpus.ApsBelow(1) == [];
      assert cpus.ApsBelow(2) == cpus.ApsBelow(1) + [1];
    }

    ghost predicate SameCpus(c: Cpus)
      reads this
    {
      cpus.bsp == c.bsp && cpus.enabled == c.enabled && |cpus.state| == |c.state|
    }

    /** A step of the APs: any of those executing finish. */
    method ApSteps()
      requires Inv()
      modifies this`cpus, this`running, this`clock
      ensures Inv() && clock == old(clock) + 1 && running == old(running) - finishes(old(clock))
      ensures cpus == old(cpus).Finish(old(running) * finishes(old(clock))) && OnlyFinished(old(cpus), cpus)
      ensures forall i :: NoneReadyBelow(old(cpus), i) ==> NoneReadyBelow(cpus, i)
    {
      hide Scheduled, NoneReadyBelow;
      var done := running * finishes(clock);
      FinishActive(cpus, done);
      FinishScheduled(cpus, single, front, attempts, done);
      cpus := cpus.Finish(done);
      running := running - done;
      clock := clock + 1;
    }

    /** GetNextBlockedNumber: the first blocked processor other than the BSP, or the processor count. */
    method GetNextBlockedNumber() returns (next: nat)
      requires cpus.Shaped()
      ensures FirstBlocked(cpus, next)
    {
      next := 0;
      while next < |cpus.state|
        invariant next <= |cpus.state|
        invariant forall j :: 0 <= j < next && j != cpus.bsp ==> cpus.state[j] != Blocked
      {
        if next != cpus.bsp && cpus.state[next] == Blocked {
          return;
        }
        next := next + 1;
      }
    }

    /** AddProcessorToFailedList: nothing for the BSP or an AP that is idle or finished; otherwise the
        processor is on the list once, whether or not it was before. */
    method AddProcessorToFailedList(i: nat, state: CpuState)
      requires failed.Sound(|cpus.state|, cpus.bsp) && i < |cpus.state|
      modifies this`failed
      ensures failed.Sound(|cpus.state|, cpus.bsp) && (failed.Absent? <==> old(failed).Absent?)
      ensures failed.Members() ==
        if old(failed).Absent? || state == Idle || state == Finished || i == cpus.bsp then old(failed).Members()
        else old(failed).Members() + {i}
      ensures failed == if failed.Members() == old(failed).Members() then old(failed) else old(failed).Append(i)
    {
      if failed.Absent? || state == Idle || state == Finished || i == cpus.bsp {
        return;
      }
      var found, k := false, 0;
      while k < failed.count
        invariant 0 <= k <= failed.count && !found && failed == old(failed)
        invariant forall j :: 0 <= j < k ==> failed.slots[j] != i
      {
        if failed.slots[k] == i {
          found := true;
          break;
        }
        k := k + 1;
      }
      if !found {
        if i in failed.Members() {
          var j := FirstsFrom(failed.slots, failed.count, i);
        }
        AppendSound(failed, |cpus.state|, cpus.bsp, i);
        failed := failed.Append(i);
      } else {
        FirstsHas(failed.slots, failed.count, k);
        assert failed.Members() == failed.Members() + {i};
      }
    }

    /** DispatchCpu: the state becomes Busy, and the AP runs if the firmware accepts it. */
    method DispatchCpu(i: nat) returns (accepted: bool)
      requires i < |cpus.state|
      modifies this`cpus, this`running, this`attempts, this`peak
      ensures cpus == old(cpus).Put(i, Busy) && attempts == old(attempts) + [i]
      ensures accepted == accepts(|old(attempts)|)
      ensures running == if accepted then old(running) + {i} else old(running)
      ensures peak == if |running| > old(peak) then |running| else old(peak)
    {
      cpus := cpus.Put(i, Busy);
      accepted := accepts(|attempts|);
      attempts := attempts + [i];
      if accepted {
        running := running + {i};
      }
      peak := if |running| > peak then |running| else peak;
    }

    /** The AP goes back to Idle and, one at a time, the next blocked AP gets ready. */
    method Retire(i: nat)
      requires cpus.Shaped() && Scheduled(cpus, single, front, attempts) && NoneReadyBelow(cpus, i)
      requires cpus.Is(i, Busy) || cpus.Is(i, Finished)
      modifies this`cpus, this`front
      ensures cpus.Shaped() && Scheduled(cpus, single, front, attempts) && NoneReadyBelow(cpus, i + 1)
      ensures |cpus.Active()| == |old(cpus).Active()| - 1 && cpus.Executing() == old(cpus).Executing() - {i}
      ensures SameCpus(old(cpus)) && (!single ==> front == old(front))
      ensures Settled(old(cpus), cpus, i) && cpus.state[i] == Idle
    {
      hide Scheduled, NoneReadyBelow, FirstBlocked, Settled;
      var next := 0;
      if single {
        next := GetNextBlockedNumber();
      }
      RetireScheduled(cpus, single, front, attempts, i, next);
      RetireActive(cpus, single, front, attempts, i, next);
      RetireSettled(cpus, single, front, attempts, i, next);
      cpus := cpus.Put(i, Idle);
      if single {
        if next < |cpus.state| {
          cpus := cpus.Put(next, Ready);
        }
        front := next;
      }
    }

    /** A refused AP is listed, no longer awaited, and retired. */
    method Refuse(i: nat)
      requires cpus.Shaped() && Scheduled(cpus, single, front, attempts) && NoneReadyBelow(cpus, i)
      requires cpus.Is(i, Busy) && running == cpus.Executing() - {i}
      requires startCount == finishCount + |cpus.Active()|
      requires failed.Sound(|cpus.state|, cpus.bsp) && (single ==> peak <= 1)
      requires refused + {i} == Refusals(attempts, accepts)
      modifies this`cpus, this`failed, this`startCount, this`refused, this`front
      ensures Inv() && NoneReadyBelow(cpus, i + 1) && SameCpus(old(cpus))
      ensures refused == old(refused) + {i} && Settled(old(cpus), cpus, i) && cpus.state[i] == Idle
      ensures failed.Absent? <==> old(failed).Absent?
      ensures failed.List? ==> failed.Members() == old(failed).Members() + {i}
    {
      hide Scheduled, NoneReadyBelow, Cpus.Active, Cpus.Executing, FailedList.Sound, FailedList.Members, Refusals;
      AddProcessorToFailedList(i, cpus.state[i]);
      refused := refused + {i};
      Retire(i);
      startCount := startCount - 1;
    }

    /** Dispatch a ready AP.  If it is refused it is left marked Busy although it does not run. */
    method DispatchReady(i: nat) returns (accepted: bool)
      requires Inv() && cpus.Is(i, Ready) && NoneReadyBelow(cpus, i)
      modifies this`cpus, this`running, this`attempts, this`peak, this`front
      ensures cpus == old(cpus).Put(i, Busy) && attempts == old(attempts) + [i] && Settled(old(cpus), cpus, i)
      ensures NoneReadyBelow(cpus, i) && NoneReadyBelow(cpus, i + 1)
      ensures cpus.Shaped() && Scheduled(cpus, single, front, attempts) && cpus.Is(i, Busy)
      ensures startCount == finishCount + |cpus.Active()| && (single ==> peak <= 1)
      ensures running == if accepted then cpus.Executing() else cpus.Executing() - {i}
      ensures !single ==> front == i + 1
      ensures accepted == accepts(|old(attempts)|)
    {
      hide Scheduled, NoneReadyBelow, Cpus.Active, Cpus.Executing, FailedList.Sound, FailedList.Members, Refusals,
        Settled;
      DispatchScheduled(cpus, single, front, attempts, i);
      PutActive(cpus, i, Busy);
      PutExecuting(cpus, i, Busy);
      PutSettled(cpus, i, Busy);
      accepted := DispatchCpu(i);
      front := if single then i else i + 1;
    }

    /** A ready AP: dispatch it, or on refusal list it, drop it and let the next one get ready. */
    method VisitReady(i: nat) returns (accepted: bool)
      requires Inv() && cpus.Is(i, Ready) && NoneReadyBelow(cpus, i)
      modifies this`cpus, this`running, this`attempts, this`peak, this`failed, this`startCount, this`refused, this`front
      ensures Inv() && NoneReadyBelow(cpus, i + 1) && SameCpus(old(cpus))
      ensures failed.Absent? <==> old(failed).Absent?
      ensures refused == old(refused) + if accepted then {} else {i}
      ensures Visited(Snapshot(old(cpus), old(attempts)), Snapshot(cpus, attempts), accepts, i)
      ensures failed.List? ==> failed.Members() == old(failed).Members() + (if accepted then {} else {i})
    {
      hide Scheduled, NoneReadyBelow, Cpus.Active, Cpus.Executing, FailedList.Sound, FailedList.Members, Refusals;
      RefusalsStep(attempts, accepts, i);
      accepted := DispatchReady(i);
      if !accepted {
        ghost var dispatched := cpus;
        Refuse(i);
        SettledTransitive(old(cpus), dispatched, cpus, i);
      }
    }

    /** A finished AP is counted and retired. */
    method VisitFinished(i: nat)
      requires Inv() && cpus.Is(i, Finished) && NoneReadyBelow(cpus, i)
      modifies this`cpus, this`finishCount, this`front
      ensures Inv() && NoneReadyBelow(cpus, i + 1) && SameCpus(old(cpus)) && (!single ==> front == old(front))
      ensures Visited(Snapshot(old(cpus), attempts), Snapshot(cpus, attempts), accepts, i)
    {
      hide Scheduled, NoneReadyBelow, Cpus.Active, FailedList.Sound, Refusals, Settled;
      finishCount := finishCount + 1;
      Retire(i);
    }

    /** The failed list, if there is one, holds exactly these processors. */
    ghost predicate Lists(members: set<nat>)
      reads this
    {
      failed.List? ==> failed.Members() == members
    }

    /** The body of the polling loop: a step of the APs, then a look at one processor. */
    method Visit(i: nat, dispatchError: bool, ghost entry: Snapshot, ghost start: nat) returns (error: bool)
      requires Inv() && Lists(listed + refused) && (dispatchError <==> refused != {}) && i < |cpus.state|
      requires NoneReadyBelow(cpus, i) && clock == start + i
      requires Swept(entry, Snapshot(cpus, attempts), accepts, finishes, start, i, i)
      modifies this`cpus, this`running, this`clock, this`attempts, this`peak, this`failed, this`startCount,
        this`finishCount, this`refused, this`front
      ensures Inv() && Lists(listed + refused) && (error <==> refused != {}) && SameCpus(old(cpus))
      ensures NoneReadyBelow(cpus, i + 1) && clock == old(clock) + 1
      ensures Swept(entry, Snapshot(cpus, attempts), accepts, finishes, start, i + 1, i + 1)
      ensures old(refused) <= refused && (failed.Absent? <==> old(failed).Absent?)
    {
      hide Scheduled, NoneReadyBelow, Cpus.Active, Cpus.Executing, FailedList.Sound, FailedList.Members, Refusals,
        Settled, Swept, Cpus.Finish, Visited;
      error := dispatchError;
      SweptFinish(entry, Snapshot(cpus, attempts), accepts, finishes, start, i);
      ApSteps();
      ghost var found := Snapshot(cpus, attempts);
      if cpus.Is(i, Ready) {
        var accepted := VisitReady(i);
        error := error || !accepted;
      } else if cpus.Is(i, Finished) {
        VisitFinished(i);
      } else {
        NoneBelowNext(cpus, i);
        VisitedNothing(found, accepts, i);
      }
      SweptVisit(entry, found, Snapshot(cpus, attempts), accepts, finishes, start, i);
    }

    /** One pass of the polling loop over all processors. */
    method Pass(dispatchError: bool) returns (error: bool)
      requires Inv() && Lists(listed + refused) && (dispatchError <==> refused != {})
      modifies this`cpus, this`running, this`clock, this`attempts, this`peak, this`failed, this`startCount,
        this`finishCount, this`refused, this`front
      ensures Inv() && Lists(listed + refused) && (error <==> refused != {})
      ensures SameCpus(old(cpus)) && clock == old(clock) + |cpus.state|
      ensures OnePass(Snapshot(old(cpus), old(attempts)), Snapshot(cpus, attempts), accepts, finishes, old(clock))
      ensures old(refused) <= refused && (failed.Absent? <==> old(failed).Absent?)
    {
      hide Scheduled, NoneReadyBelow, Cpus.Active, Cpus.Executing, FailedList.Sound, FailedList.Members, Refusals,
        Swept;
      ghost var entry := Snapshot(cpus, attempts);
      error := dispatchError;
      NoneBelowZero(cpus);
      SweptStart(entry, accepts, finishes, clock);
      var i := 0;
      while i < |cpus.state|
        invariant 0 <= i <= |cpus.state| && SameCpus(old(cpus)) && clock == old(clock) + i
        invariant Inv() && Lists(listed + refused) && (error <==> refused != {})
        invariant NoneReadyBelow(cpus, i)
        invariant Swept(entry, Snapshot(cpus, attempts), accepts, finishes, old(clock), i, i)
        invariant old(refused) <= refused && (failed.Absent? <==> old(failed).Absent?)
      {
        error := Visit(i, error, entry, old(clock));
        i := i + 1;
      }
    }

    /** The final pass after a timeout lists exactly the APs that are unfinished when it began and do not finish
        before it looks at them. */
    method ListUnfinished() returns (ghost unfinished: set<nat>)
      requires Inv()
      modifies this`cpus, this`running, this`clock, this`failed
      ensures Inv() && SameCpus(old(cpus)) && (failed.Absent? <==> old(failed).Absent?)
      ensures Ticked(old(cpus), cpus, finishes, old(clock), 0, |cpus.state|) && clock == old(clock) + |cpus.state|
      ensures failed.List? ==> failed.Members() == old(failed).Members() + unfinished
      ensures forall j: nat :: j in unfinished <==> LeftAt(old(cpus), j, finishes, old(clock))
    {
      hide Scheduled, NoneReadyBelow, Cpus.Active, Cpus.Executing, FailedList.Sound, FailedList.Members, Cpus.Finish,
        Ticked, LeftAt;
      unfinished := {};
      TickedStart(cpus, finishes, clock);
      var i := 0;
      while i < |cpus.state|
        invariant 0 <= i <= |cpus.state| && SameCpus(old(cpus)) && Inv() && clock == old(clock) + i
        invariant failed.Absent? <==> old(failed).Absent?
        invariant failed.List? ==> failed.Members() == old(failed).Members() + unfinished
        invariant Ticked(old(cpus), cpus, finishes, old(clock), 0, i)
        invariant forall j: nat :: j in unfinished <==> j < i && LeftAt(old(cpus), j, finishes, old(clock))
      {
        TickedFinish(old(cpus), cpus, finishes, old(clock), 0, i);
        ApSteps();
        UnfinishedIff(cpus, single, front, attempts, i);
        LeftAtVisit(old(cpus), cpus, i, finishes, old(clock));
        AddProcessorToFailedList(i, cpus.state[i]);
        if Unfinished(cpus, i) {
          unfinished := unfinished + {i};
        }
        i := i + 1;
      }
      LeftInside(old(cpus), finishes, old(clock));
    }

    /** The polling loop of a blocking call, for at most `horizon` passes; a zero timeout is infinite.  Every
        prefix of an endless wait is thus covered.  The wait ends at precisely the first pass after which
        nothing is active or the time is up, and the time stalled is that of one stall for each pass before. */
    method Poll(timeout: nat, horizon: nat)
      returns (status: Status, dispatchError: bool, passes: nat, ghost stalled: nat, ghost trace: seq<Snapshot>)
      requires Inv() && refused == {} && Lists(listed) && timeout < WORD_LIMIT
      modifies this`cpus, this`running, this`clock, this`attempts, this`peak, this`failed, this`startCount,
        this`finishCount, this`refused, this`front
      ensures Inv() && SameCpus(old(cpus)) && (failed.Absent? <==> old(failed).Absent?)
      ensures Lists(listed + refused) && (dispatchError <==> refused != {})
      ensures |trace| == passes + 1 && trace[0] == Snapshot(old(cpus), old(attempts))
      ensures trace[passes] == Snapshot(cpus, attempts)
      ensures PassTrace(trace, accepts, finishes, old(clock)) && clock == StepAt(old(clock), |cpus.state|, passes)
      ensures status == Success || status == TimedOut || status == StillPolling
      ensures Ended(trace, stalled, status == TimedOut, status == StillPolling, timeout, horizon)
    {
      hide Scheduled, NoneReadyBelow, Cpus.Active, Cpus.Executing, FailedList.Sound, FailedList.Members, Refusals;
      hide Counted, CountDown, StallInterval, Polls, Swept, PassTrace, StepAt, Waits, WaitedFor, StallTotal;
      var remaining := timeout;
      dispatchError, stalled, passes := false, 0, 0;
      trace := [Snapshot(cpus, attempts)];
      CountedStart(timeout);
      StartOfWait(trace[0], accepts, finishes, clock, timeout);
      while passes < horizon
        invariant passes <= horizon && |trace| == passes + 1
        invariant Inv() && Lists(listed + refused) && (dispatchError <==> refused != {})
        invariant SameCpus(old(cpus)) && (failed.Absent? <==> old(failed).Absent?)
        invariant Counted(timeout, remaining, stalled, passes)
        invariant trace[0] == Snapshot(old(cpus), old(attempts)) && trace[passes] == Snapshot(cpus, attempts)
        invariant PassTrace(trace, accepts, finishes, old(clock)) && Waits(trace, timeout)
        invariant clock == StepAt(old(clock), |cpus.state|, passes)
      {
        StepAtNext(old(clock), |cpus.state|, passes);
        dispatchError := Pass(dispatchError);
        PassTraceStep(trace, Snapshot(cpus, attempts), accepts, finishes, old(clock));
        WaitsStep(trace, Snapshot(cpus, attempts), timeout);
        EmptyActive(cpus);
        trace := trace + [Snapshot(cpus, attempts)];
        if timeout != 0 {
          CountedBound(timeout, remaining, stalled, passes);
        }
        if finishCount == startCount {
          return Success, dispatchError, passes + 1, stalled, trace;
        }
        if timeout != 0 && remaining == 0 {
          return TimedOut, dispatchError, passes + 1, stalled, trace;
        }
        CountedStep(timeout, remaining, stalled, passes);
        stalled := stalled + StallInterval(remaining);
        remaining := CountDown(remaining);
        passes := passes + 1;
      }
      if timeout != 0 {
        CountedBound(timeout, remaining, stalled, passes);
      }
      status := StillPolling;
    }

    /** StartupAllAPsNoWaitEvent: poll, then on a timeout list the APs found unfinished.  A refused dispatch
        takes precedence in the status. */
    method StartupAllAPsNoWaitEvent(timeout: nat, horizon: nat) returns (status: Status, ghost w: Wait)
      requires Inv() && refused == {} && Lists(listed) && timeout < WORD_LIMIT
      modifies this`cpus, this`running, this`clock, this`attempts, this`peak, this`failed, this`startCount,
        this`finishCount, this`refused, this`front
      ensures Inv() && SameCpus(old(cpus)) && (failed.Absent? <==> old(failed).Absent?)
      ensures Awaited(w, status == StillPolling, timeout, horizon, accepts, finishes, old(clock),
                Snapshot(cpus, attempts), failed.List?)
      ensures w.trace[0] == Snapshot(old(cpus), old(attempts))
      ensures Lists(listed + refused + w.unfinished)
      ensures status == StillPolling ||
        status == (if refused != {} then NotReady else if w.timedOut then TimedOut else Success)
    {
      hide Scheduled, NoneReadyBelow, Cpus.Active, Cpus.Executing, FailedList.Sound, FailedList.Members, Refusals,
        PassTrace, StepAt, Ended, Ticked, LeftAt;
      var dispatchError, passes;
      ghost var stalled: nat, trace: seq<Snapshot>, unfinished: set<nat> := 0, [], {};
      status, dispatchError, passes, stalled, trace := Poll(timeout, horizon);
      ghost var timedOut := status == TimedOut;
      if status == TimedOut && failed.List? {
        unfinished := ListUnfinished();
      }
      w := Wait(trace, stalled, timedOut, unfinished);
      if dispatchError && status != StillPolling {
        status := NotReady;
      }
    }

    method ListAtStart(i: nat)
      requires failed.Sound(|cpus.state|, cpus.bsp) && i < |cpus.state| && i != cpus.bsp
      requires failed.List? ==> i !in failed.Members()
      modifies this`failed
      ensures failed.Sound(|cpus.state|, cpus.bsp) && (failed.Absent? <==> old(failed).Absent?)
      ensures failed.List? ==> failed.Members() == old(failed).Members() + {i}
    {
      if failed.List? {
        AppendSound(failed, |cpus.state|, cpus.bsp, i);
        failed := failed.Append(i);
      }
    }

    /** The body of the preparation loop, given the state that the next AP is to start in. */
    method PrepareOne(i: nat, initial: CpuState, ghost entry: Cpus) returns (next: CpuState)
      requires SameCpus(entry) && Prepared(entry, cpus, single, i) && i < |cpus.state|
      requires startCount == |cpus.ApsBelow(i)|
      requires initial == if single && cpus.ApsBelow(i) != [] then Blocked else Ready
      requires failed.Sound(|cpus.state|, cpus.bsp) && Lists(Unavailable(entry, i))
      modifies this`cpus, this`failed, this`startCount
      ensures SameCpus(entry) && Prepared(entry, cpus, single, i + 1)
      ensures startCount == |cpus.ApsBelow(i + 1)|
      ensures next == if single && cpus.ApsBelow(i + 1) != [] then Blocked else Ready
      ensures failed.Sound(|cpus.state|, cpus.bsp) && (failed.Absent? <==> old(failed).Absent?)
      ensures Lists(Unavailable(entry, i + 1))
    {
      hide Cpus.ApsBelow, FailedList.Sound, FailedList.Members, Prepared, Unavailable;
      PrepareStep(entry, cpus, single, i);
      UnavailableStep(entry, i);
      next := initial;
      if cpus.Ap(i) {
        if cpus.state[i] != Idle && cpus.state[i] != Finished {
          ListAtStart(i);
        }
        cpus := cpus.Put(i, initial);
        startCount := startCount + 1;
        if single {
          next := Blocked;
        }
      } else if i != cpus.bsp {
        ListAtStart(i);
      }
    }

    /** The preparation loop. */
    method PrepareAll()
      requires cpus.Shaped() && failed.Sound(|cpus.state|, cpus.bsp) && Lists({}) && startCount == 0
      modifies this`cpus, this`failed, this`startCount
      ensures SameCpus(old(cpus)) && Prepared(old(cpus), cpus, single, |cpus.state|)
      ensures startCount == |cpus.ApsBelow(|cpus.state|)|
      ensures failed.Sound(|cpus.state|, cpus.bsp) && (failed.Absent? <==> old(failed).Absent?)
      ensures Lists(Unavailable(old(cpus), |cpus.state|))
    {
      hide Cpus.ApsBelow, FailedList.Sound, FailedList.Members, Prepared, Unavailable;
      PrepareStart(cpus, single);
      var initial := Ready;
      var i := 0;
      while i < |cpus.state|
        invariant 0 <= i <= |cpus.state| && SameCpus(old(cpus)) && Prepared(old(cpus), cpus, single, i)
        invariant startCount == |cpus.ApsBelow(i)|
        invariant initial == if single && cpus.ApsBelow(i) != [] then Blocked else Ready
        invariant failed.Sound(|cpus.state|, cpus.bsp) && (failed.Absent? <==> old(failed).Absent?)
        invariant Lists(Unavailable(old(cpus), i))
      {
        initial := PrepareOne(i, initial, old(cpus));
        i := i + 1;
      }
    }

    /** StartupAllAPsPrepareState: every enabled AP is awaited; all are ready, or only the first.  The
        scheduler's invariant then holds if and only if no AP was executing, since one that was is prepared
        like the others. */
    method PrepareState(singleThread: bool)
      requires cpus.Shaped() && cpus.Rest() && failed.Sound(|cpus.state|, cpus.bsp) && Lists({})
      modifies this`cpus, this`failed, this`startCount, this`finishCount, this`single, this`attempts, this`refused,
        this`peak, this`front, this`listed
      ensures Inv() <==> running == {}
      ensures single == singleThread && SameCpus(old(cpus)) && Prepared(old(cpus), cpus, single, |cpus.state|)
      ensures finishCount == 0 && startCount == |cpus.ApsBelow(|cpus.state|)|
      ensures attempts == [] && refused == {} && peak == 0
      ensures failed.Absent? <==> old(failed).Absent?
      ensures Lists(listed) && listed == Unavailable(old(cpus), |cpus.state|)
    {
      hide Scheduled, Cpus.Active, Cpus.Executing, Cpus.ApsBelow, FailedList.Sound, FailedList.Members, Prepared,
        Unavailable, Refusals;
      NoRefusals(accepts);
      finishCount, startCount, single := 0, 0, singleThread;
      attempts, refused, peak := [], {}, 0;
      PrepareAll();
      front := PreparedScheduled(old(cpus), cpus, singleThread);
      listed := Unavailable(old(cpus), |cpus.state|);
    }

    /** EnableDisableAP: only an idle AP; keeps the count of enabled processors right, and sets the health of the
        AP if asked. */
    method EnableDisableAP(i: nat, enable: bool, health: Health) returns (status: Status)
      requires CountRight()
      modifies this`cpus, this`enabledCount, this`healthy
      ensures CountRight() && cpus.Executing() == old(cpus).Executing()
      ensures status == if i >= |old(cpus).state| then NotFound else if i == cpus.bsp then InvalidParameter
                        else if old(cpus).state[i] != Idle then Unsupported else Success
      ensures cpus ==
        if status == Success then Cpus(old(cpus).bsp, old(cpus).enabled[i := enable], old(cpus).state) else old(cpus)
      ensures healthy == if status == Success && health.Set? then old(healthy)[i := health.to] else old(healthy)
    {
      if i >= |cpus.state| {
        return NotFound;
      }
      if i == cpus.bsp {
        return InvalidParameter;
      }
      if cpus.state[i] != Idle {
        return Unsupported;
      }
      ToggleCount(cpus, i, enable);
      if enable {
        if !cpus.enabled[i] {
          enabledCount := enabledCount + 1;
        }
      } else {
        if cpus.enabled[i] {
          enabledCount := enabledCount - 1;
        }
      }
      cpus := Cpus(cpus.bsp, cpus.enabled[i := enable], cpus.state);
      if health.Set? {
        healthy := healthy[i := health.to];
      }
      status := Success;
    }

    /** What StartupAllAPs does in either mode: the list and the preparation.  The test for busy APs that
        follows compares the start count with the number of enabled APs, and never fires. */
    method Begin(singleThread: bool, wantList: bool)
      requires CountRight()
      modifies this`cpus, this`failed, this`startCount, this`finishCount, this`single, this`attempts, this`refused,
        this`peak, this`front, this`listed
      ensures Inv() <==> running == {}
      ensures single == singleThread && SameCpus(old(cpus)) && startCount == enabledCount - 1
      ensures Prepared(old(cpus), cpus, single, |cpus.state|)
      ensures finishCount == 0 && attempts == [] && refused == {}
      ensures (failed.List? <==> wantList) && Lists(listed) && listed == Unavailable(old(cpus), |cpus.state|)
    {
      hide Scheduled, Cpus.Active, Cpus.Executing, Cpus.Rest, Cpus.ApsBelow, FailedList.Sound, FailedList.Members,
        Unavailable, Refusals, Prepared;
      if wantList {
        FreshSound(|cpus.state|, cpus.bsp);
        failed := FreshList(|cpus.state|);
      } else {
        AbsentSound(|cpus.state|, cpus.bsp);
        failed := Absent;
      }
      PrepareState(singleThread);
      ApsBelowSame(old(cpus), cpus, |cpus.state|);
    }

    /** A blocking call once it has begun. */
    method RunBlocking(singleThread: bool, timeout: nat, wantList: bool, horizon: nat)
      returns (status: Status, ghost w: Wait)
      requires AtRest() && timeout < WORD_LIMIT
      modifies this`cpus, this`running, this`clock, this`attempts, this`peak, this`failed, this`startCount,
        this`finishCount, this`refused, this`front, this`single, this`listed
      ensures SameCpus(old(cpus)) && Inv() && single == singleThread && CountRight() && (failed.List? <==> wantList)
      ensures Awaited(w, status == StillPolling, timeout, horizon, accepts, finishes, old(clock),
                Snapshot(cpus, attempts), wantList)
      ensures w.trace[0].attempts == [] && Prepared(old(cpus), w.trace[0].cpus, single, |cpus.state|)
      ensures status == StillPolling ||
        status == (if refused != {} then NotReady else if w.timedOut then TimedOut else Success)
      ensures status != StillPolling && !w.timedOut ==>
        && AtRest() && attempts == cpus.ApsBelow(|cpus.state|)
        && forall i :: cpus.Ap(i) ==> cpus.state[i] == Idle
      ensures status != StillPolling && w.timedOut ==>
        attempts != [] && (!single ==> attempts == cpus.ApsBelow(|cpus.state|))
      ensures Lists(Unavailable(old(cpus), |cpus.state|) + refused + w.unfinished)
    {
      hide Scheduled, NoneReadyBelow, Cpus.Active, Cpus.Executing, Cpus.ApsBelow, FailedList.Sound,
        FailedList.Members, Refusals, Unavailable, Prepared, Awaited, Cpus.Rest;
      Begin(singleThread, wantList);
      status, w := StartupAllAPsNoWaitEvent(timeout, horizon);
      ApsBelowSame(old(cpus), cpus, |cpus.state|);
      ScheduledRest(cpus, single, front, attempts);
      if status != StillPolling {
        AfterWait(w, timeout, horizon, accepts, finishes, old(clock), Snapshot(cpus, attempts), wantList, single,
          front);
      }
    }

    /** StartupAllAPs in blocking mode. */
    method StartupAllAPs(singleThread: bool, timeout: nat, wantList: bool, horizon: nat)
      returns (status: Status, list: FailedList, ghost w: Wait)
      requires AtRest() && timeout < WORD_LIMIT
      modifies this`cpus, this`running, this`clock, this`attempts, this`peak, this`failed, this`startCount,
        this`finishCount, this`refused, this`front, this`single, this`listed
      ensures SameCpus(old(cpus)) && enabledCount == old(enabledCount)
      ensures status == NotStarted <==> |cpus.state| == 1 || old(enabledCount) == 1
      ensures status == NotStarted ==> AtRest() && unchanged(this)
      ensures status != NotStarted ==>
        && Inv() && single == singleThread
        && Awaited(w, status == StillPolling, timeout, horizon, accepts, finishes, old(clock),
             Snapshot(cpus, attempts), wantList)
        && w.trace[0].attempts == [] && Prepared(old(cpus), w.trace[0].cpus, single, |cpus.state|)
      ensures status != NotStarted && status != StillPolling ==>
        status == (if refused != {} then NotReady else if w.timedOut then TimedOut else Success)
      ensures status != NotStarted && status != StillPolling && !w.timedOut ==>
        && AtRest() && attempts == cpus.ApsBelow(|cpus.state|)
        && forall i :: cpus.Ap(i) ==> cpus.state[i] == Idle
      ensures status != NotStarted && status != StillPolling && w.timedOut ==>
        attempts != [] && (!single ==> attempts == cpus.ApsBelow(|cpus.state|))
      ensures status != NotStarted && wantList ==>
        var all := Unavailable(old(cpus), |cpus.state|) + refused + w.unfinished;
        failed.List? && failed.Members() == all && list == (if all == {} then Absent else failed)
      ensures status == Success && wantList ==>
        (list == Absent <==> forall j :: 0 <= j < |cpus.state| && j != cpus.bsp ==>
           cpus.enabled[j] && (old(cpus).state[j] == Idle || old(cpus).state[j] == Finished))
    {
      hide Scheduled, Cpus.Active, Cpus.Executing, Cpus.Rest, Cpus.ApsBelow, FailedList.Sound, FailedList.Members,
        Refusals, Unavailable, Prepared, Awaited;
      list, w := Absent, Wait([], 0, false, {});
      if |cpus.state| == 1 || enabledCount == 1 {
        return NotStarted, list, w;
      }
      UnavailableIff(cpus);
      status, w := RunBlocking(singleThread, timeout, wantList, horizon);
      if wantList {
        FailedCountBound(failed, |cpus.state|, cpus.bsp);
        if status == Success {
          NothingUnfinished(w, timeout, horizon, accepts, finishes, old(clock), Snapshot(cpus, attempts));
        }
        list := if failed.count == 0 then Absent else failed;
      }
    }

    // ----- one AP -----------------------------------------------------------------------------

    /** Any of the executing APs finish, whether or not a call for all APs is under way. */
    method ApStepsAlone()
      requires cpus.Shaped() && running == cpus.Executing()
      modifies this`cpus, this`running, this`clock
      ensures cpus.Shaped() && running == cpus.Executing() && SameCpus(old(cpus))
      ensures clock == old(clock) + 1 && cpus == old(cpus).Finish(old(running) * finishes(old(clock)))
      ensures forall j :: cpus.Ap(j) ==>
        cpus.state[j] == if old(cpus).Is(j, Busy) && j in finishes(old(clock)) then Finished else old(cpus).state[j]
    {
      var done := running * finishes(clock);
      FinishActive(cpus, done);
      cpus := cpus.Finish(done);
      running := running - done;
      clock := clock + 1;
    }

    /** The checks and the dispatch. */
    method StartThis(i: nat, forbidden: bool) returns (status: Status)
      requires cpus.Shaped() && running == cpus.Executing()
      modifies this`cpus, this`running, this`attempts, this`peak
      ensures cpus.Shaped() && running == cpus.Executing() && SameCpus(old(cpus))
      ensures OthersAdvance(old(cpus), cpus, i, finishes, clock, 0)
      ensures status ==
        if i >= |cpus.state| then NotFound else if !cpus.Ap(i) then InvalidParameter
        else if !old(Startable(i)) then NotReady else if forbidden then Unsupported
        else if accepts(|old(attempts)|) then Success else NotReady
      ensures !old(Startable(i)) || forbidden ==> cpus == old(cpus) && attempts == old(attempts)
      ensures old(Startable(i)) && !forbidden ==>
        cpus == old(cpus).Put(i, if status == Success then Busy else Idle) && attempts == old(attempts) + [i]
    {
      hide Cpus.Executing, OthersAdvance;
      OthersStart(cpus, i, finishes, clock);
      if i >= |cpus.state| {
        return NotFound;
      }
      if !cpus.Ap(i) {
        return InvalidParameter;
      }
      if cpus.state[i] != Idle && cpus.state[i] != Finished {
        return NotReady;
      }
      if forbidden {
        return Unsupported;
      }
      PutExecuting(cpus, i, Busy);
      OthersPut(cpus, cpus, i, Busy, finishes, clock, 0);
      var accepted := DispatchCpu(i);
      if !accepted {
        PutExecuting(cpus, i, Idle);
        OthersPut(old(cpus), cpus, i, Idle, finishes, clock, 0);
        cpus := cpus.Put(i, Idle);
        return NotReady;
      }
      status := Success;
    }

    /** A call for AP `i` with a wait event is under way. */
    ghost predicate PendingThis(i: nat)
      reads this
    {
      && cpus.Shaped() && running == cpus.Executing()
      && i in calls && calls[i].armed && calls[i].waiting && !calls[i].finished && calls[i].signals == 0
      && (cpus.Is(i, Busy) || cpus.Is(i, Finished))
    }

    /** The polling loop of StartupThisAP: it ends with success at precisely the first pass by which the AP has
        finished, and with a timeout only if it has not. */
    method AwaitOne(i: nat, timeout: nat, horizon: nat) returns (status: Status, ghost stalled: nat, passes: nat)
      requires cpus.Shaped() && running == cpus.Executing() && timeout < WORD_LIMIT && cpus.Is(i, Busy)
      modifies this`cpus, this`running, this`clock
      ensures cpus.Shaped() && running == cpus.Executing() && SameCpus(old(cpus)) && clock == old(clock) + passes
      ensures OthersAdvance(old(cpus), cpus, i, finishes, old(clock), passes)
      ensures status == Success || status == TimedOut || status == StillPolling
      ensures status == Success ==>
        && passes > 0 && cpus.Is(i, Idle)
        && Came(finishes, old(clock), clock, i) && !Came(finishes, old(clock), clock - 1, i)
      ensures status != Success ==> cpus.Is(i, Busy) && !Came(finishes, old(clock), clock, i)
      ensures status == TimedOut ==> timeout != 0 && stalled == timeout && passes == Polls(timeout) + 1
      ensures status == StillPolling ==> passes == horizon
      ensures timeout != 0 ==> stalled == StallTotal(timeout, if status == StillPolling then passes else passes - 1)
      ensures timeout != 0 ==> passes <= if status == StillPolling then Polls(timeout) else Polls(timeout) + 1
    {
      hide Cpus.Executing, Counted, CountDown, StallInterval, Polls, StallTotal, Came, OthersAdvance, Cpus.Finish;
      var remaining := timeout;
      stalled, passes := 0, 0;
      CountedStart(timeout);
      OthersStart(cpus, i, finishes, clock);
      CameNever(finishes, clock, i);
      while passes < horizon
        invariant passes <= horizon && Counted(timeout, remaining, stalled, passes)
        invariant cpus.Shaped() && running == cpus.Executing() && SameCpus(old(cpus)) && clock == old(clock) + passes
        invariant cpus.Is(i, Busy) && !Came(finishes, old(clock), clock, i)
        invariant OthersAdvance(old(cpus), cpus, i, finishes, old(clock), passes)
      {
        CameStep(finishes, old(clock), clock, i);
        OthersFinish(old(cpus), cpus, i, finishes, old(clock), passes);
        ApStepsAlone();
        if timeout != 0 {
          CountedBound(timeout, remaining, stalled, passes);
        }
        if cpus.state[i] == Finished {
          PutExecuting(cpus, i, Idle);
          OthersPut(old(cpus), cpus, i, Idle, finishes, old(clock), passes + 1);
          cpus := cpus.Put(i, Idle);
          return Success, stalled, passes + 1;
        }
        if timeout != 0 && remaining == 0 {
          return TimedOut, stalled, passes + 1;
        }
        CountedStep(timeout, remaining, stalled, passes);
        stalled := stalled + StallInterval(remaining);
        remaining := CountDown(remaining);
        passes := passes + 1;
      }
      if timeout != 0 {
        CountedBound(timeout, remaining, stalled, passes);
      }
      status := StillPolling;
    }

    /** StartupThisAP, in blocking mode for at most `horizon` polls, or with a wait event. */
    method StartupThisAP(i: nat, timeout: nat, waitEvent: bool, allowed: bool, horizon: nat)
      returns (status: Status, ghost stalled: nat, ghost passes: nat)
      requires cpus.Shaped() && running == cpus.Executing() && timeout < WORD_LIMIT
      modifies this`cpus, this`running, this`clock, this`attempts, this`peak, this`calls
      ensures cpus.Shaped() && running == cpus.Executing() && SameCpus(old(cpus))
      ensures OthersAdvance(old(cpus), cpus, i, finishes, old(clock), passes)
      ensures status in {NotFound, InvalidParameter, Unsupported, NotReady, Success, TimedOut, StillPolling}
      ensures status == NotFound <==> i >= |cpus.state|
      ensures status == InvalidParameter <==> i < |cpus.state| && !cpus.Ap(i)
      ensures status == Unsupported <==> old(Startable(i)) && waitEvent && !allowed
      ensures status == NotReady <==>
        cpus.Ap(i) && (!old(Startable(i)) || ((waitEvent ==> allowed) && !accepts(|old(attempts)|)))
      ensures !old(Startable(i)) || status == Unsupported ==> cpus == old(cpus) && attempts == old(attempts)
      ensures old(Startable(i)) && status != Unsupported ==> attempts == old(attempts) + [i]
      ensures old(Startable(i)) && status == NotReady ==> cpus == old(cpus).Put(i, Idle)
      ensures status == Success && !waitEvent ==>
        && cpus.Is(i, Idle) && clock > old(clock)
        && Came(finishes, old(clock), clock, i) && !Came(finishes, old(clock), clock - 1, i)
      ensures status == Success && waitEvent ==>
        PendingThis(i) && cpus.Is(i, Busy) && calls == old(calls)[i := ThisCall(timeout, 0, true, true, false, 0)]
      ensures status != Success || !waitEvent ==> calls == old(calls)
      ensures waitEvent || (status != Success && status != TimedOut && status != StillPolling) ==> passes == 0
      ensures status == TimedOut ==>
        && !waitEvent && timeout != 0 && stalled == timeout && passes == Polls(timeout) + 1
        && cpus.Is(i, Busy) && !Came(finishes, old(clock), clock, i)
      ensures status == StillPolling ==>
        !waitEvent && passes == horizon && cpus.Is(i, Busy) && !Came(finishes, old(clock), clock, i)
      ensures clock == old(clock) + passes
      ensures timeout != 0 && passes > 0 ==>
        stalled == StallTotal(timeout, if status == StillPolling then passes else passes - 1)
      ensures timeout != 0 ==> passes <= if status == StillPolling then Polls(timeout) else Polls(timeout) + 1
    {
      hide Cpus.Executing, Polls, OthersAdvance, StallTotal, Came;
      stalled, passes := 0, 0;
      status := StartThis(i, waitEvent && !allowed);
      if status != Success {
        return;
      }
      if waitEvent {
        calls := calls[i := ThisCall(timeout, 0, true, true, false, 0)];
        return;
      }
      ghost var dispatched := cpus;
      status, stalled, passes := AwaitOne(i, timeout, horizon);
      OthersAfter(old(cpus), dispatched, cpus, i, finishes, old(clock), passes);
    }

    /** CheckThisAPStatus: an AP found finished is collected, with the flag set and the event signalled; a late
        call signals the event as well, so an AP found finished when the call is late signals it twice. */
    method CheckThisAPStatus(i: nat)
      requires PendingThis(i)
      modifies this`cpus, this`running, this`clock, this`calls
      ensures cpus.Shaped() && running == cpus.Executing() && SameCpus(old(cpus))
      ensures ThisTick(old(cpus), cpus, i, finishes, old(clock)) && clock == old(clock) + 1
      ensures calls.Keys == old(calls).Keys && forall j :: j in calls && j != i ==> calls[j] == old(calls)[j]
      ensures var c, found := calls[i], cpus.Is(i, Idle);
        && c.timeout == old(calls)[i].timeout && c.taken == old(calls)[i].taken + POLL_INTERVAL_US
        && c.finished == found && c.armed == (!found && !c.Late()) && c.waiting == !c.Late()
        && c.signals == (if found then 1 else 0) + (if c.Late() then 1 else 0)
        && (c.armed ==> PendingThis(i)) && (found || cpus.Is(i, Busy))
    {
      hide Cpus.Executing, ThisTick, Cpus.Finish;
      ThisTicked(cpus, i, finishes, clock);
      ApStepsAlone();
      var c := calls[i];
      c := c.(taken := c.taken + POLL_INTERVAL_US);
      if cpus.state[i] == Finished {
        c := c.(armed := false, finished := true);
        if c.waiting {
          c := c.(signals := c.signals + 1);
        }
        PutExecuting(cpus, i, Idle);
        cpus := cpus.Put(i, Idle);
      }
      if c.timeout != 0 && c.taken > c.timeout {
        c := c.(armed := false);
        if c.waiting {
          c := c.(signals := c.signals + 1, waiting := false);
        }
      }
      calls := calls[i := c];
    }

    /** Up to `limit` ticks of the timer of a call for one AP.  `trace` holds the processors before the first
        tick and after each.  The call ends at precisely the first tick that finds the AP finished or is
        late; the event is then signalled once for each of the two. */
    method RunThisTicks(i: nat, limit: nat) returns (ticks: nat, ghost trace: seq<Cpus>)
      requires PendingThis(i) && calls[i].taken == 0
      modifies this`cpus, this`running, this`clock, this`calls
      ensures i in calls && ticks <= limit && |trace| == ticks + 1 && trace[0] == old(cpus) && trace[ticks] == cpus
      ensures forall k :: 0 <= k < ticks ==> ThisTick(trace[k], trace[k + 1], i, finishes, old(clock) + k)
      ensures forall k :: 0 <= k < ticks - 1 ==> !ThisEnds(trace, k, i, old(calls)[i].timeout)
      ensures var c := calls[i];
        && (c.armed ==> ticks == limit && c.signals == 0 && PendingThis(i))
        && (ticks > 0 ==> (!c.armed <==> ThisEnds(trace, ticks - 1, i, old(calls)[i].timeout)))
        && (!c.armed ==>
          var found, late := cpus.Is(i, Idle), c.timeout != 0 && ticks * POLL_INTERVAL_US > c.timeout;
          c.finished == found && c.signals == (if found then 1 else 0) + (if late then 1 else 0))
        && c.timeout == old(calls)[i].timeout && c.taken == ticks * POLL_INTERVAL_US
      ensures calls.Keys == old(calls).Keys && forall j :: j in calls && j != i ==> calls[j] == old(calls)[j]
      ensures clock == old(clock) + ticks
    {
      hide Cpus.Executing, Cpus.Shaped, ThisTick;
      ticks, trace := 0, [cpus];
      while calls[i].armed && ticks < limit
        invariant i in calls && ticks <= limit && |trace| == ticks + 1 && trace[0] == old(cpus) && trace[ticks] == cpus
        invariant calls[i].timeout == old(calls)[i].timeout && calls[i].taken == ticks * POLL_INTERVAL_US
        invariant clock == old(clock) + ticks
        invariant calls[i].armed ==> PendingThis(i)
        invariant calls.Keys == old(calls).Keys && forall j :: j in calls && j != i ==> calls[j] == old(calls)[j]
        invariant forall k :: 0 <= k < ticks ==> ThisTick(trace[k], trace[k + 1], i, finishes, old(clock) + k)
        invariant forall k :: 0 <= k < ticks - 1 ==> !ThisEnds(trace, k, i, old(calls)[i].timeout)
        invariant ticks > 0 ==> (!calls[i].armed <==> ThisEnds(trace, ticks - 1, i, old(calls)[i].timeout))
        invariant ticks == 0 ==> calls[i].armed
        invariant !calls[i].armed ==>
          && calls[i].finished == cpus.Is(i, Idle)
          && calls[i].signals == (if cpus.Is(i, Idle) then 1 else 0) + (if calls[i].Late() then 1 else 0)
      {
        CheckThisAPStatus(i);
        ghost var before := trace;
        trace := trace + [cpus];
        ticks := ticks + 1;
        assert forall k :: 0 <= k < ticks ==> trace[k] == before[k];
        assert forall k :: 0 <= k < ticks - 1 ==>
          ThisEnds(trace, k, i, calls[i].timeout) == ThisEnds(before, k, i, calls[i].timeout);
      }
    }

    // ----- non-blocking -----------------------------------------------------------------------

    /** A non-blocking call is under way: every AP has been dispatched and is awaited; or, one at a time, none
        has been and all are awaited. */
    ghost predicate Pending()
      reads this
    {
      Inv() && armed && if single then attempts == [] else front == |cpus.state|
    }

    lemma PendingRest()
      requires Pending()
      ensures cpus.Rest() && running == cpus.Executing()
    {
    }

    /** One turn of the dispatch loop of a non-blocking call. */
    method StartNext(i: nat, ghost entry: Cpus, ghost start: nat) returns (tried: bool, refusal: bool)
      requires Inv() && i < |cpus.state| && if single then attempts == [] else NoneReadyBelow(cpus, i)
      requires clock == start + i && entry.Executing() == {} && (!single ==> Begun(entry, cpus, finishes, start, i, i))
      modifies this`cpus, this`running, this`clock, this`attempts, this`peak, this`failed, this`front
      ensures SameCpus(old(cpus)) && (failed.Absent? <==> old(failed).Absent?) && failed.Sound(|cpus.state|, cpus.bsp)
      ensures clock == old(clock) + 1
      ensures if single then !tried && cpus == old(cpus) && running == old(running)
              else Begun(entry, cpus, finishes, start, i + 1, i + 1)
      ensures attempts == if tried then old(attempts) + [i] else old(attempts)
      ensures if tried then refusal == !accepts(|old(attempts)|) else !refusal
      ensures !refusal ==> Inv() && (!single ==> NoneReadyBelow(cpus, i + 1)) && failed == old(failed)
      ensures refusal ==> cpus.Is(i, Busy) && i !in running && attempts == cpus.ApsBelow(i + 1)
      ensures refusal && failed.List? ==> failed.Members() == old(failed).Members() + {i}
    {
      hide Scheduled, NoneReadyBelow, Cpus.Active, Cpus.Executing, FailedList.Sound, FailedList.Members, Cpus.ApsBelow,
        Refusals, Settled, Begun;
      tried, refusal := false, false;
      if single {
        NothingStarted(cpus, true, front);
        FinishNothing(cpus);
        assert running * finishes(clock) == {};
      } else {
        BegunFinish(entry, cpus, finishes, start, i);
      }
      ApSteps();
      if !single {
        BegunVisit(entry, cpus, finishes, start, i);
      }
      if cpus.Is(i, Ready) {
        ReadyActive(cpus, i);
        if startCount == 0 || !single {
          tried := true;
          RefusalsStep(attempts, accepts, i);
          var accepted := DispatchReady(i);
          if !accepted {
            refusal := true;
            AddProcessorToFailedList(i, cpus.state[i]);
            AttemptsAre(cpus, front, attempts);
          }
        }
      } else if !single {
        NoneBelowNext(cpus, i);
      }
    }

    /** The dispatch loop of a non-blocking call.  In parallel mode it dispatches every AP, or stops at the first
        refusal, at AP `stopped`.  In single-thread mode it dispatches none, because the start count is not
        zero, and `error` is whatever the uninitialised status held. */
    method StartAll() returns (error: bool, ghost stopped: nat, ghost visits: nat)
      requires Inv() && attempts == []
      modifies this`cpus, this`running, this`clock, this`attempts, this`peak, this`failed, this`front
      ensures SameCpus(old(cpus)) && (failed.Absent? <==> old(failed).Absent?) && failed.Sound(|cpus.state|, cpus.bsp)
      ensures single ==> Inv() && cpus == old(cpus) && attempts == [] && running == old(running)
      ensures visits == if !single && error && old(cpus).Active() != {} then stopped + 1 else |cpus.state|
      ensures clock == old(clock) + visits && (!single ==> Begun(old(cpus), cpus, finishes, old(clock), visits, visits))
      ensures !single && !error ==> Inv() && front == |cpus.state| && attempts == cpus.ApsBelow(|cpus.state|)
      ensures single || !error ==> failed == old(failed)
      ensures !single && error && old(cpus).Active() != {} ==>
        && cpus.Is(stopped, Busy) && stopped !in running && |attempts| > 0 && !accepts(|attempts| - 1)
        && attempts == cpus.ApsBelow(stopped + 1)
        && (failed.List? ==> failed.Members() == old(failed).Members() + {stopped})
    {
      hide Scheduled, NoneReadyBelow, Cpus.Active, Cpus.Executing, FailedList.Sound, FailedList.Members, Cpus.ApsBelow,
        Refusals, Begun;
      NoneBelowZero(cpus);
      NothingStarted(cpus, single, front);
      BegunStart(cpus, finishes, clock);
      var i := 0;
      error, stopped, visits := *, 0, |cpus.state|;
      while i < |cpus.state|
        invariant 0 <= i <= |cpus.state| && SameCpus(old(cpus)) && failed == old(failed)
        invariant Inv() && (!single ==> NoneReadyBelow(cpus, i)) && (attempts != [] ==> !error)
        invariant if single then cpus == old(cpus) && attempts == [] && running == old(running)
                  else Begun(old(cpus), cpus, finishes, old(clock), i, i)
        invariant clock == old(clock) + i
      {
        var tried, refusal := StartNext(i, old(cpus), old(clock));
        if tried {
          error := refusal;
          if error {
            stopped, visits := i, i + 1;
            BegunActive(old(cpus), cpus, finishes, old(clock), i + 1, i);
            return;
          }
        }
        i := i + 1;
      }
      if !single {
        AllStarted(old(cpus), cpus, front, attempts);
        front := |cpus.state|;
      }
    }

    /** StartupAllAPsWithWaitEvent: dispatch, and set the timer unless there was an error. */
    method StartupAllAPsWithWaitEvent(timeout: nat) returns (status: Status, ghost stopped: nat, ghost visits: nat)
      requires Inv() && !armed && attempts == []
      modifies this`cpus, this`running, this`clock, this`attempts, this`peak, this`failed, this`front,
        this`allTimeout, this`allTimeTaken, this`armed
      ensures status == Success || status == NotReady
      ensures SameCpus(old(cpus)) && (armed <==> status == Success) && (failed.Absent? <==> old(failed).Absent?)
      ensures failed.Sound(|cpus.state|, cpus.bsp)
      ensures status == Success ==> Pending() && allTimeout == timeout && allTimeTaken == 0
      ensures status == Success && !single ==> attempts == cpus.ApsBelow(|cpus.state|)
      ensures single ==> cpus == old(cpus) && attempts == [] && running == old(running)
      ensures visits ==
        if !single && status == NotReady && old(cpus).Active() != {} then stopped + 1 else |cpus.state|
      ensures clock == old(clock) + visits && (!single ==> Begun(old(cpus), cpus, finishes, old(clock), visits, visits))
      ensures single || status == Success ==> failed == old(failed)
      ensures !single && status == NotReady && old(cpus).Active() != {} ==>
        && cpus.Is(stopped, Busy) && stopped !in running && |attempts| > 0 && !accepts(|attempts| - 1)
        && attempts == cpus.ApsBelow(stopped + 1)
        && (failed.List? ==> failed.Members() == old(failed).Members() + {stopped})
    {
      hide Scheduled, Cpus.Active, Cpus.Executing, FailedList.Sound, FailedList.Members, Cpus.ApsBelow, Refusals,
        Begun;
      var error;
      error, stopped, visits := StartAll();
      if error {
        return NotReady, stopped, visits;
      }
      allTimeout, allTimeTaken, armed := timeout, 0, true;
      status := Success;
    }

    /** A call with a wait event once it has begun. */
    method RunNonBlocking(singleThread: bool, timeout: nat, wantList: bool) returns (status: Status, ghost stopped: nat)
      requires AtRest() && !armed
      modifies this`cpus, this`running, this`clock, this`attempts, this`peak, this`failed, this`startCount,
        this`finishCount, this`refused, this`front, this`single, this`listed, this`allTimeout,
        this`allTimeTaken, this`armed
      ensures SameCpus(old(cpus)) && enabledCount == old(enabledCount) && startCount == enabledCount - 1
      ensures status == Success || status == NotReady
      ensures single == singleThread && (armed <==> status == Success)
      ensures (failed.List? <==> wantList) && failed.Sound(|cpus.state|, cpus.bsp)
      ensures single ==>
        && Prepared(old(cpus), cpus, true, |cpus.state|) && clock == old(clock) + |cpus.state|
        && Lists(Unavailable(old(cpus), |cpus.state|))
      ensures !single && enabledCount != 1 ==>
        var visits := if status == Success then |cpus.state| else stopped + 1;
        Started(old(cpus), cpus, finishes, old(clock), visits) && clock == old(clock) + visits
      ensures status == Success ==>
        && Pending() && allTimeout == timeout && allTimeTaken == 0 && Lists(Unavailable(old(cpus), |cpus.state|))
        && attempts == if single then [] else cpus.ApsBelow(|cpus.state|)
      ensures status == Success && enabledCount != 1 ==> cpus.Active() != {}
      ensures status == NotReady && !single && enabledCount != 1 ==>
        && cpus.Is(stopped, Busy) && stopped !in running && attempts == cpus.ApsBelow(stopped + 1)
        && |attempts| > 0 && !accepts(|attempts| - 1) && Lists(Unavailable(old(cpus), |cpus.state|) + {stopped})
    {
      hide Scheduled, Cpus.Active, Cpus.Executing, Cpus.Rest, Cpus.ApsBelow, FailedList.Sound, FailedList.Members,
        Unavailable, Refusals, Prepared, Begun, Started;
      Begin(singleThread, wantList);
      ghost var prepared := cpus;
      EmptyActive(prepared);
      ghost var visits;
      status, stopped, visits := StartupAllAPsWithWaitEvent(timeout);
      if !single {
        BegunStarted(old(cpus), prepared, cpus, finishes, old(clock), visits);
      }
      EmptyActive(cpus);
    }

    /** StartupAllAPs with a wait event. */
    method StartupAllAPsNonBlocking(singleThread: bool, timeout: nat, wantList: bool, allowed: bool)
      returns (status: Status, list: FailedList, ghost stopped: nat)
      requires AtRest() && !armed
      modifies this`cpus, this`running, this`clock, this`attempts, this`peak, this`failed, this`startCount,
        this`finishCount, this`refused, this`front, this`single, this`listed, this`allTimeout,
        this`allTimeTaken, this`armed
      ensures SameCpus(old(cpus)) && enabledCount == old(enabledCount)
      ensures status == NotStarted <==> |cpus.state| == 1 || old(enabledCount) == 1
      ensures status == Unsupported <==> status != NotStarted && !allowed
      ensures status == NotStarted || status == Unsupported ==> unchanged(this)
      ensures status == NotStarted || status == Unsupported || status == NotReady || status == Success
      ensures status == Success || status == NotReady ==>
        && single == singleThread && (armed <==> status == Success)
        && (failed.List? <==> wantList)
      ensures status == Success || status == NotReady ==>
        if singleThread then Prepared(old(cpus), cpus, true, |cpus.state|) && clock == old(clock) + |cpus.state|
        else
          var visits := if status == Success then |cpus.state| else stopped + 1;
          Started(old(cpus), cpus, finishes, old(clock), visits) && clock == old(clock) + visits
      ensures status == Success ==>
        && Pending() && allTimeout == timeout && allTimeTaken == 0 && cpus.Active() != {}
        && Lists(Unavailable(old(cpus), |cpus.state|)) && list == failed
        && attempts == if single then [] else cpus.ApsBelow(|cpus.state|)
      ensures status == NotReady && !singleThread ==>
        && cpus.Is(stopped, Busy) && stopped !in running && attempts == cpus.ApsBelow(stopped + 1)
        && |attempts| > 0 && !accepts(|attempts| - 1) && Lists(Unavailable(old(cpus), |cpus.state|) + {stopped})
        && list == failed
      ensures status == NotReady && singleThread && wantList ==>
        var all := Unavailable(old(cpus), |cpus.state|);
        failed.Members() == all && list == if all == {} then Absent else failed
    {
      hide Scheduled, Cpus.Active, Cpus.Executing, Cpus.Rest, Cpus.ApsBelow, FailedList.Sound, FailedList.Members,
        Unavailable, Refusals, Prepared, Begun, Started;
      list, stopped := Absent, 0;
      if |cpus.state| == 1 || enabledCount == 1 {
        return NotStarted, list, stopped;
      }
      if !allowed {
        return Unsupported, list, stopped;
      }
      status, stopped := RunNonBlocking(singleThread, timeout, wantList);
      list := failed;
      if wantList && status != Success {
        FailedCountBound(failed, |cpus.state|, cpus.bsp);
        if failed.count == 0 {
          list := Absent;
        }
      }
    }

    /** The timer tick is due to end the call: everything is collected, or the time is up. */
    ghost predicate Due()
      reads this
    {
      cpus.Active() == {} || (allTimeout != 0 && allTimeTaken > allTimeout)
    }

    /** Dispatch the first blocked AP, if any. */
    method StartBlocked() returns (next: nat, accepted: bool)
      requires cpus.Shaped() && failed.Sound(|cpus.state|, cpus.bsp)
      modifies this`cpus, this`running, this`attempts, this`peak, this`startCount, this`failed
      ensures FirstBlocked(old(cpus), next) && failed.Sound(|cpus.state|, cpus.bsp)
      ensures cpus == if next < |old(cpus).state| then old(cpus).Put(next, Busy) else old(cpus)
      ensures attempts == old(attempts) + (if next < |cpus.state| then [next] else [])
      ensures startCount == old(startCount) + (if next < |cpus.state| && accepted then 1 else 0)
      ensures next < |cpus.state| ==> accepted == accepts(|old(attempts)|)
      ensures running == old(running) + (if next < |cpus.state| && accepted then {next} else {})
      ensures failed.Absent? <==> old(failed).Absent?
      ensures failed.List? ==>
        failed.Members() == old(failed).Members() + (if next < |cpus.state| && !accepted then {next} else {})
    {
      hide FailedList.Sound, FailedList.Members;
      accepted := false;
      next := GetNextBlockedNumber();
      if next < |cpus.state| {
        accepted := DispatchCpu(next);
        if accepted {
          startCount := startCount + 1;
        } else {
          AddProcessorToFailedList(next, cpus.state[next]);
        }
      }
    }

    /** UpdateApStatus: a finished AP is collected and, one at a time, the next blocked one is dispatched. */
    method UpdateApStatus(i: nat) returns (next: nat, accepted: bool)
      requires cpus.Shaped() && i < |cpus.state| && failed.Sound(|cpus.state|, cpus.bsp)
      modifies this`cpus, this`running, this`attempts, this`peak, this`startCount, this`finishCount, this`failed
      ensures SameCpus(old(cpus)) && failed.Sound(|cpus.state|, cpus.bsp)
      ensures !old(cpus).Is(i, Finished) ==> unchanged(this)
      ensures old(cpus).Is(i, Finished) && !single ==>
        && cpus == old(cpus).Put(i, Idle) && finishCount == old(finishCount) + 1 && startCount == old(startCount)
        && running == old(running) && attempts == old(attempts) && failed == old(failed)
      ensures old(cpus).Is(i, Finished) && single ==>
        && FirstBlocked(old(cpus), next) && finishCount == old(finishCount) + 1
        && cpus == (if next < |cpus.state| then old(cpus).Put(next, Busy) else old(cpus)).Put(i, Idle)
        && attempts == old(attempts) + (if next < |cpus.state| then [next] else [])
        && startCount == old(startCount) + (if next < |cpus.state| && accepted then 1 else 0)
        && (next < |cpus.state| ==> accepted == accepts(|old(attempts)|))
        && running == old(running) + (if next < |cpus.state| && accepted then {next} else {})
        && (failed.Absent? <==> old(failed).Absent?)
        && (failed.List? ==>
              failed.Members() == old(failed).Members() + (if next < |cpus.state| && !accepted then {next} else {}))
    {
      hide FailedList.Sound, FailedList.Members, FirstBlocked;
      next, accepted := 0, false;
      if cpus.Is(i, Finished) {
        if single {
          next, accepted := StartBlocked();
        }
        cpus := cpus.Put(i, Idle);
        finishCount := finishCount + 1;
      }
    }

    /** A visit of the polling timer keeps the invariant. */
    method VisitTick(i: nat, ghost entry: Cpus, ghost start: nat)
      requires Pending() && i < |cpus.state| && Ticked(entry, cpus, finishes, start, i, i) && (single ==> cpus == entry)
      requires clock == start + i
      modifies this`cpus, this`running, this`clock, this`attempts, this`peak, this`startCount, this`finishCount,
        this`failed
      ensures Pending() && SameCpus(old(cpus)) && Ticked(entry, cpus, finishes, start, i + 1, i + 1)
      ensures (single ==> cpus == entry) && clock == old(clock) + 1
      ensures failed == old(failed) && startCount == old(startCount) && attempts == old(attempts)
    {
      hide Scheduled, Cpus.Active, Cpus.Executing, FailedList.Sound, FailedList.Members, Ticked, FirstBlocked, Refusals;
      if single {
        NothingStarted(cpus, true, front);
        FinishNothing(cpus);
        assert running * finishes(clock) == {};
      }
      TickedFinish(entry, cpus, finishes, start, i, i);
      ApSteps();
      TickedVisit(entry, cpus, finishes, start, i);
      if cpus.Is(i, Finished) {
        AllDispatched(cpus, attempts, i);
        RetireScheduled(cpus, false, front, attempts, i, 0);
        RetireActive(cpus, false, front, attempts, i, 0);
        PutExecuting(cpus, i, Idle);
      }
      var next, accepted := UpdateApStatus(i);
    }

    /** The loop of a tick over the processors. */
    method VisitAll()
      requires Pending()
      modifies this`cpus, this`running, this`clock, this`attempts, this`peak, this`startCount, this`finishCount,
        this`failed
      ensures Pending() && SameCpus(old(cpus)) && failed == old(failed) && attempts == old(attempts)
      ensures OneTick(old(cpus), cpus, finishes, old(clock)) && (single ==> cpus == old(cpus))
      ensures clock == old(clock) + |cpus.state|
    {
      hide Pending, Ticked;
      TickedStart(cpus, finishes, clock);
      var i := 0;
      while i < |cpus.state|
        invariant 0 <= i <= |cpus.state| && SameCpus(old(cpus)) && Pending()
        invariant Ticked(old(cpus), cpus, finishes, old(clock), i, i) && clock == old(clock) + i
        invariant (single ==> cpus == old(cpus)) && failed == old(failed) && attempts == old(attempts)
      {
        VisitTick(i, old(cpus), old(clock));
        i := i + 1;
      }
    }

    /** ProcessStartupAllAPsTimeout: list the enabled APs that are still unfinished. */
    method ProcessTimeout()
      requires failed.Sound(|cpus.state|, cpus.bsp) && cpus.Shaped()
      modifies this`failed
      ensures failed.Sound(|cpus.state|, cpus.bsp) && (failed.Absent? <==> old(failed).Absent?)
      ensures failed.List? ==> forall x :: x in failed.Members() <==> x in old(failed).Members() || Unfinished(cpus, x)
    {
      hide FailedList.Sound, FailedList.Members, Refusals;
      var i := 0;
      while i < |cpus.state|
        invariant 0 <= i <= |cpus.state|
        invariant failed.Sound(|cpus.state|, cpus.bsp) && (failed.Absent? <==> old(failed).Absent?)
        invariant failed.List? ==> forall x :: x in failed.Members() <==>
          x in old(failed).Members() || (x < i && Unfinished(cpus, x))
      {
        if cpus.Ap(i) {
          AddProcessorToFailedList(i, cpus.state[i]);
        }
        i := i + 1;
      }
    }

    /** CheckAllAPsStatus: collect finished APs; signal the event and stop the timer exactly when the call
        is due to end. */
    method CheckAllAPsStatus()
      requires Pending()
      modifies this`cpus, this`running, this`clock, this`attempts, this`peak, this`startCount, this`finishCount,
        this`failed, this`allTimeTaken, this`armed, this`signals
      ensures allTimeTaken == old(allTimeTaken) + POLL_INTERVAL_US && SameCpus(old(cpus))
      ensures OneTick(old(cpus), cpus, finishes, old(clock)) && (single ==> cpus == old(cpus))
      ensures clock == old(clock) + |cpus.state|
      ensures armed <==> !Due()
      ensures armed ==> Pending()
      ensures attempts == old(attempts) && cpus.Shaped() && cpus.Rest() && running == cpus.Executing()
      ensures signals == old(signals) + if Due() then 1 else 0
      ensures failed.Absent? <==> old(failed).Absent?
      ensures failed.List? ==> forall x :: x in failed.Members() <==>
        x in old(failed).Members() || (allTimeout != 0 && allTimeTaken > allTimeout && Unfinished(cpus, x))
    {
      hide Scheduled, Cpus.Active, Cpus.Executing, FailedList.Sound, FailedList.Members, OneTick, Refusals;
      allTimeTaken := allTimeTaken + POLL_INTERVAL_US;
      VisitAll();
      PendingRest();
      EmptyActive(cpus);
      var over := allTimeout != 0 && allTimeTaken > allTimeout;
      if over {
        ProcessTimeout();
        finishCount := startCount;
      }
      if finishCount == startCount {
        armed := false;
        signals := signals + 1;
      }
    }

    /** Up to `limit` timer ticks, with APs finishing at any time.  `trace` holds the processors before the
        first tick and after each, each determined by the one before and the APs' steps.  The event is
        signalled at most once, at exactly the first tick after which no AP is active or more time has
        passed than an active timeout allows.  In single-thread mode no processor ever changes, so only the
        timeout can end the call. */
    method RunTicks(limit: nat) returns (ticks: nat, ghost trace: seq<Cpus>)
      requires Pending() && armed && allTimeTaken == 0
      modifies this`cpus, this`running, this`clock, this`attempts, this`peak, this`startCount, this`finishCount,
        this`failed, this`allTimeTaken, this`armed, this`signals
      ensures |trace| == ticks + 1 && trace[0] == old(cpus) && trace[ticks] == cpus
      ensures TickTrace(trace, finishes, old(clock))
      ensures ticks <= limit && (armed ==> ticks == limit && Pending())
      ensures signals == old(signals) + if armed then 0 else 1
      ensures if armed then Unended(trace, allTimeout) else ticks > 0 && EndsFirst(trace, allTimeout)
      ensures allTimeout != 0 ==> ticks <= allTimeout / POLL_INTERVAL_US + 1
      ensures allTimeout != 0 && armed ==> limit <= allTimeout / POLL_INTERVAL_US
      ensures !armed && cpus.Active() != {} ==> allTimeout != 0 && ticks == LastTick(allTimeout)
      ensures attempts == old(attempts) && SameCpus(old(cpus)) && cpus.Rest() && running == cpus.Executing()
      ensures clock == StepAt(old(clock), |cpus.state|, ticks) && (failed.Absent? <==> old(failed).Absent?)
      ensures failed.List? ==>
        forall x :: x in failed.Members() <==> x in old(failed).Members() || (!armed && Unfinished(cpus, x))
      ensures single ==> forall k :: 0 <= k <= ticks ==> trace[k] == old(cpus)
      ensures single && old(cpus).Active() != {} ==>
        (!armed <==> allTimeout != 0 && ticks * POLL_INTERVAL_US > allTimeout)
    {
      hide Pending, Cpus.Active, OneTick, TickTrace, StepAt, Unended, EndsFirst, Unfinished, FailedList.Members,
        Cpus.Rest, Cpus.Executing;
      PendingRest();
      ticks, trace := 0, [cpus];
      StartOfTrace(cpus, finishes, clock, allTimeout);
      while armed && ticks < limit
        invariant ticks <= limit && allTimeTaken == ticks * POLL_INTERVAL_US
        invariant |trace| == ticks + 1 && trace[0] == old(cpus) && trace[ticks] == cpus
        invariant |cpus.state| == |old(cpus).state| && clock == StepAt(old(clock), |old(cpus).state|, ticks)
        invariant TickTrace(trace, finishes, old(clock))
        invariant armed ==> Pending()
        invariant attempts == old(attempts) && SameCpus(old(cpus)) && cpus.Rest() && running == cpus.Executing()
        invariant failed.Absent? <==> old(failed).Absent?
        invariant failed.List? ==>
          forall x :: x in failed.Members() <==> x in old(failed).Members() || (!armed && Unfinished(cpus, x))
        invariant signals == old(signals) + if armed then 0 else 1
        invariant if armed then Unended(trace, allTimeout) else ticks > 0 && EndsFirst(trace, allTimeout)
        invariant armed || cpus.Active() == {} || (allTimeout != 0 && ticks * POLL_INTERVAL_US > allTimeout)
        invariant allTimeout != 0 ==> ticks * POLL_INTERVAL_US <= allTimeout + POLL_INTERVAL_US
        invariant allTimeout != 0 && armed ==> ticks * POLL_INTERVAL_US <= allTimeout
        invariant single ==> forall k :: 0 <= k <= ticks ==> trace[k] == old(cpus)
      {
        StepAtNext(old(clock), |old(cpus).state|, ticks);
        CheckAllAPsStatus();
        QuietFinished(cpus);
        TickTraceStep(trace, cpus, finishes, old(clock));
        UnendedStep(trace, cpus, allTimeout);
        trace := trace + [cpus];
        ticks := ticks + 1;
      }
    }
  }

  /** With one AP and a timeout of 1 us, the first tick signals the event twice if it finds the AP finished. */
  method LateFinishExample(finishes: nat -> set<nat>) returns (found: bool, ghost signals: nat)
    ensures signals == if found then 2 else 1
    ensures found <==> 1 in finishes(0)
  {
    var s := new Scheduler(0, [true, true], _ => true, finishes);
    s.StartsIdle();
    ghost var stalled, passes;
    var status;
    status, stalled, passes := s.StartupThisAP(1, 1, true, true, 0);
    ghost var before := s.cpus;
    s.CheckThisAPStatus(1);
    assert s.cpus.state[1] == ThisState(before, 1, 1, finishes, 0);
    found, signals := s.cpus.Is(1, Idle), s.calls[1].signals;
  }

  /** In single-thread mode without a timeout, a call that was accepted is still pending after any number of
      ticks, and no AP was ever dispatched. */
  method SingleThreadExample(limit: nat, finishes: nat -> set<nat>) returns (status: Status, pending: bool)
    ensures status == Success ==> pending
  {
    var s := new Scheduler(0, [true, true], _ => true, finishes);
    pending := false;
    s.StartsIdle();
    var list;
    ghost var stopped, trace;
    status, list, stopped := s.StartupAllAPsNonBlocking(true, 0, false, true);
    if status == Success {
      var ticks;
      ticks, trace := s.RunTicks(limit);
      pending := s.armed;
      assert s.attempts == [];
    }
  }

  /** In single-thread mode with a timeout of 50 ms, the call ends at the second tick, after 10 ms. */
  method EarlyTimeoutExample(limit: nat, finishes: nat -> set<nat>) returns (status: Status, ticks: nat)
    requires limit >= 2
    ensures status == Success ==> ticks == 2 == LastTick(50_000) && TICK_US * ticks == 10_000
  {
    hide Scheduled, Cpus.Active, Cpus.Executing, Cpus.ApsBelow, Cpus.Rest, FailedList.Sound, FailedList.Members,
      Unavailable, Prepared, Refusals, TickTrace;
    var s := new Scheduler(0, [true, true], _ => true, finishes);
    ticks := 0;
    s.StartsIdle();
    var list;
    ghost var stopped, trace;
    status, list, stopped := s.StartupAllAPsNonBlocking(true, 50_000, false, true);
    if status == Success {
      ticks, trace := s.RunTicks(limit);
    }
  }
}
