# Verified models of ArmPkg drivers

This project models the stateful cores of nine UEFI drivers and libraries of ArmPkg in Dafny and proves what
they keep over whole runs.  `dafny verify dfyconfig.toml` checks all of it.

| files | component |
|---|---|
| `StageTwoTable.dfy`, `FlatTable.dfy`, `TableSupply.dfy`, `Teardown.dfy`, `IoMmu.dfy` | the SMMU stage-2 translation table: a 4-level table in memory, edited in place, against a flat map of pages |
| `MpState.dfy`, `MpServices.dfy` | the MP services scheduler: one BSP, any number of APs, steps interleaved |
| `PagePool.dfy` | the pool of pages for the CPU's translation tables, refilled re-entrantly |
| `EventQueue.dfy` | the SMMU event queue's indices with wrap bits |
| `Strides.dfy`, `Timer.dfy` | the timer interrupt's catch-up, and the words that repeated addition modulo 2^64 reaches |
| `GcdAttributes.dfy` | setting attributes over a range of the GCD memory map |
| `ScmiLevels.dfy` | paged retrieval of SCMI performance levels |
| `CpuIo.dfy` | the CPU I/O protocol's range check and transfer loops |
| `Machine.dfy`, `Bitwise.dfy` | shared units, and bitwise operators on naturals |

## How the models are built

**Stage-2 table.**  A 64-bit descriptor is its frame number and the set of its low one bits, which is a bijection.
`Smmu` holds memory as a map from page to 512 descriptors and edits it as the code does.  A ghost tree names each
table by the indices that lead to it; its well-formedness says that no table is shared, none is stray, and every
descriptor above the leaves is zero or points at the table it should.  `HardwareWalk` is written from the
architecture's description of the descriptor format, independently of the driver.  `Live()` is the invariant
between calls: the table in memory agrees with the flat replay of all calls so far, and it is walkable.  An
unfinished call (no memory for a table) is part of the history with the pages it reached.  The page allocator's
answers are an arbitrary sequence of NULLs and pages not given before, and the invariant says that the pages in memory
are the root and all pages given.

**Scheduler.**  The state is a record per processor and the counters.  APs finish at arbitrary points
(`ApSteps`, driven by an arbitrary function `finishes`), the firmware's answers to dispatches are an arbitrary function
(`accepts`), and the infinite waits are cut off at an arbitrary horizon, so that every prefix of every run is covered.
`Inv()` ties the counters to the states, the attempts to the ascending order of APs, and the number of APs executing to
the mode.  Waits and timer ticks are described by traces: each snapshot is determined by the one before, the answers
and the APs' steps, and a run ends at precisely the first snapshot that is due to end it.

**Environment.**  PSCI calls, the GCD services, the SCP, the hardware that fills the event queue,
the counter and the timer are parameters or nondeterministic choices.

## Findings

Where the code does not do what its description says, the model does what the code does.  Each point names the
lemma that gives the exact condition and the member that shows a concrete case.

- `ArmPkg/Drivers/SmmuDxe/IoMmu.c:231`: a byte range is translated exactly when rounding its end up to a page does
  not overflow 64 bits (`RangeExactIff`).  Otherwise its last page is never visited; when the end wraps to or below
  the base no page is, and the status returned is uninitialised.  Case: `LastPageExample`.
- `ArmPkg/Drivers/SmmuDxe/IoMmu.h:25`: leaves are selected by 36 bits of the page number, so ranges beyond 2^48 reach
  the leaves of lower pages (`NoAliasIff`), with the bits above 47 set in the descriptor.  Case: `AliasExample`.
- `ArmPkg/Drivers/SmmuDxe/IoMmu.c:72`: set-attribute adds permissions and never removes one unless none is requested
  (`SetAccessExactIff`), although its description speaks of setting the attributes.  Case: `ReadStaysExample`.
- `ArmPkg/Drivers/ArmPsciMpServicesDxe/ArmPsciMpServicesDxe.c:546`: StartupAllAPs is documented to return
  EFI_NOT_READY when an enabled AP is busy.  The test compares the start count with the number of enabled APs, and
  preparation has just counted every one of them (`PreparedAwaited`), so it never fires.  Case: `BusyCountedExample`.
  A call keeps count of the APs if and only if none is executing when it begins (`Begin`).  Case: `StaleApExample`.
- `ArmPkg/Drivers/ArmPsciMpServicesDxe/ArmPsciMpServicesDxe.c:1650`: the failed list is documented to be NULL when all
  APs finish.  On success it is NULL if and only if no AP is disabled or left over from an earlier call (the last
  clause of `StartupAllAPs`, with `UnavailableIff`).  Case: `DisabledListedExample`.
- `ArmPkg/Drivers/ArmPsciMpServicesDxe/ArmPsciMpServicesDxe.c:1719`: a non-blocking single-thread call dispatches no
  AP, then or later.  Its event is signalled if and only if it has a timeout, by that timeout (`StartAll`,
  `RunTicks`).  Case: `SingleThreadExample`.
- `ArmPkg/Drivers/ArmPsciMpServicesDxe/ArmPsciMpServicesDxe.c:1207`: the wait event of a call for one AP is signalled
  twice if and only if the tick that finds the AP finished is also the first beyond the timeout (`RunThisTicks`).
  Case: `LateFinishExample`.
- `ArmPkg/Drivers/ArmPsciMpServicesDxe/ArmPsciMpServicesDxe.c:1746`: the timer period is given in microseconds to
  EFI_BOOT_SERVICES.SetTimer(), which the UEFI Specification defines in units of 100 ns, so a timeout strikes early
  if and only if it is longer than 5 ms (`EarlyTimeoutIff`, for the tick at which `RunTicks` ends).  Case:
  `EarlyTimeoutExample`.
- `ArmPkg/Drivers/TimerDxe/TimerDxe.c:146`: the period in ticks is truncated.  The times reported keep to the counter
  if and only if the period is a whole number of ticks and its conversion does not overflow
  (`ReportsMatchCounterIff`, and `ReportedTime` for the reports of a run).  Case: `TruncatedPeriodExample`.
- `ArmPkg/Drivers/TimerDxe/TimerDxe.c:324`: the catch-up loop ends if and only if the counter is at most
  2^64 - g + compare mod g, where g is the largest power of two that divides both the ticks and 2^64 (`EndsIff`).
  More than a period short of the wrap, that is if and only if there are ticks to add or nothing to catch up with
  (`EndsBelowWrapIff`), and a period has no ticks under the condition of `TicksZeroIff`.  Cases: `EndlessExample`,
  `EndlessAtWrapExample`.
- `ArmPkg/Drivers/CpuDxe/CpuMmuCommon.c:51`: the last address of an empty range is the one before its base.  Setting
  attributes over it concerns no address if and only if the two lie in one descriptor or no memory exists below the
  descriptor of the latter (`EmptyRangeIff`).  Case: `EmptyRangeExample`.
- `ArmPkg/Drivers/CpuDxe/PageTableMemoryAllocation.c:84`: a locked pool request with no page free is served with the
  page after the end of the last pool (`LockedCallSafeIff`).  A run of requests overdraws no pool if and only if
  every refill is covered by free pages, which can be told in advance (`Serve`, `Affordable`).  Cases:
  `UsedUpExample`, `RefusedRefillExample`.
- `ArmPkg/Drivers/ArmScmiDxe/ScmiPerformanceProtocol.c:180`: the domain is written to the payload once, before the
  loop, and the status of the first reply overwrites it with zero (`ArmPkg/Drivers/ArmScmiDxe/ScmiPrivate.h:63`), so
  every later request asks for domain 0.  The levels returned are the domain's, whatever domain 0 holds, if and only
  if the domain is 0 or the first reply leaves nothing remaining (`ExactWhateverIff`); `WritesFitIff` says when they
  stay within the caller's array.  Case: `WrongLevelExample`.

## Model

| member | source | states |
|---|---|---|
| `StageTwoTable.IndexOfAddress` | ArmPkg/Drivers/SmmuDxe/IoMmu.h:18-26 | all addresses of one page have the same index at each level |
| `StageTwoTable.IndexModulo` | ArmPkg/Drivers/SmmuDxe/IoMmu.h:18-26 | the indices ignore address bits above 47 |
| `StageTwoTable.LeafSlotInjective` | ArmPkg/Drivers/SmmuDxe/IoMmu.h:18-26 | different pages below 2^48 have different leaf slots |
| `StageTwoTable.RelabelLink` | ArmPkg/Drivers/SmmuDxe/IoMmu.c:149-160 | changing the low bits of a table descriptor keeps the tree and every leaf |
| `StageTwoTable.WriteLeaf` | ArmPkg/Drivers/SmmuDxe/IoMmu.c:163-184 | writing a leaf keeps the tree and changes no other leaf of any table |
| `StageTwoTable.HangTable` | ArmPkg/Drivers/SmmuDxe/IoMmu.c:136-147 | hanging a fresh zeroed page on a zero descriptor keeps the tree shape (no sharing, no cycle) and every leaf |
| `StageTwoTable.HangKeepsAll` | ArmPkg/Drivers/SmmuDxe/IoMmu.c:136-147 | it also keeps every allocated page a table of the tree, and the table walkable by hardware |
| `StageTwoTable.WriteWalkable` | ArmPkg/Drivers/SmmuDxe/IoMmu.c:149-184 | when a write keeps valid descriptors under valid parents |
| `StageTwoTable.SoftwareWalkReadsLeaf` | ArmPkg/Drivers/SmmuDxe/IoMmu.c:133-161 | on a well-formed tree the driver's descent reads the leaf that the tree names |
| `StageTwoTable.AncestorsValid` | ArmPkg/Drivers/SmmuDxe/IoMmu.c:149-158 | a valid leaf has valid table descriptors at all three levels above it |
| `StageTwoTable.HardwareWalkReadsLeaf` | ArmPkg/Drivers/SmmuDxe/IoMmu.c:133-184 | the hardware walk, which takes addresses from bits 47:12 and reads bits 0, 1, 6, 7 and 10 by position, succeeds exactly when the leaf is valid, and returns that leaf's page and permissions |
| `TableSupply.SuppliedNext` | ArmPkg/Drivers/SmmuDxe/IoMmu.c:136-147 | the next answer is NULL or a page that is not in memory; hanging it keeps the pages in memory exactly the root and all pages given |
| `TableSupply.SpineStep` | ArmPkg/Drivers/SmmuDxe/IoMmu.c:133-161 | one level down needs one more table exactly if it is not there yet |
| `TableSupply.ChargedIff` | ArmPkg/Drivers/SmmuDxe/IoMmu.c:138-142 | a table is refused if and only if one of the answers due is NULL |
| `TableSupply.AccountLevel` | ArmPkg/Drivers/SmmuDxe/IoMmu.c:133-161 | answers taken and tables made, level by level |
| `TableSupply.AccountPage` | ArmPkg/Drivers/SmmuDxe/IoMmu.c:230-241 | answers taken and tables made, page by page |
| `FlatTable.LastAliasMeaning` | ArmPkg/Drivers/SmmuDxe/IoMmu.h:18-26 | which page of a range is the last to select a given leaf |
| `FlatTable.EditRangeEffect` | ArmPkg/Drivers/SmmuDxe/IoMmu.c:230-241 | a range of any length edits the leaves its pages select, as the last such page would alone, and no other |
| `FlatTable.NoAliasIff` | ArmPkg/Drivers/SmmuDxe/IoMmu.c:230-241 | each page of a range is edited at its own leaf, and no other leaf is, if and only if the range ends at or below 2^48 |
| `FlatTable.AliasExample` | ArmPkg/Drivers/SmmuDxe/IoMmu.h:25 | mapping the page at 2^48 writes the leaf of page 0 |
| `FlatTable.ReplayMeaning` | ArmPkg/Drivers/SmmuDxe/IoMmu.c:267-552 | after any run of calls a leaf is valid exactly when its last map was not unmapped since, holds the page that map wrote, and has exactly the permissions granted and not revoked since |
| `FlatTable.SetAccessExactIff` | ArmPkg/Drivers/SmmuDxe/IoMmu.c:72-79 | set-attribute leaves exactly the requested access if and only if it requests none or the page had nothing beyond the request; address and validity stay |
| `FlatTable.ReadStaysExample` | ArmPkg/Drivers/SmmuDxe/IoMmu.c:72-79 | asking for write access to a readable page leaves it readable |
| `Teardown.TeardownExact` | ArmPkg/Drivers/SmmuDxe/SmmuDxe.c:186-207 | recursive teardown from the root releases exactly the tables, each once, children first, and no page that is only a leaf's target, valid or not |
| `Teardown.OrderComplete` | ArmPkg/Drivers/SmmuDxe/SmmuDxe.c:195-203 | every table below a table is released with it |
| `Teardown.OrderUnder` | ArmPkg/Drivers/SmmuDxe/SmmuDxe.c:195-203 | nothing but tables below a table is released with it |
| `IoMmu.RangeExactIff` | ArmPkg/Drivers/SmmuDxe/IoMmu.c:230-233 | the pages visited are exactly those the byte range touches, aligned or not, if and only if base + bytes is at most 2^64 - 4096 |
| `IoMmu.LastPageExample` | ArmPkg/Drivers/SmmuDxe/IoMmu.c:231-233 | the last page of the address space is touched and not visited |
| `IoMmu.WalkIsFlat` | ArmPkg/Drivers/SmmuDxe/IoMmu.c:133-184 | what the hardware translates is what the flat map says, for every page |
| `IoMmu.EditTranslates` | ArmPkg/Drivers/SmmuDxe/IoMmu.c:211-248 | a call changes the translation of the pages it covers as it should, and of no other page |
| `IoMmu.FinishedBelow48` | ArmPkg/Drivers/SmmuDxe/IoMmu.c:230-241 | below 2^48 a finished call covers exactly the pages its bytes touch |
| `IoMmu.AbsentFaults` | ArmPkg/Drivers/SmmuDxe/IoMmu.c:133-147 | a page without a leaf table faults |
| `IoMmu.ChildThere` | ArmPkg/Drivers/SmmuDxe/IoMmu.c:136-137 | a descriptor above the leaves is zero exactly when the table below it does not exist |
| `IoMmu.SupplyIff` | ArmPkg/Drivers/SmmuDxe/IoMmu.c:211-248 | an update of a range runs out of memory if and only if one of the answers it is due, one for each table missing on the way to its pages, is NULL |
| `IoMmu.FirstPageNeeds` | ArmPkg/Drivers/SmmuDxe/IoMmu.c:133-147 | the first page mapped needs three tables |
| `IoMmu.Smmu.PageTableInit` | ArmPkg/Drivers/SmmuDxe/SmmuDxe.c:160-175 | the empty table satisfies the invariant, maps nothing and has no table but the root |
| `IoMmu.Smmu.UpdateFlags` | ArmPkg/Drivers/SmmuDxe/IoMmu.c:52-86 | sets the flags, or clears read and write in access-only mode without flags, in one descriptor |
| `IoMmu.Smmu.MarkLink` | ArmPkg/Drivers/SmmuDxe/IoMmu.c:149-158 | the table descriptor on the way down becomes the specified one, and nothing else changes |
| `IoMmu.Smmu.EnsureChild` | ArmPkg/Drivers/SmmuDxe/IoMmu.c:136-147 | a missing table takes one answer and is made unless that is NULL, an existing one takes none; no leaf, no table and no reachability is lost |
| `IoMmu.Smmu.Descend` | ArmPkg/Drivers/SmmuDxe/IoMmu.c:133-161 | one level of the descent reaches the right table, keeps every leaf, and keeps the table walkable under the protocol's flags |
| `IoMmu.Smmu.DescendToLeaf` | ArmPkg/Drivers/SmmuDxe/IoMmu.c:133-161 | the whole descent takes one answer for each missing table until one is NULL, and then exactly the tables on the way exist |
| `IoMmu.Smmu.MarkLeaf` | ArmPkg/Drivers/SmmuDxe/IoMmu.c:163-184 | the leaf descriptor becomes the specified one, and nothing else changes |
| `IoMmu.Smmu.UpdateMapping` | ArmPkg/Drivers/SmmuDxe/IoMmu.c:109-193 | success edits the flat map at exactly one page and failure at none; tree invariant and walkability are kept throughout; it takes one answer for each table missing on the way, fails exactly if one is NULL, and on success exactly those tables were made |
| `IoMmu.Smmu.UpdatePageTable` | ArmPkg/Drivers/SmmuDxe/IoMmu.c:211-248 | edits exactly the pages up to the first failure, all of the range on success; which status for which input and answers; how many answers it takes |
| `IoMmu.Smmu.Map` | ArmPkg/Drivers/SmmuDxe/IoMmu.c:267-322 | every touched page translates to itself without access, every other page as before; it succeeds if and only if the allocator has a page for each missing table; the returned mapping describes it |
| `IoMmu.Smmu.Unmap` | ArmPkg/Drivers/SmmuDxe/IoMmu.c:337-397 | every touched page faults, every other page as before, even when the TLB commands time out; which status when; it cannot run out of memory on mapped pages |
| `IoMmu.Smmu.SetAttribute` | ArmPkg/Drivers/SmmuDxe/IoMmu.c:513-552 | touched pages that translate gain the access or lose all of it, faulting pages stay so, every other page as before; it succeeds if and only if the allocator has a page for each missing table |
| `IoMmu.Smmu.MapThenUnmap` | ArmPkg/Drivers/SmmuDxe/IoMmu.c:267-397 | a mapping is made if and only if the allocator has the pages, and translates its pages to themselves; giving it back never fails and leaves them faulting; all other pages stay as they were, in between and afterwards |
| `IoMmu.Smmu.TranslationOfRun` | ArmPkg/Drivers/SmmuDxe/IoMmu.c:267-552 | after any run of the three calls, wherever their ranges lie, the hardware translates every page to itself exactly when its last map was not unmapped since, with exactly the permissions granted and not revoked since |
| `IoMmu.Smmu.PageTableDeInit` | ArmPkg/Drivers/SmmuDxe/SmmuDxe.c:186-207 | the in-place recursion terminates, never reads a released page, and releases exactly the specified pages in order |
| `IoMmu.Smmu.TearDown` | ArmPkg/Drivers/SmmuDxe/SmmuDxe.c:877-880 | teardown of any reachable table leaves no table allocated and releases the root and every page the allocator ever gave, each once, children first |
| `MpState.ApsBelowAscending` | ArmPkg/Drivers/ArmPsciMpServicesDxe/ArmPsciMpServicesDxe.c:1784-1832 | the order of attempts is strictly ascending and holds exactly the enabled APs |
| `MpState.FinishScheduled` | ArmPkg/Drivers/ArmPsciMpServicesDxe/ArmPsciMpServicesDxe.c:1531-1567 | APs finishing at any time keep the schedule |
| `MpState.DispatchScheduled` | ArmPkg/Drivers/ArmPsciMpServicesDxe/ArmPsciMpServicesDxe.c:1796-1798 | dispatching extends the attempts by the next AP; one at a time, no AP was executing |
| `MpState.RetireScheduled` | ArmPkg/Drivers/ArmPsciMpServicesDxe/ArmPsciMpServicesDxe.c:1800-1828 | retiring an AP and readying the next blocked one keeps the schedule |
| `MpState.RetireActive` | ArmPkg/Drivers/ArmPsciMpServicesDxe/ArmPsciMpServicesDxe.c:1800-1828 | retiring reduces the number of active APs by exactly one |
| `MpState.SweptVisit` | ArmPkg/Drivers/ArmPsciMpServicesDxe/ArmPsciMpServicesDxe.c:1784-1833 | one more visit of a pass: dispatched, collected or passed over, as the state found there says |
| `MpState.SweptFinish` | ArmPkg/Drivers/ArmPsciMpServicesDxe/ArmPsciMpServicesDxe.c:1531-1567 | the APs' steps in the middle of a pass leave every processor as the trace says |
| `MpState.QuietMeansAll` | ArmPkg/Drivers/ArmPsciMpServicesDxe/ArmPsciMpServicesDxe.c:1835-1838 | with no AP active, every enabled AP is idle and was attempted, in ascending order |
| `MpState.AttemptedSome` | ArmPkg/Drivers/ArmPsciMpServicesDxe/ArmPsciMpServicesDxe.c:1796-1798 | an AP that is active while none is ready was attempted; in parallel mode every AP was |
| `MpState.PreparedScheduled` | ArmPkg/Drivers/ArmPsciMpServicesDxe/ArmPsciMpServicesDxe.c:1617-1675 | preparation establishes the schedule of either mode |
| `MpState.PreparedAwaited` | ArmPkg/Drivers/ArmPsciMpServicesDxe/ArmPsciMpServicesDxe.c:543-548 | preparation counts every enabled AP, so the busy test after it never fires |
| `MpState.BusyCountedExample` | ArmPkg/Drivers/ArmPsciMpServicesDxe/ArmPsciMpServicesDxe.c:1661-1669 | a busy AP is counted like any other |
| `MpState.StaleApExample` | ArmPkg/Drivers/ArmPsciMpServicesDxe/ArmPsciMpServicesDxe.c:1661-1675 | an AP that is executing when a call begins: the counts agree while another AP executes |
| `MpState.UnavailableIff` | ArmPkg/Drivers/ArmPsciMpServicesDxe/ArmPsciMpServicesDxe.c:1647-1666 | nothing is listed at the start if and only if every AP is enabled and idle or finished |
| `MpState.DisabledListedExample` | ArmPkg/Drivers/ArmPsciMpServicesDxe/ArmPsciMpServicesDxe.c:1647-1652 | a disabled AP is listed by every call |
| `MpState.NothingStarted` | ArmPkg/Drivers/ArmPsciMpServicesDxe/ArmPsciMpServicesDxe.c:1717-1719 | a schedule that has attempted nothing has nothing executing or finished |
| `MpState.BegunFinish` | ArmPkg/Drivers/ArmPsciMpServicesDxe/ArmPsciMpServicesDxe.c:1531-1567 | APs that finish during the dispatch loop of a non-blocking call are exactly those dispatched before that step |
| `MpState.BegunVisit` | ArmPkg/Drivers/ArmPsciMpServicesDxe/ArmPsciMpServicesDxe.c:1717-1725 | a visit of that loop marks a ready AP busy and changes nothing else |
| `MpState.ToggleCount` | ArmPkg/Drivers/ArmPsciMpServicesDxe/ArmPsciMpServicesDxe.c:896-912 | enabling or disabling an AP changes the number of enabled APs by exactly that one |
| `MpState.AppendSound` | ArmPkg/Drivers/ArmPsciMpServicesDxe/ArmPsciMpServicesDxe.c:985-1015 | appending a processor that is not listed keeps the list free of duplicates and the BSP, and terminated |
| `MpState.FailedCountBound` | ArmPkg/Drivers/ArmPsciMpServicesDxe/ArmPsciMpServicesDxe.c:525-542 | the failed list never exceeds the number of processors less one |
| `MpServices.StallInterval` | ArmPkg/Drivers/ArmPsciMpServicesDxe/ArmPsciMpServicesDxe.c:217-232 | a stall is positive, at most the poll interval and at most what is left |
| `MpServices.CountedStep` | ArmPkg/Drivers/ArmPsciMpServicesDxe/ArmPsciMpServicesDxe.c:1845-1845 | the countdown of a nonzero timeout does not underflow, and time left plus time stalled is conserved |
| `MpServices.CountedBound` | ArmPkg/Drivers/ArmPsciMpServicesDxe/ArmPsciMpServicesDxe.c:1840-1845 | after each stall the time stalled is the lesser of the stalls' sum and the timeout, and nothing is left exactly after ceil(T / interval) stalls |
| `MpServices.AfterWait` | ArmPkg/Drivers/ArmPsciMpServicesDxe/ArmPsciMpServicesDxe.c:1835-1843 | what a wait that has ended leaves behind: without a timeout every AP attempted, in order, and idle; with one some AP attempted, in parallel mode all |
| `MpServices.EarlyTimeoutIff` | ArmPkg/Drivers/ArmPsciMpServicesDxe/ArmPsciMpServicesDxe.c:1743-1747 | the tick at which a non-blocking call times out comes before its time if and only if the timeout is longer than a tick |
| `MpServices.EarlyTimeoutExample` | ArmPkg/Drivers/ArmPsciMpServicesDxe/ArmPsciMpServicesDxe.c:1743-1747 | a timeout of 50 ms ends at tick 2, after 10 ms |
| `MpServices.Scheduler.ApSteps` | ArmPkg/Drivers/ArmPsciMpServicesDxe/ArmPsciMpServicesDxe.c:1531-1567 | any APs finishing keep the invariant |
| `MpServices.Scheduler.GetNextBlockedNumber` | ArmPkg/Drivers/ArmPsciMpServicesDxe/ArmPsciMpServicesDxe.c:182-206 | the first blocked processor other than the BSP, or none exactly if there is none |
| `MpServices.Scheduler.AddProcessorToFailedList` | ArmPkg/Drivers/ArmPsciMpServicesDxe/ArmPsciMpServicesDxe.c:985-1015 | the processor is appended once, unless it is the BSP, idle or finished; otherwise the list stays as it was |
| `MpServices.Scheduler.DispatchCpu` | ArmPkg/Drivers/ArmPsciMpServicesDxe/ArmPsciMpServicesDxe.c:83-114 | the AP is marked busy, and runs if the firmware accepts; the answer to each attempt is an arbitrary function of its number |
| `MpServices.Scheduler.Retire` | ArmPkg/Drivers/ArmPsciMpServicesDxe/ArmPsciMpServicesDxe.c:1818-1828 | the AP is idle, one fewer is active, the schedule holds, and no idle or finished AP changes |
| `MpServices.Scheduler.VisitReady` | ArmPkg/Drivers/ArmPsciMpServicesDxe/ArmPsciMpServicesDxe.c:1796-1815 | a dispatch, accepted or refused, keeps the invariant; exactly the refused are listed |
| `MpServices.Scheduler.VisitFinished` | ArmPkg/Drivers/ArmPsciMpServicesDxe/ArmPsciMpServicesDxe.c:1818-1828 | collecting a finished AP keeps the invariant |
| `MpServices.Scheduler.Visit` | ArmPkg/Drivers/ArmPsciMpServicesDxe/ArmPsciMpServicesDxe.c:1784-1832 | one visit advances the pass exactly by that processor, under any AP steps |
| `MpServices.Scheduler.Pass` | ArmPkg/Drivers/ArmPsciMpServicesDxe/ArmPsciMpServicesDxe.c:1784-1833 | a pass takes one snapshot to the next: every processor's new state and every attempt is determined by the state before, the firmware's answers and the APs' steps; none is left ready |
| `MpServices.Scheduler.ListUnfinished` | ArmPkg/Drivers/ArmPsciMpServicesDxe/ArmPsciMpServicesDxe.c:1847-1854 | lists exactly the APs that are unfinished when the pass begins and do not finish before it looks at them |
| `MpServices.Scheduler.Poll` | ArmPkg/Drivers/ArmPsciMpServicesDxe/ArmPsciMpServicesDxe.c:1783-1845 | the snapshots follow pass by pass, and the wait ends at precisely the first pass after which nothing is active or the time is up; a timeout means exactly ceil(T / interval) + 1 passes, the timeout stalled and some AP active |
| `MpServices.Scheduler.StartupAllAPsNoWaitEvent` | ArmPkg/Drivers/ArmPsciMpServicesDxe/ArmPsciMpServicesDxe.c:1765-1861 | the same, and the failed list is exactly those listed at the start, those refused and those the final pass found unfinished; status precedence |
| `MpServices.Scheduler.PrepareState` | ArmPkg/Drivers/ArmPsciMpServicesDxe/ArmPsciMpServicesDxe.c:1617-1675 | awaits every enabled AP and lists every unavailable one; the invariant then holds if and only if no AP was executing |
| `MpServices.Scheduler.EnableDisableAP` | ArmPkg/Drivers/ArmPsciMpServicesDxe/ArmPsciMpServicesDxe.c:865-915 | toggles idle APs only, keeps the count of enabled processors right and sets the health flag if asked |
| `MpServices.Scheduler.constructor` | ArmPkg/Drivers/ArmPsciMpServicesDxe/ArmPsciMpServicesDxe.c:1229-1290 | after initialisation the APs are idle, the BSP is busy and the scheduler is at rest |
| `MpServices.Scheduler.Begin` | ArmPkg/Drivers/ArmPsciMpServicesDxe/ArmPsciMpServicesDxe.c:525-548 | the list and the preparation; the start count is then the number of enabled APs, and the invariant holds if and only if no AP was executing |
| `MpServices.Scheduler.RunBlocking` | ArmPkg/Drivers/ArmPsciMpServicesDxe/ArmPsciMpServicesDxe.c:543-580 | the whole of a blocking call from the preparation to the end of the wait |
| `MpServices.Scheduler.StartupAllAPs` | ArmPkg/Drivers/ArmPsciMpServicesDxe/ArmPsciMpServicesDxe.c:497-585 | blocking: from the prepared state the wait runs pass by pass and ends at precisely the first pass after which nothing is active or the time is up; without a timeout every enabled AP was attempted in ascending order and is idle, with one some AP was attempted and all in parallel mode; one at a time at most one executes; the exact failed list, and on success NULL if and only if no AP is disabled or left over |
| `MpServices.Scheduler.StartupAllAPsNonBlocking` | ArmPkg/Drivers/ArmPsciMpServicesDxe/ArmPsciMpServicesDxe.c:497-585 | with a wait event: which status when; on success the call is pending, every AP is busy unless it finished since its dispatch, and the list holds exactly the unavailable APs; a refusal stops at the first refused AP, which is listed, the APs after it are ready |
| `MpServices.Scheduler.StartupThisAP` | ArmPkg/Drivers/ArmPsciMpServicesDxe/ArmPsciMpServicesDxe.c:676-772 | which status for which AP and firmware answer, in both modes; blocking success at precisely the first poll by which the AP has finished, a timeout after exactly ceil(T / interval) + 1 polls with the AP still busy; pending with a wait event; other processors exactly finish when they do |
| `MpServices.Scheduler.StartThis` | ArmPkg/Drivers/ArmPsciMpServicesDxe/ArmPsciMpServicesDxe.c:690-738 | the checks and the dispatch, status by status, with the state of the AP and the attempts |
| `MpServices.Scheduler.CheckThisAPStatus` | ArmPkg/Drivers/ArmPsciMpServicesDxe/ArmPsciMpServicesDxe.c:1176-1215 | a tick collects the AP if finished, with flag and signal, signals again if late and then drops the event; other calls are untouched |
| `MpServices.Scheduler.RunThisTicks` | ArmPkg/Drivers/ArmPsciMpServicesDxe/ArmPsciMpServicesDxe.c:1176-1215 | over any ticks, along such a trace, the call ends at precisely the first that finds the AP finished or is late; the event is signalled once for each of the two |
| `MpServices.LateFinishExample` | ArmPkg/Drivers/ArmPsciMpServicesDxe/ArmPsciMpServicesDxe.c:1207-1213 | a first tick that finds the AP finished after a timeout of 1 us signals twice |
| `MpServices.Scheduler.AwaitOne` | ArmPkg/Drivers/ArmPsciMpServicesDxe/ArmPsciMpServicesDxe.c:758-769 | success at precisely the first poll by which the AP has finished; a timeout after exactly ceil(T / interval) + 1 polls and the timeout stalled, with the AP busy |
| `MpServices.Scheduler.StartAll` | ArmPkg/Drivers/ArmPsciMpServicesDxe/ArmPsciMpServicesDxe.c:1706-1732 | in parallel mode every AP is dispatched in order, or the loop stops at the first refusal; each AP visited is busy unless it finished since, and the others are untouched; in single-thread mode nothing happens |
| `MpServices.Scheduler.StartupAllAPsWithWaitEvent` | ArmPkg/Drivers/ArmPsciMpServicesDxe/ArmPsciMpServicesDxe.c:1692-1750 | the timer is set if and only if the dispatch loop reports no error; what is then pending, with the state of every processor |
| `MpServices.Scheduler.RunNonBlocking` | ArmPkg/Drivers/ArmPsciMpServicesDxe/ArmPsciMpServicesDxe.c:543-570 | the whole of a call with a wait event from the preparation on |
| `MpServices.Scheduler.UpdateApStatus` | ArmPkg/Drivers/ArmPsciMpServicesDxe/ArmPsciMpServicesDxe.c:1056-1111 | a finished AP is collected and, one at a time, the first blocked one dispatched, or listed if refused; any other is left alone |
| `MpServices.Scheduler.CheckAllAPsStatus` | ArmPkg/Drivers/ArmPsciMpServicesDxe/ArmPsciMpServicesDxe.c:1123-1165 | in either mode a tick collects the finished APs, signals exactly when the call is due to end, and on a timeout lists exactly the unfinished |
| `MpServices.Scheduler.RunTicks` | ArmPkg/Drivers/ArmPsciMpServicesDxe/ArmPsciMpServicesDxe.c:1056-1165 | over any ticks and completions, the processors follow a trace in which each state is determined by the one before and the APs' steps, and the event is signalled at most once, at precisely the first tick after which no AP is active or an active timeout is exceeded, which is tick floor(T / interval) + 1; the failed list gains exactly the APs unfinished at a timeout and nothing is dispatched; in single-thread mode no processor changes and only the timeout ends the call |
| `MpServices.SingleThreadExample` | ArmPkg/Drivers/ArmPsciMpServicesDxe/ArmPsciMpServicesDxe.c:1717-1725 | a single-thread call without a timeout stays pending for ever |
| `MpServices.Scheduler.ProcessTimeout` | ArmPkg/Drivers/ArmPsciMpServicesDxe/ArmPsciMpServicesDxe.c:1022-1048 | adds exactly the unfinished enabled APs to the list |
| `PagePool.TakeSoundIff` | ArmPkg/Drivers/CpuDxe/PageTableMemoryAllocation.c:145-150 | taking a page stays inside its pool, and keeps its counters right, if and only if one is free |
| `PagePool.TakeIsNew` | ArmPkg/Drivers/CpuDxe/PageTableMemoryAllocation.c:145-150 | the next page of a pool was never issued, by any pool |
| `PagePool.TakeTracks` | ArmPkg/Drivers/CpuDxe/PageTableMemoryAllocation.c:145-150 | the pages below the bump pointers are exactly the pages issued |
| `PagePool.LockedCallSafeIff` | ArmPkg/Drivers/CpuDxe/PageTableMemoryAllocation.c:80-97 | a locked call stays inside the pool that the search yields if and only if some page is free |
| `PagePool.UsedUpExample` | ArmPkg/Drivers/CpuDxe/PageTableMemoryAllocation.c:84-96 | a used-up pool answers with the page after its end |
| `PagePool.SteadyRun` | ArmPkg/Drivers/CpuDxe/PageTableMemoryAllocation.c:127-141 | from a reserve of six, any run with up to six requests nested in each answered refill is affordable and restores the reserve |
| `PagePool.RefusedRefillExample` | ArmPkg/Drivers/CpuDxe/PageTableMemoryAllocation.c:135-137 | one refused refill loses the reserve |
| `PagePool.ChosenIs` | ArmPkg/Drivers/CpuDxe/PageTableMemoryAllocation.c:80-97 | the search yields the first pool with a page free, otherwise the last |
| `PagePool.Allocator.FindPoolToAllocateFrom` | ArmPkg/Drivers/CpuDxe/PageTableMemoryAllocation.c:80-97 | the first pool large enough, otherwise the last of the list |
| `PagePool.Allocator.GetMorePages` | ArmPkg/Drivers/CpuDxe/PageTableMemoryAllocation.c:43-69 | a refill adds one pool before the others; the requests nested in it are given the next pages in turn, and overdraw a pool if and only if they outnumber the free pages; otherwise all counters stay right |
| `PagePool.Allocator.InitializePageTableMemory` | ArmPkg/Drivers/CpuDxe/PageTableMemoryAllocation.c:170-198 | the first pool is a full reserve of 511 pages after its header |
| `PagePool.Allocator.IssuedInside` | ArmPkg/Drivers/CpuDxe/PageTableMemoryAllocation.c:145-152 | every page issued is aligned, inside its pool and off the header |
| `PagePool.Allocator.Commit` | ArmPkg/Drivers/CpuDxe/PageTableMemoryAllocation.c:147-150 | handing out a page moves the pool's pointer and both counters, and keeps everything right if and only if the pool has one free |
| `PagePool.Allocator.AllocatePageTableMemory` | ArmPkg/Drivers/CpuDxe/PageTableMemoryAllocation.c:108-153 | a pool is overdrawn if and only if the call is not safe; exactly which page is returned (the first of the new pool after a refill, otherwise the next of the first pool with one free), which pages went to nested requests before it, and no page twice; exactly when it refills, what is left, a reserve of six after an unlocked success, no refill by a locked call; the page an unsafe locked call returns |
| `PagePool.Allocator.Serve` | ArmPkg/Drivers/CpuDxe/PageTableMemoryAllocation.c:108-153 | any run of requests, with refills answered or refused, overdraws no pool if and only if it is affordable; then all pages given out, to nested and other requests alike, are different, each request has the outcome stated for it alone, only a refused refill fails a request, and the pages left are accounted for |
| `EventQueue.EmptyTest` | ArmPkg/Drivers/SmmuDxe/SmmuV3Util.c:505-520 | the test on index and wrap bits compares the counters modulo 2N |
| `EventQueue.AdvanceIsIncrement` | ArmPkg/Drivers/SmmuDxe/SmmuV3Util.c:531-540 | the step on index and wrap bit adds one modulo 2N, for every size |
| `EventQueue.Queue.Occupancy` | ArmPkg/Drivers/SmmuDxe/SmmuV3.h:63-85 | the difference of the registers modulo 2N is the number of pending records, between 0 and N |
| `EventQueue.Queue.SlotsDistinct` | ArmPkg/Drivers/SmmuDxe/SmmuV3.h:63-85 | pending records lie in different slots |
| `EventQueue.Queue.Consume` | ArmPkg/Drivers/SmmuDxe/SmmuV3Util.c:482-546 | empty exactly when nothing is pending; otherwise the oldest slot is selected and ReadIndex advances by one modulo 2N |
| `Timer.TicksZeroIff` | ArmPkg/Drivers/TimerDxe/TimerDxe.c:146-147 | which periods have no ticks |
| `Timer.ReportsMatchCounterIff` | ArmPkg/Drivers/TimerDxe/TimerDxe.c:142-165 | the reports keep to the counter if and only if the period is a whole number of ticks and its conversion does not overflow, and by how much they differ |
| `Timer.TruncatedPeriodExample` | ArmPkg/Drivers/TimerDxe/TimerDxe.c:146-147 | a period of 6.25 ticks |
| `Strides.OddReaches` | ArmPkg/Drivers/TimerDxe/TimerDxe.c:321-327 | some multiple of an odd number has any given remainder modulo 2^n |
| `Strides.HighestReached` | ArmPkg/Drivers/TimerDxe/TimerDxe.c:321-327 | repeated addition reaches the largest word it can within 2^64 additions |
| `Strides.NeverHigher` | ArmPkg/Drivers/TimerDxe/TimerDxe.c:321-327 | it reaches no larger word, and keeps the remainder modulo g |
| `Timer.Driver.ReportedTime` | ArmPkg/Drivers/TimerDxe/TimerDxe.c:307-310 | the times a run has reported are the period times the periods if and only if no product overflows; in ticks they keep to the counter if and only if the period is a whole number of ticks, and then are never ahead of it |
| `Timer.EndsIff` | ArmPkg/Drivers/TimerDxe/TimerDxe.c:321-327 | for every counter the catch-up loop ends, within 2^64 turns, if and only if the counter is at most 2^64 - g + compare mod g |
| `Timer.EndsBelowWrapIff` | ArmPkg/Drivers/TimerDxe/TimerDxe.c:321-327 | more than a period short of the wrap, it ends if and only if there are ticks to add or nothing to catch up with |
| `Timer.EndlessExample` | ArmPkg/Drivers/TimerDxe/TimerDxe.c:321-327 | a period below one tick makes it endless |
| `Timer.EndlessAtWrapExample` | ArmPkg/Drivers/TimerDxe/TimerDxe.c:321-327 | with two ticks to a period an even compare value never reaches the last counter value |
| `Timer.CatchUp` | ArmPkg/Drivers/TimerDxe/TimerDxe.c:317-333 | the loop finds the least number of periods, at least one, that reaches the counter in 64-bit arithmetic, or none within its turns |
| `Timer.Driver.SetTimerPeriod` | ArmPkg/Drivers/TimerDxe/TimerDxe.c:130-174 | zero disables the timer; any other period starts the accounting afresh, for any counter |
| `Timer.Driver.TimerInterrupt` | ArmPkg/Drivers/TimerDxe/TimerDxe.c:286-337 | reports the pending periods, never ahead of the count at the status test, and moves the compare value on by the least number of periods that reaches the later count, if any does; the no-drift law holds modulo 2^64 even if the counter wraps; a spurious interrupt changes nothing |
| `Timer.Driver.Run` | ArmPkg/Drivers/TimerDxe/TimerDxe.c:286-337 | over any interrupts for which the loop ends, the compare register is the start plus all periods reported or pending; until the counter wraps, what is reported is never ahead of the count at which it is reported |
| `GcdAttributes.Search` | ArmPkg/Drivers/CpuDxe/CpuMmuCommon.c:31-60 | for any range, found exactly when the map holds the last address; the end index is its descriptor and the start index that of the first address, or 0; for a proper range nothing below the start index is reached |
| `GcdAttributes.NothingBeyond` | ArmPkg/Drivers/CpuDxe/CpuMmuCommon.c:115-130 | descriptors outside the two indices need no change |
| `GcdAttributes.Overlap` | ArmPkg/Drivers/CpuDxe/CpuMmuCommon.c:132-150 | for a proper range the region computed is exactly the intersection of the descriptor with the range |
| `GcdAttributes.PlannedTiles` | ArmPkg/Drivers/CpuDxe/CpuMmuCommon.c:124-195 | the calls for the first descriptors are disjoint and do exactly what those descriptors call for |
| `GcdAttributes.DoneServes` | ArmPkg/Drivers/CpuDxe/CpuMmuCommon.c:152-190 | the one call that covers an address of memory in the range asks for the right capabilities and attributes, bit by bit; no call covers any other address |
| `GcdAttributes.PlannedServes` | ArmPkg/Drivers/CpuDxe/CpuMmuCommon.c:124-195 | the calls planned between the two indices are disjoint and serve every address of every descriptor, and no other |
| `GcdAttributes.SetAttributes` | ArmPkg/Drivers/CpuDxe/CpuMmuCommon.c:79-204 | which calls are made for any range; for a proper one they are disjoint, each address of memory in the range is covered by one, which keeps its attributes but for the cache type (bits 0 to 4) and adds those requested that are capabilities or bits 13, 14 or 17, as far as the services accept it; no call covers any other address |
| `GcdAttributes.EmptyRangeIff` | ArmPkg/Drivers/CpuDxe/CpuMmuCommon.c:48-146 | the calls for an empty range concern no address if and only if its address and the one before lie in one descriptor, or no memory exists below the latter's |
| `GcdAttributes.EmptyRangeExample` | ArmPkg/Drivers/CpuDxe/CpuMmuCommon.c:132-146 | a call for the first of three descriptors that covers addresses of the third |
| `ScmiLevels.CountsDecode` | ArmPkg/Drivers/ArmScmiDxe/ArmScmiPerformanceProtocolPrivate.h:17-35 | the masks recover both counts from the packed word, whatever its unused bits hold |
| `ScmiLevels.ExactWhateverIff` | ArmPkg/Drivers/ArmScmiDxe/ScmiPerformanceProtocol.c:177-225 | what is gathered is the domain's table, whatever domain 0 holds as long as it answers, if and only if the domain is 0 or the first reply leaves nothing remaining |
| `ScmiLevels.ExactIff` | ArmPkg/Drivers/ArmScmiDxe/ScmiPerformanceProtocol.c:177-225 | the same for a given table of domain 0 |
| `ScmiLevels.WritesFitIff` | ArmPkg/Drivers/ArmScmiDxe/ScmiPerformanceProtocol.c:209-217 | when the levels written stay within the caller's array |
| `ScmiLevels.WrongLevelExample` | ArmPkg/Drivers/ArmScmiDxe/ScmiPerformanceProtocol.c:180-186 | two levels, one to a reply: the second comes from domain 0 |
| `ScmiLevels.Mailbox.Execute` | ArmPkg/Drivers/ArmScmiDxe/Scmi.c:76-144 | the reply's status and count land on the words that held the request's domain and index |
| `ScmiLevels.Mailbox.Ask` | ArmPkg/Drivers/ArmScmiDxe/ScmiPerformanceProtocol.c:185-201 | one turn writes only the index and decodes both counts of the reply |
| `ScmiLevels.DescribeLevels` | ArmPkg/Drivers/ArmScmiDxe/ScmiPerformanceProtocol.c:152-226 | terminates; the first request names the domain and all later ones domain 0; exactly the levels so gathered are written and nothing beyond; a buffer that is too small is untouched and the size needed is returned; when it fails |
| `ScmiLevels.CopyLevels` | ArmPkg/Drivers/ArmScmiDxe/ScmiPerformanceProtocol.c:209-217 | copies one reply into place and leaves the rest of memory alone |
| `ScmiLevels.DescribeWithRetry` | ArmPkg/Drivers/ArmScmiDxe/ScmiPerformanceProtocol.c:177-225 | a retry with the size returned succeeds; the levels of the first reply are right, and all are if the domain is 0 or nothing remained |
| `CpuIo.FitsIff` | ArmPkg/Drivers/ArmPciCpuIo2Dxe/ArmPciCpuIo2Dxe.c:157-166 | the shift-based test accepts exactly the transfers that end within the limit in unbounded arithmetic, and its shift does not overflow |
| `CpuIo.InRangeIff` | ArmPkg/Drivers/ArmPciCpuIo2Dxe/ArmPciCpuIo2Dxe.c:136-167 | the same for every limit of the form 2^n - 1, with the empty transfer |
| `CpuIo.CheckParameterIff` | ArmPkg/Drivers/ArmPciCpuIo2Dxe/ArmPciCpuIo2Dxe.c:91-178 | exactly which requests are accepted, refused as invalid and refused as unsupported, for the limits 0xFFFF and 2^64 - 1 |
| `CpuIo.NextAccess` | ArmPkg/Drivers/ArmPciCpuIo2Dxe/ArmPciCpuIo2Dxe.c:30-62 | the stride tables move a plain transfer on both sides, a FIFO in the buffer alone and a fill on the bus alone, by 1, 2, 4 or 8 |
| `CpuIo.Transfer` | ArmPkg/Drivers/ArmPciCpuIo2Dxe/ArmPciCpuIo2Dxe.c:222-260 | exactly the accesses asked for, in order: the i-th is at address + i * size and place buffer + i * size, for a FIFO at the address itself, for a fill at the buffer itself; within the limit before translation; none if the check fails |

## Left out

- Begin: a call without a list leaves the pointer to the list of an earlier call in place; what it then writes there is not modelled.
- StartupAllAPs: entered with no AP executing, the condition under which `Begin` establishes the invariant.
- StartupAllAPsNonBlocking: entered with no AP executing and with no other such call pending; the timer can be set.
- TimerInterrupt: a notify function is registered, and it does not change the period.
- SetAttributes: what the calls for a range that wraps past 2^64 do to each address.
- Map: descriptor bits 63:48, which a page at or above 2^48 sets and which are attributes to the hardware; and failure to allocate the mapping record, which the code does not check.
- PageTableInit: pages for tables lie below 2^48, as every page does on a machine with 48-bit addresses, and none is given twice, since none is released before teardown.
- DescribeLevels: an SCP that returns inconsistent counts, or answers an index beyond the end of a table; the message transport beneath the payload.
- Transfer: what is read or written at each access.
- Unmap: the order of the three TLB commands; they are one outcome.
- Debug assertions on error paths, which stop a debug build where a release build returns.
- The SMMU command queue, register polling, stream tables and configuration.
- The address of the event record that the consumer logs; only the queue's indices are modelled.
- Multi-page pool requests, and the release of pages on the error path of the pool's initialisation.
- Memory ordering between BSP and APs, TPL and event delivery: AP steps are atomic and placed between the BSP's visits.
- Checks that need only a NULL test or the caller's identity (NULL protocol pointers, calls from an AP).
- The other drivers and libraries (GIC, watchdog, architectural timer library, HOB and boot code, clock and vendor SCMI commands, DynamicTablesPkg headers).
