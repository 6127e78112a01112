/** The deferred frequency switch: the scheduler hook leaves a request and hands a single
    token to an interrupt, the interrupt hands it to a kernel thread, and the thread takes
    the newest request and calls the driver. Every read or write that another context can
    see is its own step; a section under `update_lock` is one step. */
module DeferredSwitch {
  import opened CInt

  /** How far memutil_stop has come. */
  datatype Phase = Running | HookRemoved | Synchronized | IrqSynced | WorkCancelled | Stopped

  /** The kernel thread: idle, inside memutil_work before its locked section, or past it
      with the frequency it read (the index says which request that was). */
  datatype Worker = Idle | Entered | Applying(freq: U32, index: nat)

  datatype DriverCall = DriverCall(freq: U32, index: nat)

  datatype State = State(
    phase: Phase,
    lastRequestedFreq: U32,
    freqUpdateInProgress: bool,
    hookInCall: bool,          // between the unlocked write and the locked section
    irqPending: bool,
    irqRunning: bool,
    workQueued: bool,
    worker: Worker,
    droppedQueueCalls: nat,    // queue calls the kernel refused because already queued
    cancelled: bool,           // the last stop removed a queued work item
    requests: seq<U32>,        // every request ever made
    driver: seq<DriverCall>,   // every driver call ever made
    epochRequests: nat,        // |requests| and |driver| at the last start
    epochCalls: nat)

  /** After memutil_policy_alloc: zeroed, with the maximum as the last request. */
  function Initial(maxFreq: U32): State {
    State(Stopped, maxFreq, false, false, false, false, false, Idle, 0, false, [], [], 0, 0)
  }

  datatype Step =
    | Request(freq: U32)     // the unlocked write of last_requested_freq
    | HookLocked             // memutil_deferred_set_frequency
    | IrqFires
    | IrqQueuesWork          // memutil_irq_work
    | WorkerDequeues
    | WorkerSnapshot         // the locked section of memutil_work
    | CallDriver
    | RemoveHook             // memutil_stop, in order
    | RcuSync
    | IrqSync
    | CancelWork
    | WorkFlushed
    | Start(ok: bool)

  /** A step of the protocol proper: no new request and no start or stop. */
  predicate Internal(step: Step) {
    step in {HookLocked, IrqFires, IrqQueuesWork, WorkerDequeues, WorkerSnapshot, CallDriver}
  }

  predicate Enabled(s: State, step: Step) {
    match step
    case Request(_) => s.phase == Running && !s.hookInCall
    case HookLocked => s.hookInCall
    case IrqFires => s.irqPending && !s.irqRunning
    case IrqQueuesWork => s.irqRunning
    case WorkerDequeues => s.workQueued && s.worker == Idle
    case WorkerSnapshot => s.worker == Entered
    case CallDriver => s.worker.Applying?
    case RemoveHook => s.phase == Running
    case RcuSync => s.phase == HookRemoved && !s.hookInCall
    case IrqSync => s.phase == Synchronized && !s.irqPending && !s.irqRunning
    case CancelWork => s.phase == IrqSynced
    case WorkFlushed => s.phase == WorkCancelled && s.worker == Idle
    case Start(_) => s.phase == Stopped
  }

  /** irq_work_queue and kthread_queue_work ignore an item that is already queued. */
  function QueueIrq(s: State): State {
    if s.irqPending then s.(droppedQueueCalls := s.droppedQueueCalls + 1) else s.(irqPending := true)
  }

  function QueueWork(s: State): State {
    if s.workQueued then s.(droppedQueueCalls := s.droppedQueueCalls + 1) else s.(workQueued := true)
  }

  function Apply(s: State, step: Step): State {
    match step
    case Request(f) => s.(lastRequestedFreq := f, hookInCall := true, requests := s.requests + [f])
    case HookLocked =>
      var s' := s.(hookInCall := false);
      if s.freqUpdateInProgress then s' else QueueIrq(s'.(freqUpdateInProgress := true))
    case IrqFires => s.(irqPending := false, irqRunning := true)
    case IrqQueuesWork => QueueWork(s.(irqRunning := false))
    case WorkerDequeues => s.(workQueued := false, worker := Entered)
    case WorkerSnapshot =>
      s.(worker := Applying(s.lastRequestedFreq, if s.requests == [] then 0 else |s.requests| - 1),
         freqUpdateInProgress := false)
    case CallDriver =>
      if s.worker.Applying?
      then s.(worker := Idle, driver := s.driver + [DriverCall(s.worker.freq, s.worker.index)])
      else s
    case RemoveHook => s.(phase := HookRemoved)
    case RcuSync => s.(phase := Synchronized)
    case IrqSync => s.(phase := IrqSynced)
    case CancelWork => s.(phase := WorkCancelled, cancelled := s.workQueued, workQueued := false)
    case WorkFlushed => s.(phase := Stopped)
    case Start(ok) =>
      s.(phase := if ok then Running else Stopped, freqUpdateInProgress := false, cancelled := false,
         epochRequests := |s.requests|, epochCalls := |s.driver|)
  }

  predicate Legal(s: State, steps: seq<Step>)
    decreases |steps|
  {
    steps == [] || (Enabled(s, steps[0]) && Legal(Apply(s, steps[0]), steps[1..]))
  }

  function Run(s: State, steps: seq<Step>): State
    decreases |steps|
  {
    if steps == [] then s else Run(Apply(s, steps[0]), steps[1..])
  }

  /* ---------- The invariant ---------- */

  function Bit(b: bool): nat { if b then 1 else 0 }

  function Tokens(s: State): nat {
    Bit(s.irqPending) + Bit(s.irqRunning) + Bit(s.workQueued) + Bit(s.worker == Entered)
  }

  /** The in-progress flag stands for exactly one token; only a cancelled work item leaves
      the flag without one. */
  predicate TokenInv(s: State) {
    && Tokens(s) == (if s.cancelled then 0 else Bit(s.freqUpdateInProgress))
    && (s.cancelled ==> s.freqUpdateInProgress && s.phase in {WorkCancelled, Stopped})
    && s.droppedQueueCalls == 0
    && (s.hookInCall ==> s.phase in {Running, HookRemoved})
    && (s.phase in {IrqSynced, WorkCancelled, Stopped} ==> !s.irqPending && !s.irqRunning)
    && (s.phase in {WorkCancelled, Stopped} ==> !s.workQueued)
    && (s.phase == Stopped ==> s.worker == Idle)
  }

  /** The calls are requests, in order, and since the last start only requests made since. */
  predicate CallsMatch(calls: seq<DriverCall>, requests: seq<U32>, sinceCall: nat, sinceRequest: nat) {
    && (forall k :: 0 <= k < |calls| ==> calls[k].index < |requests| && calls[k].freq == requests[calls[k].index])
    && (forall j, k :: 0 <= j < k < |calls| ==> calls[j].index <= calls[k].index)
    && (forall k :: sinceCall <= k < |calls| ==> sinceRequest <= calls[k].index)
  }

  /** What the worker took is a request of this start, not older than what was applied. */
  predicate SnapshotInv(s: State) {
    && (s.requests != [] ==> s.lastRequestedFreq == s.requests[|s.requests| - 1])
    && (s.worker.Applying? ==>
          && s.epochRequests <= s.worker.index < |s.requests|
          && s.worker.freq == s.requests[s.worker.index]
          && (s.driver != [] ==> s.driver[|s.driver| - 1].index <= s.worker.index))
  }

  /** Every token and every driver call goes back to a request of its own. */
  predicate CountInv(s: State) {
    && s.epochRequests <= |s.requests| && s.epochCalls <= |s.driver|
    && (Tokens(s) > 0 || s.hookInCall ==> s.epochRequests < |s.requests|)
    && |s.driver| + Bit(s.worker.Applying?) + Tokens(s) + Bit(s.hookInCall) <= |s.requests|
  }

  predicate OrderInv(s: State) {
    CallsMatch(s.driver, s.requests, s.epochCalls, s.epochRequests) && SnapshotInv(s) && CountInv(s)
  }

  predicate NewestApplied(s: State) {
    s.driver != [] && s.requests != [] && s.driver[|s.driver| - 1] == DriverCall(s.lastRequestedFreq, |s.requests| - 1)
  }

  /** Someone still has to deal with the newest request, or nobody needs to. */
  predicate NewestInHand(s: State) {
    || s.freqUpdateInProgress
    || s.hookInCall
    || (s.worker.Applying? && s.worker.index == |s.requests| - 1)
    || NewestApplied(s)
  }

  predicate Inv(s: State) {
    TokenInv(s) && OrderInv(s) && (s.epochRequests < |s.requests| ==> NewestInHand(s))
  }

  lemma StepKeepsTokens(s: State, step: Step)
    requires TokenInv(s) && Enabled(s, step)
    ensures TokenInv(Apply(s, step))
  {
  }

  lemma StepKeepsCounts(s: State, step: Step)
    requires TokenInv(s) && CountInv(s) && Enabled(s, step)
    ensures CountInv(Apply(s, step))
  {
  }

  lemma StepKeepsSnapshot(s: State, step: Step)
    requires TokenInv(s) && OrderInv(s) && Enabled(s, step)
    ensures SnapshotInv(Apply(s, step))
  {
  }

  lemma StepKeepsOrder(s: State, step: Step)
    requires TokenInv(s) && OrderInv(s) && Enabled(s, step)
    ensures OrderInv(Apply(s, step))
  {
    StepKeepsCounts(s, step);
    StepKeepsSnapshot(s, step);
    match step
    case Request(f) => CallsMatchRequest(s.driver, s.requests, f, s.epochCalls, s.epochRequests);
    case CallDriver =>
      CallsMatchCall(s.driver, s.requests, s.worker.freq, s.worker.index, s.epochCalls, s.epochRequests);
    case _ =>
  }

  lemma CallsMatchRequest(calls: seq<DriverCall>, requests: seq<U32>, f: U32, sinceCall: nat, sinceRequest: nat)
    requires CallsMatch(calls, requests, sinceCall, sinceRequest)
    ensures CallsMatch(calls, requests + [f], sinceCall, sinceRequest)
  {
  }

  lemma CallsMatchCall(calls: seq<DriverCall>, requests: seq<U32>, f: U32, index: nat, sinceCall: nat,
                       sinceRequest: nat)
    requires CallsMatch(calls, requests, sinceCall, sinceRequest)
    requires sinceRequest <= index < |requests| && f == requests[index]
    requires calls != [] ==> calls[|calls| - 1].index <= index
    ensures CallsMatch(calls + [DriverCall(f, index)], requests, sinceCall, sinceRequest)
  {
  }

  lemma StepKeepsNewest(s: State, step: Step)
    requires Inv(s) && Enabled(s, step)
    ensures var s' := Apply(s, step); s'.epochRequests < |s'.requests| ==> NewestInHand(s')
  {
  }

  /** The invariant holds in every state that any interleaving can reach. */
  lemma {:induction false} RunKeepsInv(s: State, steps: seq<Step>)
    requires Inv(s) && Legal(s, steps)
    ensures Inv(Run(s, steps))
    decreases |steps|
  {
    if steps != [] {
      StepKeepsTokens(s, steps[0]);
      StepKeepsOrder(s, steps[0]);
      StepKeepsNewest(s, steps[0]);
      RunKeepsInv(Apply(s, steps[0]), steps[1..]);
    }
  }

  lemma ReachableInv(maxFreq: U32, steps: seq<Step>)
    requires Legal(Initial(maxFreq), steps)
    ensures Inv(Run(Initial(maxFreq), steps))
  {
    RunKeepsInv(Initial(maxFreq), steps);
  }

  /* ---------- Safety ---------- */

  predicate Quiescent(s: State) {
    !s.hookInCall && Tokens(s) == 0 && s.worker == Idle
  }

  /** No update is lost: whatever the interleaving, once nothing is under way the driver
      was last called for the newest request of this start. */
  lemma NoUpdateLost(maxFreq: U32, steps: seq<Step>)
    requires Legal(Initial(maxFreq), steps)
    requires var s := Run(Initial(maxFreq), steps);
             Quiescent(s) && s.phase == Running && s.epochRequests < |s.requests|
    ensures var s := Run(Initial(maxFreq), steps);
            s.driver != [] && s.driver[|s.driver| - 1] == DriverCall(s.requests[|s.requests| - 1], |s.requests| - 1)
  {
    ReachableInv(maxFreq, steps);
  }

  /** In every phase: the flag is set exactly when one token exists, or when a stop has just
      cancelled it, which leaves none; there are never two, so no queue call ever finds its
      item already queued. */
  lemma FlagIsOneToken(maxFreq: U32, steps: seq<Step>)
    requires Legal(Initial(maxFreq), steps)
    ensures var s := Run(Initial(maxFreq), steps);
            && (s.freqUpdateInProgress <==> Tokens(s) == 1 || s.cancelled)
            && (s.cancelled ==> Tokens(s) == 0 && s.phase in {WorkCancelled, Stopped})
            && Tokens(s) <= 1
            && s.droppedQueueCalls == 0
  {
    ReachableInv(maxFreq, steps);
  }

  /** Requests may be skipped but never applied out of order, the driver is never called
      more often than requested, and a restart applies nothing from before it. */
  lemma CoalescingKeepsOrder(maxFreq: U32, steps: seq<Step>)
    requires Legal(Initial(maxFreq), steps)
    ensures var s := Run(Initial(maxFreq), steps);
            && |s.driver| <= |s.requests|
            && CallsMatch(s.driver, s.requests, s.epochCalls, s.epochRequests)
  {
    ReachableInv(maxFreq, steps);
  }

  /* ---------- Start and stop ---------- */

  /** A finished stop leaves nothing pending. The flag is stale exactly when the stop had
      to cancel a queued item, and if it did not, the newest request had been applied. */
  lemma StopDrains(maxFreq: U32, steps: seq<Step>)
    requires Legal(Initial(maxFreq), steps) && Run(Initial(maxFreq), steps).phase == Stopped
    ensures var s := Run(Initial(maxFreq), steps);
            && Quiescent(s)
            && (s.freqUpdateInProgress <==> s.cancelled)
            && (!s.cancelled && s.epochRequests < |s.requests| ==> NewestApplied(s))
  {
    ReachableInv(maxFreq, steps);
  }

  /** No driver call follows a stop until the next start. */
  lemma {:induction false} NoDriverCallAfterStop(s: State, steps: seq<Step>)
    requires Inv(s) && s.phase == Stopped && Legal(s, steps)
    requires Start(true) !in steps
    ensures Run(s, steps).driver == s.driver && Run(s, steps).phase == Stopped
    decreases |steps|
  {
    if steps != [] {
      assert steps[0] in steps && steps[0] != Start(true);
      assert steps[0] == Start(false);
      RunKeepsInv(s, [steps[0]]);
      assert Run(s, [steps[0]]) == Apply(s, steps[0]);
      NoDriverCallAfterStop(Apply(s, steps[0]), steps[1..]);
    }
  }

  /** A start clears the stale flag, so flag and token agree again from then on. */
  lemma StartRestoresTokens(s: State, ok: bool)
    requires Inv(s) && s.phase == Stopped
    ensures var s' := Apply(s, Start(ok)); Inv(s') && !s'.freqUpdateInProgress && Tokens(s') == 0 && !s'.cancelled
  {
    StepKeepsTokens(s, Start(ok));
    StepKeepsOrder(s, Start(ok));
  }

  /** The newest request is on its way through the worker, or has arrived. */
  predicate ReachesDriver(s: State) {
    || s.worker == Entered
    || (s.worker.Applying? && s.worker.index == |s.requests| - 1)
    || NewestApplied(s)
  }

  /** After the cancellation nothing changes whether the newest request arrives. */
  lemma StepKeepsOutcome(s: State, step: Step)
    requires Inv(s) && s.phase in {WorkCancelled, Stopped} && s.epochRequests < |s.requests|
    requires Enabled(s, step) && !step.Start?
    ensures var s' := Apply(s, step);
            && s'.phase in {WorkCancelled, Stopped} && s'.requests == s.requests && s'.epochRequests == s.epochRequests
            && (ReachesDriver(s') <==> ReachesDriver(s))
  {
  }

  lemma {:induction false} OutcomeIsDecided(s: State, steps: seq<Step>)
    requires Inv(s) && s.phase in {WorkCancelled, Stopped} && s.epochRequests < |s.requests|
    requires Legal(s, steps) && forall step :: step in steps ==> !step.Start?
    ensures ReachesDriver(Run(s, steps)) <==> ReachesDriver(s)
    decreases |steps|
  {
    if steps != [] {
      assert steps[0] in steps;
      StepKeepsOutcome(s, steps[0]);
      RunKeepsInv(s, [steps[0]]);
      assert Run(s, [steps[0]]) == Apply(s, steps[0]);
      OutcomeIsDecided(Apply(s, steps[0]), steps[1..]);
    }
  }

  lemma CancelLosesIff(s: State, after: seq<Step>)
    requires Inv(s) && s.phase == IrqSynced && s.epochRequests < |s.requests|
    requires Legal(Apply(s, CancelWork), after) && Run(Apply(s, CancelWork), after).phase == Stopped
    requires forall step :: step in after ==> !step.Start?
    ensures !NewestApplied(Run(Apply(s, CancelWork), after)) <==>
              s.workQueued && !(s.worker.Applying? && s.worker.index == |s.requests| - 1) && !NewestApplied(s)
  {
    var s' := Apply(s, CancelWork);
    assert Run(s, [CancelWork]) == s';
    RunKeepsInv(s, [CancelWork]);
    OutcomeIsDecided(s', after);
    RunKeepsInv(s', after);
  }

  /** Exactly when a stop loses the newest request: when the work item is still queued as
      memutil_stop cancels it, and the worker has neither taken nor applied that request
      with an earlier item. The driver is never called for a lost one. */
  lemma StopLosesIff(maxFreq: U32, before: seq<Step>, after: seq<Step>)
    requires Legal(Initial(maxFreq), before + [CancelWork] + after)
    requires Run(Initial(maxFreq), before).epochRequests < |Run(Initial(maxFreq), before).requests|
    requires Run(Initial(maxFreq), before + [CancelWork] + after).phase == Stopped
    requires forall step :: step in after ==> !step.Start?
    ensures var s := Run(Initial(maxFreq), before);
            !NewestApplied(Run(Initial(maxFreq), before + [CancelWork] + after)) <==>
              s.workQueued && !(s.worker.Applying? && s.worker.index == |s.requests| - 1) && !NewestApplied(s)
  {
    var s0 := Initial(maxFreq);
    var s := Run(s0, before);
    RunConcat(s0, before + [CancelWork], after);
    RunConcat(s0, before, [CancelWork]);
    assert Run(s, [CancelWork]) == Apply(s, CancelWork);
    ReachableInv(maxFreq, before);
    CancelLosesIff(s, after);
  }

  /** Stopping while the work item is queued cancels it ... */
  lemma StopCancelsQueuedWork(s: State)
    requires s.phase == Running && s.workQueued && !s.hookInCall && !s.irqPending && !s.irqRunning && s.worker == Idle
    ensures var down := [RemoveHook, RcuSync, IrqSync, CancelWork, WorkFlushed];
            Legal(s, down) && Run(s, down) == s.(phase := Stopped, workQueued := false, cancelled := true)
  {
    FiveSteps(s, [RemoveHook, RcuSync, IrqSync, CancelWork, WorkFlushed]);
  }

  lemma RequestQueuesWork(maxFreq: U32, freq: U32)
    ensures var up := [Start(true), Request(freq), HookLocked, IrqFires, IrqQueuesWork];
            && Legal(Initial(maxFreq), up)
            && Run(Initial(maxFreq), up) == Initial(maxFreq).(phase := Running, lastRequestedFreq := freq,
                 freqUpdateInProgress := true, workQueued := true, requests := [freq])
  {
    FiveSteps(Initial(maxFreq), [Start(true), Request(freq), HookLocked, IrqFires, IrqQueuesWork]);
  }

  /** ... and so a stop can lose the last request: nothing was applied, the flag is stale. */
  lemma StopMayLoseARequest(maxFreq: U32, freq: U32)
    ensures exists steps :: && Legal(Initial(maxFreq), steps)
                            && var s := Run(Initial(maxFreq), steps);
                               s.phase == Stopped && s.requests == [freq] && s.driver == [] && s.freqUpdateInProgress
  {
    var s := Initial(maxFreq);
    var up := [Start(true), Request(freq), HookLocked, IrqFires, IrqQueuesWork];
    var down := [RemoveHook, RcuSync, IrqSync, CancelWork, WorkFlushed];
    RequestQueuesWork(maxFreq, freq);
    StopCancelsQueuedWork(Run(s, up));
    RunConcat(s, up, down);
    assert Legal(s, up + down);
  }

  /** A cancelled item need not be a loss: here the worker, started for request a, takes
      request b between the hook's write and its locked section, and b's own item is
      cancelled. */
  lemma CancelledYetApplied(maxFreq: U32, a: U32, b: U32)
    ensures exists steps :: && Legal(Initial(maxFreq), steps)
                            && var s := Run(Initial(maxFreq), steps);
                               s.phase == Stopped && s.cancelled && s.requests == [a, b] && NewestApplied(s)
  {
    var s0 := Initial(maxFreq);
    var first := [Start(true), Request(a), HookLocked, IrqFires, IrqQueuesWork];
    var second := [WorkerDequeues, Request(b), WorkerSnapshot, HookLocked, IrqFires];
    var third := [IrqQueuesWork, CallDriver];
    var down := [RemoveHook, RcuSync, IrqSync, CancelWork, WorkFlushed];
    RequestQueuesWork(maxFreq, a);
    var s1 := Run(s0, first);
    WorkerOvertakes(s1, b);
    var s2 := Run(s1, second);
    TwoSteps(s2, third);
    var s3 := Run(s2, third);
    StopCancelsQueuedWork(s3);
    RunConcat(s0, first, second);
    RunConcat(s0, first + second, third);
    RunConcat(s0, first + second + third, down);
    assert Legal(s0, first + second + third + down);
  }

  lemma WorkerOvertakes(s: State, b: U32)
    requires s.phase == Running && s.workQueued && !s.hookInCall && !s.irqPending && !s.irqRunning && s.worker == Idle
    ensures var steps := [WorkerDequeues, Request(b), WorkerSnapshot, HookLocked, IrqFires];
            && Legal(s, steps)
            && Run(s, steps) == s.(workQueued := false, lastRequestedFreq := b, requests := s.requests + [b],
                 worker := Applying(b, |s.requests|), freqUpdateInProgress := true, irqRunning := true)
  {
    FiveSteps(s, [WorkerDequeues, Request(b), WorkerSnapshot, HookLocked, IrqFires]);
  }

  lemma {:induction false} RunConcat(s: State, p: seq<Step>, q: seq<Step>)
    ensures Run(s, p + q) == Run(Run(s, p), q)
    ensures Legal(s, p + q) <==> Legal(s, p) && Legal(Run(s, p), q)
    decreases |p|
  {
    if p == [] {
      assert p + q == q;
    } else {
      assert (p + q)[0] == p[0] && (p + q)[1..] == p[1..] + q;
      RunConcat(Apply(s, p[0]), p[1..], q);
    }
  }

  lemma FiveSteps(s: State, p: seq<Step>)
    requires |p| == 5
    ensures var s1 := Apply(s, p[0]); var s2 := Apply(s1, p[1]); var s3 := Apply(s2, p[2]); var s4 := Apply(s3, p[3]);
            && Run(s, p) == Apply(s4, p[4])
            && (Legal(s, p) <==> && Enabled(s, p[0]) && Enabled(s1, p[1]) && Enabled(s2, p[2])
                                 && Enabled(s3, p[3]) && Enabled(s4, p[4]))
  {
    var s1 := Apply(s, p[0]);
    var s2 := Apply(s1, p[1]);
    TwoSteps(s, p);
    TwoSteps(s2, p[2..]);
    var s4 := Apply(Apply(s2, p[2]), p[3]);
    assert p[2..][2..] == [p[4]];
    assert Run(s4, [p[4]]) == Apply(s4, p[4]);
  }

  lemma TwoSteps(s: State, p: seq<Step>)
    requires |p| >= 2
    ensures var s1 := Apply(s, p[0]); var s2 := Apply(s1, p[1]);
            && Run(s, p) == Run(s2, p[2..])
            && (Legal(s, p) <==> Enabled(s, p[0]) && Enabled(s1, p[1]) && Legal(s2, p[2..]))
  {
    assert p[1..][0] == p[1] && p[1..][1..] == p[2..];
  }

  /* ---------- Convergence ---------- */

  /** How many internal steps are at most left. */
  function Remaining(s: State): nat {
    6 * Bit(s.hookInCall) + 5 * Bit(s.irqPending) + 4 * Bit(s.irqRunning) + 3 * Bit(s.workQueued)
    + match s.worker case Idle => 0 case Entered => 2 case Applying(_, _) => 1
  }

  lemma StepDecreases(s: State, step: Step)
    requires Inv(s) && Enabled(s, step) && Internal(step)
    ensures Remaining(Apply(s, step)) < Remaining(s)
    ensures Apply(s, step).phase == s.phase && Apply(s, step).requests == s.requests
    ensures Apply(s, step).epochRequests == s.epochRequests
  {
  }

  /** Once requests stop, every schedule ends: no run of internal steps is longer than the
      measure, which is at most 12. */
  lemma {:induction false} InternalRunsAreShort(s: State, steps: seq<Step>)
    requires Inv(s) && Legal(s, steps) && forall step :: step in steps ==> Internal(step)
    ensures |steps| + Remaining(Run(s, steps)) <= Remaining(s) <= 12
    ensures Run(s, steps).phase == s.phase && Run(s, steps).requests == s.requests
    ensures Run(s, steps).epochRequests == s.epochRequests
    decreases |steps|
  {
    if steps != [] {
      assert steps[0] in steps;
      StepDecreases(s, steps[0]);
      RunKeepsInv(s, [steps[0]]);
      assert Run(s, [steps[0]]) == Apply(s, steps[0]);
      InternalRunsAreShort(Apply(s, steps[0]), steps[1..]);
    }
  }

  /** The protocol never gets stuck before it is quiescent. */
  lemma StuckIsQuiescent(s: State)
    requires forall step | Internal(step) :: !Enabled(s, step)
    ensures Quiescent(s)
  {
    assert !Enabled(s, HookLocked) && !Enabled(s, IrqFires) && !Enabled(s, IrqQueuesWork);
    assert !Enabled(s, WorkerDequeues) && !Enabled(s, WorkerSnapshot) && !Enabled(s, CallDriver);
  }

  /** Together: any maximal run of internal steps from a reachable running state stops
      after at most 12 steps with the final request applied. */
  lemma FinalRequestIsApplied(maxFreq: U32, before: seq<Step>, after: seq<Step>)
    requires Legal(Initial(maxFreq), before)
    requires var s := Run(Initial(maxFreq), before);
             && s.phase == Running && s.epochRequests < |s.requests|
             && Legal(s, after) && (forall step :: step in after ==> Internal(step))
             && (forall step | Internal(step) :: !Enabled(Run(s, after), step))
    ensures |after| <= 12
    ensures var s := Run(Initial(maxFreq), before); var s' := Run(s, after);
            s'.requests == s.requests && NewestApplied(s')
  {
    var s := Run(Initial(maxFreq), before);
    ReachableInv(maxFreq, before);
    InternalRunsAreShort(s, after);
    RunKeepsInv(s, after);
    StuckIsQuiescent(Run(s, after));
  }
}
