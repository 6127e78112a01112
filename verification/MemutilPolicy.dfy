/** struct memutil_policy with the functions that update it in place, each proved against
    the step functions of `Governor` (counters, frequency, rate limit) and of
    `DeferredSwitch` (the hand-over to the kernel thread). */
module MemutilPolicy {
  import opened Basics
  import opened CInt
  import opened LogFormat
  import G = Governor
  import D = DeferredSwitch
  import R = RingBuffer
  import H = Heuristics

  /** Everything requested, set by a fast switch or taken for the driver lies within the
      policy's limits. */
  predicate WithinLimits(p: G.Policy, s: D.State, fastSwitches: seq<U32>) {
    && G.InLimits(p, s.lastRequestedFreq)
    && (forall f :: f in fastSwitches || f in s.requests ==> G.InLimits(p, f))
    && (forall d :: d in s.driver ==> G.InLimits(p, d.freq))
    && (s.worker.Applying? ==> G.InLimits(p, s.worker.freq))
  }

  /** The two protocol steps of one hook call. */
  function AfterRequest(s: D.State, freq: U32): D.State {
    D.Apply(D.Apply(s, D.Request(freq)), D.HookLocked)
  }

  /** The hand-over, told from the outside: the request is recorded and somebody has it in
      hand, with one interrupt more exactly if nothing was under way. */
  lemma RequestIsHandedOver(s: D.State, freq: U32)
    requires D.Inv(s) && D.Enabled(s, D.Request(freq))
    ensures var s' := AfterRequest(s, freq);
            && D.Inv(s') && !s'.hookInCall && s'.phase == D.Running
            && s'.requests == s.requests + [freq] && s'.lastRequestedFreq == freq
            && s'.freqUpdateInProgress && (s'.irqPending <==> s.irqPending || !s.freqUpdateInProgress)
            && s'.irqRunning == s.irqRunning && s'.workQueued == s.workQueued && s'.worker == s.worker
            && s'.driver == s.driver && s'.epochRequests == s.epochRequests && s'.epochCalls == s.epochCalls
  {
    var steps := [D.Request(freq), D.HookLocked];
    D.TwoSteps(s, steps);
    D.RunKeepsInv(s, steps);
    assert D.Run(s, steps) == AfterRequest(s, freq);
  }

  /** And so it is applied: if no other request follows, every schedule of the remaining
      steps ends after at most 12 of them, with the driver called for this frequency last. */
  lemma RequestIsApplied(s: D.State, freq: U32, after: seq<D.Step>)
    requires D.Inv(s) && D.Enabled(s, D.Request(freq))
    requires var s' := AfterRequest(s, freq);
             && D.Legal(s', after) && (forall step :: step in after ==> D.Internal(step))
             && (forall step | D.Internal(step) :: !D.Enabled(D.Run(s', after), step))
    ensures |after| <= 12
    ensures var end := D.Run(AfterRequest(s, freq), after);
            && D.Quiescent(end) && end.requests == s.requests + [freq]
            && end.driver != [] && end.driver[|end.driver| - 1] == D.DriverCall(freq, |s.requests|)
  {
    var s' := AfterRequest(s, freq);
    RequestIsHandedOver(s, freq);
    D.InternalRunsAreShort(s', after);
    D.RunKeepsInv(s', after);
    D.StuckIsQuiescent(D.Run(s', after));
  }

  lemma RequestKeepsLimits(p: G.Policy, s: D.State, fastSwitches: seq<U32>, freq: U32)
    requires WithinLimits(p, s, fastSwitches) && G.InLimits(p, freq)
    ensures WithinLimits(p, AfterRequest(s, freq), fastSwitches)
    ensures WithinLimits(p, s.(lastRequestedFreq := freq), fastSwitches)
    ensures WithinLimits(p, s.(lastRequestedFreq := freq), fastSwitches + [freq])
  {
  }

  /** Every step of the protocol, whoever makes it, keeps to the limits if requests do. */
  lemma StepKeepsWithinLimits(p: G.Policy, s: D.State, step: D.Step, fastSwitches: seq<U32>)
    requires WithinLimits(p, s, fastSwitches) && D.Enabled(s, step)
    requires step.Request? ==> G.InLimits(p, step.freq)
    ensures WithinLimits(p, D.Apply(s, step), fastSwitches)
  {
  }

  class MemutilPolicy {
    const policy: G.Policy
    var lastFreqUpdateTimeNs: U64
    var freqUpdateDelayNs: S64
    const lastEventValue: array<U64>
    var lastRequestedFreq: U32
    var logbuffer: R.RingBuffer?   // null if it could not be allocated
    var freqUpdateInProgress: bool
    var irqWorkPending: bool       // irq_work
    var kthreadWorkQueued: bool    // kthread_work
    /** The other contexts of the protocol and its history. */
    ghost var others: D.State
    /** The frequencies given to the driver by a fast switch. */
    ghost var fastSwitches: seq<U32>

    ghost function Footprint(): set<object>
      reads this
    {
      {this, lastEventValue} + if logbuffer == null then {} else {logbuffer, logbuffer.data}
    }

    ghost predicate Valid()
      reads this, Footprint()
    {
      lastEventValue.Length == G.PERF_EVENT_COUNT && (logbuffer != null ==> logbuffer.Valid())
    }

    ghost function View(): G.State
      reads this, lastEventValue
    {
      G.State(lastFreqUpdateTimeNs, freqUpdateDelayNs, lastRequestedFreq, lastEventValue[..])
    }

    ghost function SwitchView(): D.State
      reads this
    {
      others.(lastRequestedFreq := lastRequestedFreq, freqUpdateInProgress := freqUpdateInProgress,
              irqPending := irqWorkPending, workQueued := kthreadWorkQueued)
    }

    ghost predicate Limited()
      reads this
    {
      WithinLimits(policy, SwitchView(), fastSwitches)
    }

    /** memutil_policy_alloc, when its allocation succeeds. */
    constructor (policy: G.Policy)
      ensures Valid() && this.policy == policy && fresh(lastEventValue) && logbuffer == null
      ensures View() == G.State(0, 0, WrapU32(policy.maxFreq), [0, 0, 0])
      ensures SwitchView() == D.Initial(WrapU32(policy.maxFreq)) && fastSwitches == []
      ensures policy.Sound() ==> Limited()
    {
      this.policy := policy;
      lastEventValue := new U64[G.PERF_EVENT_COUNT](_ => 0);
      lastFreqUpdateTimeNs, freqUpdateDelayNs, lastRequestedFreq := 0, 0, WrapU32(policy.maxFreq);
      logbuffer := null;
      freqUpdateInProgress, irqWorkPending, kthreadWorkQueued := false, false, false;
      others := D.Initial(0);
      fastSwitches := [];
    }

    /* ---------- The deferred switch ---------- */

    /** irq_work_queue: false if the item is already queued. */
    method IrqWorkQueue() returns (queued: bool)
      modifies this`irqWorkPending, this`others
      ensures SwitchView() == D.QueueIrq(old(SwitchView())) && (queued <==> !old(irqWorkPending))
    {
      queued := !irqWorkPending;
      if queued {
        irqWorkPending := true;
      } else {
        others := others.(droppedQueueCalls := others.droppedQueueCalls + 1);
      }
    }

    /** kthread_queue_work. */
    method KthreadQueueWork() returns (queued: bool)
      modifies this`kthreadWorkQueued, this`others
      ensures SwitchView() == D.QueueWork(old(SwitchView())) && (queued <==> !old(kthreadWorkQueued))
    {
      queued := !kthreadWorkQueued;
      if queued {
        kthreadWorkQueued := true;
      } else {
        others := others.(droppedQueueCalls := others.droppedQueueCalls + 1);
      }
    }

    /** memutil_deferred_set_frequency: one section under the lock. */
    method DeferredSetFrequency()
      requires D.Enabled(SwitchView(), D.HookLocked)
      modifies this`freqUpdateInProgress, this`irqWorkPending, this`others
      ensures SwitchView() == D.Apply(old(SwitchView()), D.HookLocked)
    {
      others := others.(hookInCall := false);
      if !freqUpdateInProgress {
        freqUpdateInProgress := true;
        var queued := IrqWorkQueue();
      }
    }

    /** memutil_irq_work, once the interrupt has fired. */
    method IrqWork()
      requires D.Enabled(SwitchView(), D.IrqQueuesWork)
      modifies this`kthreadWorkQueued, this`others
      ensures SwitchView() == D.Apply(old(SwitchView()), D.IrqQueuesWork)
    {
      others := others.(irqRunning := false);
      var queued := KthreadQueueWork();
    }

    /** The locked section of memutil_work; the result is what the driver is then asked for. */
    method WorkSnapshot() returns (frequency: U32)
      requires D.Enabled(SwitchView(), D.WorkerSnapshot)
      modifies this`freqUpdateInProgress, this`others
      ensures SwitchView() == D.Apply(old(SwitchView()), D.WorkerSnapshot)
      ensures SwitchView().worker.Applying? && frequency == SwitchView().worker.freq
      ensures old(Limited()) ==> Limited()
    {
      frequency := lastRequestedFreq;
      freqUpdateInProgress := false;
      others := others.(worker := D.Applying(frequency, if others.requests == [] then 0 else |others.requests| - 1));
    }

    /** __cpufreq_driver_target, the last line of memutil_work. */
    ghost method DriverTarget(frequency: U32)
      requires SwitchView().worker.Applying? && frequency == SwitchView().worker.freq
      modifies this`others
      ensures SwitchView() == D.Apply(old(SwitchView()), D.CallDriver)
      ensures old(Limited()) ==> Limited() && G.InLimits(policy, frequency)
    {
      others := others.(worker := D.Idle, driver := others.driver + [D.DriverCall(frequency, others.worker.index)]);
    }

    /** memutil_set_frequency_to: 0 or -EINVAL. */
    method SetFrequencyTo(freq: U32, time: U64) returns (result: int)
      requires D.Enabled(SwitchView(), D.Request(freq))
      modifies this`lastRequestedFreq, this`lastFreqUpdateTimeNs, this`freqUpdateInProgress, this`irqWorkPending,
               this`others, this`fastSwitches
      ensures View() == old(View()).(lastRequestedFreq := freq, lastUpdateTime := time)
      ensures result == if policy.shared then -22 else 0
      ensures fastSwitches == old(fastSwitches) + if !policy.shared && policy.fastSwitch then [freq] else []
      ensures SwitchView() == if policy.shared || policy.fastSwitch
                              then old(SwitchView()).(lastRequestedFreq := freq)
                              else AfterRequest(old(SwitchView()), freq)
      ensures !policy.shared && !policy.fastSwitch ==>
                freqUpdateInProgress && (irqWorkPending <==> old(irqWorkPending) || !old(freqUpdateInProgress))
    {
      lastRequestedFreq := freq;
      lastFreqUpdateTimeNs := time;
      if policy.shared {
        return -EINVAL;
      }
      if policy.fastSwitch {
        fastSwitches := fastSwitches + [freq];
      } else {
        others := others.(hookInCall := true, requests := others.requests + [freq]);
        DeferredSetFrequency();
      }
      return 0;
    }

    /* ---------- The scheduler hook ---------- */

    /** memutil_read_perf_event, for an event that exists: 0 and the difference to the last
        value, or an error and 0. */
    method ReadPerfEvent(eventIndex: nat, reading: G.Reading) returns (result: int, currentValue: U64)
      requires lastEventValue.Length == G.PERF_EVENT_COUNT && eventIndex < G.PERF_EVENT_COUNT && reading != G.Missing
      modifies lastEventValue
      ensures result == 0 <==> reading.Counter?
      ensures reading.Counter? ==> lastEventValue[..] == old(lastEventValue[..])[eventIndex := reading.value]
      ensures reading.Counter? ==> currentValue == WrapU64(reading.value - old(lastEventValue[eventIndex]))
      ensures reading.ReadError? ==> lastEventValue[..] == old(lastEventValue[..]) && currentValue == 0
    {
      if reading.ReadError? {
        return -EINVAL, 0;
      }
      currentValue := WrapU64(reading.value - lastEventValue[eventIndex]);
      lastEventValue[eventIndex] := reading.value;
      return 0, currentValue;
    }

    /** The loop of memutil_update_frequency over the perf events: how many were read, and
        their differences. */
    method ReadEvents(call: G.Call) returns (count: nat, values: seq<U64>)
      requires G.WellFormed(View(), call)
      modifies lastEventValue
      ensures View() == old(View()).(lastValue := G.ValuesAfter(old(View()), call))
      ensures count == G.GoodReadings(call.readings) == |values|
      ensures forall e :: 0 <= e < count ==> values[e] == G.Delta(old(View()), call, e)
    {
      ghost var before := lastEventValue[..];
      var readings := call.readings;
      count, values := 0, [];
      while count < G.PERF_EVENT_COUNT
        invariant 0 <= count <= G.PERF_EVENT_COUNT && |values| == count
        invariant forall e :: 0 <= e < count ==>
                    readings[e].Counter? && values[e] == WrapU64(readings[e].value - before[e])
        invariant forall e :: 0 <= e < G.PERF_EVENT_COUNT ==>
                    lastEventValue[..][e] == if e < count then readings[e].value else before[e]
      {
        if readings[count] == G.Missing {
          break;
        }
        var result, value := ReadPerfEvent(count, readings[count]);
        if result != 0 {
          break;
        }
        values := values + [value];
        count := count + 1;
      }
      GoodReadingsUnique(readings, count);
      assert lastEventValue[..] == G.ValuesAfter(old(View()), call);
    }

    /** The part of memutil_update_frequency that follows a complete read. */
    method NewFrequency(values: seq<U64>, lastFreq: S32, ghost before: G.State, ghost call: G.Call)
      returns (newFrequency: U32)
      requires G.Ready(before, policy, call) && G.ShouldUpdate(before, call) && G.AllRead(call)
      requires |values| == G.PERF_EVENT_COUNT && forall e :: 0 <= e < |values| ==> values[e] == G.Delta(before, call, e)
      requires lastFreq == WrapS32(before.lastRequestedFreq)
      ensures newFrequency == G.Chosen(before, policy, call)
    {
      var cycles := WrapS64(values[1]);
      if cycles == 0 {
        newFrequency := WrapU32(lastFreq);
      } else {
        newFrequency := H.FrequencyIn(policy.heuristic, WrapS64(values[G.CountEvent(policy.heuristic)]), cycles,
                                      policy.band, policy.maxFreq, policy.minFreq);
      }
    }

    /** memutil_update_frequency. */
    method UpdateFrequency(call: G.Call)
      requires Valid() && |call.readings| == G.PERF_EVENT_COUNT && D.Enabled(SwitchView(), D.Request(0))
      requires G.ShouldUpdate(View(), call) && G.Ready(View(), policy, call)
      modifies Footprint()
      ensures Valid() && logbuffer == old(logbuffer)
      ensures View() == G.Step(old(View()), policy, call)
      ensures logbuffer != null ==> logbuffer.written == old(logbuffer.written) + G.Logged(old(View()), policy, call)
      ensures fastSwitches == old(fastSwitches) + if !policy.shared && policy.fastSwitch
                                                  then G.Requested(old(View()), policy, call) else []
      ensures SwitchView() == if policy.shared || policy.fastSwitch
                              then old(SwitchView()).(lastRequestedFreq := View().lastRequestedFreq)
                              else AfterRequest(old(SwitchView()), View().lastRequestedFreq)
    {
      ghost var before := View();
      var lastFreq := WrapS32(lastRequestedFreq);
      var count, values := ReadEvents(call);
      if count < G.PERF_EVENT_COUNT {
        var result := SetFrequencyTo(WrapU32(policy.maxFreq), call.time);
        return;
      }
      var newFrequency := NewFrequency(values, lastFreq, before, call);
      assert G.Logged(before, policy, call)
          == [LogEntry(call.time, values[0], values[1], values[2], newFrequency, policy.cpu)];
      var result := SetFrequencyTo(newFrequency, call.time);
      LogData(call.time, values);
    }

    /** memutil_log_data: nothing to do without a ring. */
    method LogData(time: U64, values: seq<U64>)
      requires Valid() && |values| == G.PERF_EVENT_COUNT
      modifies if logbuffer == null then {} else {logbuffer, logbuffer.data}
      ensures Valid()
      ensures logbuffer != null ==>
                logbuffer.written == old(logbuffer.written)
                                   + [LogEntry(time, values[0], values[1], values[2], lastRequestedFreq, policy.cpu)]
    {
      if logbuffer != null {
        logbuffer.Write([LogEntry(time, values[0], values[1], values[2], lastRequestedFreq, policy.cpu)]);
      }
    }

    /** memutil_should_update_frequency. */
    method ShouldUpdateFrequency(localCpu: bool, time: U64) returns (update: bool)
      ensures forall readings :: update <==> G.ShouldUpdate(View(), G.Call(time, localCpu, readings))
      ensures time < TWO63 && lastFreqUpdateTimeNs < TWO63 ==>
                (update <==> localCpu && time - lastFreqUpdateTimeNs >= freqUpdateDelayNs)
    {
      if !localCpu {
        return false;
      }
      var delta := WrapS64(time - lastFreqUpdateTimeNs);
      return delta >= freqUpdateDelayNs;
    }

    /** memutil_update_frequency_hook: one step of the governor and its log, and one request
        to the deferred switch if the rate limit lets the update through. */
    method UpdateFrequencyHook(call: G.Call)
      requires Valid() && |call.readings| == G.PERF_EVENT_COUNT && D.Enabled(SwitchView(), D.Request(0))
      requires G.Ready(View(), policy, call)
      modifies Footprint()
      ensures Valid() && logbuffer == old(logbuffer)
      ensures View() == G.Step(old(View()), policy, call)
      ensures logbuffer != null ==> logbuffer.written == old(logbuffer.written) + G.Logged(old(View()), policy, call)
      ensures fastSwitches == old(fastSwitches) + if !policy.shared && policy.fastSwitch
                                                  then G.Requested(old(View()), policy, call) else []
      ensures policy.Sound() && old(Limited()) ==> Limited()
      ensures !old(G.ShouldUpdate(View(), call)) ==> SwitchView() == old(SwitchView())
      ensures old(G.ShouldUpdate(View(), call)) ==>
                SwitchView() == if policy.shared || policy.fastSwitch
                                then old(SwitchView()).(lastRequestedFreq := View().lastRequestedFreq)
                                else AfterRequest(old(SwitchView()), View().lastRequestedFreq)
    {
      var update := ShouldUpdateFrequency(call.localCpu, call.time);
      assert update == G.ShouldUpdate(View(), G.Call(call.time, call.localCpu, call.readings));
      if !update {
        return;
      }
      ghost var before := View();
      UpdateFrequency(call);
      if policy.Sound() && old(Limited()) {
        G.StepKeepsLimits(before, policy, call);
        RequestKeepsLimits(policy, old(SwitchView()), old(fastSwitches), lastRequestedFreq);
      }
    }

    /** The fields that memutil_start resets; the delay is at least 5 ms. */
    method ResetForStart(transitionDelayUs: U32)
      requires D.Enabled(SwitchView(), D.Start(true))
      modifies this`lastFreqUpdateTimeNs, this`freqUpdateDelayNs, this`freqUpdateInProgress, this`others
      ensures View() == old(View()).(lastUpdateTime := 0, delay := StartDelay(transitionDelayUs))
      ensures View() == G.Restarted(old(View()), StartDelay(transitionDelayUs))
      ensures SwitchView() == D.Apply(old(SwitchView()), D.Start(true))
    {
      lastFreqUpdateTimeNs := 0;
      freqUpdateDelayNs := StartDelay(transitionDelayUs);
      freqUpdateInProgress := false;
      others := others.(phase := D.Running, cancelled := false,
                        epochRequests := |others.requests|, epochCalls := |others.driver|);
    }
  }

  /** The greater of the policy's own transition delay and 5 ms. */
  function StartDelay(transitionDelayUs: U32): (delay: S64)
    ensures delay >= 5_000_000 && delay >= 1_000 * transitionDelayUs
    ensures delay == 5_000_000 || delay == 1_000 * transitionDelayUs
  {
    var fromPolicy := G.NSEC_PER_USEC * transitionDelayUs;
    if fromPolicy > 5 * G.NSEC_PER_MSEC then fromPolicy else 5 * G.NSEC_PER_MSEC
  }

  lemma GoodReadingsUnique(readings: seq<G.Reading>, n: nat)
    requires n <= |readings| && (forall e :: 0 <= e < n ==> readings[e].Counter?)
    requires n < |readings| ==> !readings[n].Counter?
    ensures G.GoodReadings(readings) == n
  {
  }
}
