/** One policy's governor: reading the counters, choosing a frequency, the rate limit, and
    what they guarantee over whole runs of the scheduler hook. */
module Governor {
  import opened CInt
  import opened LogFormat
  import opened Heuristics
  import opened LogNoLoss

  const PERF_EVENT_COUNT: nat := 3
  const NSEC_PER_USEC: int := 1_000
  const NSEC_PER_MSEC: int := 1_000_000

  /** What reading one perf event gives: no event, an error, or the absolute counter. */
  datatype Reading = Missing | ReadError | Counter(value: U64)

  /** The cpufreq policy and the module parameters, fixed for a run. */
  datatype Policy = Policy(cpu: U32, minFreq: S32, maxFreq: S32, shared: bool, fastSwitch: bool,
                           heuristic: Heuristic, band: Band)
  {
    predicate Sound() { 0 <= minFreq <= maxFreq && band.Usable() }
  }

  datatype State = State(lastUpdateTime: U64, delay: S64, lastRequestedFreq: U32, lastValue: seq<U64>)

  /** One call of the scheduler hook: its time, whether it runs on the policy's own cpu,
      and what the three counters would read. */
  datatype Call = Call(time: U64, localCpu: bool, readings: seq<Reading>)

  predicate WellFormed(s: State, call: Call) {
    |s.lastValue| == PERF_EVENT_COUNT == |call.readings|
  }

  /* ---------- One call ---------- */

  /** memutil_should_update_frequency: u64 subtraction, compared as s64. */
  predicate ShouldUpdate(s: State, call: Call) {
    call.localCpu && WrapS64(call.time - s.lastUpdateTime) >= s.delay
  }

  /** How many events are read before the first failure. */
  function GoodReadings(readings: seq<Reading>): (n: nat)
    ensures n <= |readings|
    ensures forall e :: 0 <= e < n ==> readings[e].Counter?
    ensures n < |readings| ==> !readings[n].Counter?
  {
    if readings == [] || !readings[0].Counter? then 0 else 1 + GoodReadings(readings[1..])
  }

  function Delta(s: State, call: Call, e: nat): U64
    requires WellFormed(s, call) && e < GoodReadings(call.readings)
  {
    WrapU64(call.readings[e].value - s.lastValue[e])
  }

  /** The event that the heuristic relates to the cycles, which are event 1. */
  function CountEvent(h: Heuristic): nat {
    match h case Ipc => 0 case OffcoreStalls => 2
  }

  predicate AllRead(call: Call) {
    GoodReadings(call.readings) == PERF_EVENT_COUNT
  }

  /** The heuristic is evaluated on this sample. */
  predicate Sampled(s: State, call: Call)
    requires WellFormed(s, call)
  {
    AllRead(call) && WrapS64(Delta(s, call, 1)) != 0
  }

  /** No division of the heuristic traps on this sample. */
  predicate Ready(s: State, p: Policy, call: Call) {
    && WellFormed(s, call)
    && (ShouldUpdate(s, call) && Sampled(s, call) ==>
          Computable(WrapS64(Delta(s, call, CountEvent(p.heuristic))), WrapS64(Delta(s, call, 1)), p.band))
  }

  /** The frequency requested: the maximum after an error, the last one again for a sample
      without cycles, otherwise what the heuristic says. */
  function Chosen(s: State, p: Policy, call: Call): U32
    requires Ready(s, p, call) && ShouldUpdate(s, call)
  {
    if !AllRead(call) then WrapU32(p.maxFreq)
    else if !Sampled(s, call) then WrapU32(WrapS32(s.lastRequestedFreq))
    else FrequencyIn(p.heuristic, WrapS64(Delta(s, call, CountEvent(p.heuristic))), WrapS64(Delta(s, call, 1)),
                     p.band, p.maxFreq, p.minFreq)
  }

  function ValuesAfter(s: State, call: Call): seq<U64>
    requires WellFormed(s, call)
  {
    var n := GoodReadings(call.readings);
    seq(PERF_EVENT_COUNT, e requires 0 <= e < PERF_EVENT_COUNT =>
      if e < n then call.readings[e].value else s.lastValue[e])
  }

  function Step(s: State, p: Policy, call: Call): State
    requires Ready(s, p, call)
  {
    if !ShouldUpdate(s, call) then s
    else State(call.time, s.delay, Chosen(s, p, call), ValuesAfter(s, call))
  }

  /** The frequency handed on to be set, if the rate limit lets the update through. */
  function Requested(s: State, p: Policy, call: Call): seq<U32>
    requires Ready(s, p, call)
  {
    if ShouldUpdate(s, call) then [Chosen(s, p, call)] else []
  }

  /** Only a complete sample is logged. */
  function Logged(s: State, p: Policy, call: Call): seq<LogEntry>
    requires Ready(s, p, call)
  {
    if ShouldUpdate(s, call) && AllRead(call)
    then [LogEntry(call.time, Delta(s, call, 0), Delta(s, call, 1), Delta(s, call, 2), Chosen(s, p, call), p.cpu)]
    else []
  }

  /** memutil_start resets the time of the last update and sets the delay; the last request
      and the counters stay. */
  function Restarted(s: State, delay: S64): State {
    s.(lastUpdateTime := 0, delay := delay)
  }

  /* ---------- Runs ---------- */

  predicate Runnable(s: State, p: Policy, calls: seq<Call>)
    decreases |calls|
  {
    calls == [] || (Ready(s, p, calls[0]) && Runnable(Step(s, p, calls[0]), p, calls[1..]))
  }

  function Run(s: State, p: Policy, calls: seq<Call>): State
    requires Runnable(s, p, calls)
    decreases |calls|
  {
    if calls == [] then s else Run(Step(s, p, calls[0]), p, calls[1..])
  }

  function Log(s: State, p: Policy, calls: seq<Call>): seq<LogEntry>
    requires Runnable(s, p, calls)
    decreases |calls|
  {
    if calls == [] then [] else Logged(s, p, calls[0]) + Log(Step(s, p, calls[0]), p, calls[1..])
  }

  function Requests(s: State, p: Policy, calls: seq<Call>): seq<U32>
    requires Runnable(s, p, calls)
    decreases |calls|
  {
    if calls == [] then [] else Requested(s, p, calls[0]) + Requests(Step(s, p, calls[0]), p, calls[1..])
  }

  /** The times of the accepted updates. */
  function Accepted(s: State, p: Policy, calls: seq<Call>): seq<U64>
    requires Runnable(s, p, calls)
    decreases |calls|
  {
    if calls == [] then []
    else (if ShouldUpdate(s, calls[0]) then [calls[0].time] else []) + Accepted(Step(s, p, calls[0]), p, calls[1..])
  }

  /* ---------- Frequency safety ---------- */

  predicate InLimits(p: Policy, f: U32) { p.minFreq <= f <= p.maxFreq }

  lemma StepKeepsLimits(s: State, p: Policy, call: Call)
    requires Ready(s, p, call) && p.Sound() && InLimits(p, s.lastRequestedFreq)
    ensures InLimits(p, Step(s, p, call).lastRequestedFreq)
    ensures forall f :: f in Requested(s, p, call) ==> InLimits(p, f)
    ensures forall e :: e in Logged(s, p, call) ==> InLimits(p, e.requestedFreq)
  {
    if ShouldUpdate(s, call) {
      ChosenInLimits(s, p, call);
    }
  }

  lemma ChosenInLimits(s: State, p: Policy, call: Call)
    requires Ready(s, p, call) && ShouldUpdate(s, call) && p.Sound() && InLimits(p, s.lastRequestedFreq)
    ensures InLimits(p, Chosen(s, p, call))
  {
    if Sampled(s, call) {
      var count, cycles := WrapS64(Delta(s, call, CountEvent(p.heuristic))), WrapS64(Delta(s, call, 1));
      FrequencyInRange(p.heuristic, count, cycles, p.band, p.maxFreq, p.minFreq);
    }
  }

  /** Every frequency requested or logged in any run lies within the limits: through error
      paths, samples without cycles and wrapped counters, for counters of any size. */
  lemma {:induction false} FrequencyStaysInLimits(s: State, p: Policy, calls: seq<Call>)
    requires Runnable(s, p, calls) && p.Sound() && InLimits(p, s.lastRequestedFreq)
    ensures InLimits(p, Run(s, p, calls).lastRequestedFreq)
    ensures forall f :: f in Requests(s, p, calls) ==> InLimits(p, f)
    ensures forall e :: e in Log(s, p, calls) ==> InLimits(p, e.requestedFreq)
    decreases |calls|
  {
    if calls != [] {
      StepKeepsLimits(s, p, calls[0]);
      FrequencyStaysInLimits(Step(s, p, calls[0]), p, calls[1..]);
    }
  }

  /** The counted events grew by at most 9 * 10^14, or shrank by at most that. */
  predicate Bounded(s: State, p: Policy, call: Call)
    requires WellFormed(s, call)
  {
    AllRead(call) ==> -COUNT_BOUND <= WrapS64(Delta(s, call, CountEvent(p.heuristic))) <= COUNT_BOUND
  }

  /** Under that bound every call can be computed, nothing overflows, and the frequency is
      the one of the unbounded formula. */
  lemma BoundedCallIsExact(s: State, p: Policy, call: Call)
    requires WellFormed(s, call) && Bounded(s, p, call) && p.Sound()
    ensures Ready(s, p, call)
    ensures ShouldUpdate(s, call) && Sampled(s, call) ==>
              Chosen(s, p, call) == Frequency(p.heuristic, WrapS64(Delta(s, call, CountEvent(p.heuristic))),
                                              WrapS64(Delta(s, call, 1)), p.band, p.maxFreq, p.minFreq)
  {
    if ShouldUpdate(s, call) && Sampled(s, call) {
      FrequencyInExact(p.heuristic, WrapS64(Delta(s, call, CountEvent(p.heuristic))), WrapS64(Delta(s, call, 1)),
                       p.band, p.maxFreq, p.minFreq);
    }
  }

  /** How the requested frequency reacts to the counters, where event 0 counts instructions,
      event 1 cycles and event 2 stalls: more stalls in fewer cycles never raise it, and more
      instructions in fewer cycles never lower it. Only with equal cycles may the counts be
      negative. */
  lemma ChosenReactsToCounters(s: State, p: Policy, call: Call, call': Call)
    requires p.Sound() && p.band.Increasing() && ShouldUpdate(s, call) && ShouldUpdate(s, call')
    requires WellFormed(s, call) && AllRead(call) && Bounded(s, p, call)
    requires WellFormed(s, call') && AllRead(call') && Bounded(s, p, call')
    requires 0 < WrapS64(Delta(s, call', 1)) <= WrapS64(Delta(s, call, 1))
    ensures Ready(s, p, call) && Ready(s, p, call')
    ensures var count, count' := WrapS64(Delta(s, call, 2)), WrapS64(Delta(s, call', 2));
            p.heuristic == OffcoreStalls && Grew(count, count', SameCycles(s, call, call')) ==>
              Chosen(s, p, call') <= Chosen(s, p, call)
    ensures var count, count' := WrapS64(Delta(s, call, 0)), WrapS64(Delta(s, call', 0));
            p.heuristic == Ipc && Grew(count, count', SameCycles(s, call, call')) ==>
              Chosen(s, p, call) <= Chosen(s, p, call')
  {
    var e, cycles, cycles' := CountEvent(p.heuristic), WrapS64(Delta(s, call, 1)), WrapS64(Delta(s, call', 1));
    var count: int, count': int := WrapS64(Delta(s, call, e)), WrapS64(Delta(s, call', e));
    BoundedCallIsExact(s, p, call);
    BoundedCallIsExact(s, p, call');
    if Grew(count, count', SameCycles(s, call, call')) {
      FrequencyMonotone(count, cycles, count', cycles', p.band, p.maxFreq, p.minFreq);
    }
  }

  predicate SameCycles(s: State, call: Call, call': Call)
    requires WellFormed(s, call) && AllRead(call) && WellFormed(s, call') && AllRead(call')
  {
    WrapS64(Delta(s, call, 1)) == WrapS64(Delta(s, call', 1))
  }

  predicate Grew(count: int, count': int, sameCycles: bool) {
    count <= count' && (count >= 0 || sameCycles)
  }

  /** Every call of the run respects the bound. */
  ghost predicate BoundedRun(s: State, p: Policy, calls: seq<Call>)
    requires p.Sound()
    decreases |calls|
  {
    calls == [] ||
    (WellFormed(s, calls[0]) && Bounded(s, p, calls[0]) &&
     (BoundedCallIsExact(s, p, calls[0]); BoundedRun(Step(s, p, calls[0]), p, calls[1..])))
  }

  /** With counts within the bound a run cannot trap, and stays within the limits. */
  lemma {:induction false} BoundedRunsAreSafe(s: State, p: Policy, calls: seq<Call>)
    requires p.Sound() && BoundedRun(s, p, calls) && InLimits(p, s.lastRequestedFreq)
    ensures Runnable(s, p, calls) && InLimits(p, Run(s, p, calls).lastRequestedFreq)
    decreases |calls|
  {
    if calls != [] {
      BoundedCallIsExact(s, p, calls[0]);
      StepKeepsLimits(s, p, calls[0]);
      BoundedRunsAreSafe(Step(s, p, calls[0]), p, calls[1..]);
    }
  }

  /* ---------- Rate limit ---------- */

  predicate Before63(calls: seq<Call>) {
    forall k :: 0 <= k < |calls| ==> calls[k].time < TWO63
  }

  predicate SpacedTimes(from: int, times: seq<U64>, delay: int) {
    && (times != [] ==> from + delay <= times[0])
    && forall k :: 0 < k < |times| ==> times[k - 1] + delay <= times[k]
  }

  lemma SpacedTimesCons(from: int, t: U64, times: seq<U64>, delay: int)
    requires from + delay <= t && SpacedTimes(t, times, delay)
    ensures SpacedTimes(from, [t] + times, delay)
  {
    forall k | 0 < k < |[t] + times|
      ensures ([t] + times)[k - 1] + delay <= ([t] + times)[k]
    {
      assert ([t] + times)[k] == times[k - 1];
      assert k > 1 ==> ([t] + times)[k - 1] == times[k - 2];
    }
  }

  /** Accepted updates are at least the delay apart, the first one at least the delay after
      the update before the run (or after time 0, following a start). */
  lemma {:induction false} AcceptedAreSpaced(s: State, p: Policy, calls: seq<Call>)
    requires Runnable(s, p, calls) && s.lastUpdateTime < TWO63 && s.delay > 0 && Before63(calls)
    ensures SpacedTimes(s.lastUpdateTime, Accepted(s, p, calls), s.delay)
    decreases |calls|
  {
    if calls != [] {
      var call, s' := calls[0], Step(s, p, calls[0]);
      AcceptedAreSpaced(s', p, calls[1..]);
      if ShouldUpdate(s, call) {
        SignedDifferenceExact(call.time, s.lastUpdateTime);
        SpacedTimesCons(s.lastUpdateTime, call.time, Accepted(s', p, calls[1..]), s.delay);
      } else {
        assert [] + Accepted(s', p, calls[1..]) == Accepted(s', p, calls[1..]);
      }
    }
  }

  /** So what a hook writes into its ring is spaced as the logging path needs it. */
  lemma {:induction false} LogIsSpaced(s: State, p: Policy, calls: seq<Call>)
    requires Runnable(s, p, calls) && s.lastUpdateTime < TWO63 && s.delay > 0 && Before63(calls)
    ensures Spaced(Log(s, p, calls), s.delay)
    ensures forall k :: 0 <= k < |Log(s, p, calls)| ==>
              s.lastUpdateTime + s.delay <= Log(s, p, calls)[k].timestamp && Log(s, p, calls)[k].cpu == p.cpu
    decreases |calls|
  {
    if calls != [] {
      var call, s' := calls[0], Step(s, p, calls[0]);
      LogIsSpaced(s', p, calls[1..]);
      if ShouldUpdate(s, call) {
        SignedDifferenceExact(call.time, s.lastUpdateTime);
      }
      var rest := Log(s', p, calls[1..]);
      var whole := Logged(s, p, call) + rest;
      forall k | 0 < k < |whole|
        ensures whole[k - 1].timestamp + s.delay <= whole[k].timestamp
      {
        if Logged(s, p, call) != [] {
          assert whole[k] == rest[k - 1];
          assert k > 1 ==> whole[k - 1] == rest[k - 2];
        } else {
          assert whole[k] == rest[k] && whole[k - 1] == rest[k - 1];
        }
      }
    }
  }

  /* ---------- Counter deltas ---------- */

  /** The call reads event e successfully. */
  predicate ReadsEvent(s: State, call: Call, e: nat) {
    WellFormed(s, call) && ShouldUpdate(s, call) && e < GoodReadings(call.readings)
  }

  function SumOfDeltas(s: State, p: Policy, calls: seq<Call>, e: nat): nat
    requires Runnable(s, p, calls)
    decreases |calls|
  {
    if calls == [] then 0
    else (if ReadsEvent(s, calls[0], e) then Delta(s, calls[0], e) else 0)
         + SumOfDeltas(Step(s, p, calls[0]), p, calls[1..], e)
  }

  /** The absolute values of event e that were read successfully, in order. */
  function ValuesRead(s: State, p: Policy, calls: seq<Call>, e: nat): seq<U64>
    requires Runnable(s, p, calls)
    decreases |calls|
  {
    if calls == [] then []
    else (if ReadsEvent(s, calls[0], e) then [calls[0].readings[e].value] else [])
         + ValuesRead(Step(s, p, calls[0]), p, calls[1..], e)
  }

  function LastOr(values: seq<U64>, baseline: U64): U64 {
    if values == [] then baseline else values[|values| - 1]
  }

  /** The stored value of an event is the last one read. */
  lemma {:induction false} StoredIsLastRead(s: State, p: Policy, calls: seq<Call>, e: nat)
    requires Runnable(s, p, calls) && e < PERF_EVENT_COUNT == |s.lastValue|
    ensures |Run(s, p, calls).lastValue| == PERF_EVENT_COUNT
    ensures Run(s, p, calls).lastValue[e] == LastOr(ValuesRead(s, p, calls, e), s.lastValue[e])
    decreases |calls|
  {
    if calls != [] {
      var call, s' := calls[0], Step(s, p, calls[0]);
      StoredIsLastRead(s', p, calls[1..], e);
      StepReads(s, p, call, e);
      var rest := ValuesRead(s', p, calls[1..], e);
      if ReadsEvent(s, call, e) {
        LastOfPrepended(call.readings[e].value, rest, s.lastValue[e]);
      } else {
        assert ValuesRead(s, p, calls, e) == rest;
      }
    }
  }

  function Difference(a: int, b: int): int { a - b }

  lemma {:induction false} SumIsDifference(s: State, p: Policy, calls: seq<Call>, e: nat)
    requires Runnable(s, p, calls) && e < PERF_EVENT_COUNT == |s.lastValue|
    ensures |Run(s, p, calls).lastValue| == PERF_EVENT_COUNT
    ensures WrapU64(SumOfDeltas(s, p, calls, e)) == WrapU64(Difference(Run(s, p, calls).lastValue[e], s.lastValue[e]))
    decreases |calls|
  {
    if calls != [] {
      var s' := Step(s, p, calls[0]);
      SumIsDifference(s', p, calls[1..], e);
      StepReads(s, p, calls[0], e);
      if ReadsEvent(s, calls[0], e) {
        WrapAdd(Difference(s'.lastValue[e], s.lastValue[e]), SumOfDeltas(s', p, calls[1..], e),
                Difference(Run(s', p, calls[1..]).lastValue[e], s'.lastValue[e]));
      }
    }
  }

  /** Over any mix of successful and failed reads, in any event: the deltas handed out add
      up, modulo 2^64, to the last value read minus the baseline. */
  lemma DeltasTelescope(s: State, p: Policy, calls: seq<Call>, e: nat)
    requires Runnable(s, p, calls) && e < PERF_EVENT_COUNT == |s.lastValue|
    ensures WrapU64(SumOfDeltas(s, p, calls, e))
         == WrapU64(LastOr(ValuesRead(s, p, calls, e), s.lastValue[e]) - s.lastValue[e])
  {
    StoredIsLastRead(s, p, calls, e);
    SumIsDifference(s, p, calls, e);
  }

  lemma StepReads(s: State, p: Policy, call: Call, e: nat)
    requires Ready(s, p, call) && e < PERF_EVENT_COUNT
    ensures |Step(s, p, call).lastValue| == PERF_EVENT_COUNT
    ensures Step(s, p, call).lastValue[e] == if ReadsEvent(s, call, e) then call.readings[e].value else s.lastValue[e]
  {
  }

  lemma LastOfPrepended(v: U64, rest: seq<U64>, baseline: U64)
    ensures LastOr([v] + rest, baseline) == LastOr(rest, v)
  {
  }

  lemma WrapAdd(x: int, y: int, z: int)
    requires WrapU64(y) == WrapU64(z)
    ensures WrapU64(WrapU64(x) + y) == WrapU64(x + z)
  {
  }
}
