/** What a run of the hook does, call by call, told from its inputs alone: which calls update,
    what they request, and what they log. Nothing here goes by the governor's own state
    beyond the one the run starts from. */
module HookHistory {
  import opened CInt
  import opened LogFormat
  import opened Heuristics
  import opened Governor

  /* ---------- Runs, one call at a time ---------- */

  lemma {:induction false} Snoc(s: State, p: Policy, front: seq<Call>, call: Call)
    requires Runnable(s, p, front + [call])
    ensures Runnable(s, p, front) && Ready(Run(s, p, front), p, call)
    ensures Run(s, p, front + [call]) == Step(Run(s, p, front), p, call)
    decreases |front|
  {
    var calls := front + [call];
    if front == [] {
      assert calls == [call] && calls[1..] == [];
    } else {
      assert calls[0] == front[0] && calls[1..] == front[1..] + [call];
      Snoc(Step(s, p, front[0]), p, front[1..], call);
    }
  }

  lemma {:induction false} SnocLog(s: State, p: Policy, front: seq<Call>, call: Call)
    requires Runnable(s, p, front + [call]) && Runnable(s, p, front) && Ready(Run(s, p, front), p, call)
    ensures Log(s, p, front + [call]) == Log(s, p, front) + Logged(Run(s, p, front), p, call)
    decreases |front|
  {
    var calls := front + [call];
    if front == [] {
      assert calls == [call] && calls[1..] == [];
    } else {
      assert calls[0] == front[0] && calls[1..] == front[1..] + [call];
      SnocLog(Step(s, p, front[0]), p, front[1..], call);
    }
  }

  lemma {:induction false} SnocRequests(s: State, p: Policy, front: seq<Call>, call: Call)
    requires Runnable(s, p, front + [call]) && Runnable(s, p, front) && Ready(Run(s, p, front), p, call)
    ensures Requests(s, p, front + [call]) == Requests(s, p, front) + Requested(Run(s, p, front), p, call)
    decreases |front|
  {
    var calls := front + [call];
    if front == [] {
      assert calls == [call] && calls[1..] == [];
    } else {
      assert calls[0] == front[0] && calls[1..] == front[1..] + [call];
      SnocRequests(Step(s, p, front[0]), p, front[1..], call);
    }
  }

  lemma {:induction false} SnocAccepted(s: State, p: Policy, front: seq<Call>, call: Call)
    requires Runnable(s, p, front + [call]) && Runnable(s, p, front) && Ready(Run(s, p, front), p, call)
    ensures Accepted(s, p, front + [call])
         == Accepted(s, p, front) + if ShouldUpdate(Run(s, p, front), call) then [call.time] else []
    decreases |front|
  {
    var calls := front + [call];
    if front == [] {
      assert calls == [call] && calls[1..] == [];
    } else {
      assert calls[0] == front[0] && calls[1..] == front[1..] + [call];
      SnocAccepted(Step(s, p, front[0]), p, front[1..], call);
    }
  }

  lemma SnocOutputs(s: State, p: Policy, front: seq<Call>, call: Call)
    requires Runnable(s, p, front + [call]) && Runnable(s, p, front) && Ready(Run(s, p, front), p, call)
    ensures var t := Run(s, p, front);
            && Log(s, p, front + [call]) == Log(s, p, front) + Logged(t, p, call)
            && Requests(s, p, front + [call]) == Requests(s, p, front) + Requested(t, p, call)
            && Accepted(s, p, front + [call])
            == Accepted(s, p, front) + if ShouldUpdate(t, call) then [call.time] else []
  {
    SnocLog(s, p, front, call);
    SnocRequests(s, p, front, call);
    SnocAccepted(s, p, front, call);
  }

  lemma {:induction false} SnocValues(s: State, p: Policy, front: seq<Call>, call: Call, e: nat)
    requires Runnable(s, p, front + [call]) && Runnable(s, p, front) && Ready(Run(s, p, front), p, call)
    ensures ValuesRead(s, p, front + [call], e)
         == ValuesRead(s, p, front, e) + if ReadsEvent(Run(s, p, front), call, e) then [call.readings[e].value] else []
    decreases |front|
  {
    var calls := front + [call];
    if front == [] {
      assert calls == [call] && calls[1..] == [];
    } else {
      assert calls[0] == front[0] && calls[1..] == front[1..] + [call];
      SnocValues(Step(s, p, front[0]), p, front[1..], call, e);
    }
  }

  lemma {:induction false} RunnablePrefix(s: State, p: Policy, calls: seq<Call>, k: nat)
    requires Runnable(s, p, calls) && k <= |calls|
    ensures Runnable(s, p, calls[..k])
    decreases |calls|
  {
    if k > 0 {
      assert calls[..k][1..] == calls[1..][..k - 1];
      RunnablePrefix(Step(s, p, calls[0]), p, calls[1..], k - 1);
    }
  }

  /** The state's fields are what the history says. */
  lemma {:induction false} StateIsHistory(s: State, p: Policy, calls: seq<Call>)
    requires Runnable(s, p, calls)
    ensures var t := Run(s, p, calls);
            && t.lastUpdateTime == LastOr(Accepted(s, p, calls), s.lastUpdateTime) && t.delay == s.delay
            && t.lastRequestedFreq == LastRequest(s, p, calls)
    decreases |calls|
  {
    if calls != [] {
      var s' := Step(s, p, calls[0]);
      StateIsHistory(s', p, calls[1..]);
      if ShouldUpdate(s, calls[0]) {
        LastOfPrepended(calls[0].time, Accepted(s', p, calls[1..]), s.lastUpdateTime);
        LastOfPrependedRequest(s, p, calls);
      }
    }
  }

  function LastRequest(s: State, p: Policy, calls: seq<Call>): U32
    requires Runnable(s, p, calls)
  {
    var requests := Requests(s, p, calls);
    if requests == [] then s.lastRequestedFreq else requests[|requests| - 1]
  }

  lemma LastOfPrependedRequest(s: State, p: Policy, calls: seq<Call>)
    requires Runnable(s, p, calls) && calls != [] && ShouldUpdate(s, calls[0])
    ensures LastRequest(s, p, calls) == LastRequest(Step(s, p, calls[0]), p, calls[1..])
  {
    var rest := Requests(Step(s, p, calls[0]), p, calls[1..]);
    assert Requests(s, p, calls) == [Chosen(s, p, calls[0])] + rest;
  }

  /* ---------- Which calls update ---------- */

  /** Below 2^63, in plain integers: a call updates if and only if it is local and at least the
      delay after the last update. */
  lemma ShouldUpdateIff(s: State, call: Call)
    requires s.lastUpdateTime < TWO63 && call.time < TWO63
    ensures ShouldUpdate(s, call) <==> call.localCpu && call.time - s.lastUpdateTime >= s.delay
  {
    SignedDifferenceExact(call.time, s.lastUpdateTime);
  }

  /** Call k is due: local, and at least the delay after the last accepted call before it, or
      after the update from which the run starts. */
  predicate Due(s: State, p: Policy, calls: seq<Call>, k: nat)
    requires Runnable(s, p, calls) && k < |calls|
  {
    RunnablePrefix(s, p, calls, k);
    calls[k].localCpu && calls[k].time - LastOr(Accepted(s, p, calls[..k]), s.lastUpdateTime) >= s.delay
  }

  /** The counter of event e grew by this much, modulo 2^64, since its last good reading. */
  function Growth(s: State, p: Policy, calls: seq<Call>, k: nat, e: nat): U64
    requires Runnable(s, p, calls) && k < |calls| && e < |s.lastValue| == |calls[k].readings|
    requires calls[k].readings[e].Counter?
  {
    RunnablePrefix(s, p, calls, k);
    WrapU64(calls[k].readings[e].value - LastOr(ValuesRead(s, p, calls[..k], e), s.lastValue[e]))
  }

  lemma {:induction false} AcceptedBelow63(s: State, p: Policy, calls: seq<Call>)
    requires Runnable(s, p, calls) && Before63(calls)
    ensures forall t :: t in Accepted(s, p, calls) ==> t < TWO63
    decreases |calls|
  {
    if calls != [] {
      AcceptedBelow63(Step(s, p, calls[0]), p, calls[1..]);
    }
  }

  lemma DueIsUpdate(s: State, p: Policy, calls: seq<Call>, k: nat)
    requires Runnable(s, p, calls) && k < |calls| && Before63(calls) && s.lastUpdateTime < TWO63
    ensures Runnable(s, p, calls[..k]) && (ShouldUpdate(Run(s, p, calls[..k]), calls[k]) <==> Due(s, p, calls, k))
  {
    RunnablePrefix(s, p, calls, k);
    StateIsHistory(s, p, calls[..k]);
    AcceptedBelow63(s, p, calls[..k]);
    var times := Accepted(s, p, calls[..k]);
    assert times != [] ==> times[|times| - 1] in times;
    ShouldUpdateIff(Run(s, p, calls[..k]), calls[k]);
  }

  lemma AtCall(s: State, p: Policy, calls: seq<Call>, k: nat)
    requires Runnable(s, p, calls) && k < |calls|
    ensures Runnable(s, p, calls[..k]) && Runnable(s, p, calls[..k + 1])
    ensures calls[..k + 1] == calls[..k] + [calls[k]] && Ready(Run(s, p, calls[..k]), p, calls[k])
  {
    assert calls[..k + 1] == calls[..k] + [calls[k]];
    RunnablePrefix(s, p, calls, k);
    RunnablePrefix(s, p, calls, k + 1);
    Snoc(s, p, calls[..k], calls[k]);
  }

  /** Every due call updates, and no other: a call that is local and late enough is never
      refused, and a remote or an early one never let through. */
  lemma DueCallsUpdate(s: State, p: Policy, calls: seq<Call>, k: nat)
    requires Runnable(s, p, calls) && k < |calls| && Before63(calls) && s.lastUpdateTime < TWO63
    ensures Runnable(s, p, calls[..k]) && Runnable(s, p, calls[..k + 1])
    ensures Accepted(s, p, calls[..k + 1])
         == Accepted(s, p, calls[..k]) + if Due(s, p, calls, k) then [calls[k].time] else []
    ensures |Requests(s, p, calls[..k + 1])| == |Requests(s, p, calls[..k])| + if Due(s, p, calls, k) then 1 else 0
    ensures Requests(s, p, calls[..k]) <= Requests(s, p, calls[..k + 1])
  {
    AtCall(s, p, calls, k);
    DueIsUpdate(s, p, calls, k);
    SnocOutputs(s, p, calls[..k], calls[k]);
  }

  lemma {:induction false} AcceptedGrows(s: State, p: Policy, calls: seq<Call>, k: nat)
    requires Runnable(s, p, calls) && k <= |calls|
    ensures Runnable(s, p, calls[..k]) && Accepted(s, p, calls[..k]) <= Accepted(s, p, calls)
    decreases |calls| - k
  {
    RunnablePrefix(s, p, calls, k);
    if k == |calls| {
      assert calls[..k] == calls;
    } else {
      AtCall(s, p, calls, k);
      SnocAccepted(s, p, calls[..k], calls[k]);
      AcceptedGrows(s, p, calls, k + 1);
    }
  }

  /** So the time of every due call is among the accepted ones of the whole run. */
  lemma DueCallIsAccepted(s: State, p: Policy, calls: seq<Call>, k: nat)
    requires Runnable(s, p, calls) && k < |calls| && Before63(calls) && s.lastUpdateTime < TWO63
    requires Due(s, p, calls, k)
    ensures calls[k].time in Accepted(s, p, calls)
  {
    DueCallsUpdate(s, p, calls, k);
    AcceptedGrows(s, p, calls, k + 1);
    var times := Accepted(s, p, calls[..k + 1]);
    assert times[|times| - 1] == Accepted(s, p, calls)[|times| - 1];
  }

  /* ---------- What they request ---------- */

  /** All three counters can be read. */
  predicate Complete(call: Call) {
    |call.readings| == 3 && call.readings[0].Counter? && call.readings[1].Counter? && call.readings[2].Counter?
  }

  lemma CompleteIsAllRead(call: Call)
    requires |call.readings| == 3
    ensures Complete(call) <==> AllRead(call)
  {
  }

  lemma GrowthIsDelta(s: State, p: Policy, calls: seq<Call>, k: nat, e: nat)
    requires Runnable(s, p, calls) && k < |calls| && e < 3 == |s.lastValue| && Complete(calls[k])
    ensures Runnable(s, p, calls[..k]) && WellFormed(Run(s, p, calls[..k]), calls[k]) && AllRead(calls[k])
    ensures Delta(Run(s, p, calls[..k]), calls[k], e) == Growth(s, p, calls, k, e)
  {
    AtCall(s, p, calls, k);
    CompleteIsAllRead(calls[k]);
    StoredIsLastRead(s, p, calls[..k], e);
  }

  /** What a due call requests: the maximum if any counter is missing or fails, the last
      request again if no cycles were counted, and otherwise what the heuristic says of
      events 2 and 1 (stalls and cycles), or of events 0 and 1 (instructions and cycles). */
  lemma DueCallRequests(s: State, p: Policy, calls: seq<Call>, k: nat)
    requires Runnable(s, p, calls) && k < |calls| && Before63(calls) && s.lastUpdateTime < TWO63
    requires p.Sound() && |s.lastValue| == 3 && Due(s, p, calls, k)
    ensures Runnable(s, p, calls[..k]) && Runnable(s, p, calls[..k + 1])
    ensures var f := LastRequest(s, p, calls[..k + 1]);
            && (!Complete(calls[k]) ==> f == p.maxFreq)
            && (Complete(calls[k]) ==>
                  var d0, d1, d2 := Growth(s, p, calls, k, 0), Growth(s, p, calls, k, 1), Growth(s, p, calls, k, 2);
                  && (d1 == 0 ==> f == LastRequest(s, p, calls[..k]))
                  && (d1 != 0 && p.heuristic == OffcoreStalls ==>
                        && Computable(WrapS64(d2), WrapS64(d1), p.band)
                        && f == FrequencyIn(OffcoreStalls, WrapS64(d2), WrapS64(d1), p.band, p.maxFreq, p.minFreq))
                  && (d1 != 0 && p.heuristic == Ipc ==>
                        && Computable(WrapS64(d0), WrapS64(d1), p.band)
                        && f == FrequencyIn(Ipc, WrapS64(d0), WrapS64(d1), p.band, p.maxFreq, p.minFreq)))
  {
    AtCall(s, p, calls, k);
    var t, call := Run(s, p, calls[..k]), calls[k];
    DueIsUpdate(s, p, calls, k);
    SnocOutputs(s, p, calls[..k], call);
    assert LastRequest(s, p, calls[..k + 1]) == Chosen(t, p, call);
    StateIsHistory(s, p, calls[..k]);
    CompleteIsAllRead(call);
    if Complete(call) {
      GrowthIsDelta(s, p, calls, k, 0);
      GrowthIsDelta(s, p, calls, k, 1);
      GrowthIsDelta(s, p, calls, k, 2);
      ChosenFromSample(t, p, call);
    }
  }

  lemma ChosenFromSample(t: State, p: Policy, call: Call)
    requires Ready(t, p, call) && ShouldUpdate(t, call) && AllRead(call)
    ensures var d0, d1, d2 := Delta(t, call, 0), Delta(t, call, 1), Delta(t, call, 2);
            && (d1 == 0 ==> Chosen(t, p, call) == t.lastRequestedFreq)
            && (d1 != 0 && p.heuristic == OffcoreStalls ==>
                  && Computable(WrapS64(d2), WrapS64(d1), p.band)
                  && Chosen(t, p, call)
                     == FrequencyIn(OffcoreStalls, WrapS64(d2), WrapS64(d1), p.band, p.maxFreq, p.minFreq))
            && (d1 != 0 && p.heuristic == Ipc ==>
                  && Computable(WrapS64(d0), WrapS64(d1), p.band)
                  && Chosen(t, p, call)
                     == FrequencyIn(Ipc, WrapS64(d0), WrapS64(d1), p.band, p.maxFreq, p.minFreq))
  {
    assert Delta(t, call, 1) != 0 ==> WrapS64(Delta(t, call, 1)) != 0;
  }

  /* ---------- What they log ---------- */

  /** A due call logs one entry if all counters can be read, with its own time, the growth of
      events 0, 1 and 2 in this order, the frequency it requested and the policy's cpu; no
      other call logs anything. */
  lemma DueCallLogs(s: State, p: Policy, calls: seq<Call>, k: nat)
    requires Runnable(s, p, calls) && k < |calls| && Before63(calls) && s.lastUpdateTime < TWO63
    requires |s.lastValue| == 3
    ensures Runnable(s, p, calls[..k]) && Runnable(s, p, calls[..k + 1])
    ensures Log(s, p, calls[..k + 1]) == Log(s, p, calls[..k])
          + if Due(s, p, calls, k) && Complete(calls[k])
            then [LogEntry(calls[k].time, Growth(s, p, calls, k, 0), Growth(s, p, calls, k, 1),
                           Growth(s, p, calls, k, 2), LastRequest(s, p, calls[..k + 1]), p.cpu)]
            else []
  {
    AtCall(s, p, calls, k);
    var t, call := Run(s, p, calls[..k]), calls[k];
    DueIsUpdate(s, p, calls, k);
    SnocOutputs(s, p, calls[..k], call);
    CompleteIsAllRead(call);
    if Due(s, p, calls, k) && Complete(call) {
      assert LastRequest(s, p, calls[..k + 1]) == Chosen(t, p, call);
      GrowthIsDelta(s, p, calls, k, 0);
      GrowthIsDelta(s, p, calls, k, 1);
      GrowthIsDelta(s, p, calls, k, 2);
    }
  }

  /** A due call reads its events in order, up to the first that is missing or fails. */
  lemma DueCallReads(s: State, p: Policy, calls: seq<Call>, k: nat, e: nat)
    requires Runnable(s, p, calls) && k < |calls| && Before63(calls) && s.lastUpdateTime < TWO63
    requires |s.lastValue| == 3 && e < 3
    ensures Runnable(s, p, calls[..k]) && Runnable(s, p, calls[..k + 1]) && |calls[k].readings| == 3
    ensures ValuesRead(s, p, calls[..k + 1], e) == ValuesRead(s, p, calls[..k], e)
          + if Due(s, p, calls, k) && forall i :: 0 <= i <= e ==> calls[k].readings[i].Counter?
            then [calls[k].readings[e].value] else []
  {
    AtCall(s, p, calls, k);
    DueIsUpdate(s, p, calls, k);
    SnocValues(s, p, calls[..k], calls[k], e);
  }

  function LoggedValue(entry: LogEntry, e: nat): U64
    requires e < 3
  {
    if e == 0 then entry.perfValue1 else if e == 1 then entry.perfValue2 else entry.perfValue3
  }

  function SumLogged(log: seq<LogEntry>, e: nat): nat
    requires e < 3
  {
    if log == [] then 0 else LoggedValue(log[0], e) + SumLogged(log[1..], e)
  }

  /** Every call that updates can read all counters. */
  predicate NoReadFails(s: State, p: Policy, calls: seq<Call>)
    requires Runnable(s, p, calls)
    decreases |calls|
  {
    calls == [] ||
    ((ShouldUpdate(s, calls[0]) ==> Complete(calls[0])) && NoReadFails(Step(s, p, calls[0]), p, calls[1..]))
  }

  lemma {:induction false} SumLoggedIsSumOfDeltas(s: State, p: Policy, calls: seq<Call>, e: nat)
    requires Runnable(s, p, calls) && NoReadFails(s, p, calls) && e < 3
    ensures SumLogged(Log(s, p, calls), e) == SumOfDeltas(s, p, calls, e)
    decreases |calls|
  {
    if calls != [] {
      var call, s' := calls[0], Step(s, p, calls[0]);
      SumLoggedIsSumOfDeltas(s', p, calls[1..], e);
      if ShouldUpdate(s, call) {
        CompleteIsAllRead(call);
        assert Log(s, p, calls)[1..] == Log(s', p, calls[1..]);
      } else {
        assert Log(s, p, calls) == Log(s', p, calls[1..]);
      }
    }
  }

  /** If no read fails, the log loses nothing: per event, the logged values add up, modulo
      2^64, to the last value read minus the baseline. */
  lemma LoggedValuesTelescope(s: State, p: Policy, calls: seq<Call>, e: nat)
    requires Runnable(s, p, calls) && NoReadFails(s, p, calls) && e < 3 == |s.lastValue|
    ensures WrapU64(SumLogged(Log(s, p, calls), e))
         == WrapU64(LastOr(ValuesRead(s, p, calls, e), s.lastValue[e]) - s.lastValue[e])
  {
    SumLoggedIsSumOfDeltas(s, p, calls, e);
    DeltasTelescope(s, p, calls, e);
  }
}
