/** The governor and the deferred switch together: what reaches the driver. */
module SafeSwitching {
  import opened CInt
  import G = Governor
  import D = DeferredSwitch

  /** The calls of the hook between one start of the governor and the next. */
  datatype Epoch = Epoch(delay: S64, calls: seq<G.Call>)

  predicate Runnable(s: G.State, p: G.Policy, epochs: seq<Epoch>)
    decreases |epochs|
  {
    epochs == [] ||
    var s' := G.Restarted(s, epochs[0].delay);
    G.Runnable(s', p, epochs[0].calls) && Runnable(G.Run(s', p, epochs[0].calls), p, epochs[1..])
  }

  /** All requests since the policy was allocated, start after start. */
  function Requests(s: G.State, p: G.Policy, epochs: seq<Epoch>): seq<U32>
    requires Runnable(s, p, epochs)
    decreases |epochs|
  {
    if epochs == [] then []
    else
      var s' := G.Restarted(s, epochs[0].delay);
      G.Requests(s', p, epochs[0].calls) + Requests(G.Run(s', p, epochs[0].calls), p, epochs[1..])
  }

  lemma {:induction false} RequestsStayInLimits(s: G.State, p: G.Policy, epochs: seq<Epoch>)
    requires p.Sound() && Runnable(s, p, epochs) && G.InLimits(p, s.lastRequestedFreq)
    ensures forall f :: f in Requests(s, p, epochs) ==> G.InLimits(p, f)
    decreases |epochs|
  {
    if epochs != [] {
      var s' := G.Restarted(s, epochs[0].delay);
      G.FrequencyStaysInLimits(s', p, epochs[0].calls);
      RequestsStayInLimits(G.Run(s', p, epochs[0].calls), p, epochs[1..]);
    }
  }

  /** In every interleaving, through any number of stops and starts: if the requests are
      those of the hook, one run per start, then every frequency that the driver is called
      for was chosen by one of the calls, in the order of the calls, and lies within the
      limits. */
  lemma DriverStaysInLimits(p: G.Policy, s: G.State, epochs: seq<Epoch>, steps: seq<D.Step>)
    requires p.Sound() && Runnable(s, p, epochs) && s.lastRequestedFreq == p.maxFreq
    requires D.Legal(D.Initial(p.maxFreq), steps)
    requires D.Run(D.Initial(p.maxFreq), steps).requests == Requests(s, p, epochs)
    ensures var driver, requests := D.Run(D.Initial(p.maxFreq), steps).driver, Requests(s, p, epochs);
            && (forall k :: 0 <= k < |driver| ==>
                  && driver[k].index < |requests| && driver[k].freq == requests[driver[k].index]
                  && G.InLimits(p, driver[k].freq))
            && (forall j, k :: 0 <= j < k < |driver| ==> driver[j].index <= driver[k].index)
  {
    D.CoalescingKeepsOrder(p.maxFreq, steps);
    RequestsStayInLimits(s, p, epochs);
  }
}
