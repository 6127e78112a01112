/** The governors and the logging path together: what the hooks of all cores logged is what
    the per-core files contain. */
module GovernedLog {
  import opened Basics
  import opened CInt
  import opened LogFormat
  import opened Logfile
  import opened RingBuffer
  import opened LogPipeline
  import opened LogNoLoss
  import G = Governor

  /** The calls of one core's hook since its start. */
  datatype HookRun = HookRun(start: G.State, policy: G.Policy, calls: seq<G.Call>)

  /** The hook can run, its delay is at least `delay`, and the clock is below 2^63. */
  predicate Governed(run: HookRun, delay: nat) {
    && G.Runnable(run.start, run.policy, run.calls)
    && run.start.lastUpdateTime < TWO63 && 0 < delay <= run.start.delay && G.Before63(run.calls)
  }

  function Logged(run: HookRun): seq<LogEntry>
    requires G.Runnable(run.start, run.policy, run.calls)
  {
    G.Log(run.start, run.policy, run.calls)
  }

  /** For ring i, timestamps are right up to the skew, and drains come in time. */
  ghost predicate AllInTime(s: State, events: seq<Event>, c: Config, t: Timing, i: nat)
    requires WellFormed(s) && Legal(s, events, c)
    decreases |events|
  {
    events != [] ==>
      && (Concerns(s, events[0], i) ==> Punctual(s, events[0], t.skew) && InTime(s, events[0], c, t))
      && AllInTime(Apply(s, events[0], c), events[1..], c, t, i)
  }

  lemma {:induction false} HistoryGrows(s: State, events: seq<Event>, c: Config, i: nat)
    requires WellFormed(s) && Legal(s, events, c) && i < |s.history|
    ensures s.history[i] <= Run(s, events, c).history[i]
    decreases |events|
  {
    if events != [] {
      var s' := Apply(s, events[0], c);
      HistoryGrows(s', events[1..], c, i);
      assert s.history[i] <= s'.history[i];
    }
  }

  lemma SpacedPrefix(es: seq<LogEntry>, whole: seq<LogEntry>, delay: nat, more: nat)
    requires es <= whole && delay <= more && Spaced(whole, more)
    ensures Spaced(es, delay)
  {
    forall k | 0 < k < |es|
      ensures es[k - 1].timestamp + delay <= es[k].timestamp
    {
      assert es[k] == whole[k] && es[k - 1] == whole[k - 1];
    }
  }

  /** If the history of ring i turns out spaced, every write to it respected the rate limit. */
  lemma {:induction false} SpacedRunsAreTimely(s: State, events: seq<Event>, c: Config, t: Timing, i: nat)
    requires WellFormed(s) && Legal(s, events, c) && i < |s.history| && AllInTime(s, events, c, t, i)
    requires Spaced(Run(s, events, c).history[i], t.delay)
    ensures AllTimely(s, events, c, t, i)
    decreases |events|
  {
    if events != [] {
      var ev, s' := events[0], Apply(s, events[0], c);
      assert |s'.history| == |s.history| && Run(s, events, c) == Run(s', events[1..], c);
      SpacedRunsAreTimely(s', events[1..], c, t, i);
      if ev.Write? && ev.ring == i {
        HistoryGrows(s', events[1..], c, i);
        SpacedPrefix(s'.history[i], Run(s, events, c).history[i], t.delay, t.delay);
      }
    }
  }

  lemma HookWritesSpacedEntries(run: HookRun, delay: nat)
    requires Governed(run, delay)
    ensures Spaced(Logged(run), delay)
  {
    G.LogIsSpaced(run.start, run.policy, run.calls);
    SpacedPrefix(Logged(run), Logged(run), delay, run.start.delay);
  }

  /** Whatever the hook of a core does, in whatever interleaving with the reader and the
      other cores, and whenever the rings were opened: if the core's own ring is drained
      before size * delay has passed and the log has room for all rings, then the core's
      file, parsed, is what its hook logged up to the last drain. */
  lemma EveryUpdateReachesItsFile(run: HookRun, openedAt: seq<nat>, events: seq<Event>, c: Config, t: Timing,
                                  cpus: seq<U32>, i: nat)
    requires Legal(Initial(openedAt), events, c) && i < |openedAt|
    requires |openedAt| * c.size * LINE_BOUND <= c.capacity
    requires Governed(run, t.delay) && AllInTime(Initial(openedAt), events, c, t, i)
    requires var s := Run(Initial(openedAt), events, c);
             s.reading == None && OneCorePerRing(s, cpus) && s.history[i] == Logged(run)
    ensures var s := Run(Initial(openedAt), events, c);
            && s.drained[i] <= |Logged(run)|
            && ParseLines(Lines(CoreFile(s, cpus[i]))) == Some(Logged(run)[..s.drained[i]])
  {
    var s := Run(Initial(openedAt), events, c);
    HookWritesSpacedEntries(run, t.delay);
    SpacedRunsAreTimely(Initial(openedAt), events, c, t, i);
    NoUpdateIsMissing(openedAt, events, c, t, cpus, i);
    ParseLogRoundTrip(s.history[i][..s.drained[i]]);
  }

  /** The shipped constants: rings of 2000 entries, a log of 2,000,000 bytes and a delay of
      at least 5 ms. Of up to nine cores, any core loses nothing whose ring is first drained
      within ten seconds of its opening and then at intervals below ten seconds (less twice
      the skew), which leaves the eight seconds of copy-log.sh a margin of two. */
  lemma ShippedConfiguration(run: HookRun, openedAt: seq<nat>, events: seq<Event>, skew: nat, cpus: seq<U32>, i: nat)
    requires i < |openedAt| <= 9 && Governed(run, 5_000_000)
    requires var c, t := Config(LOG_RINGBUFFER_SIZE, LOGFILE_CAPACITY), Timing(5_000_000, skew);
             && Legal(Initial(openedAt), events, c) && AllInTime(Initial(openedAt), events, c, t, i)
             && var s := Run(Initial(openedAt), events, c);
                s.reading == None && OneCorePerRing(s, cpus) && s.history[i] == Logged(run)
    ensures var s := Run(Initial(openedAt), events, Config(LOG_RINGBUFFER_SIZE, LOGFILE_CAPACITY));
            && s.drained[i] <= |Logged(run)|
            && ParseLines(Lines(CoreFile(s, cpus[i]))) == Some(Logged(run)[..s.drained[i]])
    ensures LOG_RINGBUFFER_SIZE * 5_000_000 == 10_000_000_000
  {
    EveryUpdateReachesItsFile(run, openedAt, events, Config(LOG_RINGBUFFER_SIZE, LOGFILE_CAPACITY),
                              Timing(5_000_000, skew), cpus, i);
  }

  /* ---------- The premises hold of real runs ---------- */

  lemma OneMoreEvent(s: State, ev: Event, rest: seq<Event>, c: Config, t: Timing)
    requires WellFormed(s) && Enabled(s, ev)
    requires Concerns(s, ev, 0) ==> Punctual(s, ev, t.skew) && InTime(s, ev, c, t)
    requires WellFormed(Apply(s, ev, c)) && Legal(Apply(s, ev, c), rest, c) && AllInTime(Apply(s, ev, c), rest, c, t, 0)
    ensures Legal(s, [ev] + rest, c) && AllInTime(s, [ev] + rest, c, t, 0)
    ensures Run(s, [ev] + rest, c) == Run(Apply(s, ev, c), rest, c)
  {
    assert ([ev] + rest)[1..] == rest;
  }

  lemma EndOfRead(s: State, e: LogEntry, c: Config, t: Timing)
    requires s.history == [[e]] && s.drained == [1] && |s.lastDrain| == 1 && s.reading == Some(1)
    ensures Legal(s, [EndRead] + [], c) && AllInTime(s, [EndRead] + [], c, t, 0)
    ensures var s' := Run(s, [EndRead] + [], c); s'.reading == None && s'.history == [[e]] && s'.drained == [1]
  {
    OneMoreEvent(s, EndRead, [], c, t);
  }

  lemma DrainInTime(s: State, e: LogEntry, time: nat, c: Config, t: Timing)
    requires s.history == [[e]] && s.drained == [0] && |s.lastDrain| == 1 && s.reading == Some(0)
    requires e.timestamp <= time && time - s.lastDrain[0] + 2 * t.skew < c.size * t.delay
    ensures var events := [Drain(true, time)] + ([EndRead] + []);
            && Legal(s, events, c) && AllInTime(s, events, c, t, 0)
            && var s' := Run(s, events, c); s'.reading == None && s'.history == [[e]] && s'.drained == [1]
  {
    assert Pending(s, 0) == [e];
    EndOfRead(Apply(s, Drain(true, time), c), e, c, t);
    OneMoreEvent(s, Drain(true, time), [EndRead] + [], c, t);
  }

  lemma ReadInTime(s: State, e: LogEntry, time: nat, c: Config, t: Timing)
    requires s.history == [[e]] && s.drained == [0] && |s.lastDrain| == 1 && s.reading == None
    requires e.timestamp <= time && time - s.lastDrain[0] + 2 * t.skew < c.size * t.delay
    ensures var events := [BeginRead] + ([Drain(true, time)] + ([EndRead] + []));
            && Legal(s, events, c) && AllInTime(s, events, c, t, 0)
            && var s' := Run(s, events, c); s'.reading == None && s'.history == [[e]] && s'.drained == [1]
  {
    DrainInTime(Apply(s, BeginRead, c), e, time, c, t);
    OneMoreEvent(s, BeginRead, [Drain(true, time)] + ([EndRead] + []), c, t);
  }

  /** A ring opened at any time, one entry, and a complete read less than ten seconds after
      the opening. */
  lemma OneReadAnytime(openedAt: nat, e: LogEntry, time: nat)
    requires openedAt <= e.timestamp <= time < openedAt + LOG_RINGBUFFER_SIZE * 5_000_000
    ensures var c, s := Config(LOG_RINGBUFFER_SIZE, LOGFILE_CAPACITY), Initial([openedAt]);
            var events := [Write(0, e)] + ([BeginRead] + ([Drain(true, time)] + ([EndRead] + [])));
            && Legal(s, events, c) && AllInTime(s, events, c, Timing(5_000_000, 0), 0)
            && var s' := Run(s, events, c); s'.reading == None && s'.history == [[e]] && s'.drained == [1]
  {
    var c, t, s := Config(LOG_RINGBUFFER_SIZE, LOGFILE_CAPACITY), Timing(5_000_000, 0), Initial([openedAt]);
    var s1 := Apply(s, Write(0, e), c);
    assert s.history == [[]] && s.history[0] + [e] == [e];
    assert s1.history == [[e]] && s1.drained == [0] && s1.lastDrain == [openedAt];
    ReadInTime(s1, e, time, c, t);
    OneMoreEvent(s, Write(0, e), [BeginRead] + ([Drain(true, time)] + ([EndRead] + [])), c, t);
  }
}
