/** When the log is complete: the rate limit of the hook bounds how many entries a ring can
    receive between two drains, so a reader that comes often enough to a ring misses nothing
    of it, and the file cut out of what was read for that core is the core's history. */
module LogNoLoss {
  import opened Basics
  import opened CInt
  import opened LogFormat
  import opened RingBuffer
  import opened LogPipeline

  /* ---------- Time ---------- */

  /** The delay of the rate limit, and by how much the timestamp of an entry may differ from
      the time at which the reader's clock sees it written. */
  datatype Timing = Timing(delay: nat, skew: nat)

  /** Consecutive entries are at least `delay` apart. */
  predicate Spaced(es: seq<LogEntry>, delay: nat) {
    forall k :: 0 < k < |es| ==> es[k - 1].timestamp + delay <= es[k].timestamp
  }

  lemma {:induction false} SpacedSpan(es: seq<LogEntry>, delay: nat)
    requires Spaced(es, delay) && es != []
    ensures es[0].timestamp + (|es| - 1) * delay <= es[|es| - 1].timestamp
  {
    if |es| > 1 {
      var init := es[..|es| - 1];
      SpacedSpan(init, delay);
      assert es[|es| - 2].timestamp + delay <= es[|es| - 1].timestamp;
      assert (|es| - 1) * delay == (|init| - 1) * delay + delay;
    }
  }

  /** A window shorter than n delays holds at most n spaced entries. */
  lemma FewInAWindow(es: seq<LogEntry>, delay: nat, from: int, to: int, n: nat)
    requires Spaced(es, delay) && to - from < n * delay
    requires forall k :: 0 <= k < |es| ==> from <= es[k].timestamp <= to
    ensures |es| <= n
  {
    if es != [] {
      SpacedSpan(es, delay);
      FactorBelow(|es| - 1, n, delay);
    }
  }

  lemma FactorBelow(a: nat, b: nat, factor: nat)
    ensures a * factor < b * factor ==> a < b
  {
    assert a >= b ==> a * factor >= b * factor;
  }

  /** Whether the event is a write to ring i or a successful drain of it. All conditions
      on time are on these events only, whatever happens to other rings. */
  predicate Concerns(s: State, ev: Event, i: nat)
    requires WellFormed(s) && Enabled(s, ev)
  {
    match ev
    case Write(r, _) => r == i
    case Drain(hasMemory, _) => hasMemory && s.reading.value == i
    case _ => false
  }

  /** Writes respect the rate limit ... */
  predicate RateLimited(s: State, ev: Event, delay: nat)
    requires WellFormed(s) && Enabled(s, ev)
  {
    ev.Write? ==> Spaced(s.history[ev.ring] + [ev.entry], delay)
  }

  /** ... timestamps are right up to the skew ... */
  predicate Punctual(s: State, ev: Event, skew: nat)
    requires WellFormed(s) && Enabled(s, ev)
  {
    match ev
    case Write(r, e) => s.lastDrain[r] <= e.timestamp + skew
    case Drain(_, time) => forall e :: e in Pending(s, s.reading.value) ==> e.timestamp <= time + skew
    case _ => true
  }

  /** ... and a drain comes soon enough after the ring's last one, or after its opening. */
  predicate InTime(s: State, ev: Event, c: Config, t: Timing)
    requires WellFormed(s) && Enabled(s, ev)
  {
    ev.Drain? ==> ev.time - s.lastDrain[s.reading.value] + 2 * t.skew < c.size * t.delay
  }

  predicate Timely(s: State, ev: Event, c: Config, t: Timing)
    requires WellFormed(s) && Enabled(s, ev)
  {
    RateLimited(s, ev, t.delay) && Punctual(s, ev, t.skew) && InTime(s, ev, c, t)
  }

  ghost predicate AllTimely(s: State, events: seq<Event>, c: Config, t: Timing, i: nat)
    requires WellFormed(s) && Legal(s, events, c)
    decreases |events|
  {
    events != [] ==>
      && (Concerns(s, events[0], i) ==> Timely(s, events[0], c, t))
      && AllTimely(Apply(s, events[0], c), events[1..], c, t, i)
  }

  predicate TimeInv(s: State, t: Timing, i: nat)
    requires WellFormed(s) && i < |s.history|
  {
    && Spaced(s.history[i], t.delay)
    && forall k :: s.drained[i] <= k < |s.history[i]| ==> s.lastDrain[i] <= s.history[i][k].timestamp + t.skew
  }

  lemma TimelyDrainIsNoOverrun(s: State, time: nat, c: Config, t: Timing)
    requires WellFormed(s) && Enabled(s, Drain(true, time)) && Timely(s, Drain(true, time), c, t)
    requires TimeInv(s, t, s.reading.value)
    ensures |Pending(s, s.reading.value)| <= c.size
  {
    var r := s.reading.value;
    var pending := Pending(s, r);
    SuffixIsSpaced(s.history[r], s.drained[r], t.delay);
    assert forall k :: 0 <= k < |pending| ==> pending[k] in pending;
    FewInAWindow(pending, t.delay, s.lastDrain[r] - t.skew, time + t.skew, c.size);
  }

  lemma SuffixIsSpaced(es: seq<LogEntry>, from: nat, delay: nat)
    requires from <= |es| && Spaced(es, delay)
    ensures Spaced(es[from..], delay)
  {
    forall k | 0 < k < |es[from..]|
      ensures es[from..][k - 1].timestamp + delay <= es[from..][k].timestamp
    {
      assert es[from + k - 1].timestamp + delay <= es[from + k].timestamp;
    }
  }

  lemma StepKeepsTime(s: State, ev: Event, c: Config, t: Timing, i: nat)
    requires WellFormed(s) && Enabled(s, ev) && i < |s.history| && TimeInv(s, t, i)
    requires Concerns(s, ev, i) ==> Timely(s, ev, c, t)
    ensures WellFormed(Apply(s, ev, c)) && |Apply(s, ev, c).history| == |s.history|
    ensures TimeInv(Apply(s, ev, c), t, i) && NoOverrun(s, ev, c, i)
  {
    ApplyWellFormed(s, ev, c);
    if Concerns(s, ev, i) && ev.Drain? {
      TimelyDrainIsNoOverrun(s, ev.time, c, t);
    }
  }

  /** Rate limit and ring capacity together: with a ring's updates at least `delay` apart and
      each of its drains before `size * delay` has passed since the last one or the opening
      (less twice the skew), that ring is never overrun, not even when filled exactly. */
  lemma {:induction false} TimelyRingIsNeverOverrun(s: State, events: seq<Event>, c: Config, t: Timing, i: nat)
    requires WellFormed(s) && Legal(s, events, c) && i < |s.history|
    requires AllTimely(s, events, c, t, i) && TimeInv(s, t, i)
    ensures NeverOverrun(s, events, c, i)
    decreases |events|
  {
    if events != [] {
      StepKeepsTime(s, events[0], c, t, i);
      TimelyRingIsNeverOverrun(Apply(s, events[0], c), events[1..], c, t, i);
    }
  }

  /* ---------- Room in the log ---------- */

  /** Each ring drained so far has put at most `size` records into the log. */
  predicate LogBounded(s: State, c: Config) {
    s.reading.Some? ==> |s.log| <= s.reading.value * c.size
  }

  /** `inLog` records so far and `more` from the next ring stay within the budget. */
  lemma Budget(ring: nat, rings: nat, size: nat, inLog: nat, more: nat)
    requires ring < rings && inLog <= ring * size && more <= size
    ensures inLog + more <= (ring + 1) * size
    ensures LINE_BOUND * inLog + LINE_BOUND * more <= rings * size * LINE_BOUND
  {
    assert (ring + 1) * size == ring * size + size;
    assert (ring + 1) * size <= rings * size;
  }

  lemma DrainHasRoom(s: State, time: nat, c: Config)
    requires WellFormed(s) && Enabled(s, Drain(true, time)) && LogBounded(s, c)
    requires |s.history| * c.size * LINE_BOUND <= c.capacity
    ensures Fits(s, Drain(true, time), c)
    ensures |Apply(s, Drain(true, time), c).log| <= (s.reading.value + 1) * c.size
  {
    var r := s.reading.value;
    var es, window := Newest(Pending(s, r), c.size), Window(s, r, c.size);
    TextLength(Entries(s.log));
    TextLength(es);
    Budget(r, |s.history|, c.size, |s.log|, |es|);
    assert Entries(window) == es;
    OutputRecsFits(s.log, c.capacity, window);
  }

  lemma StepHasRoom(s: State, ev: Event, c: Config)
    requires WellFormed(s) && Enabled(s, ev) && LogBounded(s, c)
    requires |s.history| * c.size * LINE_BOUND <= c.capacity
    ensures Fits(s, ev, c) && LogBounded(Apply(s, ev, c), c)
  {
    if ev.Drain? {
      assert (s.reading.value + 1) * c.size == s.reading.value * c.size + c.size;
      if ev.hasMemory {
        DrainHasRoom(s, ev.time, c);
      }
    }
  }

  /** A log with room for all rings holds every read, whenever the rings are drained and
      however much was written to them. */
  lemma {:induction false} RoomForAllRings(s: State, events: seq<Event>, c: Config)
    requires WellFormed(s) && Legal(s, events, c) && LogBounded(s, c)
    requires |s.history| * c.size * LINE_BOUND <= c.capacity
    ensures EveryReadFits(s, events, c)
    decreases |events|
  {
    if events != [] {
      ApplyWellFormed(s, events[0], c);
      StepHasRoom(s, events[0], c);
      RoomForAllRings(Apply(s, events[0], c), events[1..], c);
    }
  }

  /* ---------- One file per core ---------- */

  /** Ring i belongs to core cpus[i], and no core has two rings. */
  predicate OneCorePerRing(s: State, cpus: seq<U32>) {
    && |cpus| == |s.history|
    && (forall i, j :: 0 <= i < j < |cpus| ==> cpus[i] != cpus[j])
    && forall i, k :: 0 <= i < |s.history| && 0 <= k < |s.history[i]| ==> s.history[i][k].cpu == cpus[i]
  }

  lemma {:induction false} OfCpuConcat(a: seq<LogEntry>, b: seq<LogEntry>, cpu: U32)
    ensures OfCpu(a + b, cpu) == OfCpu(a, cpu) + OfCpu(b, cpu)
  {
    if a == [] {
      assert a + b == b;
    } else {
      assert (a + b)[0] == a[0] && (a + b)[1..] == a[1..] + b;
      OfCpuConcat(a[1..], b, cpu);
    }
  }

  lemma {:induction false} CoreOfRecords(s: State, recs: seq<Rec>, cpus: seq<U32>, i: nat)
    requires WellFormed(s) && OneCorePerRing(s, cpus) && i < |cpus|
    requires forall a :: 0 <= a < |recs| ==> Genuine(s, recs[a])
    ensures OfCpu(Entries(recs), cpus[i]) == OfRing(recs, i)
  {
    if recs != [] {
      var init, last := recs[..|recs| - 1], recs[|recs| - 1];
      CoreOfRecords(s, init, cpus, i);
      assert Genuine(s, recs[|recs| - 1]);
      assert Entries(recs) == Entries(init) + [last.entry];
      OfCpuConcat(Entries(init), [last.entry], cpus[i]);
      assert last.entry.cpu == cpus[last.ring];
      assert OfCpu([last.entry], cpus[i]) == if last.entry.cpu == cpus[i] then [last.entry] else [];
    }
  }

  /** The file that collects grep "^<cpu>," over everything read. */
  function CoreFile(s: State, cpu: U32): string {
    Grep(Decimal(cpu) + [','], Lines(Text(Entries(s.delivered))))
  }

  lemma FileOfRing(s: State, cpus: seq<U32>, i: nat)
    requires WellFormed(s) && Ordered(s) && s.reading == None && OneCorePerRing(s, cpus) && i < |s.history|
    ensures CoreFile(s, cpus[i]) == Text(OfRing(All(s), i))
  {
    assert All(s) == s.delivered;
    forall a | 0 <= a < |s.delivered| ensures Genuine(s, s.delivered[a]) {
      assert Genuine(s, All(s)[a]);
    }
    CoreOfRecords(s, s.delivered, cpus, i);
    GrepSelectsCpu(Entries(s.delivered), cpus[i]);
  }

  /** What the file of a core contains after any run, overrun or not: the text of what was
      drained from its ring, which is, drain by drain, its newest `size` entries. */
  lemma FileIsWhatWasDrained(openedAt: seq<nat>, events: seq<Event>, c: Config, cpus: seq<U32>, i: nat)
    requires Legal(Initial(openedAt), events, c) && |openedAt| * c.size * LINE_BOUND <= c.capacity
    requires var s := Run(Initial(openedAt), events, c);
             s.reading == None && OneCorePerRing(s, cpus) && i < |openedAt|
    ensures CoreFile(Run(Initial(openedAt), events, c), cpus[i]) == Text(Drained(Initial(openedAt), events, c, i))
  {
    var s0 := Initial(openedAt);
    InitialIsGood(openedAt);
    RoomForAllRings(s0, events, c);
    DeliveredIsDrained(s0, events, c, i);
    DeliveredAtMostOnceInOrder(s0, events, c);
    FileOfRing(Run(s0, events, c), cpus, i);
    assert OfRing(All(s0), i) == [];
    assert [] + Drained(s0, events, c, i) == Drained(s0, events, c, i);
  }

  /** The end-to-end statement: over every run in which core i's updates respect the rate
      limit and its ring is drained in time, the file of that core is, character by
      character, its history up to its last drain, in order. The other cores' rings may be
      drained late, or without memory, or overrun. */
  lemma NoUpdateIsMissing(openedAt: seq<nat>, events: seq<Event>, c: Config, t: Timing, cpus: seq<U32>, i: nat)
    requires Legal(Initial(openedAt), events, c) && i < |openedAt|
    requires |openedAt| * c.size * LINE_BOUND <= c.capacity
    requires AllTimely(Initial(openedAt), events, c, t, i)
    requires var s := Run(Initial(openedAt), events, c); s.reading == None && OneCorePerRing(s, cpus)
    ensures var s := Run(Initial(openedAt), events, c);
            CoreFile(s, cpus[i]) == Text(s.history[i][..s.drained[i]])
  {
    var s0 := Initial(openedAt);
    InitialIsGood(openedAt);
    TimelyRingIsNeverOverrun(s0, events, c, t, i);
    DrainedIsHistory(s0, events, c, i);
    FileIsWhatWasDrained(openedAt, events, c, cpus, i);
    assert [] + Drained(s0, events, c, i) == Drained(s0, events, c, i);
  }

  /** The core files of two reads, one after the other, are the core file of both. */
  lemma CoreFileOfParts(a: seq<LogEntry>, b: seq<LogEntry>, cpu: U32)
    ensures Grep(Decimal(cpu) + [','], Lines(Text(a) + Text(b)))
         == Grep(Decimal(cpu) + [','], Lines(Text(a))) + Grep(Decimal(cpu) + [','], Lines(Text(b)))
  {
    TextConcat(a, b);
    GrepSelectsCpu(a, cpu);
    GrepSelectsCpu(b, cpu);
    GrepSelectsCpu(a + b, cpu);
    OfCpuConcat(a, b, cpu);
    TextConcat(OfCpu(a, cpu), OfCpu(b, cpu));
  }
}
