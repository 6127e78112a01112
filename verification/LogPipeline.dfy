/** The whole logging path over arbitrary runs: writers fill their rings at any time, one
    reader at a time empties the log, drains ring after ring into it and takes the text.
    Each record remembers which ring it came from and its place in that ring's history. */
module LogPipeline {
  import opened Basics
  import opened LogFormat
  import opened Logfile
  import opened RingBuffer

  datatype Rec = Rec(ring: nat, index: nat, entry: LogEntry)

  /** The ring size and the logfile capacity. */
  datatype Config = Config(size: nat, capacity: nat)

  datatype State = State(
    history: seq<seq<LogEntry>>,   // per ring: every entry ever written to it
    drained: seq<nat>,             // per ring: how many of them were gone at its last drain
    lastDrain: seq<nat>,           // per ring: when that was, or when the ring was opened
    reading: Option<nat>,          // the ring that the reader drains next
    log: seq<Rec>,                 // the content of the logfile
    delivered: seq<Rec>)           // everything the reader has taken so far

  /** Empty rings, opened at any times. */
  function Initial(openedAt: seq<nat>): State {
    State(seq(|openedAt|, _ => []), seq(|openedAt|, _ => 0), openedAt, None, [], [])
  }

  datatype Event =
    | Write(ring: nat, entry: LogEntry)
    | BeginRead
    | Drain(hasMemory: bool, time: nat)
    | EndRead

  predicate WellFormed(s: State) {
    && |s.drained| == |s.history| == |s.lastDrain|
    && (forall i :: 0 <= i < |s.history| ==> s.drained[i] <= |s.history[i]|)
    && (s.reading.Some? ==> s.reading.value <= |s.history|)
  }

  predicate Enabled(s: State, ev: Event) {
    match ev
    case Write(i, _) => i < |s.history|
    case BeginRead => s.reading == None
    case Drain(_, _) => s.reading.Some? && s.reading.value < |s.history|
    case EndRead => s.reading == Some(|s.history|)
  }

  /** What ring i holds that was not drained yet, before overwriting. */
  function Pending(s: State, i: nat): seq<LogEntry>
    requires WellFormed(s) && i < |s.history|
  {
    s.history[i][s.drained[i]..]
  }

  function Tagged(ring: nat, first: nat, es: seq<LogEntry>): seq<Rec> {
    seq(|es|, k requires 0 <= k < |es| => Rec(ring, first + k, es[k]))
  }

  /** The records a drain of ring i outputs: its newest `size` pending entries. */
  function Window(s: State, i: nat, size: nat): seq<Rec>
    requires WellFormed(s) && i < |s.history|
  {
    var es := Newest(Pending(s, i), size);
    Tagged(i, |s.history[i]| - |es|, es)
  }

  function Entries(recs: seq<Rec>): seq<LogEntry> {
    seq(|recs|, k requires 0 <= k < |recs| => recs[k].entry)
  }

  function AppendRec(log: seq<Rec>, capacity: nat, rec: Rec): seq<Rec> {
    if |Text(Entries(log))| + |Record(rec.entry)| <= capacity then log + [rec]
    else if |Record(rec.entry)| <= capacity then [rec]
    else []
  }

  function OutputRecs(log: seq<Rec>, capacity: nat, recs: seq<Rec>): seq<Rec> {
    if recs == [] then log else AppendRec(OutputRecs(log, capacity, recs[..|recs| - 1]), capacity, recs[|recs| - 1])
  }

  function Apply(s: State, ev: Event, c: Config): State
    requires WellFormed(s) && Enabled(s, ev)
  {
    match ev
    case Write(i, e) => s.(history := s.history[i := s.history[i] + [e]])
    case BeginRead => s.(reading := Some(0), log := [])
    case Drain(hasMemory, t) =>
      var i := s.reading.value;
      var s' := s.(reading := Some(i + 1));
      if hasMemory
      then s'.(log := OutputRecs(s.log, c.capacity, Window(s, i, c.size)),
               drained := s.drained[i := |s.history[i]|], lastDrain := s.lastDrain[i := t])
      else s'
    case EndRead => s.(reading := None, delivered := s.delivered + s.log)
  }

  lemma ApplyWellFormed(s: State, ev: Event, c: Config)
    requires WellFormed(s) && Enabled(s, ev)
    ensures WellFormed(Apply(s, ev, c)) && |Apply(s, ev, c).history| == |s.history|
  {
  }

  ghost predicate Legal(s: State, events: seq<Event>, c: Config)
    requires WellFormed(s)
    decreases |events|
  {
    events == [] ||
    (Enabled(s, events[0]) &&
     (ApplyWellFormed(s, events[0], c); Legal(Apply(s, events[0], c), events[1..], c)))
  }

  ghost function Run(s: State, events: seq<Event>, c: Config): (s': State)
    requires WellFormed(s) && Legal(s, events, c)
    ensures WellFormed(s') && |s'.history| == |s.history|
    decreases |events|
  {
    if events == [] then s else
    ApplyWellFormed(s, events[0], c);
    Run(Apply(s, events[0], c), events[1..], c)
  }

  /* ---------- Connection to the logfile's text ---------- */

  lemma EntriesConcat(a: seq<Rec>, b: seq<Rec>)
    ensures Entries(a + b) == Entries(a) + Entries(b)
  {
  }

  /** The text of the record-level log is what the logfile holds after the same output. */
  lemma {:induction false} OutputRecsIsOutput(log: seq<Rec>, capacity: nat, recs: seq<Rec>)
    ensures Text(Entries(OutputRecs(log, capacity, recs))) == Output(Text(Entries(log)), capacity, Entries(recs))
  {
    if recs != [] {
      var init, last := recs[..|recs| - 1], recs[|recs| - 1];
      OutputRecsIsOutput(log, capacity, init);
      assert Entries(recs)[..|recs| - 1] == Entries(init);
      AppendRecText(OutputRecs(log, capacity, init), capacity, last);
    }
  }

  lemma AppendRecText(log: seq<Rec>, capacity: nat, rec: Rec)
    ensures Text(Entries(AppendRec(log, capacity, rec))) == Appended(Text(Entries(log)), capacity, Record(rec.entry))
  {
    EntriesConcat(log, [rec]);
    assert Entries([rec]) == [rec.entry];
    TextConcat(Entries(log), [rec.entry]);
    RecordIsLine(rec.entry);
    TextCons(rec.entry, []);
    assert [rec.entry] + [] == [rec.entry];
  }

  /** A drain step does to the log what memutil_ringbuffer_append_to_logfile does to the
      logfile, given that the ring's ghost history is the pending part of ours. */
  lemma DrainIsAppendToLogfile(s: State, c: Config, time: nat)
    requires WellFormed(s) && Enabled(s, Drain(true, time))
    ensures Text(Entries(Apply(s, Drain(true, time), c).log))
         == Output(Text(Entries(s.log)), c.capacity, Newest(Pending(s, s.reading.value), c.size))
    ensures var i, s' := s.reading.value, Apply(s, Drain(true, time), c);
            && s'.drained == s.drained[i := |s.history[i]|] && s'.lastDrain == s.lastDrain[i := time]
            && s'.history == s.history && s'.reading == Some(i + 1) && s'.delivered == s.delivered
  {
    var i := s.reading.value;
    OutputRecsIsOutput(s.log, c.capacity, Window(s, i, c.size));
    assert Entries(Window(s, i, c.size)) == Newest(Pending(s, i), c.size);
  }

  /** The other steps: a write adds one entry to one ring, a read starts with an empty log,
      and its end delivers what the log then holds. */
  lemma OtherSteps(s: State, c: Config, i: nat, e: LogEntry, time: nat)
    requires WellFormed(s)
    ensures i < |s.history| ==>
              Apply(s, Write(i, e), c) == s.(history := s.history[i := s.history[i] + [e]])
    ensures s.reading == None ==>
              Apply(s, BeginRead, c) == s.(reading := Some(0), log := [])
    ensures s.reading == Some(|s.history|) ==>
              Apply(s, EndRead, c) == s.(reading := None, delivered := s.delivered + s.log)
    ensures Enabled(s, Drain(false, time)) ==>
              Apply(s, Drain(false, time), c) == s.(reading := Some(s.reading.value + 1))
  {
  }

  /* ---------- At most once and in order, always ---------- */

  function Active(s: State): seq<Rec> {
    if s.reading.Some? then s.log else []
  }

  function All(s: State): seq<Rec> { s.delivered + Active(s) }

  /** The record is an entry of its ring's history that has been drained. */
  predicate Genuine(s: State, rec: Rec)
    requires WellFormed(s)
  {
    rec.ring < |s.history| && rec.index < s.drained[rec.ring] && s.history[rec.ring][rec.index] == rec.entry
  }

  predicate InOrder(recs: seq<Rec>) {
    forall a, b :: 0 <= a < b < |recs| && recs[a].ring == recs[b].ring ==> recs[a].index < recs[b].index
  }

  predicate Ordered(s: State)
    requires WellFormed(s)
  {
    && (forall a :: 0 <= a < |All(s)| ==> Genuine(s, All(s)[a]))
    && InOrder(All(s))
  }

  /** Whatever is output, the log keeps a suffix of what it had and got. */
  lemma {:induction false} OutputRecsIsSuffix(log: seq<Rec>, capacity: nat, recs: seq<Rec>) returns (k: nat)
    ensures k <= |log + recs| && OutputRecs(log, capacity, recs) == (log + recs)[k..]
  {
    if recs == [] {
      k := 0;
      assert log + recs == log;
    } else {
      var init, last := recs[..|recs| - 1], recs[|recs| - 1];
      k := OutputRecsIsSuffix(log, capacity, init);
      assert recs == init + [last];
      k := AppendRecIsSuffix(log + init, k, capacity, last);
      assert log + recs == (log + init) + [last];
    }
  }

  lemma AppendRecIsSuffix(whole: seq<Rec>, k: nat, capacity: nat, last: Rec) returns (k': nat)
    requires k <= |whole|
    ensures k' <= |whole + [last]| && AppendRec(whole[k..], capacity, last) == (whole + [last])[k'..]
  {
    var after := AppendRec(whole[k..], capacity, last);
    if after == whole[k..] + [last] {
      k' := k;
    } else if after == [last] {
      k' := |whole|;
    } else {
      k' := |whole| + 1;
    }
  }

  /** Leaving out a middle part keeps order and genuineness. */
  lemma SuffixOrdered(s: State, front: seq<Rec>, back: seq<Rec>, k: nat)
    requires WellFormed(s) && k <= |back| && InOrder(front + back)
    requires forall a :: 0 <= a < |front + back| ==> Genuine(s, (front + back)[a])
    ensures InOrder(front + back[k..])
    ensures forall a :: 0 <= a < |front + back[k..]| ==> Genuine(s, (front + back[k..])[a])
  {
    var whole, kept := front + back, front + back[k..];
    assert forall a :: 0 <= a < |kept| ==> kept[a] == whole[if a < |front| then a else a + k];
  }

  /** What a drain outputs are drained entries, none of them output before. */
  lemma WindowIsGenuine(s: State, c: Config, time: nat)
    requires WellFormed(s) && Enabled(s, Drain(true, time))
    ensures var s', r := Apply(s, Drain(true, time), c), s.reading.value; var window := Window(s, r, c.size);
            && WellFormed(s') && InOrder(window)
            && forall a :: 0 <= a < |window| ==>
                 window[a].ring == r && s.drained[r] <= window[a].index && Genuine(s', window[a])
  {
  }

  lemma StillGenuine(s: State, c: Config, time: nat, rec: Rec)
    requires WellFormed(s) && Enabled(s, Drain(true, time)) && Genuine(s, rec)
    ensures WellFormed(Apply(s, Drain(true, time), c)) && Genuine(Apply(s, Drain(true, time), c), rec)
  {
  }

  lemma WindowIsNew(s: State, c: Config, time: nat)
    requires WellFormed(s) && Enabled(s, Drain(true, time)) && Ordered(s)
    ensures var s', whole := Apply(s, Drain(true, time), c), All(s) + Window(s, s.reading.value, c.size);
            && WellFormed(s')
            && (forall a :: 0 <= a < |whole| ==> Genuine(s', whole[a]))
            && InOrder(whole)
  {
    var r, all := s.reading.value, All(s);
    var window := Window(s, r, c.size);
    WindowIsGenuine(s, c, time);
    forall a | 0 <= a < |all|
      ensures Genuine(Apply(s, Drain(true, time), c), all[a])
      ensures all[a].ring == r ==> all[a].index < s.drained[r]
    {
      StillGenuine(s, c, time, all[a]);
    }
    InOrderConcat(all, window, r, s.drained[r]);
  }

  lemma InOrderConcat(front: seq<Rec>, back: seq<Rec>, ring: nat, bound: nat)
    requires InOrder(front) && InOrder(back)
    requires forall a :: 0 <= a < |front| && front[a].ring == ring ==> front[a].index < bound
    requires forall a :: 0 <= a < |back| ==> back[a].ring == ring && bound <= back[a].index
    ensures InOrder(front + back)
  {
  }

  lemma DrainKeepsOrder(s: State, c: Config, time: nat)
    requires WellFormed(s) && Enabled(s, Drain(true, time)) && Ordered(s)
    ensures var s' := Apply(s, Drain(true, time), c); WellFormed(s') && Ordered(s')
  {
    var s', window := Apply(s, Drain(true, time), c), Window(s, s.reading.value, c.size);
    var k := OutputRecsIsSuffix(s.log, c.capacity, window);
    WindowIsNew(s, c, time);
    Regroup(s.delivered, s.log, window);
    SuffixOrdered(s', s.delivered, s.log + window, k);
  }

  lemma StepKeepsOrder(s: State, ev: Event, c: Config)
    requires WellFormed(s) && Enabled(s, ev) && Ordered(s)
    ensures WellFormed(Apply(s, ev, c)) && Ordered(Apply(s, ev, c))
  {
    var s' := Apply(s, ev, c);
    match ev
    case Write(i, e) =>
      assert All(s') == All(s);
      assert forall a :: 0 <= a < |All(s)| ==> Genuine(s, All(s)[a]);
    case BeginRead => assert All(s') == All(s);
    case Drain(hasMemory, t) =>
      if hasMemory {
        DrainKeepsOrder(s, c, t);
      } else {
        assert All(s') == All(s);
        assert forall a :: 0 <= a < |All(s)| ==> Genuine(s, All(s)[a]);
      }
    case EndRead => assert All(s') == All(s);
  }

  /** Over every interleaving: the reader gets only entries that were written, each at most
      once, and those of one ring in the order in which they were written. */
  lemma {:induction false} DeliveredAtMostOnceInOrder(s: State, events: seq<Event>, c: Config)
    requires WellFormed(s) && Ordered(s) && Legal(s, events, c)
    ensures Ordered(Run(s, events, c))
    decreases |events|
  {
    if events != [] {
      StepKeepsOrder(s, events[0], c);
      DeliveredAtMostOnceInOrder(Apply(s, events[0], c), events[1..], c);
    }
  }

  /* ---------- Ring by ring: exactly what was drained ---------- */

  function OfRing(recs: seq<Rec>, i: nat): seq<LogEntry> {
    if recs == [] then []
    else OfRing(recs[..|recs| - 1], i) + if recs[|recs| - 1].ring == i then [recs[|recs| - 1].entry] else []
  }

  lemma {:induction false} OfRingConcat(a: seq<Rec>, b: seq<Rec>, i: nat)
    ensures OfRing(a + b, i) == OfRing(a, i) + OfRing(b, i)
  {
    if b == [] {
      assert a + b == a;
    } else {
      var init := b[..|b| - 1];
      assert (a + b)[..|a + b| - 1] == a + init;
      OfRingConcat(a, init, i);
    }
  }

  lemma {:induction false} OfRingTagged(ring: nat, first: nat, es: seq<LogEntry>, i: nat)
    ensures OfRing(Tagged(ring, first, es), i) == if ring == i then es else []
  {
    if es != [] {
      var init := es[..|es| - 1];
      assert Tagged(ring, first, es)[..|es| - 1] == Tagged(ring, first, init);
      OfRingTagged(ring, first, init, i);
      assert init + [es[|es| - 1]] == es;
    }
  }

  /** What an event drains from ring i: its newest `size` pending entries. */
  function DrainedBy(s: State, ev: Event, c: Config, i: nat): seq<LogEntry>
    requires WellFormed(s) && Enabled(s, ev) && i < |s.history|
  {
    if ev.Drain? && ev.hasMemory && s.reading.value == i then Newest(Pending(s, i), c.size) else []
  }

  /** What a run drains from ring i, drain by drain. */
  ghost function Drained(s: State, events: seq<Event>, c: Config, i: nat): seq<LogEntry>
    requires WellFormed(s) && Legal(s, events, c) && i < |s.history|
    decreases |events|
  {
    if events == [] then [] else
    ApplyWellFormed(s, events[0], c);
    DrainedBy(s, events[0], c, i) + Drained(Apply(s, events[0], c), events[1..], c, i)
  }

  /** What a drain outputs fits the log behind what the read has put there before. */
  predicate Fits(s: State, ev: Event, c: Config)
    requires WellFormed(s) && Enabled(s, ev)
  {
    ev.Drain? && ev.hasMemory ==>
      |Text(Entries(s.log))| + |Text(Newest(Pending(s, s.reading.value), c.size))| <= c.capacity
  }

  ghost predicate EveryReadFits(s: State, events: seq<Event>, c: Config)
    requires WellFormed(s) && Legal(s, events, c)
    decreases |events|
  {
    events != [] ==> Fits(s, events[0], c) && EveryReadFits(Apply(s, events[0], c), events[1..], c)
  }

  /** A drain of ring i finds at most `size` new entries; other rings may do as they like. */
  predicate NoOverrun(s: State, ev: Event, c: Config, i: nat)
    requires WellFormed(s) && Enabled(s, ev) && i < |s.history|
  {
    ev.Drain? && ev.hasMemory && s.reading.value == i ==> |Pending(s, i)| <= c.size
  }

  ghost predicate NeverOverrun(s: State, events: seq<Event>, c: Config, i: nat)
    requires WellFormed(s) && Legal(s, events, c) && i < |s.history|
    decreases |events|
  {
    events != [] ==>
      && NoOverrun(s, events[0], c, i)
      && (ApplyWellFormed(s, events[0], c); NeverOverrun(Apply(s, events[0], c), events[1..], c, i))
  }

  lemma {:induction false} OutputRecsFits(log: seq<Rec>, capacity: nat, recs: seq<Rec>)
    requires |Text(Entries(log))| + |Text(Entries(recs))| <= capacity
    ensures OutputRecs(log, capacity, recs) == log + recs
  {
    if recs != [] {
      var init, last := recs[..|recs| - 1], recs[|recs| - 1];
      assert recs == init + [last];
      EntriesConcat(init, [last]);
      assert Entries([last]) == [last.entry];
      TextConcat(Entries(init), [last.entry]);
      TextCons(last.entry, []);
      assert [last.entry] + [] == [last.entry];
      RecordIsLine(last.entry);
      OutputRecsFits(log, capacity, init);
      EntriesConcat(log, init);
      TextConcat(Entries(log), Entries(init));
      assert (log + init) + [last] == log + recs;
    } else {
      assert log + recs == log;
    }
  }

  lemma DrainDelivers(s: State, c: Config, time: nat)
    requires WellFormed(s) && Enabled(s, Drain(true, time)) && Fits(s, Drain(true, time), c)
    ensures All(Apply(s, Drain(true, time), c)) == All(s) + Window(s, s.reading.value, c.size)
  {
    var window := Window(s, s.reading.value, c.size);
    assert Entries(window) == Newest(Pending(s, s.reading.value), c.size);
    OutputRecsFits(s.log, c.capacity, window);
    Regroup(s.delivered, s.log, window);
  }

  lemma WindowOfRing(s: State, r: nat, size: nat, i: nat)
    requires WellFormed(s) && r < |s.history|
    ensures OfRing(Window(s, r, size), i) == if r == i then Newest(Pending(s, r), size) else []
  {
    var es := Newest(Pending(s, r), size);
    OfRingTagged(r, |s.history[r]| - |es|, es, i);
  }

  lemma OtherEventsKeepAll(s: State, ev: Event, c: Config)
    requires WellFormed(s) && Enabled(s, ev) && !(ev.Drain? && ev.hasMemory)
    ensures All(Apply(s, ev, c)) == All(s)
  {
  }

  lemma StepDelivers(s: State, ev: Event, c: Config, i: nat)
    requires WellFormed(s) && Enabled(s, ev) && Fits(s, ev, c) && i < |s.history|
    ensures OfRing(All(Apply(s, ev, c)), i) == OfRing(All(s), i) + DrainedBy(s, ev, c, i)
  {
    var before := OfRing(All(s), i);
    if ev.Drain? && ev.hasMemory {
      var window := Window(s, s.reading.value, c.size);
      DrainDelivers(s, c, ev.time);
      OfRingConcat(All(s), window, i);
      WindowOfRing(s, s.reading.value, c.size, i);
      assert OfRing(window, i) == DrainedBy(s, ev, c, i);
    } else {
      OtherEventsKeepAll(s, ev, c);
      assert before + [] == before;
    }
  }

  /** From any state on, overrun or not: while reads fit the log, what is delivered of ring
      i is exactly what was drained from it, drain by drain. */
  lemma {:induction false} DeliveredIsDrained(s: State, events: seq<Event>, c: Config, i: nat)
    requires WellFormed(s) && Legal(s, events, c) && EveryReadFits(s, events, c) && i < |s.history|
    ensures OfRing(All(Run(s, events, c)), i) == OfRing(All(s), i) + Drained(s, events, c, i)
    decreases |events|
  {
    if events != [] {
      var s' := Apply(s, events[0], c);
      StepDelivers(s, events[0], c, i);
      DeliveredIsDrained(s', events[1..], c, i);
      Regroup(OfRing(All(s), i), DrainedBy(s, events[0], c, i), Drained(s', events[1..], c, i));
    }
  }

  lemma StepDrains(s: State, ev: Event, c: Config, i: nat)
    requires WellFormed(s) && Enabled(s, ev) && i < |s.history|
    ensures var s' := Apply(s, ev, c);
            && WellFormed(s') && |s'.history| == |s.history|
            && s.drained[i] + |DrainedBy(s, ev, c, i)| <= s'.drained[i]
            && (s.drained[i] + |DrainedBy(s, ev, c, i)| == s'.drained[i] <==> NoOverrun(s, ev, c, i))
            && (NoOverrun(s, ev, c, i) ==>
                  s'.history[i][..s'.drained[i]] == s.history[i][..s.drained[i]] + DrainedBy(s, ev, c, i))
  {
    var h, d := s.history[i], s.drained[i];
    assert h[..d] + h[d..] == h[..|h|];
    if ev.Write? && ev.ring == i {
      assert (h + [ev.entry])[..d] == h[..d];
    }
  }

  /** What is drained is never more than what was written, and all of it exactly if no drain
      of ring i finds more than `size` entries. */
  lemma {:induction false} DrainedLength(s: State, events: seq<Event>, c: Config, i: nat)
    requires WellFormed(s) && Legal(s, events, c) && i < |s.history|
    ensures s.drained[i] + |Drained(s, events, c, i)| <= Run(s, events, c).drained[i]
    ensures s.drained[i] + |Drained(s, events, c, i)| == Run(s, events, c).drained[i] <==> NeverOverrun(s, events, c, i)
    decreases |events|
  {
    if events != [] {
      StepDrains(s, events[0], c, i);
      DrainedLength(Apply(s, events[0], c), events[1..], c, i);
    }
  }

  lemma {:induction false} DrainedIsHistory(s: State, events: seq<Event>, c: Config, i: nat)
    requires WellFormed(s) && Legal(s, events, c) && i < |s.history| && NeverOverrun(s, events, c, i)
    ensures var s' := Run(s, events, c);
            s'.history[i][..s'.drained[i]] == s.history[i][..s.drained[i]] + Drained(s, events, c, i)
    decreases |events|
  {
    if events != [] {
      var s' := Apply(s, events[0], c);
      StepDrains(s, events[0], c, i);
      DrainedIsHistory(s', events[1..], c, i);
      Regroup(s.history[i][..s.drained[i]], DrainedBy(s, events[0], c, i), Drained(s', events[1..], c, i));
    }
  }

  /** Everything drained from ring i so far has been delivered or is in the log, once. */
  predicate Complete(s: State, i: nat)
    requires WellFormed(s) && i < |s.history|
  {
    OfRing(All(s), i) == s.history[i][..s.drained[i]]
  }

  /** While reads fit the log, every entry of ring i drained is delivered exactly once, in
      order, if and only if each drain of that ring finds at most `size` new entries. The
      other rings, their timing and their failed drains do not matter. */
  lemma DeliveredExactlyOnceIff(s: State, events: seq<Event>, c: Config, i: nat)
    requires WellFormed(s) && Legal(s, events, c) && EveryReadFits(s, events, c)
    requires i < |s.history| && Complete(s, i)
    ensures Complete(Run(s, events, c), i) <==> NeverOverrun(s, events, c, i)
  {
    DeliveredIsDrained(s, events, c, i);
    DrainedLength(s, events, c, i);
    if NeverOverrun(s, events, c, i) {
      DrainedIsHistory(s, events, c, i);
    } else {
      var s' := Run(s, events, c);
      assert |OfRing(All(s'), i)| < |s'.history[i][..s'.drained[i]]|;
    }
  }

  lemma InitialIsGood(openedAt: seq<nat>)
    ensures WellFormed(Initial(openedAt)) && Ordered(Initial(openedAt))
    ensures forall i :: 0 <= i < |openedAt| ==> Complete(Initial(openedAt), i)
  {
  }
}
