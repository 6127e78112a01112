/** Who owns which ring buffer and which perf event while governors on many cpus start,
    fail to start and stop. The steps are the sections between which another cpu can run:
    the ones under memutil_init_mutex, and those that touch only the cpu's own policy. */
module ResourceLedger {
  import opened Basics
  import opened Debugfs
  import opened PerfEvents

  const EVENTS: nat := 3

  datatype Phase =
    | Down        // not started, or stopped, or failed to start
    | LogReady    // init_logging is done
    | Up          // started: events allocated, hook installed
    | Failing     // on the error path of memutil_start
    | Releasing   // memutil_stop has released the events
    | Closing     // the shared log is gone, the own ring is not closed yet

  /** The policy's pointers. Nothing resets them: both keep stale values while Down. */
  datatype Cpu = Cpu(phase: Phase, logbuffer: Option<nat>, events: seq<Option<EventId>>)

  datatype State = State(
    cpus: seq<Cpu>,
    log: Lifecycle<nat>,
    isLogfileInitialized: bool,
    ringsOpened: nat,         // rings 0 .. ringsOpened have been opened
    ringsClosed: seq<nat>,    // every call of memutil_close_ringbuffer
    eventsCreated: nat,       // perf events 0 .. eventsCreated have been created
    eventsReleased: seq<EventId>) // every call of perf_event_release_kernel

  function Initial(cpus: nat): State {
    State(seq(cpus, _ => Cpu(Down, None, [None, None, None])), Exited(), false, 0, [], 0, [])
  }

  datatype Step =
    | InitLogging(cpu: nat, first: bool, dir: bool, logOk: bool, info: bool, ringOk: bool)
    | FailEventsMap(cpu: nat)
    | AllocateEvents(cpu: nat, successes: nat)
    | ReleaseEvents(cpu: nat)
    | ExitLogging(cpu: nat)
    | CloseRing(cpu: nat)

  predicate Enabled(s: State, step: Step) {
    && step.cpu < |s.cpus|
    && var phase := s.cpus[step.cpu].phase;
       match step
       case InitLogging(_, _, _, _, _, _) => phase == Down
       case FailEventsMap(_) => phase == LogReady
       case AllocateEvents(_, n) => phase == LogReady && n <= EVENTS
       case ReleaseEvents(_) => phase == Up
       case ExitLogging(_) => phase == Failing || phase == Releasing
       case CloseRing(_) => phase == Closing
  }

  /** The outcome of creating the events: the first n succeed. */
  function Results(created: nat, n: nat): seq<Option<EventId>>
    requires n <= EVENTS
  {
    seq(EVENTS, i requires 0 <= i < EVENTS => if i < n then Some(created + i) else None)
  }

  function Apply(s: State, step: Step): State
    requires Enabled(s, step) && |s.cpus[step.cpu].events| == EVENTS
  {
    var c := s.cpus[step.cpu];
    match step
    case InitLogging(k, first, dir, logOk, info, ringOk) =>
      var log := if first then Initialised(s.log, dir, logOk, info) else s.log;
      var isInit := if first then log.rootDir else s.isLogfileInitialized;
      if ringOk
      then s.(cpus := s.cpus[k := Cpu(LogReady, Some(s.ringsOpened), c.events)], ringsOpened := s.ringsOpened + 1,
              log := if isInit then Registered(log, s.ringsOpened) else log, isLogfileInitialized := isInit)
      else s.(cpus := s.cpus[k := Cpu(LogReady, None, c.events)], log := log, isLogfileInitialized := isInit)
    case FailEventsMap(k) => s.(cpus := s.cpus[k := c.(phase := Failing)])
    case AllocateEvents(k, n) =>
      var results := Results(s.eventsCreated, n);
      s.(cpus := s.cpus[k := c.(phase := if n == EVENTS then Up else Failing,
                                events := AfterAllocation(c.events, results))],
         eventsCreated := s.eventsCreated + n,
         eventsReleased := s.eventsReleased + if n == EVENTS then [] else Reverse(Values(results[..n])))
    case ReleaseEvents(k) =>
      s.(cpus := s.cpus[k := c.(phase := Releasing)], eventsReleased := s.eventsReleased + Values(c.events))
    case ExitLogging(k) =>
      var s' := s.(cpus := s.cpus[k := c.(phase := Closing)]);
      if s.isLogfileInitialized then s'.(log := Exited(), isLogfileInitialized := false) else s'
    case CloseRing(k) =>
      s.(cpus := s.cpus[k := c.(phase := Down)],
         ringsClosed := s.ringsClosed + if c.logbuffer.Some? then [c.logbuffer.value] else [])
  }

  /* ---------- What the cpus hold ---------- */

  /** Counted resources: events of started cpus, rings of cpus that are not down, and of
      those the rings that may still be registered. */
  datatype Kind = Events | Rings | Registrable

  function Count(xs: seq<nat>, x: nat): nat { multiset(xs)[x] }

  /** How often a cpu holds resource x. */
  function Held(c: Cpu, kind: Kind, x: nat): nat {
    match kind
    case Events => if c.phase == Up then Count(Values(c.events), x) else 0
    case Rings => if c.phase != Down && c.logbuffer == Some(x) then 1 else 0
    case Registrable => if c.phase !in {Down, Closing} && c.logbuffer == Some(x) then 1 else 0
  }

  function Total(cpus: seq<Cpu>, kind: Kind, x: nat): nat {
    if cpus == [] then 0 else Total(cpus[..|cpus| - 1], kind, x) + Held(cpus[|cpus| - 1], kind, x)
  }

  lemma {:induction false} TotalUpdate(cpus: seq<Cpu>, k: nat, c: Cpu, kind: Kind, x: nat)
    requires k < |cpus|
    ensures Total(cpus[k := c], kind, x) + Held(cpus[k], kind, x) == Total(cpus, kind, x) + Held(c, kind, x)
  {
    var n := |cpus| - 1;
    if k == n {
      assert cpus[k := c][..n] == cpus[..n];
    } else {
      assert cpus[k := c][..n] == cpus[..n][k := c];
      TotalUpdate(cpus[..n], k, c, kind, x);
    }
  }

  /* ---------- The ledger ---------- */

  predicate Structure(s: State) {
    && (forall k :: 0 <= k < |s.cpus| ==> |s.cpus[k].events| == EVENTS)
    && Consistent(s.log) && (s.isLogfileInitialized <==> s.log.rootDir)
  }

  /** Resource number x: every ring and every event below the counter is either held once
      or was given back once, and only rings of cpus that can be registered are. */
  predicate Balanced(s: State, x: nat) {
    RegistryBalanced(s, x) && RingsBalanced(s, x) && EventsBalanced(s, x)
  }

  predicate RegistryBalanced(s: State, x: nat) {
    Count(s.log.registry, x) <= Total(s.cpus, Registrable, x)
  }

  predicate RingsBalanced(s: State, x: nat) {
    Count(s.ringsClosed, x) + Total(s.cpus, Rings, x) == if x < s.ringsOpened then 1 else 0
  }

  predicate EventsBalanced(s: State, x: nat) {
    Count(s.eventsReleased, x) + Total(s.cpus, Events, x) == if x < s.eventsCreated then 1 else 0
  }

  ghost predicate Inv(s: State) {
    Structure(s) && forall x :: Balanced(s, x)
  }

  function Fresh(from: nat, n: nat): (r: seq<Option<EventId>>)
    ensures |r| == n && forall i :: 0 <= i < n ==> r[i] == Some(from + i)
    decreases n
  {
    if n == 0 then [] else [Some(from)] + Fresh(from + 1, n - 1)
  }

  lemma {:induction false} ValuesOfFresh(from: nat, n: nat, x: nat)
    ensures Count(Values(Fresh(from, n)), x) == if from <= x < from + n then 1 else 0
    decreases n
  {
    if n > 0 {
      ValuesOfFresh(from + 1, n - 1, x);
      ValuesCons(Some(from), Fresh(from + 1, n - 1));
    }
  }

  lemma NewEvents(created: nat, n: nat, x: nat)
    requires n <= EVENTS
    ensures Created(Results(created, n)) == n
    ensures Count(Values(Results(created, n)[..n]), x) == if created <= x < created + n then 1 else 0
  {
    CreatedUnique(Results(created, n), n);
    assert Results(created, n)[..n] == Fresh(created, n);
    ValuesOfFresh(created, n, x);
  }

  lemma TotalsUpdate(s: State, k: nat, c: Cpu, x: nat)
    requires k < |s.cpus|
    ensures forall kind: Kind {:trigger Total(s.cpus[k := c], kind, x)} ::
              Total(s.cpus[k := c], kind, x) == Total(s.cpus, kind, x) - Held(s.cpus[k], kind, x) + Held(c, kind, x)
  {
    forall kind: Kind
      ensures Total(s.cpus[k := c], kind, x) == Total(s.cpus, kind, x) - Held(s.cpus[k], kind, x) + Held(c, kind, x)
    {
      TotalUpdate(s.cpus, k, c, kind, x);
    }
  }

  lemma AllocationBalances(s: State, k: nat, n: nat, x: nat)
    requires Structure(s) && Balanced(s, x) && Enabled(s, AllocateEvents(k, n))
    ensures Balanced(Apply(s, AllocateEvents(k, n)), x)
  {
    var s' := Apply(s, AllocateEvents(k, n));
    TotalsUpdate(s, k, s'.cpus[k], x);
    NewEventsBalance(s, k, n, x);
  }

  /** The new events are held by the cpu, or released again. */
  lemma NewEventsBalance(s: State, k: nat, n: nat, x: nat)
    requires Structure(s) && Enabled(s, AllocateEvents(k, n))
    ensures var s' := Apply(s, AllocateEvents(k, n));
            Held(s'.cpus[k], Events, x) + Count(s'.eventsReleased, x)
            == Count(s.eventsReleased, x) + if s.eventsCreated <= x < s.eventsCreated + n then 1 else 0
  {
    var results := Results(s.eventsCreated, n);
    NewEvents(s.eventsCreated, n, x);
    if n == EVENTS {
      assert results == results[..n];
      assert s.eventsReleased + [] == s.eventsReleased;
    } else {
      ReverseKeepsElements(Values(results[..n]));
    }
  }

  lemma InitBalancesRegistry(s: State, step: Step, x: nat)
    requires Structure(s) && Balanced(s, x) && step.InitLogging? && Enabled(s, step)
    ensures RegistryBalanced(Apply(s, step), x)
  {
    TotalUpdate(s.cpus, step.cpu, Apply(s, step).cpus[step.cpu], Registrable, x);
    var log := if step.first then Initialised(s.log, step.dir, step.logOk, step.info) else s.log;
    var ring := s.ringsOpened;
    assert Count(log.registry, x) <= Count(s.log.registry, x);
    assert Count(log.registry + [ring], x) == Count(log.registry, x) + if x == ring then 1 else 0;
  }

  lemma InitBalances(s: State, step: Step, x: nat)
    requires Structure(s) && Balanced(s, x) && step.InitLogging? && Enabled(s, step)
    ensures Balanced(Apply(s, step), x)
  {
    var c' := Apply(s, step).cpus[step.cpu];
    InitBalancesRegistry(s, step, x);
    TotalUpdate(s.cpus, step.cpu, c', Rings, x);
    TotalUpdate(s.cpus, step.cpu, c', Events, x);
  }

  /** Whether the step neither opens a ring nor creates events. */
  predicate GivesBack(step: Step) { !step.InitLogging? && !step.AllocateEvents? }

  lemma RegistryStaysBalanced(s: State, step: Step, x: nat)
    requires Structure(s) && Balanced(s, x) && Enabled(s, step) && GivesBack(step)
    ensures RegistryBalanced(Apply(s, step), x)
  {
    TotalUpdate(s.cpus, step.cpu, Apply(s, step).cpus[step.cpu], Registrable, x);
  }

  lemma RingsStayBalanced(s: State, step: Step, x: nat)
    requires Structure(s) && Balanced(s, x) && Enabled(s, step) && GivesBack(step)
    ensures RingsBalanced(Apply(s, step), x)
  {
    TotalUpdate(s.cpus, step.cpu, Apply(s, step).cpus[step.cpu], Rings, x);
  }

  lemma EventsStayBalanced(s: State, step: Step, x: nat)
    requires Structure(s) && Balanced(s, x) && Enabled(s, step) && GivesBack(step)
    ensures EventsBalanced(Apply(s, step), x)
  {
    TotalUpdate(s.cpus, step.cpu, Apply(s, step).cpus[step.cpu], Events, x);
  }

  lemma StepBalances(s: State, step: Step, x: nat)
    requires Structure(s) && Balanced(s, x) && Enabled(s, step)
    ensures Balanced(Apply(s, step), x)
  {
    match step
    case InitLogging(_, _, _, _, _, _) => InitBalances(s, step, x);
    case AllocateEvents(k, n) => AllocationBalances(s, k, n, x);
    case _ =>
      RegistryStaysBalanced(s, step, x);
      RingsStayBalanced(s, step, x);
      EventsStayBalanced(s, step, x);
  }

  lemma StepKeepsInv(s: State, step: Step)
    requires Inv(s) && Enabled(s, step)
    ensures Inv(Apply(s, step))
  {
    forall x ensures Balanced(Apply(s, step), x) {
      StepBalances(s, step, x);
    }
  }

  predicate Legal(s: State, steps: seq<Step>)
    decreases |steps|
  {
    steps == [] ||
    (Enabled(s, steps[0]) && |s.cpus[steps[0].cpu].events| == EVENTS && Legal(Apply(s, steps[0]), steps[1..]))
  }

  function Run(s: State, steps: seq<Step>): State
    requires Legal(s, steps)
    decreases |steps|
  {
    if steps == [] then s else Run(Apply(s, steps[0]), steps[1..])
  }

  lemma {:induction false} RunKeepsInv(s: State, steps: seq<Step>)
    requires Inv(s) && Legal(s, steps)
    ensures Inv(Run(s, steps))
    decreases |steps|
  {
    if steps != [] {
      StepKeepsInv(s, steps[0]);
      RunKeepsInv(Apply(s, steps[0]), steps[1..]);
    }
  }

  lemma {:induction false} NothingHeld(cpus: seq<Cpu>, kind: Kind, x: nat)
    requires forall k :: 0 <= k < |cpus| ==> Held(cpus[k], kind, x) == 0
    ensures Total(cpus, kind, x) == 0
  {
    if cpus != [] {
      NothingHeld(cpus[..|cpus| - 1], kind, x);
    }
  }

  lemma ReachableInv(cpus: nat, steps: seq<Step>)
    requires Legal(Initial(cpus), steps)
    ensures Inv(Run(Initial(cpus), steps))
  {
    forall x ensures Balanced(Initial(cpus), x) {
      NothingHeld(Initial(cpus).cpus, Events, x);
      NothingHeld(Initial(cpus).cpus, Rings, x);
      NothingHeld(Initial(cpus).cpus, Registrable, x);
    }
    RunKeepsInv(Initial(cpus), steps);
  }

  /* ---------- Consequences ---------- */

  lemma {:induction false} RegistrableIsHeld(cpus: seq<Cpu>, x: nat)
    ensures Total(cpus, Registrable, x) <= Total(cpus, Rings, x)
  {
    if cpus != [] {
      RegistrableIsHeld(cpus[..|cpus| - 1], x);
    }
  }

  lemma {:induction false} HeldByOne(cpus: seq<Cpu>, k: nat, kind: Kind, x: nat)
    requires k < |cpus|
    ensures Held(cpus[k], kind, x) <= Total(cpus, kind, x)
  {
    if k < |cpus| - 1 {
      HeldByOne(cpus[..|cpus| - 1], k, kind, x);
    }
  }

  /** What init_logging achieves: the log is there afterwards if it was, or if the first cpu
      could create all its parts; the new ring belongs to the cpu; and it is registered last
      if the log is there and fewer than 32 rings were registered, and not at all otherwise. */
  lemma OpenedRingIsRegistered(s: State, step: Step)
    requires Inv(s) && Enabled(s, step) && step.InitLogging?
    ensures var s' := Apply(s, step); var c' := s'.cpus[step.cpu];
            && (s'.isLogfileInitialized <==>
                  s.isLogfileInitialized || (step.first && step.dir && step.logOk && step.info))
            && c'.phase == LogReady && c'.events == s.cpus[step.cpu].events
            && c'.logbuffer == (if step.ringOk then Some(s.ringsOpened) else None)
            && s'.ringsOpened == s.ringsOpened + (if step.ringOk then 1 else 0)
            && s'.log.registry == if step.ringOk && s'.isLogfileInitialized && |s.log.registry| < 32
                                  then s.log.registry + [s.ringsOpened] else s.log.registry
  {
  }

  /** A registered ring is registered once and still open, and nothing is registered while
      the log is not there: the drain loop never meets a closed ring. */
  lemma RegisteredRingsAreOpen(cpus: nat, steps: seq<Step>, ring: nat)
    requires Legal(Initial(cpus), steps)
    ensures var s := Run(Initial(cpus), steps);
            && (ring in s.log.registry ==>
                  Count(s.log.registry, ring) == 1 && ring < s.ringsOpened && ring !in s.ringsClosed)
            && (!s.isLogfileInitialized ==> s.log.registry == [] && !s.log.logfile)
            && (s.isLogfileInitialized ==> s.log.logfile)
  {
    var s := Run(Initial(cpus), steps);
    ReachableInv(cpus, steps);
    RegistrableIsHeld(s.cpus, ring);
    assert Balanced(s, ring);
    assert ring in s.log.registry ==> Count(s.log.registry, ring) > 0;
    assert ring in s.ringsClosed ==> Count(s.ringsClosed, ring) > 0;
  }

  /** The ring that a started governor logs to has not been closed. */
  lemma RunningGovernorsRingIsOpen(cpus: nat, steps: seq<Step>, k: nat)
    requires Legal(Initial(cpus), steps) && k < |Run(Initial(cpus), steps).cpus|
    requires var c := Run(Initial(cpus), steps).cpus[k]; c.phase == Up && c.logbuffer.Some?
    ensures var s := Run(Initial(cpus), steps); s.cpus[k].logbuffer.value !in s.ringsClosed
  {
    var s := Run(Initial(cpus), steps);
    var ring := s.cpus[k].logbuffer.value;
    ReachableInv(cpus, steps);
    HeldByOne(s.cpus, k, Rings, ring);
    assert Balanced(s, ring);
    assert ring in s.ringsClosed ==> Count(s.ringsClosed, ring) > 0;
  }

  predicate NoneUp(s: State) { forall k :: 0 <= k < |s.cpus| ==> s.cpus[k].phase != Up }

  predicate AllDown(s: State) { forall k :: 0 <= k < |s.cpus| ==> s.cpus[k].phase == Down }

  /** Nothing is released that was not created, nothing twice, and once no governor is up,
      everything has been released, in spite of the stale pointers. The same for rings. */
  lemma EverythingIsReleasedOnce(cpus: nat, steps: seq<Step>, x: nat)
    requires Legal(Initial(cpus), steps)
    ensures var s := Run(Initial(cpus), steps);
            && Count(s.eventsReleased, x) <= (if x < s.eventsCreated then 1 else 0)
            && Count(s.ringsClosed, x) <= (if x < s.ringsOpened then 1 else 0)
            && (x < s.eventsCreated && NoneUp(s) ==> Count(s.eventsReleased, x) == 1)
            && (x < s.ringsOpened && AllDown(s) ==> Count(s.ringsClosed, x) == 1)
  {
    var s := Run(Initial(cpus), steps);
    ReachableInv(cpus, steps);
    assert Balanced(s, x);
    if NoneUp(s) {
      NothingHeld(s.cpus, Events, x);
    }
    if AllDown(s) {
      NothingHeld(s.cpus, Rings, x);
    }
  }
}
