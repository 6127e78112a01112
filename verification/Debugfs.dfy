/** The shared state of the debugfs log: its directory, the logfile, the registry of ring
    buffers, and the read that drains them all. */
module Debugfs {
  import opened Basics
  import opened LogFormat
  import opened Logfile
  import opened RingBuffer

  const MAX_RINGBUFFER_COUNT: nat := 32

  /** The life-cycle view: is the directory there, is the logfile there, who registered. */
  datatype Lifecycle<T> = Lifecycle(rootDir: bool, logfile: bool, registry: seq<T>)

  /** memutil_debugfs_init, with the outcome of its three foreign calls. */
  function Initialised<T>(l: Lifecycle<T>, dir: bool, log: bool, info: bool): Lifecycle<T> {
    if l.rootDir then l
    else if dir && log && info then l.(rootDir := true, logfile := true)
    else if dir && log then Lifecycle(false, false, [])   // the infofile failed: logfile_exit
    else l
  }

  function Registered<T>(l: Lifecycle<T>, ring: T): Lifecycle<T> {
    if |l.registry| >= MAX_RINGBUFFER_COUNT then l else l.(registry := l.registry + [ring])
  }

  function Exited<T>(): Lifecycle<T> { Lifecycle(false, false, []) }

  /** The logfile and its registry exist exactly while the directory does. */
  predicate Consistent<T>(l: Lifecycle<T>) {
    (l.logfile <==> l.rootDir) && (!l.rootDir ==> l.registry == []) && |l.registry| <= MAX_RINGBUFFER_COUNT
  }

  /** The log after draining the first rings, each with or without memory for its copy. */
  function DrainAll(capacity: nat, contents: seq<seq<LogEntry>>, memory: seq<bool>): string
    requires |contents| <= |memory|
  {
    if contents == [] then []
    else
      var n := |contents| - 1;
      var log := DrainAll(capacity, contents[..n], memory);
      if memory[n] then Output(log, capacity, contents[n]) else log
  }

  /** The entries of all rings whose copy could be allocated, ring after ring. */
  function Gathered(contents: seq<seq<LogEntry>>, memory: seq<bool>): seq<LogEntry>
    requires |contents| <= |memory|
  {
    if contents == [] then []
    else Gathered(contents[..|contents| - 1], memory)
         + if memory[|contents| - 1] then contents[|contents| - 1] else []
  }

  /** Told without its recursion: of one ring all or nothing, and of a list of rings first
      what the front gives, then what the rest gives. */
  lemma {:induction false} GatheredInOrder(a: seq<seq<LogEntry>>, b: seq<seq<LogEntry>>, m: seq<bool>, n: seq<bool>)
    requires |a| == |m| && |b| <= |n|
    ensures Gathered(a + b, m + n) == Gathered(a, m) + Gathered(b, n)
    decreases |b|
  {
    if b == [] {
      GatheredPrefix(a, m, n);
      assert a + b == a && Gathered(a, m) + [] == Gathered(a, m);
    } else {
      var init, last := b[..|b| - 1], b[|b| - 1];
      assert (a + b)[..|a + b| - 1] == a + init && (m + n)[|a + b| - 1] == n[|b| - 1];
      GatheredInOrder(a, init, m, n);
      Regroup(Gathered(a, m), Gathered(init, n), if n[|b| - 1] then last else []);
    }
  }

  lemma GatheredOfOne(ring: seq<LogEntry>, hasMemory: bool)
    ensures Gathered([ring], [hasMemory]) == if hasMemory then ring else []
  {
    assert [ring][..0] == [];
  }

  /** Only the memory of the rings there are matters. */
  lemma {:induction false} GatheredPrefix(a: seq<seq<LogEntry>>, m: seq<bool>, n: seq<bool>)
    requires |a| <= |m|
    ensures Gathered(a, m + n) == Gathered(a, m)
  {
    if a != [] {
      GatheredPrefix(a[..|a| - 1], m, n);
    }
  }

  /** A complete drain appends all those records to an empty log. */
  lemma {:induction false} DrainAllIsAppendAll(capacity: nat, contents: seq<seq<LogEntry>>, memory: seq<bool>)
    requires |contents| <= |memory|
    ensures DrainAll(capacity, contents, memory) == AppendAll([], capacity, Records(Gathered(contents, memory)))
  {
    if contents != [] {
      var n := |contents| - 1;
      var before := Gathered(contents[..n], memory);
      DrainAllIsAppendAll(capacity, contents[..n], memory);
      if memory[n] {
        OutputIsAppendAll(DrainAll(capacity, contents[..n], memory), capacity, contents[n]);
        RecordsConcat(before, contents[n]);
        AppendAllConcat([], capacity, Records(before), Records(contents[n]));
      } else {
        assert before + [] == before;
      }
    }
  }

  /** What a complete read holds: the text of a suffix of those entries, never part of one,
      and of all of them if and only if it fits. A log with room for one line keeps at
      least the newest entry. */
  lemma ReadHoldsSuffix(capacity: nat, contents: seq<seq<LogEntry>>, memory: seq<bool>)
    requires |contents| <= |memory|
    ensures var es := Gathered(contents, memory); var k := KeptFrom(capacity, Records(es));
            && |Records(es)| == |es| && DrainAll(capacity, contents, memory) == Text(es[k..])
            && |Text(es[k..])| <= capacity
            && (DrainAll(capacity, contents, memory) == Text(es) <==> |Text(es)| <= capacity)
            && (LINE_BOUND <= capacity && es != [] ==> k < |es|)
  {
    var es := Gathered(contents, memory);
    var rs := Records(es);
    var k := KeptFrom(capacity, rs);
    DrainAllIsAppendAll(capacity, contents, memory);
    RecordsAt(es);
    LogIsSuffix(capacity, rs);
    RecordsFrom(es, k);
    ConcatRecords(es[k..]);
    ConcatRecords(es);
    LogIsCompleteIffItFits(capacity, rs);
    if LINE_BOUND <= capacity {
      forall i | 0 <= i < |rs| ensures |rs[i]| <= capacity {
        RecordIsLine(es[i]);
        LineLength(es[i]);
      }
    }
  }

  /** What the rings hold once the first n are drained, each with or without memory. */
  function Emptied(writtens: seq<seq<LogEntry>>, memory: seq<bool>, n: nat): seq<seq<LogEntry>>
    requires |writtens| <= |memory|
  {
    seq(|writtens|, k requires 0 <= k < |writtens| => if k < n && memory[k] then [] else writtens[k])
  }

  /** Open rings, all different, and everything written to each since it was last drained. */
  ghost predicate Hold(rings: seq<RingBuffer?>, writtens: seq<seq<LogEntry>>)
    reads set k | 0 <= k < |rings| :: rings[k], set k | 0 <= k < |rings| && rings[k] != null :: rings[k].data
  {
    && |writtens| == |rings|
    && (forall k :: 0 <= k < |rings| ==> rings[k] != null && rings[k].Valid() && rings[k].written == writtens[k])
    && (forall j, k :: 0 <= j < k < |rings| ==> rings[j] != rings[k])
  }

  /** What each ring outputs then. */
  function Outputs(rings: seq<RingBuffer?>, writtens: seq<seq<LogEntry>>): seq<seq<LogEntry>>
    requires |writtens| == |rings| && forall k :: 0 <= k < |rings| ==> rings[k] != null
  {
    seq(|rings|, k requires 0 <= k < |rings| && rings[k] != null => Newest(writtens[k], rings[k].data.Length))
  }

  class DebugfsLog {
    var rootDir: bool
    var logfile: Logfile?
    const buffers: array<RingBuffer?>
    var count: nat

    ghost predicate Valid()
      reads this, buffers
    {
      && buffers.Length == MAX_RINGBUFFER_COUNT && count <= MAX_RINGBUFFER_COUNT
      && (forall i :: 0 <= i < count ==> buffers[i] != null)
      && (rootDir <==> logfile != null)
      && (logfile == null ==> count == 0)
    }

    ghost function View(): Lifecycle<RingBuffer?>
      reads this, buffers
      requires Valid()
    {
      Lifecycle(rootDir, logfile != null, buffers[..count])
    }

    constructor ()
      ensures Valid() && View() == Exited() && fresh(buffers) && !rootDir && logfile == null && count == 0
    {
      rootDir, logfile, count := false, null, 0;
      buffers := new RingBuffer?[MAX_RINGBUFFER_COUNT](_ => null);
    }

    /** memutil_debugfs_logfile_exit: the registry goes with the logfile. */
    method LogfileExit()
      requires Valid() && logfile != null
      modifies this`count, this`logfile
      ensures count == 0 && logfile == null
    {
      count := 0;
      logfile := null;
    }

    /** memutil_debugfs_init; dir, log and info say whether the parts can be created. */
    method Init(dir: bool, log: bool, info: bool) returns (result: int)
      requires Valid()
      modifies this
      ensures Valid() && View() == Initialised(old(View()), dir, log, info)
      ensures result == (if rootDir then 0 else -12)
      ensures rootDir <==> old(rootDir) || (dir && log && info)
      ensures old(rootDir) ==> logfile == old(logfile) && buffers[..count] == old(buffers[..count])
      ensures !old(rootDir) ==> count == 0
      ensures !old(rootDir) && rootDir ==>
                && logfile != null && fresh(logfile) && fresh(logfile.data) && logfile.Valid()
                && logfile.data.Length == 2_000_000 && logfile.Contents() == []
      ensures !rootDir ==> logfile == null
    {
      if rootDir {
        return 0;
      }
      if !dir {
        return -ENOMEM;
      }
      rootDir := true;
      if !log {
        rootDir := false;
        return -ENOMEM;
      }
      logfile := new Logfile(LOGFILE_CAPACITY);
      if !info {
        LogfileExit();
        rootDir := false;
        return -ENOMEM;
      }
      return 0;
    }

    /** memutil_debugfs_exit. */
    method Exit()
      requires Valid() && rootDir
      modifies this
      ensures Valid() && View() == Exited() && !rootDir && logfile == null && count == 0
    {
      LogfileExit();
      rootDir := false;
    }

    /** memutil_debugfs_register_ringbuffer; its caller checks that the log exists. */
    method RegisterRingbuffer(buffer: RingBuffer) returns (result: int)
      requires Valid() && logfile != null
      modifies this`count, buffers
      ensures Valid() && View() == Registered(old(View()), buffer)
      ensures old(count) < 32 ==>
                && result == 0 && count == old(count) + 1 && buffers[old(count)] == buffer
                && forall i :: 0 <= i < old(count) ==> buffers[i] == old(buffers[i])
      ensures old(count) >= 32 ==>
                result == -22 && count == old(count) && forall i :: 0 <= i < count ==> buffers[i] == old(buffers[i])
    {
      if count >= MAX_RINGBUFFER_COUNT {
        return -EINVAL;
      }
      buffers[count] := buffer;
      count := count + 1;
      return 0;
    }

    /** The log is there, the registered rings are open, and this was written to them. */
    ghost predicate Readable(writtens: seq<seq<LogEntry>>)
      reads this, buffers, logfile, set i | 0 <= i < buffers.Length :: buffers[i],
            set i | 0 <= i < buffers.Length && buffers[i] != null :: buffers[i].data
    {
      Valid() && logfile != null && logfile.Valid() && Hold(buffers[..count], writtens)
    }

    /** The drain loop of user_read_log; memory[i] says whether the copy of ring i can be
        allocated. */
    method DrainRings(memory: seq<bool>, ghost writtens: seq<seq<LogEntry>>)
      requires Readable(writtens) && count <= |memory|
      modifies logfile, logfile.data, buffers[..count]
      ensures Readable(Emptied(writtens, memory, count))
      ensures logfile.Contents() == DrainAll(logfile.data.Length, Outputs(buffers[..count], writtens), memory)
    {
      DrainEach(buffers[..count], logfile, memory, writtens);
    }

    static method DrainEach(rings: seq<RingBuffer?>, log: Logfile, memory: seq<bool>,
                            ghost writtens: seq<seq<LogEntry>>)
      requires log.Valid() && Hold(rings, writtens) && |rings| <= |memory|
      modifies log, log.data, rings
      ensures log.Valid() && Hold(rings, Emptied(writtens, memory, |rings|))
      ensures log.Contents() == DrainAll(log.data.Length, Outputs(rings, writtens), memory)
    {
      log.Clear();
      ghost var outputs, capacity := Outputs(rings, writtens), log.data.Length;
      var i := 0;
      while i < |rings|
        invariant 0 <= i <= |rings| && log.Valid() && Hold(rings, Emptied(writtens, memory, i))
        invariant log.Contents() == DrainAll(capacity, outputs[..i], memory)
        modifies log, log.data, rings
      {
        DrainOneMore(capacity, outputs, memory, i);
        DrainOne(rings, i, log, memory, writtens);
        i := i + 1;
      }
      assert outputs[..i] == outputs;
    }

    /** Draining ring i leaves the other rings alone. */
    static method DrainOne(rings: seq<RingBuffer?>, i: nat, log: Logfile, memory: seq<bool>,
                           ghost writtens: seq<seq<LogEntry>>)
      requires log.Valid() && i < |rings| == |writtens| <= |memory| && Hold(rings, Emptied(writtens, memory, i))
      modifies log, log.data, rings
      ensures log.Valid() && Hold(rings, Emptied(writtens, memory, i + 1))
      ensures log.Contents() == if memory[i]
                                then Output(old(log.Contents()), log.data.Length, Outputs(rings, writtens)[i])
                                else old(log.Contents())
    {
      assert rings[i] in rings;
      assert forall k :: 0 <= k < |rings| && k != i ==> rings[k] != rings[i];
      var result := rings[i].AppendToLogfile(log, memory[i]);
    }

    /** user_read_log: at position 0 the log is rebuilt from the rings, then a piece of it is
        copied out. */
    method UserReadLog(size: nat, pos: nat, memory: seq<bool>, ghost writtens: seq<seq<LogEntry>>)
      returns (chunk: string, newPos: nat)
      requires Readable(writtens) && count <= |memory|
      modifies logfile, logfile.data, buffers[..count]
      ensures buffers[..count] == old(buffers[..count])
      ensures Readable(if pos == 0 then Emptied(writtens, memory, count) else writtens)
      ensures chunk == Chunk(logfile.Contents(), pos, size) && newPos == pos + |chunk|
      ensures |chunk| == if pos >= |logfile.Contents()| then 0
                         else if size <= |logfile.Contents()| - pos then size else |logfile.Contents()| - pos
      ensures logfile.Contents() == if pos == 0
                                    then DrainAll(logfile.data.Length, Outputs(buffers[..count], writtens), memory)
                                    else old(logfile.Contents())
    {
      if pos == 0 {
        DrainRings(memory, writtens);
      }
      chunk, newPos := logfile.ReadFromBuffer(pos, size);
    }

    /** A complete read: requests of any nonzero sizes, the one at position p being for
        size(p) bytes, until nothing more comes. */
    method ReadToEnd(size: nat -> nat, memory: seq<bool>, ghost writtens: seq<seq<LogEntry>>) returns (text: string)
      requires Readable(writtens) && count <= |memory| && forall p :: size(p) > 0
      modifies logfile, logfile.data, buffers[..count]
      ensures Readable(Emptied(writtens, memory, count))
      ensures text == DrainAll(logfile.data.Length, Outputs(buffers[..count], writtens), memory)
    {
      var chunk, pos := UserReadLog(size(0), 0, memory, writtens);
      text := chunk;
      ghost var log := logfile.Contents();
      RestOfRead(log, 0, size(0));
      if chunk != [] {
        var rest := ReadOn(size, pos, memory, Emptied(writtens, memory, count));
        text := chunk + rest;
      }
    }

    /** The later requests of such a read. */
    method ReadOn(size: nat -> nat, from: nat, memory: seq<bool>, ghost writtens: seq<seq<LogEntry>>)
      returns (text: string)
      requires Readable(writtens) && count <= |memory| && forall p :: size(p) > 0
      requires 0 < from <= |logfile.Contents()|
      modifies logfile, logfile.data, buffers[..count]
      ensures buffers[..count] == old(buffers[..count])
      ensures Readable(writtens) && logfile.Contents() == old(logfile.Contents())
      ensures text == logfile.Contents()[from..]
      decreases |logfile.Contents()| - from
    {
      RestOfRead(logfile.Contents(), from, size(from));
      var chunk, pos := UserReadLog(size(from), from, memory, writtens);
      text := chunk;
      if chunk != [] {
        var rest := ReadOn(size, pos, memory, writtens);
        text := chunk + rest;
      }
    }
  }

  lemma RestOfRead(log: string, from: nat, size: nat)
    requires from <= |log| && size > 0
    ensures var chunk := Chunk(log, from, size); var next := from + |chunk|;
            next <= |log| && chunk + log[next..] == log[from..] && (chunk == [] ==> log[from..] == [])
    ensures log[0..] == log
  {
    ChunkIsSlice(log, from, size);
  }

  lemma DrainOneMore(capacity: nat, contents: seq<seq<LogEntry>>, memory: seq<bool>, i: nat)
    requires i < |contents| <= |memory|
    ensures DrainAll(capacity, contents[..i + 1], memory)
         == if memory[i] then Output(DrainAll(capacity, contents[..i], memory), capacity, contents[i])
            else DrainAll(capacity, contents[..i], memory)
  {
    assert contents[..i + 1][..i] == contents[..i];
  }

  /** Every life-cycle operation keeps the parts consistent. */
  lemma LifecycleStaysConsistent<T>(l: Lifecycle<T>, dir: bool, log: bool, info: bool, ring: T)
    requires Consistent(l)
    ensures Consistent(Initialised(l, dir, log, info))
    ensures l.rootDir ==> Consistent(Registered(l, ring))
    ensures Consistent(Exited<T>())
  {
  }
}
