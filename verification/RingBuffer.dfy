/** The per-CPU ring buffer of log entries and its drain into the logfile. */
module RingBuffer {
  import opened Basics
  import opened CInt
  import opened LogFormat
  import opened Logfile

  const LOG_RINGBUFFER_SIZE: nat := 2000

  /** The newest n elements of s, oldest first. */
  function Newest<T>(s: seq<T>, n: nat): seq<T> {
    if |s| <= n then s else s[|s| - n..]
  }

  /** The cell of the j-th newest entry (j = 0 is the newest). */
  function Slot(offset: nat, j: nat, size: nat): int {
    if j < offset then offset - 1 - j else offset - 1 - j + size
  }

  /** The cells hold the newest entries written, going back from the insert offset. */
  predicate Holds(cells: seq<LogEntry>, offset: nat, written: seq<LogEntry>) {
    && offset < |cells|
    && forall j :: 0 <= j < |written| && j < |cells| ==> cells[Slot(offset, j, |cells|)] == written[|written| - 1 - j]
  }

  /** The cell after a cell. */
  function Next(offset: nat, size: nat): nat
    requires offset < size
  {
    if offset + 1 == size then 0 else offset + 1
  }

  /** The code writes this as (offset + 1) % size. */
  lemma NextIsModulo(offset: nat, size: nat)
    requires offset < size
    ensures Next(offset, size) == (offset + 1) % size
  {
    ModUnique(offset + 1, size, if offset + 1 == size then 1 else 0, Next(offset, size));
  }

  lemma HoldsAfterInsert(cells: seq<LogEntry>, offset: nat, written: seq<LogEntry>, e: LogEntry)
    requires Holds(cells, offset, written)
    ensures Holds(cells[offset := e], Next(offset, |cells|), written + [e])
  {
    var n, offset' := |cells|, Next(offset, |cells|);
    forall j | 0 <= j < |written| + 1 && j < n
      ensures cells[offset := e][Slot(offset', j, n)] == (written + [e])[|written| - j]
    {
      if j == 0 {
        assert Slot(offset', 0, n) == offset;
      } else {
        assert Slot(offset', j, n) == Slot(offset, j - 1, n) != offset;
      }
    }
  }

  lemma WriteStep(cells: seq<LogEntry>, offset: nat, written: seq<LogEntry>, e: LogEntry)
    requires Holds(cells, offset, written) && offset == OffsetAfter(|written|, |cells|)
    ensures Holds(cells[offset := e], Next(offset, |cells|), written + [e])
    ensures Next(offset, |cells|) == OffsetAfter(|written + [e]|, |cells|)
  {
    HoldsAfterInsert(cells, offset, written, e);
  }

  lemma PrefixOneMore<T>(before: seq<T>, entries: seq<T>, i: nat)
    requires i < |entries|
    ensures before + entries[..i] + [entries[i]] == before + entries[..i + 1]
  {
    assert entries[..i + 1] == entries[..i] + [entries[i]];
  }

  /** The i-th cell from `start` on, going round. */
  function RingIndex(start: nat, i: nat, size: nat): nat {
    if start + i < size then start + i else start + i - size
  }

  /** A reader that starts at the oldest entry finds the newest `size` entries in order. */
  lemma AllReadOrder(cells: seq<LogEntry>, offset: nat, written: seq<LogEntry>)
    requires Holds(cells, offset, written)
    requires |written| < |cells| ==> offset == |written|
    ensures var start, out := if |written| >= |cells| then offset else 0, Newest(written, |cells|);
            forall i :: 0 <= i < |out| ==>
              RingIndex(start, i, |cells|) < |cells| && cells[RingIndex(start, i, |cells|)] == out[i]
  {
    var start, out := if |written| >= |cells| then offset else 0, Newest(written, |cells|);
    forall i | 0 <= i < |out|
      ensures RingIndex(start, i, |cells|) < |cells| && cells[RingIndex(start, i, |cells|)] == out[i]
    {
      var j := |out| - 1 - i;
      assert out[i] == written[|written| - 1 - j];
      assert cells[Slot(offset, j, |cells|)] == written[|written| - 1 - j];
    }
  }

  /** The offset reached after `total` single insertions into an empty ring. */
  function OffsetAfter(total: nat, size: nat): (offset: nat)
    requires size > 0
    ensures offset < size
    ensures total < size ==> offset == total
  {
    if total == 0 then 0 else Next(OffsetAfter(total - 1, size), size)
  }

  /** How often the offset went round. */
  lemma {:induction false} Rounds(total: nat, size: nat) returns (q: nat)
    requires size > 0
    ensures total == q * size + OffsetAfter(total, size)
  {
    q := 0;
    if total > 0 {
      q := Rounds(total - 1, size);
      if OffsetAfter(total - 1, size) + 1 == size {
        assert (q + 1) * size == q * size + size;
        q := q + 1;
      }
    }
  }

  /** So it is the total modulo the size. */
  lemma OffsetIsModulo(total: nat, size: nat)
    requires size > 0
    ensures OffsetAfter(total, size) == total % size
  {
    var q := Rounds(total, size);
    ModUnique(total, size, q, OffsetAfter(total, size));
  }

  lemma ModUnique(x: int, n: int, q: int, r: int)
    requires n > 0 && x == q * n + r && 0 <= r < n
    ensures x % n == r
  {
    QuotientUnique(x, n, q);
    assert x == (x / n) * n + x % n;
  }

  /** The comparison that sets the flag: its u32 sum loses a wraparound of the ring exactly
      when the sum itself wraps, which is when offset and count reach 2^32 together. */
  lemma FlagMissedIffWrapped(offset: nat, count: nat, size: nat)
    requires offset < size < TWO32 && count < TWO32
    ensures (WrapU32(offset + count) >= size <==> offset + count >= size) <==> offset + count < TWO32
    ensures offset + count >= TWO32 ==> WrapU32(offset + count) < size <= offset + count
  {
  }

  /** The flag after writing `count` entries behind `before` others. */
  lemma FlagAfterWrite(before: nat, count: nat, size: nat)
    requires 0 < size < TWO32 && count < TWO32
    ensures var offset := OffsetAfter(before, size);
            var flag := before >= size || WrapU32(offset + count) >= size;
            (flag <==> before + count >= size) <==> (before >= size || offset + count < TWO32)
  {
    FlagMissedIffWrapped(OffsetAfter(before, size), count, size);
  }

  class RingBuffer {
    const data: array<LogEntry>
    var insertOffset: nat
    var hadWraparound: bool
    /** Every entry written since the ring was opened or last drained. */
    ghost var written: seq<LogEntry>

    /** The cells and the offset are right. */
    ghost predicate Filled()
      reads this, data
    {
      && 0 < data.Length < TWO32
      && insertOffset == OffsetAfter(|written|, data.Length)
      && Holds(data[..], insertOffset, written)
    }

    /** The flag says whether the ring has been filled. */
    ghost predicate FlagRight()
      reads this
    {
      hadWraparound <==> |written| >= data.Length
    }

    ghost predicate Valid()
      reads this, data
    {
      Filled() && FlagRight()
    }

    /** memutil_open_ringbuffer, when its allocations succeed. */
    constructor (bufferSize: nat)
      requires 0 < bufferSize < TWO32
      ensures Valid() && fresh(data) && data.Length == bufferSize && written == []
    {
      data := new LogEntry[bufferSize];
      insertOffset, hadWraparound, written := 0, false, [];
    }

    /** memutil_write_ringbuffer. The entries and the offset are always right; the flag is
        right exactly when the u32 sum compared with the size does not wrap, or the flag
        was set already. The count fits the int loop variable. */
    method Write(entries: seq<LogEntry>)
      requires Valid() && |entries| < TWO31
      modifies this, data
      ensures Filled() && written == old(written) + entries
      ensures FlagRight() <==> old(hadWraparound) || old(insertOffset) + |entries| < TWO32
    {
      FlagAfterWrite(|written|, |entries|, data.Length);
      if WrapU32(insertOffset + |entries|) >= data.Length {
        hadWraparound := true;
      }
      ghost var before, cells := written, data[..];
      var i := 0;
      while i < |entries|
        invariant 0 <= i <= |entries| && written == before + entries[..i]
        invariant data[..] == cells && |cells| == data.Length
        invariant insertOffset == OffsetAfter(|written|, |cells|)
        invariant Holds(cells, insertOffset, written)
        modifies this`insertOffset, this`written, data
      {
        WriteStep(cells, insertOffset, written, entries[i]);
        PrefixOneMore(before, entries, i);
        data[insertOffset] := entries[i];
        cells, written := cells[insertOffset := entries[i]], written + [entries[i]];
        insertOffset := Next(insertOffset, data.Length);
        i := i + 1;
      }
      assert entries[..i] == entries;
    }

    /** clear_buffer. */
    method Clear()
      requires Valid()
      modifies this
      ensures Valid() && written == []
    {
      hadWraparound, insertOffset, written := false, 0, [];
    }

    /** The locked section of memutil_ringbuffer_append_to_logfile: copy the used cells,
        then clear. */
    method CopyAndClear() returns (copy: RingBuffer)
      requires Valid()
      modifies this
      ensures Valid() && written == []
      ensures fresh(copy) && fresh(copy.data) && copy.Valid()
      ensures copy.written == old(written) && copy.data.Length == data.Length
    {
      copy := new RingBuffer(data.Length);
      var used := if hadWraparound then data.Length else insertOffset;
      CopyCells(data, copy.data, used);
      copy.hadWraparound, copy.insertOffset, copy.written := hadWraparound, insertOffset, written;
      UsedCellsSuffice(data[..], copy.data[..], used, insertOffset, written);
      Clear();
    }

    /** memcpy of the first `used` entries. */
    static method CopyCells(from: array<LogEntry>, to: array<LogEntry>, used: nat)
      requires from != to && used <= from.Length == to.Length
      modifies to
      ensures to[..used] == from[..used]
    {
      var i := 0;
      while i < used
        invariant 0 <= i <= used && to[..i] == from[..i]
      {
        to[i] := from[i];
        i := i + 1;
      }
    }

    /** memutil_output_element. */
    static method OutputElement(element: LogEntry, log: Logfile)
      requires log.Valid()
      modifies log, log.data
      ensures log.Valid() && log.Contents() == Appended(old(log.Contents()), log.data.Length, Record(element))
    {
      var text := ScnPrintf(TEXT_BUFFER_SIZE, Line(element));
      var ok := log.Append(text);
    }

    /** memutil_output_data: one record per valid entry, oldest first. */
    method OutputData(log: Logfile)
      requires Valid() && log.Valid()
      modifies log, log.data
      ensures log.Valid()
      ensures log.Contents() == Output(old(log.Contents()), log.data.Length, Newest(written, data.Length))
    {
      var readOffset := if hadWraparound then insertOffset else 0;
      var validSize := if hadWraparound then data.Length else insertOffset;
      ghost var cells, out, start := data[..], Newest(written, data.Length), readOffset;
      ghost var capacity, log0 := log.data.Length, log.Contents();
      AllReadOrder(cells, insertOffset, written);
      var i := 0;
      while i < validSize
        invariant 0 <= i <= validSize == |out|
        invariant readOffset == RingIndex(start, i, |cells|)
        invariant log.Valid() && log.Contents() == Output(log0, capacity, out[..i])
        modifies log, log.data
      {
        assert data[..] == cells;
        assert data[readOffset] == cells[RingIndex(start, i, |cells|)] == out[i];
        OutputOneMore(log0, capacity, out, i);
        OutputElement(data[readOffset], log);
        readOffset := Next(readOffset, data.Length);
        i := i + 1;
      }
      assert out[..i] == out;
    }

    /** memutil_ringbuffer_append_to_logfile; hasMemory says whether the copy could be
        made, and the result is 0 or -ENOMEM. */
    method AppendToLogfile(log: Logfile, hasMemory: bool) returns (result: int)
      requires Valid() && log.Valid()
      modifies this, log, log.data
      ensures Valid() && log.Valid() && (result == 0 <==> hasMemory)
      ensures hasMemory ==> written == []
      ensures hasMemory ==>
                log.Contents() == Output(old(log.Contents()), log.data.Length, Newest(old(written), data.Length))
      ensures !hasMemory ==> unchanged(this) && log.Contents() == old(log.Contents())
    {
      if !hasMemory {
        return -ENOMEM;
      }
      var copy := CopyAndClear();
      copy.OutputData(log);
      return 0;
    }
  }

  /** In terms of everything written: the offset is the total modulo the size, the flag says
      whether the total reached the size, and read from the position where the drain
      starts, the cells are the newest entries, oldest first. */
  lemma RingRefinesList(r: RingBuffer)
    requires r.Valid()
    ensures r.insertOffset == |r.written| % r.data.Length
    ensures r.hadWraparound <==> |r.written| >= r.data.Length
    ensures var cells, out := r.data[..], Newest(r.written, r.data.Length);
            var start := if r.hadWraparound then r.insertOffset else 0;
            && |out| == (if r.hadWraparound then |cells| else r.insertOffset)
            && forall i :: 0 <= i < |out| ==>
                 && RingIndex(start, i, |cells|) < |cells| && cells[RingIndex(start, i, |cells|)] == out[i]
                 && out[i] == r.written[|r.written| - |out| + i]
  {
    var cells, out := r.data[..], Newest(r.written, r.data.Length);
    var start := if r.hadWraparound then r.insertOffset else 0;
    OffsetIsModulo(|r.written|, r.data.Length);
    AllReadOrder(cells, r.insertOffset, r.written);
    assert |out| == (if r.hadWraparound then |cells| else r.insertOffset);
    assert forall i :: 0 <= i < |out| ==> RingIndex(start, i, |cells|) < |cells|;
    assert forall i :: 0 <= i < |out| ==> cells[RingIndex(start, i, |cells|)] == out[i];
  }

  /** When the warning about a loss, which a drain gives whenever the flag is set, is false:
      exactly when the ring was filled and no further. */
  lemma WarningIsFalseIff(r: RingBuffer)
    requires r.Valid()
    ensures r.hadWraparound && Newest(r.written, r.data.Length) == r.written <==> |r.written| == r.data.Length
  {
    assert |r.written| > r.data.Length ==> |Newest(r.written, r.data.Length)| == r.data.Length;
  }

  lemma UsedCellsSuffice(cells: seq<LogEntry>, copied: seq<LogEntry>, used: nat, offset: nat, written: seq<LogEntry>)
    requires Holds(cells, offset, written) && |copied| == |cells| && used <= |cells|
    requires if |written| >= |cells| then used == |cells| else used == offset == |written|
    requires copied[..used] == cells[..used]
    ensures Holds(copied, offset, written)
  {
    forall j | 0 <= j < |written| && j < |cells|
      ensures copied[Slot(offset, j, |cells|)] == written[|written| - 1 - j]
    {
      var k := Slot(offset, j, |cells|);
      assert 0 <= k < used;
      assert copied[..used][k] == cells[..used][k];
    }
  }

  function Records(es: seq<LogEntry>): seq<string> {
    if es == [] then [] else Records(es[..|es| - 1]) + [Record(es[|es| - 1])]
  }

  /** The log after the entries were output to it. */
  function Output(log: string, capacity: nat, es: seq<LogEntry>): string {
    if es == [] then log else Appended(Output(log, capacity, es[..|es| - 1]), capacity, Record(es[|es| - 1]))
  }

  lemma {:induction false} OutputIsAppendAll(log: string, capacity: nat, es: seq<LogEntry>)
    ensures Output(log, capacity, es) == AppendAll(log, capacity, Records(es))
  {
    if es != [] {
      OutputIsAppendAll(log, capacity, es[..|es| - 1]);
      var rs := Records(es);
      assert rs[..|rs| - 1] == Records(es[..|es| - 1]);
    }
  }

  lemma {:induction false} RecordsAt(es: seq<LogEntry>)
    ensures |Records(es)| == |es| && forall i :: 0 <= i < |es| ==> Records(es)[i] == Record(es[i])
  {
    if es != [] {
      RecordsAt(es[..|es| - 1]);
    }
  }

  lemma RecordsConcat(a: seq<LogEntry>, b: seq<LogEntry>)
    ensures Records(a + b) == Records(a) + Records(b)
  {
    RecordsAt(a);
    RecordsAt(b);
    RecordsAt(a + b);
  }

  lemma RecordsFrom(es: seq<LogEntry>, k: nat)
    requires k <= |es|
    ensures |Records(es)| == |es| && Records(es)[k..] == Records(es[k..])
  {
    RecordsAt(es);
    RecordsAt(es[k..]);
  }

  lemma OutputOneMore(log: string, capacity: nat, es: seq<LogEntry>, i: nat)
    requires i < |es|
    ensures Output(log, capacity, es[..i + 1]) == Appended(Output(log, capacity, es[..i]), capacity, Record(es[i]))
  {
    assert es[..i + 1][..i] == es[..i];
  }

  /** The text of the records is the text of the entries. */
  lemma {:induction false} ConcatRecords(es: seq<LogEntry>)
    ensures Concat(Records(es)) == Text(es)
  {
    if es != [] {
      var init, last := es[..|es| - 1], es[|es| - 1];
      ConcatRecords(init);
      RecordIsLine(last);
      assert es == init + [last];
      TextConcat(init, [last]);
      assert Text([last]) == Line(last) + Text([]);
      var rs := Records(es);
      assert rs[..|rs| - 1] == Records(init);
    }
  }
}
