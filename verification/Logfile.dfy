/** The bounded text log behind debugfs: records are appended whole, the log is emptied
    when the next record does not fit, and a reader fetches it in chunks. */
module Logfile {

  const LOGFILE_CAPACITY: nat := 2_000_000

  /** The log after one append: a record that does not fit empties the log first, and one
      that can never fit is refused (after the log was emptied). */
  function Appended(log: string, capacity: nat, record: string): string {
    if |log| + |record| <= capacity then log + record
    else if |record| <= capacity then record
    else []
  }

  function AppendAll(log: string, capacity: nat, records: seq<string>): string {
    if records == [] then log
    else Appended(AppendAll(log, capacity, records[..|records| - 1]), capacity, records[|records| - 1])
  }

  lemma {:induction false} AppendAllConcat(log: string, capacity: nat, rs: seq<string>, qs: seq<string>)
    ensures AppendAll(AppendAll(log, capacity, rs), capacity, qs) == AppendAll(log, capacity, rs + qs)
  {
    if qs == [] {
      assert rs + qs == rs;
    } else {
      var init := qs[..|qs| - 1];
      AppendAllConcat(log, capacity, rs, init);
      assert (rs + qs)[..|rs + qs| - 1] == rs + init;
    }
  }

  function Concat(records: seq<string>): string {
    if records == [] then [] else Concat(records[..|records| - 1]) + records[|records| - 1]
  }

  class Logfile {
    const data: array<char>
    var sizeUsed: nat

    ghost predicate Valid()
      reads this
    {
      sizeUsed <= data.Length
    }

    ghost function Contents(): string
      reads this, data
      requires Valid()
    {
      data[..sizeUsed]
    }

    constructor (capacity: nat)
      ensures Valid() && fresh(data) && data.Length == capacity && Contents() == []
    {
      data := new char[capacity];
      sizeUsed := 0;
    }

    method Clear()
      modifies this
      ensures Valid() && Contents() == []
    {
      sizeUsed := 0;
    }

    /** memutil_debugfs_append_to_logfile; false stands for -EINVAL. */
    method Append(buffer: string) returns (ok: bool)
      requires Valid()
      modifies this, data
      ensures Valid() && Contents() == Appended(old(Contents()), data.Length, buffer)
      ensures |old(Contents())| + |buffer| <= data.Length ==> Contents() == old(Contents()) + buffer
      ensures |old(Contents())| + |buffer| > data.Length ==>
                Contents() == if |buffer| <= data.Length then buffer else []
      ensures ok <==> |buffer| <= data.Length
    {
      if sizeUsed + |buffer| > data.Length {
        Clear();
      }
      if data.Length < |buffer| {
        return false;
      }
      ghost var kept := Contents();
      var i := 0;
      while i < |buffer|
        invariant 0 <= i <= |buffer|
        invariant data[..sizeUsed + i] == kept + buffer[..i]
        modifies data
      {
        data[sizeUsed + i] := buffer[i];
        i := i + 1;
      }
      assert buffer[..i] == buffer;
      sizeUsed := sizeUsed + |buffer|;
      return true;
    }

    /** simple_read_from_buffer, copying to user space without a fault: the bytes delivered
        and the new file position. */
    method ReadFromBuffer(pos: nat, count: nat) returns (chunk: string, newPos: nat)
      requires Valid()
      ensures chunk == Chunk(Contents(), pos, count) && newPos == pos + |chunk|
      ensures |chunk| == if pos >= |Contents()| then 0
                         else if count <= |Contents()| - pos then count else |Contents()| - pos
      ensures pos <= |Contents()| ==> chunk == Contents()[pos..newPos]
    {
      if pos >= sizeUsed || count == 0 {
        return [], pos;
      }
      var n := if count > sizeUsed - pos then sizeUsed - pos else count;
      assert data[pos..pos + n] == Contents()[pos..pos + n];
      return data[pos..pos + n], pos + n;
    }
  }

  /* ---------- What the log holds ---------- */

  /** Where the kept suffix starts. */
  function KeptFrom(capacity: nat, records: seq<string>): (k: nat)
    ensures k <= |records|
  {
    if records == [] then 0 else
    var init, last := records[..|records| - 1], records[|records| - 1];
    var k := KeptFrom(capacity, init);
    if |Concat(init[k..])| + |last| <= capacity then k
    else if |last| <= capacity then |init|
    else |records|
  }

  predicate AllFit(capacity: nat, records: seq<string>) {
    forall i :: 0 <= i < |records| ==> |records[i]| <= capacity
  }

  /** For every sequence of appends to an empty log, the log holds whole records, and only
      the last ones; the newest record is always among them. */
  lemma {:induction false} LogIsSuffix(capacity: nat, records: seq<string>)
    ensures AppendAll([], capacity, records) == Concat(records[KeptFrom(capacity, records)..])
    ensures |AppendAll([], capacity, records)| <= capacity
    ensures AllFit(capacity, records) && records != [] ==> KeptFrom(capacity, records) < |records|
  {
    if records != [] {
      var init, last := records[..|records| - 1], records[|records| - 1];
      var k := KeptFrom(capacity, init);
      LogIsSuffix(capacity, init);
      var kept := records[k..];
      assert kept[..|kept| - 1] == init[k..] && kept[|kept| - 1] == last;
      assert records[|init|..] == [last];
      assert [last][..0] == [];
      assert Concat([last]) == last;
      assert records[|records|..] == [];
    }
  }

  /** Nothing is dropped exactly when everything fits. */
  lemma {:induction false} LogIsCompleteIffItFits(capacity: nat, records: seq<string>)
    ensures AppendAll([], capacity, records) == Concat(records) <==> |Concat(records)| <= capacity
  {
    LogIsSuffix(capacity, records);
    if |Concat(records)| <= capacity {
      NothingDropped(capacity, records);
    }
  }

  lemma {:induction false} NothingDropped(capacity: nat, records: seq<string>)
    requires |Concat(records)| <= capacity
    ensures AppendAll([], capacity, records) == Concat(records)
  {
    if records != [] {
      NothingDropped(capacity, records[..|records| - 1]);
    }
  }

  /* ---------- Reading in chunks ---------- */

  function Chunk(text: string, pos: nat, count: nat): string {
    if pos >= |text| then []
    else if pos + count <= |text| then text[pos..pos + count]
    else text[pos..]
  }

  /** What a reader gets that asks for these many bytes, one request after the other. */
  function ReadChunks(text: string, pos: nat, counts: seq<nat>): string
    decreases |counts|
  {
    if counts == [] then []
    else
      var chunk := Chunk(text, pos, counts[0]);
      chunk + ReadChunks(text, pos + |chunk|, counts[1..])
  }

  lemma ChunkIsSlice(text: string, pos: nat, count: nat)
    requires pos <= |text|
    ensures pos + |Chunk(text, pos, count)| <= |text|
    ensures Chunk(text, pos, count) == text[pos..pos + |Chunk(text, pos, count)|]
    ensures |Chunk(text, pos, count)| == if count <= |text| - pos then count else |text| - pos
  {
  }

  lemma JoinSlices(text: string, a: nat, b: nat, c: nat)
    requires a <= b <= c <= |text|
    ensures text[a..b] + text[b..c] == text[a..c]
  {
  }

  /** The chunks are consecutive: together they are a piece of the snapshot. */
  lemma {:induction false} ChunksAreContiguous(text: string, pos: nat, counts: seq<nat>)
    requires pos <= |text|
    ensures pos + |ReadChunks(text, pos, counts)| <= |text|
    ensures ReadChunks(text, pos, counts) == text[pos..pos + |ReadChunks(text, pos, counts)|]
    decreases |counts|
  {
    if counts != [] {
      var next := pos + |Chunk(text, pos, counts[0])|;
      ChunkIsSlice(text, pos, counts[0]);
      ChunksAreContiguous(text, next, counts[1..]);
      JoinSlices(text, pos, next, next + |ReadChunks(text, next, counts[1..])|);
    }
  }

  /** A reader that asks for a nonzero size until it gets nothing has read the snapshot. */
  lemma ChunksConcatenate(text: string, counts: seq<nat>, last: nat)
    requires last > 0
    requires Chunk(text, |ReadChunks(text, 0, counts)|, last) == []
    ensures ReadChunks(text, 0, counts) == text
  {
    ChunksAreContiguous(text, 0, counts);
  }
}
