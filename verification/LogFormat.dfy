/** Log entries and their text form, one line per entry. */
module LogFormat {
  import opened Basics
  import opened CInt

  datatype LogEntry = LogEntry(
    timestamp: U64, perfValue1: U64, perfValue2: U64, perfValue3: U64, requestedFreq: U32, cpu: U32)

  /* ---------- Numerals ---------- */

  predicate IsDigit(c: char) { '0' <= c <= '9' }

  /** %u and %llu. */
  function Decimal(n: nat): (s: string)
    ensures s != []
    ensures forall c :: c in s ==> IsDigit(c)
  {
    var last := ['0' + (n % 10) as char];
    if n < 10 then last else Decimal(n / 10) + last
  }

  lemma SmallDecimals()
    ensures Decimal(4) == "4" && Decimal(5) == "5" && Decimal(7) == "7"
    ensures Decimal(10) == "10" && Decimal(20) == "20" && Decimal(30) == "30"
  {
    assert Decimal(1) == "1" && Decimal(2) == "2" && Decimal(3) == "3";
  }

  /** No superfluous zeros in front. */
  lemma {:induction false} NoLeadingZero(n: nat)
    ensures Decimal(n)[0] == '0' <==> n == 0
  {
    if n >= 10 {
      NoLeadingZero(n / 10);
    }
  }

  predicate IsNumeral(s: string) {
    s != [] && forall c :: c in s ==> IsDigit(c)
  }

  function Value(s: string): nat
    requires forall i :: 0 <= i < |s| ==> IsDigit(s[i])
  {
    if s == [] then 0 else
      var last := s[|s| - 1];
      assert IsDigit(last);
      10 * Value(s[..|s| - 1]) + (last as int - '0' as int)
  }

  lemma {:induction false} ValueOfDecimal(n: nat)
    ensures Value(Decimal(n)) == n
  {
    var last := ['0' + (n % 10) as char];
    if n < 10 {
      assert Decimal(n)[..0] == [];
    } else {
      ValueOfDecimal(n / 10);
      assert Decimal(n)[..|Decimal(n)| - 1] == Decimal(n / 10);
    }
  }

  lemma {:induction false} DecimalLength(n: nat, digits: nat, bound: nat)
    requires digits > 0 && bound == Pow10(digits) && n < bound
    ensures |Decimal(n)| <= digits
    decreases digits
  {
    if n >= 10 {
      DecimalLength(n / 10, digits - 1, Pow10(digits - 1));
    }
  }

  function Pow10(k: nat): nat { if k == 0 then 1 else 10 * Pow10(k - 1) }

  /* ---------- Lines ---------- */

  /** Numbers separated by commas and ended by a newline. */
  function Joined(numbers: seq<nat>): string {
    if numbers == [] then []
    else Decimal(numbers[0]) + [if |numbers| == 1 then '\n' else ','] + Joined(numbers[1..])
  }

  function Line(e: LogEntry): string {
    Joined([e.cpu, e.timestamp, e.perfValue1, e.perfValue2, e.perfValue3, e.requestedFreq])
  }

  lemma LineFields(e: LogEntry)
    ensures Line(e) ==
            Decimal(e.cpu) + [','] + (Decimal(e.timestamp) + [','] + (Decimal(e.perfValue1) + [',']
            + (Decimal(e.perfValue2) + [','] + (Decimal(e.perfValue3) + [','] + (Decimal(e.requestedFreq) + ['\n'])))))
  {
    assert Joined([e.requestedFreq]) == Decimal(e.requestedFreq) + ['\n'];
    JoinedCons(e.perfValue3, [e.requestedFreq]);
    JoinedCons(e.perfValue2, [e.perfValue3, e.requestedFreq]);
    JoinedCons(e.perfValue1, [e.perfValue2, e.perfValue3, e.requestedFreq]);
    JoinedCons(e.timestamp, [e.perfValue1, e.perfValue2, e.perfValue3, e.requestedFreq]);
    JoinedCons(e.cpu, [e.timestamp, e.perfValue1, e.perfValue2, e.perfValue3, e.requestedFreq]);
    assert [e.cpu] + [e.timestamp, e.perfValue1, e.perfValue2, e.perfValue3, e.requestedFreq]
        == [e.cpu, e.timestamp, e.perfValue1, e.perfValue2, e.perfValue3, e.requestedFreq];
    assert [e.timestamp] + [e.perfValue1, e.perfValue2, e.perfValue3, e.requestedFreq]
        == [e.timestamp, e.perfValue1, e.perfValue2, e.perfValue3, e.requestedFreq];
    assert [e.perfValue1] + [e.perfValue2, e.perfValue3, e.requestedFreq]
        == [e.perfValue1, e.perfValue2, e.perfValue3, e.requestedFreq];
    assert [e.perfValue2] + [e.perfValue3, e.requestedFreq] == [e.perfValue2, e.perfValue3, e.requestedFreq];
    assert [e.perfValue3] + [e.requestedFreq] == [e.perfValue3, e.requestedFreq];
  }

  lemma JoinedCons(n: nat, rest: seq<nat>)
    requires rest != []
    ensures Joined([n] + rest) == Decimal(n) + [','] + Joined(rest)
  {
    assert ([n] + rest)[1..] == rest;
  }

  /** A line, character by character. */
  lemma LineExample()
    ensures Line(LogEntry(5, 10, 20, 30, 4, 7)) == "7,5,10,20,30,4\n"
  {
    SmallDecimals();
    LineFields(LogEntry(5, 10, 20, 30, 4, 7));
  }

  const LINE_BOUND: nat := 106
  const TEXT_BUFFER_SIZE: nat := 130

  /** No line is longer than 106 characters, whatever the values. */
  lemma LineLength(e: LogEntry)
    ensures 0 < |Line(e)| <= LINE_BOUND && LINE_BOUND == 106
  {
    LineFields(e);
    PowersOfTen();
    DecimalLength(e.cpu, 10, Pow10(10));
    DecimalLength(e.timestamp, 20, Pow10(20));
    DecimalLength(e.perfValue1, 20, Pow10(20));
    DecimalLength(e.perfValue2, 20, Pow10(20));
    DecimalLength(e.perfValue3, 20, Pow10(20));
    DecimalLength(e.requestedFreq, 10, Pow10(10));
  }

  lemma PowersOfTen()
    ensures Pow10(10) == 10_000_000_000
    ensures Pow10(20) == 100_000_000_000_000_000_000
  {
    assert Pow10(5) == 100_000;
    assert Pow10(10) == 10_000_000_000;
    assert Pow10(15) == 1_000_000_000_000_000;
  }

  /** scnprintf into a buffer of the given size keeps room for the terminator. */
  function ScnPrintf(size: nat, text: string): string
    requires size > 0
  {
    if |text| < size then text else text[..size - 1]
  }

  /** What memutil_output_element hands to the logfile. */
  function Record(e: LogEntry): string {
    ScnPrintf(TEXT_BUFFER_SIZE, Line(e))
  }

  lemma RecordIsLine(e: LogEntry)
    ensures Record(e) == Line(e)
  {
    LineLength(e);
  }

  /* ---------- Reading a line back ---------- */

  function ParseNumber(s: string, bound: nat): Option<nat> {
    if IsNumeral(s) && Value(s) < bound then Some(Value(s)) else None
  }

  function ParseLine(line: string): Option<LogEntry> {
    var r1 := After(line, ',');
    var r2 := After(r1, ',');
    var r3 := After(r2, ',');
    var r4 := After(r3, ',');
    var r5 := After(r4, ',');
    match (ParseNumber(Before(line, ','), TWO32), ParseNumber(Before(r1, ','), TWO64),
           ParseNumber(Before(r2, ','), TWO64), ParseNumber(Before(r3, ','), TWO64),
           ParseNumber(Before(r4, ','), TWO64), ParseNumber(Before(r5, '\n'), TWO32))
    case (Some(cpu), Some(time), Some(v1), Some(v2), Some(v3), Some(freq)) =>
      Some(LogEntry(time, v1, v2, v3, freq, cpu))
    case _ => None
  }

  lemma NumberField(n: nat, bound: nat, c: char, rest: string)
    requires n < bound && !IsDigit(c)
    ensures var s := Decimal(n) + [c] + rest;
            ParseNumber(Before(s, c), bound) == Some(n) && After(s, c) == rest
  {
    SplitAtFirst(Decimal(n), c, rest);
    ValueOfDecimal(n);
  }

  /** A line determines its entry. */
  lemma ParseLineRoundTrip(e: LogEntry)
    ensures ParseLine(Line(e)) == Some(e)
  {
    LineFields(e);
    var t5 := Decimal(e.requestedFreq) + ['\n'];
    var t4 := Decimal(e.perfValue3) + [','] + t5;
    var t3 := Decimal(e.perfValue2) + [','] + t4;
    var t2 := Decimal(e.perfValue1) + [','] + t3;
    var t1 := Decimal(e.timestamp) + [','] + t2;
    NumberField(e.cpu, TWO32, ',', t1);
    NumberField(e.timestamp, TWO64, ',', t2);
    NumberField(e.perfValue1, TWO64, ',', t3);
    NumberField(e.perfValue2, TWO64, ',', t4);
    NumberField(e.perfValue3, TWO64, ',', t5);
    NumberField(e.requestedFreq, TWO32, '\n', []);
    assert Decimal(e.requestedFreq) + ['\n'] + [] == t5;
  }

  /* ---------- Whole logs ---------- */

  function Text(es: seq<LogEntry>): string {
    if es == [] then [] else Line(es[0]) + Text(es[1..])
  }

  lemma {:induction false} TextConcat(a: seq<LogEntry>, b: seq<LogEntry>)
    ensures Text(a + b) == Text(a) + Text(b)
  {
    if a == [] {
      assert a + b == b;
    } else {
      assert (a + b)[0] == a[0] && (a + b)[1..] == a[1..] + b;
      TextConcat(a[1..], b);
    }
  }

  lemma {:induction false} TextLength(es: seq<LogEntry>)
    ensures |Text(es)| <= LINE_BOUND * |es|
  {
    if es != [] {
      LineLength(es[0]);
      TextLength(es[1..]);
    }
  }

  /** The lines of a text, each with its newline. */
  function Lines(text: string): seq<string>
    decreases |text|
  {
    if text == [] then [] else [Before(text, '\n') + ['\n']] + Lines(After(text, '\n'))
  }

  lemma LineEndsOnce(e: LogEntry)
    ensures Line(e) != [] && Line(e)[|Line(e)| - 1] == '\n' && '\n' !in Line(e)[..|Line(e)| - 1]
  {
    LineFields(e);
    var body := Line(e)[..|Line(e)| - 1];
    assert body == Decimal(e.cpu) + [','] + (Decimal(e.timestamp) + [','] + (Decimal(e.perfValue1) + [',']
      + (Decimal(e.perfValue2) + [','] + (Decimal(e.perfValue3) + [','] + Decimal(e.requestedFreq)))));
    assert !IsDigit('\n');
  }

  function LineSeq(es: seq<LogEntry>): seq<string> {
    if es == [] then [] else [Line(es[0])] + LineSeq(es[1..])
  }

  lemma LinesCons(e: LogEntry, rest: string)
    ensures Lines(Line(e) + rest) == [Line(e)] + Lines(rest)
  {
    var line := Line(e);
    LineEndsOnce(e);
    var body := line[..|line| - 1];
    assert line == body + ['\n'];
    SplitAtFirst(body, '\n', rest);
  }

  lemma {:induction false} LinesOfText(es: seq<LogEntry>)
    ensures Lines(Text(es)) == LineSeq(es)
  {
    if es != [] {
      LinesCons(es[0], Text(es[1..]));
      LinesOfText(es[1..]);
    }
  }

  function ParseLines(lines: seq<string>): Option<seq<LogEntry>> {
    if lines == [] then Some([])
    else match (ParseLine(lines[0]), ParseLines(lines[1..]))
         case (Some(e), Some(es)) => Some([e] + es)
         case _ => None
  }

  lemma {:induction false} ParseLineSeq(es: seq<LogEntry>)
    ensures ParseLines(LineSeq(es)) == Some(es)
  {
    if es != [] {
      ParseLineRoundTrip(es[0]);
      ParseLineSeq(es[1..]);
      assert [es[0]] + es[1..] == es;
      assert LineSeq(es)[0] == Line(es[0]) && LineSeq(es)[1..] == LineSeq(es[1..]);
    }
  }

  /** Reading a whole log back gives every entry, in order. */
  lemma ParseLogRoundTrip(es: seq<LogEntry>)
    ensures ParseLines(Lines(Text(es))) == Some(es)
  {
    LinesOfText(es);
    ParseLineSeq(es);
  }

  /* ---------- One log per core: grep "^<cpu>," ---------- */

  function Grep(prefix: string, lines: seq<string>): string {
    if lines == [] then []
    else (if prefix <= lines[0] then lines[0] else []) + Grep(prefix, lines[1..])
  }

  function OfCpu(es: seq<LogEntry>, cpu: U32): seq<LogEntry> {
    if es == [] then [] else (if es[0].cpu == cpu then [es[0]] else []) + OfCpu(es[1..], cpu)
  }

  lemma PrefixMeansCpu(e: LogEntry, cpu: U32)
    ensures Decimal(cpu) + [','] <= Line(e) <==> e.cpu == cpu
  {
    var numbers := [e.timestamp, e.perfValue1, e.perfValue2, e.perfValue3, e.requestedFreq];
    var rest := Joined(numbers);
    JoinedCons(e.cpu, numbers);
    assert [e.cpu] + numbers == [e.cpu, e.timestamp, e.perfValue1, e.perfValue2, e.perfValue3, e.requestedFreq];
    assert Line(e) == Decimal(e.cpu) + [','] + rest;
    SplitAtFirst(Decimal(e.cpu), ',', rest);
    ValueOfDecimal(e.cpu);
    ValueOfDecimal(cpu);
    var p := Decimal(cpu) + [','];
    if p <= Line(e) {
      assert Line(e) == Decimal(cpu) + [','] + Line(e)[|p|..];
      SplitAtFirst(Decimal(cpu), ',', Line(e)[|p|..]);
    }
  }

  lemma {:induction false} GrepLineSeq(es: seq<LogEntry>, cpu: U32)
    ensures Grep(Decimal(cpu) + [','], LineSeq(es)) == Text(OfCpu(es, cpu))
  {
    if es != [] {
      PrefixMeansCpu(es[0], cpu);
      GrepLineSeq(es[1..], cpu);
      assert LineSeq(es)[0] == Line(es[0]) && LineSeq(es)[1..] == LineSeq(es[1..]);
      TextCons(es[0], OfCpu(es[1..], cpu));
      assert [] + OfCpu(es[1..], cpu) == OfCpu(es[1..], cpu);
      assert [] + Text(OfCpu(es[1..], cpu)) == Text(OfCpu(es[1..], cpu));
    }
  }

  lemma TextCons(e: LogEntry, es: seq<LogEntry>)
    ensures Text([e] + es) == Line(e) + Text(es)
  {
    assert ([e] + es)[1..] == es;
  }

  /** The per-core file holds exactly that core's entries, in order. */
  lemma GrepSelectsCpu(es: seq<LogEntry>, cpu: U32)
    ensures Grep(Decimal(cpu) + [','], Lines(Text(es))) == Text(OfCpu(es, cpu))
  {
    LinesOfText(es);
    GrepLineSeq(es, cpu);
  }
}
