/** The in-place tokenizer for platform event strings, key=value(,key=value)*, which cuts the
    string by overwriting its delimiters and remembers where the pieces start. */
module EventTokenizer {
  import opened Basics
  import opened EventConfig

  const PARSE_EVENT_MAX_PAIRS: nat := 8
  const NUL: char := '\0'

  /* ---------- The grammar and its printer ---------- */

  /* The loop steps over the character behind a delimiter without looking at it. So a value
     may start with a comma, and a key other than the first with an equals sign, but
     neither may be empty. */

  /** A word that a delimiter d can end, with its first character exempt or not. */
  predicate Word(w: string, d: char, exempt: bool) {
    NUL !in w && if exempt then w != [] && d !in w[1..] else d !in w
  }

  predicate KeyOk(key: string, first: bool) { Word(key, '=', !first) }

  predicate ValueOk(value: string) { Word(value, ',', true) }

  predicate GoodFrom(ps: seq<Pair>, first: bool) {
    ps != [] && forall i :: 0 <= i < |ps| ==> KeyOk(ps[i].key, first && i == 0) && ValueOk(ps[i].value)
  }

  predicate PairsOk(ps: seq<Pair>) { GoodFrom(ps, true) }

  function Print(ps: seq<Pair>): string
    decreases ps, 1
  {
    if ps == [] then [] else ps[0].key + (['='] + (ps[0].value + Behind(ps)))
  }

  /** What is printed behind the first value. */
  function Behind(ps: seq<Pair>): string
    requires ps != []
    decreases ps, 0
  {
    if |ps| == 1 then [] else [','] + Print(ps[1..])
  }

  /** The word at the start of s, which the first d ends that is not exempt. */
  predicate Ended(s: string, d: char, exempt: bool) {
    if exempt then s != [] && d in s[1..] else d in s
  }

  function WordOf(s: string, d: char, exempt: bool): string {
    if exempt && s != [] then [s[0]] + Before(s[1..], d) else Before(s, d)
  }

  function BehindWord(s: string, d: char, exempt: bool): (r: string)
    ensures |r| <= |s| && (s != [] ==> |r| < |s|)
  {
    if exempt && s != [] then After(s[1..], d) else After(s, d)
  }

  /** The strings of which the tokenizer finds every key and value, and the pairs they list. */
  predicate Listing(s: string, first: bool)
    decreases |s|
  {
    var rest := BehindWord(s, '=', !first);
    && Ended(s, '=', !first) && KeyOk(WordOf(s, '=', !first), first) && ValueOk(WordOf(rest, ',', true))
    && (Ended(rest, ',', true) ==> Listing(BehindWord(rest, ',', true), false))
  }

  function Pieces(s: string, first: bool): (ps: seq<Pair>)
    requires Listing(s, first)
    ensures ps != []
    decreases |s|
  {
    var rest := BehindWord(s, '=', !first);
    [Pair(WordOf(s, '=', !first), WordOf(rest, ',', true))]
    + if Ended(rest, ',', true) then Pieces(BehindWord(rest, ',', true), false) else []
  }

  predicate Grammar(s: string) { Listing(s, true) }

  function Split(s: string): seq<Pair>
    requires Grammar(s)
  {
    Pieces(s, true)
  }

  lemma {:induction false} BeforeAll(s: string, c: char)
    requires c !in s
    ensures Before(s, c) == s
  {
    if s != [] {
      BeforeAll(s[1..], c);
    }
  }

  lemma {:induction false} Rejoin(s: string, c: char)
    requires c in s
    ensures s == Before(s, c) + ([c] + After(s, c)) && c !in Before(s, c)
  {
    if s[0] != c {
      Rejoin(s[1..], c);
    }
  }

  lemma SplitAt(p: string, c: char, rest: string)
    requires c !in p
    ensures var s := p + ([c] + rest); c in s && Before(s, c) == p && After(s, c) == rest
  {
    SplitAtFirst(p, c, rest);
    assert p + ([c] + rest) == p + [c] + rest;
    assert (p + [c] + rest)[|p|] == c;
  }

  /** A word and its delimiter can be taken off again ... */
  lemma WordAt(w: string, d: char, exempt: bool, rest: string)
    requires Word(w, d, exempt)
    ensures var s := w + ([d] + rest);
            Ended(s, d, exempt) && WordOf(s, d, exempt) == w && BehindWord(s, d, exempt) == rest
  {
    var s := w + ([d] + rest);
    if exempt {
      SplitAt(w[1..], d, rest);
      assert s[1..] == w[1..] + ([d] + rest);
    } else {
      SplitAt(w, d, rest);
    }
  }

  lemma LastWord(w: string, d: char)
    requires Word(w, d, true)
    ensures !Ended(w, d, true) && WordOf(w, d, true) == w
  {
    BeforeAll(w[1..], d);
  }

  /** ... and put back. */
  lemma RejoinWord(s: string, d: char, exempt: bool)
    requires Ended(s, d, exempt)
    ensures s == WordOf(s, d, exempt) + ([d] + BehindWord(s, d, exempt))
  {
    if exempt {
      Rejoin(s[1..], d);
      assert s == [s[0]] + s[1..];
    } else {
      Rejoin(s, d);
    }
  }

  lemma RestOk(q: seq<Pair>, first: bool)
    requires GoodFrom(q, first) && |q| > 1
    ensures GoodFrom(q[1..], false)
  {
    assert forall i :: 0 <= i < |q[1..]| ==> q[1..][i] == q[i + 1];
  }

  lemma {:induction false} PiecesPrint(ps: seq<Pair>, first: bool)
    requires GoodFrom(ps, first)
    ensures Listing(Print(ps), first) && Pieces(Print(ps), first) == ps
  {
    var p := ps[0];
    assert KeyOk(p.key, first) && ValueOk(p.value);
    WordAt(p.key, '=', !first, p.value + Behind(ps));
    if |ps| == 1 {
      assert p.value + [] == p.value;
      LastWord(p.value, ',');
      assert ps == [p];
    } else {
      WordAt(p.value, ',', true, Print(ps[1..]));
      RestOk(ps, first);
      PiecesPrint(ps[1..], false);
      assert ps == [p] + ps[1..];
    }
  }

  /** Splitting undoes printing ... */
  lemma SplitPrint(ps: seq<Pair>)
    requires PairsOk(ps)
    ensures Grammar(Print(ps)) && Split(Print(ps)) == ps
  {
    PiecesPrint(ps, true);
  }

  lemma ConsOk(p: Pair, tail: seq<Pair>, first: bool)
    requires KeyOk(p.key, first) && ValueOk(p.value) && (tail == [] || GoodFrom(tail, false))
    ensures GoodFrom([p] + tail, first)
    ensures Print([p] + tail) == p.key + (['='] + (p.value + (if tail == [] then [] else [','] + Print(tail))))
  {
    assert ([p] + tail)[1..] == tail;
  }

  lemma {:induction false} PrintPieces(s: string, first: bool)
    requires Listing(s, first)
    ensures GoodFrom(Pieces(s, first), first) && Print(Pieces(s, first)) == s
    decreases |s|
  {
    var rest := BehindWord(s, '=', !first);
    var p := Pair(WordOf(s, '=', !first), WordOf(rest, ',', true));
    RejoinWord(s, '=', !first);
    if Ended(rest, ',', true) {
      var more := BehindWord(rest, ',', true);
      RejoinWord(rest, ',', true);
      PrintPieces(more, false);
      ConsOk(p, Pieces(more, false), first);
    } else {
      BeforeAll(rest[1..], ',');
      ConsOk(p, [], first);
      assert p.value + [] == rest;
    }
  }

  /** ... and printing undoes splitting: the grammar is exactly the printed lists. */
  lemma PrintSplit(s: string)
    requires Grammar(s)
    ensures PairsOk(Split(s)) && Print(Split(s)) == s
  {
    PrintPieces(s, true);
  }

  /* ---------- What becomes of any string ---------- */

  /** How the loop ends: it reads outside the buffer, it refuses a ninth pair, it comes to the
      end inside a key, or it comes to the end inside a value, with all pairs found. */
  datatype Outcome = OutOfBounds | Refused | Unfinished | Finished

  function LoopOutcome(buffer: seq<char>, c: nat, isReadingKey: bool, pairIndex: nat): Outcome
    decreases |buffer| - c
  {
    if c >= |buffer| then OutOfBounds
    else if buffer[c] == NUL then if isReadingKey then Unfinished else Finished
    else if isReadingKey && buffer[c] == '=' then LoopOutcome(buffer[c := NUL], c + 2, false, pairIndex)
    else if !isReadingKey && buffer[c] == ',' then
      if pairIndex + 1 >= PARSE_EVENT_MAX_PAIRS then Refused
      else LoopOutcome(buffer[c := NUL], c + 2, true, pairIndex + 1)
    else LoopOutcome(buffer, c + 1, isReadingKey, pairIndex)
  }

  function Delimiter(isReadingKey: bool): char { if isReadingKey then '=' else ',' }

  function NextIndex(isReadingKey: bool, pairIndex: nat): nat { if isReadingKey then pairIndex else pairIndex + 1 }

  /** Every delimiter that ends a key or a value is followed by a character, except that
      nothing is needed behind the comma after the eighth pair. */
  predicate Followed(s: string, isReadingKey: bool, pairIndex: nat)
    decreases |s|
  {
    var d, n := Delimiter(isReadingKey), NextIndex(isReadingKey, pairIndex);
    d in s ==> n >= PARSE_EVENT_MAX_PAIRS || (After(s, d) != [] && Followed(After(s, d)[1..], !isReadingKey, n))
  }

  /** There is a comma after the eighth pair. */
  predicate Overfull(s: string, isReadingKey: bool, pairIndex: nat)
    decreases |s|
  {
    var d, n := Delimiter(isReadingKey), NextIndex(isReadingKey, pairIndex);
    d in s && (n >= PARSE_EVENT_MAX_PAIRS || (After(s, d) != [] && Overfull(After(s, d)[1..], !isReadingKey, n)))
  }

  /** The outcome, read off delimiter by delimiter. */
  function Verdict(s: string, isReadingKey: bool, pairIndex: nat): Outcome
    decreases |s|
  {
    var d, n := Delimiter(isReadingKey), NextIndex(isReadingKey, pairIndex);
    if d !in s then if isReadingKey then Unfinished else Finished
    else if n >= PARSE_EVENT_MAX_PAIRS then Refused
    else if After(s, d) == [] then OutOfBounds
    else Verdict(After(s, d)[1..], !isReadingKey, n)
  }

  lemma {:induction false} OutcomeIsVerdict(buffer: seq<char>, c: nat, s: string, isReadingKey: bool, pairIndex: nat)
    requires NUL !in s && c < |buffer| && buffer[c..] == s + [NUL] && pairIndex < PARSE_EVENT_MAX_PAIRS
    ensures LoopOutcome(buffer, c, isReadingKey, pairIndex) == Verdict(s, isReadingKey, pairIndex)
    decreases |s|
  {
    var d, n := Delimiter(isReadingKey), NextIndex(isReadingKey, pairIndex);
    assert buffer[c] == buffer[c..][0];
    if s != [] {
      assert buffer[c + 1..] == buffer[c..][1..] == s[1..] + [NUL];
      if s[0] != d {
        OutcomeIsVerdict(buffer, c + 1, s[1..], isReadingKey, pairIndex);
        assert d in s <==> d in s[1..];
      } else if |s| > 1 && n < PARSE_EVENT_MAX_PAIRS {
        assert buffer[c := NUL][c + 2..] == buffer[c + 1..][1..] == s[1..][1..] + [NUL];
        OutcomeIsVerdict(buffer[c := NUL], c + 2, s[1..][1..], !isReadingKey, n);
      }
    }
  }

  lemma {:induction false} VerdictIff(s: string, isReadingKey: bool, pairIndex: nat)
    requires pairIndex < PARSE_EVENT_MAX_PAIRS
    ensures Verdict(s, isReadingKey, pairIndex) != OutOfBounds <==> Followed(s, isReadingKey, pairIndex)
    ensures Verdict(s, isReadingKey, pairIndex) == Refused <==> Overfull(s, isReadingKey, pairIndex)
    decreases |s|
  {
    var d, n := Delimiter(isReadingKey), NextIndex(isReadingKey, pairIndex);
    if d in s && n < PARSE_EVENT_MAX_PAIRS && After(s, d) != [] {
      VerdictIff(After(s, d)[1..], !isReadingKey, n);
    }
  }

  lemma NoNulBehind(s: string, d: char)
    requires NUL !in s && d in s
    ensures NUL !in Before(s, d) && NUL !in After(s, d)
  {
    Rejoin(s, d);
    assert forall x :: x in Before(s, d) || x in After(s, d) ==> x in s;
  }

  lemma KeyPart(s: string, first: bool)
    requires NUL !in s && (first || s != [])
    ensures var t := if first then s else s[1..];
            && (Ended(s, '=', !first) <==> '=' in t)
            && ('=' in t ==>
                  && BehindWord(s, '=', !first) == After(t, '=') && NUL !in After(t, '=')
                  && KeyOk(WordOf(s, '=', !first), first))
  {
    var t := if first then s else s[1..];
    if '=' in t {
      NoNulBehind(t, '=');
      Rejoin(t, '=');
    }
  }

  lemma ValuePart(rest: string)
    requires NUL !in rest && rest != []
    ensures ValueOk(WordOf(rest, ',', true)) && (Ended(rest, ',', true) <==> ',' in rest[1..])
    ensures ',' in rest[1..] ==> BehindWord(rest, ',', true) == After(rest[1..], ',') && NUL !in After(rest[1..], ',')
  {
    if ',' in rest[1..] {
      NoNulBehind(rest[1..], ',');
      Rejoin(rest[1..], ',');
    } else {
      BeforeAll(rest[1..], ',');
    }
  }

  /** The loop finds all pairs exactly if the grammar lists at most eight, and refuses a
      longer list. */
  predicate Agrees(verdict: Outcome, s: string, first: bool, pairIndex: nat) {
    && (verdict == Finished ==> Listing(s, first))
    && (Listing(s, first) ==>
          verdict == if pairIndex + |Pieces(s, first)| <= PARSE_EVENT_MAX_PAIRS then Finished else Refused)
  }

  /** One pair of it; `rest` is what follows the key, `more` what follows the pair. */
  lemma OnePairAgrees(s: string, first: bool, pairIndex: nat, rest: string, more: string)
    requires NUL !in s && (first || s != []) && pairIndex < PARSE_EVENT_MAX_PAIRS && Ended(s, '=', !first)
    requires rest == BehindWord(s, '=', !first) && KeyOk(WordOf(s, '=', !first), first)
    requires rest != [] && ValueOk(WordOf(rest, ',', true)) && Ended(rest, ',', true)
    requires more == BehindWord(rest, ',', true) == After(rest[1..], ',')
    requires pairIndex + 1 < PARSE_EVENT_MAX_PAIRS && more != [] ==>
               Agrees(Verdict(more[1..], true, pairIndex + 1), more, false, pairIndex + 1)
    ensures Agrees(Verdict(rest[1..], false, pairIndex), s, first, pairIndex)
  {
    assert !Listing([], false);
    assert Listing(s, first) <==> Listing(more, false);
    if Listing(s, first) {
      assert Pieces(s, first) == [Pair(WordOf(s, '=', !first), WordOf(rest, ',', true))] + Pieces(more, false);
    }
  }

  /** The last pair: nothing ends its value. */
  lemma LastPairAgrees(s: string, first: bool, pairIndex: nat, rest: string)
    requires pairIndex < PARSE_EVENT_MAX_PAIRS && Ended(s, '=', !first)
    requires rest == BehindWord(s, '=', !first) && KeyOk(WordOf(s, '=', !first), first)
    requires rest != [] && ValueOk(WordOf(rest, ',', true)) && !Ended(rest, ',', true)
    ensures Agrees(Verdict(rest[1..], false, pairIndex), s, first, pairIndex)
  {
    assert Pieces(s, first) == [Pair(WordOf(s, '=', !first), WordOf(rest, ',', true))];
  }

  lemma {:induction false} VerdictOfListing(s: string, first: bool, pairIndex: nat)
    requires NUL !in s && (first || s != []) && pairIndex < PARSE_EVENT_MAX_PAIRS
    ensures Agrees(Verdict(if first then s else s[1..], true, pairIndex), s, first, pairIndex)
    decreases |s|
  {
    var t := if first then s else s[1..];
    KeyPart(s, first);
    if '=' !in t || After(t, '=') == [] {
      assert !Listing(s, first);
    } else {
      var rest := After(t, '=');
      assert Verdict(t, true, pairIndex) == Verdict(rest[1..], false, pairIndex);
      ValuePart(rest);
      if Ended(rest, ',', true) {
        var more := After(rest[1..], ',');
        if more != [] && pairIndex + 1 < PARSE_EVENT_MAX_PAIRS {
          VerdictOfListing(more, false, pairIndex + 1);
        }
        OnePairAgrees(s, first, pairIndex, rest, more);
      } else {
        LastPairAgrees(s, first, pairIndex, rest);
      }
    }
  }

  /** For every string, how the loop ends, in terms of the string alone. */
  lemma EveryOutcome(s: string)
    requires NUL !in s
    ensures var outcome := LoopOutcome(s + [NUL], 0, true, 0);
            && (outcome == OutOfBounds <==> !Followed(s, true, 0))
            && (outcome == Refused <==> Overfull(s, true, 0))
            && (outcome == Finished <==> Grammar(s) && |Split(s)| <= 8)
  {
    assert (s + [NUL])[0..] == s + [NUL];
    OutcomeIsVerdict(s + [NUL], 0, s, true, 0);
    VerdictIff(s, true, 0);
    VerdictOfListing(s, true, 0);
  }

  /** A string and its pairs. */
  lemma SplitExample()
    ensures Grammar("event=0x2,umask=1")
    ensures Split("event=0x2,umask=1") == [Pair("event", "0x2"), Pair("umask", "1")]
  {
    var ps := [Pair("event", "0x2"), Pair("umask", "1")];
    assert ps[1..] == [Pair("umask", "1")];
    assert Print(ps[1..]) == "umask" + ("=" + ("1" + [])) == "umask=1";
    assert Print(ps) == "event" + ("=" + ("0x2" + ("," + "umask=1"))) == "event=0x2,umask=1";
    SplitPrint(ps);
  }

  /** An equals sign at the end makes the loop read outside the buffer. */
  lemma OutOfBoundsExample()
    ensures LoopOutcome("a=" + [NUL], 0, true, 0) == OutOfBounds
  {
    var s := "a=";
    assert s[1..] == "=" && "="[1..] == [];
    assert After(s, '=') == After("=", '=') == [];
    EveryOutcome(s);
  }

  lemma {:induction false} PrintHasNoNul(ps: seq<Pair>, first: bool)
    requires GoodFrom(ps, first)
    ensures NUL !in Print(ps)
  {
    assert KeyOk(ps[0].key, first) && ValueOk(ps[0].value);
    if |ps| > 1 {
      RestOk(ps, first);
      PrintHasNoNul(ps[1..], false);
    }
  }

  /** A string of the grammar is refused exactly for more than eight pairs. */
  lemma GrammarOutcome(s: string)
    requires Grammar(s)
    ensures NUL !in s && Followed(s, true, 0)
    ensures Overfull(s, true, 0) <==> |Split(s)| > 8
  {
    PrintSplit(s);
    PrintHasNoNul(Split(s), true);
    VerdictIff(s, true, 0);
    VerdictOfListing(s, true, 0);
  }

  /* ---------- The in-place loop ---------- */

  /** Text w stands at position p. */
  predicate At(s: string, p: nat, w: string) {
    p + |w| <= |s| && s[p..p + |w|] == w
  }

  /** A string in the buffer: text w at p, ended by a NUL. */
  predicate Spells(buffer: seq<char>, p: nat, w: string) {
    At(buffer, p, w) && p + |w| < |buffer| && buffer[p + |w|] == NUL
  }

  /** The C string at p. */
  function CString(buffer: seq<char>, p: nat): string
    requires p <= |buffer|
  {
    Before(buffer[p..], NUL)
  }

  predicate Holds(buffer: seq<char>, p: nat, w: string) {
    p <= |buffer| && CString(buffer, p) == w
  }

  lemma SpellsIsCString(buffer: seq<char>, p: nat, w: string)
    requires Spells(buffer, p, w) && NUL !in w
    ensures Holds(buffer, p, w)
  {
    SplitAtFirst(w, NUL, buffer[p + |w| + 1..]);
    assert buffer[p..] == w + [NUL] + buffer[p + |w| + 1..];
  }

  /** The first n pairs have been cut out of the part of the buffer already scanned. */
  predicate Cut(scanned: seq<char>, keys: seq<nat>, values: seq<nat>, ps: seq<Pair>, n: nat) {
    && n <= |keys| && n <= |values| && n <= |ps|
    && forall i :: 0 <= i < n ==> Spells(scanned, keys[i], ps[i].key) && Spells(scanned, values[i], ps[i].value)
  }

  lemma SpellsMore(scanned: seq<char>, more: seq<char>, p: nat, w: string)
    requires Spells(scanned, p, w)
    ensures Spells(scanned + more, p, w)
  {
    assert (scanned + more)[p..p + |w|] == scanned[p..p + |w|];
  }

  lemma CutMore(scanned: seq<char>, more: seq<char>, keys: seq<nat>, values: seq<nat>, ps: seq<Pair>, n: nat)
    requires Cut(scanned, keys, values, ps, n)
    ensures Cut(scanned + more, keys, values, ps, n)
  {
    forall i | 0 <= i < n
      ensures Spells(scanned + more, keys[i], ps[i].key) && Spells(scanned + more, values[i], ps[i].value)
    {
      SpellsMore(scanned, more, keys[i], ps[i].key);
      SpellsMore(scanned, more, values[i], ps[i].value);
    }
  }

  lemma Piece(s: string, k: nat, w: string, tail: string)
    requires k <= |s| && s[k..] == w + tail
    ensures At(s, k, w) && s[k + |w|..] == tail
  {
    assert s[k..k + |w|] == s[k..][..|w|];
    assert s[k + |w|..] == s[k..][|w|..];
  }

  lemma ThreePieces(s: string, k: nat, key: string, value: string, more: string)
    requires k <= |s| && s[k..] == key + (['='] + (value + more))
    ensures var v := k + |key| + 1;
            At(s, k, key) && v <= |s| && s[v - 1] == '=' && At(s, v, value) && s[v + |value|..] == more
  {
    Piece(s, k, key, ['='] + (value + more));
    Piece(s, k + |key|, ['='], value + more);
    assert s[k + |key|] == s[k + |key|..k + |key| + 1][0];
    Piece(s, k + |key| + 1, value, more);
  }

  lemma CommaAt(s: string, e: nat, tail: string)
    requires e <= |s| && s[e..] == [','] + tail
    ensures e < |s| && s[e] == ',' && s[e + 1..] == tail
  {
    assert s[e] == s[e..][0];
    assert s[e + 1..] == s[e..][1..];
  }

  /** Where the pieces of the first pair of q are, when the rest of s is q printed. */
  lemma FirstPair(s: string, k: nat, q: seq<Pair>, first: bool)
    requires GoodFrom(q, first) && k <= |s| && s[k..] == Print(q)
    ensures var v := k + |q[0].key| + 1; var e := v + |q[0].value|;
            && At(s, k, q[0].key) && e <= |s| && s[v - 1] == '=' && At(s, v, q[0].value)
            && (|q| == 1 ==> e == |s|)
            && (|q| > 1 ==> GoodFrom(q[1..], false) && e < |s| && s[e] == ',' && s[e + 1..] == Print(q[1..]))
  {
    var key, value := q[0].key, q[0].value;
    ThreePieces(s, k, key, value, Behind(q));
    BehindFirst(s, k + |key| + 1 + |value|, q, first);
  }

  lemma BehindFirst(s: string, e: nat, q: seq<Pair>, first: bool)
    requires GoodFrom(q, first) && e <= |s| && s[e..] == Behind(q)
    ensures |q| == 1 ==> e == |s|
    ensures |q| > 1 ==> GoodFrom(q[1..], false) && e < |s| && s[e] == ',' && s[e + 1..] == Print(q[1..])
  {
    if |q| > 1 {
      RestOk(q, first);
      CommaAt(s, e, Print(q[1..]));
    }
  }

  /** What the loop knows in between; k is where the current key starts. */
  ghost predicate Scanning(s: string, scanned: seq<char>, keys: seq<nat>, values: seq<nat>, ps: seq<Pair>,
                           pairIndex: nat, isReadingKey: bool)
  {
    && PairsOk(ps) && pairIndex < |ps| && pairIndex < |keys| && pairIndex < |values|
    && Cut(scanned, keys, values, ps, pairIndex)
    && var k := keys[pairIndex];
       var p := ps[pairIndex];
       var v := k + |p.key| + 1;
       && k <= |s| && s[k..] == Print(ps[pairIndex..])
       && |scanned| <= |s|
       && if isReadingKey then (if pairIndex == 0 then k else k + 1) <= |scanned| < v && scanned[k..] == s[k..|scanned|]
          else values[pairIndex] == v < |scanned| <= v + |p.value| && Spells(scanned, k, p.key)
               && scanned[v..] == s[v..|scanned|]
  }

  lemma OkFrom(ps: seq<Pair>, i: nat)
    requires PairsOk(ps) && i < |ps|
    ensures GoodFrom(ps[i..], i == 0) && ps[i..][0] == ps[i] && ps[i..][1..] == ps[i + 1..]
  {
  }

  /** Which characters can come next. */
  lemma NextCharacter(s: string, scanned: seq<char>, keys: seq<nat>, values: seq<nat>, ps: seq<Pair>,
                      pairIndex: nat, isReadingKey: bool)
    requires Scanning(s, scanned, keys, values, ps, pairIndex, isReadingKey)
    ensures var c, p := |scanned|, ps[pairIndex];
            var v := keys[pairIndex] + |p.key| + 1;
            && (isReadingKey ==> c < |s| && s[c] != NUL && (s[c] == '=' <==> c + 1 == v) && v < |s|)
            && (!isReadingKey && c < v + |p.value| ==> c < |s| && s[c] != NUL && s[c] != ',')
            && (!isReadingKey && c == v + |p.value| && pairIndex + 1 < |ps| ==>
                  c + 1 < |s| && s[c] == ',' && s[c + 1..] == Print(ps[pairIndex + 1..]))
            && (!isReadingKey && c == v + |p.value| && pairIndex + 1 == |ps| ==> c == |s|)
  {
    var k, c, p := keys[pairIndex], |scanned|, ps[pairIndex];
    var v := k + |p.key| + 1;
    OkFrom(ps, pairIndex);
    FirstPair(s, k, ps[pairIndex..], pairIndex == 0);
    assert KeyOk(p.key, pairIndex == 0) && ValueOk(p.value);
    if isReadingKey && c + 1 < v {
      assert s[c] == p.key[c - k];
      assert pairIndex > 0 ==> s[c] == p.key[1..][c - k - 1];
    }
    if !isReadingKey && c < v + |p.value| {
      assert s[c] == p.value[c - v] == p.value[1..][c - v - 1];
    }
    if pairIndex + 1 < |ps| {
      OkFrom(ps, pairIndex + 1);
      assert Print(ps[pairIndex + 1..]) != [];
    }
  }

  lemma SliceMore(s: string, scanned: seq<char>, from: nat)
    requires from <= |scanned| < |s| && scanned[from..] == s[from..|scanned|]
    ensures (scanned + [s[|scanned|]])[from..] == s[from..|scanned| + 1]
  {
    assert (scanned + [s[|scanned|]])[from..] == scanned[from..] + [s[|scanned|]];
    assert s[from..|scanned| + 1] == s[from..|scanned|] + [s[|scanned|]];
  }

  /** The buffer after a step: the scanned part, then the untouched rest of the text. */
  predicate Buffered(buffer: seq<char>, scanned: seq<char>, s: string) {
    |scanned| <= |s| && buffer == scanned + s[|scanned|..] + [NUL]
  }

  lemma BufferedNext(buffer: seq<char>, scanned: seq<char>, s: string)
    requires Buffered(buffer, scanned, s)
    ensures |scanned| < |buffer| && buffer[|scanned|] == if |scanned| < |s| then s[|scanned|] else NUL
    ensures |scanned| < |s| ==> Buffered(buffer, scanned + [s[|scanned|]], s)
    ensures |scanned| + 1 < |s| ==> Buffered(buffer[|scanned| := NUL], scanned + [NUL, s[|scanned| + 1]], s)
  {
    var c := |scanned|;
    if c < |s| {
      assert s[c..] == [s[c]] + s[c + 1..];
    }
    if c + 1 < |s| {
      assert s[c..] == [s[c]] + [s[c + 1]] + s[c + 2..];
      assert buffer[c := NUL] == scanned + [NUL, s[c + 1]] + s[c + 2..] + [NUL];
    }
  }

  lemma ScanPlain(s: string, scanned: seq<char>, keys: seq<nat>, values: seq<nat>, ps: seq<Pair>,
                  pairIndex: nat, isReadingKey: bool)
    requires Scanning(s, scanned, keys, values, ps, pairIndex, isReadingKey)
    requires |scanned| < |s| && s[|scanned|] != (if isReadingKey then '=' else ',')
    ensures Scanning(s, scanned + [s[|scanned|]], keys, values, ps, pairIndex, isReadingKey)
  {
    var next := [s[|scanned|]];
    NextCharacter(s, scanned, keys, values, ps, pairIndex, isReadingKey);
    CutMore(scanned, next, keys, values, ps, pairIndex);
    var k := keys[pairIndex];
    if isReadingKey {
      SliceMore(s, scanned, k);
    } else {
      SpellsMore(scanned, next, k, ps[pairIndex].key);
      SliceMore(s, scanned, values[pairIndex]);
    }
  }

  lemma ScanEquals(s: string, scanned: seq<char>, keys: seq<nat>, values: seq<nat>, ps: seq<Pair>, pairIndex: nat)
    requires Scanning(s, scanned, keys, values, ps, pairIndex, true)
    requires s[|scanned|] == '='
    ensures |scanned| + 1 < |s|
    ensures Scanning(s, scanned + [NUL, s[|scanned| + 1]], keys, values[pairIndex := |scanned| + 1], ps,
                     pairIndex, false)
  {
    var c, k := |scanned|, keys[pairIndex];
    NextCharacter(s, scanned, keys, values, ps, pairIndex, true);
    var next := [NUL, s[c + 1]];
    CutMore(scanned, next, keys, values, ps, pairIndex);
    OkFrom(ps, pairIndex);
    FirstPair(s, k, ps[pairIndex..], pairIndex == 0);
    assert ValueOk(ps[pairIndex].value);
    assert (scanned + next)[k..c] == s[k..c] == ps[pairIndex].key;
    assert (scanned + next)[c + 1..] == [s[c + 1]] == s[c + 1..c + 2];
  }

  lemma ScanComma(s: string, scanned: seq<char>, keys: seq<nat>, values: seq<nat>, ps: seq<Pair>, pairIndex: nat)
    requires Scanning(s, scanned, keys, values, ps, pairIndex, false)
    requires |scanned| < |s| && s[|scanned|] == ','
    ensures pairIndex + 1 < |ps| && |scanned| + 1 < |s|
    ensures pairIndex + 1 < |keys| && pairIndex + 1 < |values| ==>
              Scanning(s, scanned + [NUL, s[|scanned| + 1]], keys[pairIndex + 1 := |scanned| + 1], values, ps,
                       pairIndex + 1, true)
  {
    var c, k, v := |scanned|, keys[pairIndex], values[pairIndex];
    NextCharacter(s, scanned, keys, values, ps, pairIndex, false);
    var next := [NUL, s[c + 1]];
    CutMore(scanned, next, keys, values, ps, pairIndex);
    SpellsMore(scanned, next, k, ps[pairIndex].key);
    LastValueEnds(s, scanned, next, keys, values, ps, pairIndex);
    assert KeyOk(ps[pairIndex + 1].key, false);
    assert (scanned + next)[c + 1..] == [s[c + 1]] == s[c + 1..c + 2];
  }

  /** Once the whole value is scanned, a NUL behind it ends the pair. */
  lemma LastValueEnds(s: string, scanned: seq<char>, next: seq<char>, keys: seq<nat>, values: seq<nat>, ps: seq<Pair>,
                      pairIndex: nat)
    requires Scanning(s, scanned, keys, values, ps, pairIndex, false)
    requires |scanned| == values[pairIndex] + |ps[pairIndex].value| && next != [] && next[0] == NUL
    ensures Spells(scanned + next, values[pairIndex], ps[pairIndex].value)
    ensures Cut(scanned + next, keys, values, ps, pairIndex + 1)
  {
    var c, k, v := |scanned|, keys[pairIndex], values[pairIndex];
    OkFrom(ps, pairIndex);
    FirstPair(s, k, ps[pairIndex..], pairIndex == 0);
    assert (scanned + next)[v..c] == s[v..c] == ps[pairIndex].value;
    CutMore(scanned, next, keys, values, ps, pairIndex);
    SpellsMore(scanned, next, k, ps[pairIndex].key);
  }

  lemma GrammarEnds(s: string, keys: seq<nat>, values: seq<nat>)
    requires Grammar(s) && |keys| == |values| == PARSE_EVENT_MAX_PAIRS && keys[0] == 0
    ensures Ends(s + [NUL], keys, values, Split(s), 0, 0, true)
  {
    PrintSplit(s);
    BufferedStart(s);
    ScanStart(s, keys, values, Split(s));
    ScanEnds(s, s + [NUL], [], keys, values, Split(s), 0, true);
  }

  lemma BufferedStart(s: string)
    ensures Buffered(s + [NUL], [], s)
  {
    assert [] + s[0..] + [NUL] == s + [NUL];
  }

  lemma ScanStart(s: string, keys: seq<nat>, values: seq<nat>, ps: seq<Pair>)
    requires PairsOk(ps) && s == Print(ps) && |keys| == |values| == PARSE_EVENT_MAX_PAIRS && keys[0] == 0
    ensures Scanning(s, [], keys, values, ps, 0, true)
  {
    assert s[0..] == s && ps[0..] == ps;
    FirstPair(s, 0, ps, true);
  }

  lemma ScanEnd(s: string, scanned: seq<char>, buffer: seq<char>, keys: seq<nat>, values: seq<nat>, ps: seq<Pair>,
                pairIndex: nat, isReadingKey: bool)
    requires Scanning(s, scanned, keys, values, ps, pairIndex, isReadingKey)
    requires Buffered(buffer, scanned, s) && buffer[|scanned|] == NUL
    ensures pairIndex + 1 == |ps| && Cut(buffer, keys, values, ps, pairIndex + 1)
  {
    NextCharacter(s, scanned, keys, values, ps, pairIndex, isReadingKey);
    BufferedNext(buffer, scanned, s);
    LastValueEnds(s, scanned, [NUL], keys, values, ps, pairIndex);
    assert buffer == scanned + [NUL];
  }

  /** From this state the loop stays within the buffer and ends with exactly the pairs ps cut
      out, or finds a ninth pair and there are more than eight. */
  ghost predicate Ends(buffer: seq<char>, keys: seq<nat>, values: seq<nat>, ps: seq<Pair>,
                       pairIndex: nat, c: nat, isReadingKey: bool)
    decreases |buffer| - c
  {
    && c < |buffer| && pairIndex < |keys| && pairIndex < |values|
    && if buffer[c] == NUL then
         |ps| == pairIndex + 1 && Cut(buffer, keys, values, ps, pairIndex + 1)
       else if isReadingKey && buffer[c] == '=' then
         Ends(buffer[c := NUL], keys, values[pairIndex := c + 1], ps, pairIndex, c + 2, false)
       else if !isReadingKey && buffer[c] == ',' then
         if pairIndex + 1 >= PARSE_EVENT_MAX_PAIRS then |ps| > PARSE_EVENT_MAX_PAIRS
         else
           && pairIndex + 1 < |keys|
           && Ends(buffer[c := NUL], keys[pairIndex + 1 := c + 1], values, ps, pairIndex + 1, c + 2, true)
       else Ends(buffer, keys, values, ps, pairIndex, c + 1, isReadingKey)
  }

  lemma {:induction false} ScanEnds(s: string, buffer: seq<char>, scanned: seq<char>, keys: seq<nat>, values: seq<nat>,
                                    ps: seq<Pair>, pairIndex: nat, isReadingKey: bool)
    requires |keys| == |values| == PARSE_EVENT_MAX_PAIRS
    requires Buffered(buffer, scanned, s) && Scanning(s, scanned, keys, values, ps, pairIndex, isReadingKey)
    ensures Ends(buffer, keys, values, ps, pairIndex, |scanned|, isReadingKey)
    decreases |s| - |scanned|, 1
  {
    var c := |scanned|;
    BufferedNext(buffer, scanned, s);
    if buffer[c] == NUL {
      ScanEnd(s, scanned, buffer, keys, values, ps, pairIndex, isReadingKey);
    } else if isReadingKey && buffer[c] == '=' {
      EndsAfterEquals(s, buffer, scanned, keys, values, ps, pairIndex);
    } else if !isReadingKey && buffer[c] == ',' {
      EndsAfterComma(s, buffer, scanned, keys, values, ps, pairIndex);
    } else {
      ScanPlain(s, scanned, keys, values, ps, pairIndex, isReadingKey);
      ScanEnds(s, buffer, scanned + [s[c]], keys, values, ps, pairIndex, isReadingKey);
    }
  }

  lemma {:induction false} EndsAfterEquals(s: string, buffer: seq<char>, scanned: seq<char>, keys: seq<nat>,
                                           values: seq<nat>, ps: seq<Pair>, pairIndex: nat)
    requires |keys| == |values| == PARSE_EVENT_MAX_PAIRS && |scanned| < |s|
    requires Buffered(buffer, scanned, s) && Scanning(s, scanned, keys, values, ps, pairIndex, true)
    requires s[|scanned|] == '='
    ensures Ends(buffer, keys, values, ps, pairIndex, |scanned|, true)
    decreases |s| - |scanned|, 0
  {
    var c := |scanned|;
    BufferedNext(buffer, scanned, s);
    ScanEquals(s, scanned, keys, values, ps, pairIndex);
    ScanEnds(s, buffer[c := NUL], scanned + [NUL, s[c + 1]], keys, values[pairIndex := c + 1], ps, pairIndex, false);
  }

  lemma {:induction false} EndsAfterComma(s: string, buffer: seq<char>, scanned: seq<char>, keys: seq<nat>,
                                          values: seq<nat>, ps: seq<Pair>, pairIndex: nat)
    requires |keys| == |values| == PARSE_EVENT_MAX_PAIRS && |scanned| < |s|
    requires Buffered(buffer, scanned, s) && Scanning(s, scanned, keys, values, ps, pairIndex, false)
    requires s[|scanned|] == ','
    ensures Ends(buffer, keys, values, ps, pairIndex, |scanned|, false)
    decreases |s| - |scanned|, 0
  {
    var c, next := |scanned|, pairIndex + 1;
    BufferedNext(buffer, scanned, s);
    ScanComma(s, scanned, keys, values, ps, pairIndex);
    if next < PARSE_EVENT_MAX_PAIRS {
      ScanEnds(s, buffer[c := NUL], scanned + [NUL, s[c + 1]], keys[next := c + 1], values, ps, next, true);
    }
  }

  /** The C strings at the positions are the keys and values of ps. */
  predicate Found(buffer: seq<char>, keys: seq<nat>, values: seq<nat>, ps: seq<Pair>) {
    && |ps| <= |keys| && |ps| <= |values|
    && forall i :: 0 <= i < |ps| ==> Holds(buffer, keys[i], ps[i].key) && Holds(buffer, values[i], ps[i].value)
  }

  lemma CutPairs(buffer: seq<char>, keys: seq<nat>, values: seq<nat>, ps: seq<Pair>)
    requires PairsOk(ps) && Cut(buffer, keys, values, ps, |ps|)
    ensures Found(buffer, keys, values, ps)
  {
    forall i | 0 <= i < |ps|
      ensures Holds(buffer, keys[i], ps[i].key) && Holds(buffer, values[i], ps[i].value)
    {
      assert KeyOk(ps[i].key, i == 0) && ValueOk(ps[i].value);
      SpellsIsCString(buffer, keys[i], ps[i].key);
      SpellsIsCString(buffer, values[i], ps[i].value);
    }
  }

  /** The tokenizing loop of parse_platform_event. The buffer holds an event string and its
      NUL; false means more than eight pairs. The entries of keys and values are the
      positions that the code keeps as pointers. The precondition is exactly what keeps the
      loop within the buffer. */
  method Tokenize(buffer: array<char>, ghost s: string, keys: array<nat>, values: array<nat>)
    returns (ok: bool, count: nat)
    requires NUL !in s && Followed(s, true, 0) && buffer[..] == s + [NUL]
    requires keys.Length == values.Length == PARSE_EVENT_MAX_PAIRS && keys != values
    modifies buffer, keys, values
    ensures ok <==> !Overfull(s, true, 0)
    ensures Grammar(s) && ok ==> count == |Split(s)| && Found(buffer[..], keys[..], values[..], Split(s))
  {
    EveryOutcome(s);
    ghost var outcome := LoopOutcome(buffer[..], 0, true, 0);
    ghost var listed, ps := Grammar(s), if Grammar(s) then Split(s) else [];
    if listed {
      GrammarEnds(s, keys[..][0 := 0], values[..]);
    }
    var isReadingKey, pairIndex, currentIndex := true, 0, 0;
    keys[0] := 0;
    while buffer[currentIndex] != NUL
      invariant pairIndex < PARSE_EVENT_MAX_PAIRS
      invariant LoopOutcome(buffer[..], currentIndex, isReadingKey, pairIndex) == outcome != OutOfBounds
      invariant listed ==> Ends(buffer[..], keys[..], values[..], ps, pairIndex, currentIndex, isReadingKey)
      decreases buffer.Length - currentIndex
    {
      if isReadingKey && buffer[currentIndex] == '=' {
        buffer[currentIndex] := NUL;
        currentIndex := currentIndex + 1;
        values[pairIndex] := currentIndex;
        isReadingKey := false;
      } else if !isReadingKey && buffer[currentIndex] == ',' {
        buffer[currentIndex] := NUL;
        currentIndex := currentIndex + 1;
        pairIndex := pairIndex + 1;
        if pairIndex >= PARSE_EVENT_MAX_PAIRS {
          return false, pairIndex;
        }
        keys[pairIndex] := currentIndex;
        isReadingKey := true;
      }
      currentIndex := currentIndex + 1;
    }
    if listed {
      PrintSplit(s);
      CutPairs(buffer[..], keys[..], values[..], ps);
    }
    return true, pairIndex + 1;
  }

  /* ---------- parse_platform_event ---------- */

  /** The strings for which the code has a defined result: the loop refuses them, or finds a
      value for every key. */
  predicate Parseable(event: string) {
    NUL !in event && (Overfull(event, true, 0) || Grammar(event))
  }

  /** The result for an event string: its pairs parsed in order, unless there are too many. */
  function PlatformEvent(event: string, convert: Convert): Parsed
    requires Parseable(event)
  {
    if Overfull(event, true, 0) then Parsed(-EINVAL, 0, 0)
    else PairsParsed(Meanings(Split(event), convert), 0, 0)
  }

  /** strncpy of a string together with its NUL. */
  method CopyString(event: string) returns (buffer: array<char>)
    ensures fresh(buffer) && buffer[..] == event + [NUL]
  {
    buffer := new char[|event| + 1];
    var i := 0;
    while i < |event|
      invariant 0 <= i <= |event| && buffer[..i] == event[..i]
    {
      buffer[i] := event[i];
      i := i + 1;
    }
    buffer[i] := NUL;
    assert event[..i] == event;
  }

  lemma MeaningsStep(ps: seq<Pair>, i: nat, convert: Convert, config: bv64, period: bv64)
    requires i < |ps|
    ensures PairsParsed(Meanings(ps[i..], convert), config, period)
         == (var r := OneParsed(Interpret(ps[i], convert), config, period);
             if r.code != 0 then r else PairsParsed(Meanings(ps[i + 1..], convert), r.config, r.period))
  {
    var ms := Meanings(ps[i..], convert);
    assert ms[0] == Interpret(ps[i], convert) && ms[1..] == Meanings(ps[i + 1..], convert);
  }

  /** parse_platform_event, with *config and *period as results. */
  method ParsePlatformEvent(event: string, hasMemory: bool, convert: Convert)
    returns (code: int, config: bv64, period: bv64)
    requires Parseable(event)
    ensures Parsed(code, config, period) == if hasMemory then PlatformEvent(event, convert) else Parsed(-12, 0, 0)
  {
    config, period := 0, 0;
    if !hasMemory {
      return -ENOMEM, 0, 0;
    }
    VerdictIff(event, true, 0);
    if Grammar(event) {
      GrammarOutcome(event);
    }
    var eventString := CopyString(event);
    var keys, values := new nat[PARSE_EVENT_MAX_PAIRS], new nat[PARSE_EVENT_MAX_PAIRS];
    var ok, pairCount := Tokenize(eventString, event, keys, values);
    if !ok {
      return -EINVAL, 0, 0;
    }
    code, config, period := ParsePairs(eventString, keys, values, pairCount, Split(event), convert);
  }

  /** The loop over the pairs that the tokenizer found. */
  method ParsePairs(buffer: array<char>, keys: array<nat>, values: array<nat>, pairCount: nat, ghost ps: seq<Pair>,
                    convert: Convert)
    returns (code: int, config: bv64, period: bv64)
    requires pairCount == |ps| && Found(buffer[..], keys[..], values[..], ps)
    ensures Parsed(code, config, period) == PairsParsed(Meanings(ps, convert), 0, 0)
  {
    config, period := 0, 0;
    assert ps[0..] == ps;
    var pairIndex := 0;
    while pairIndex < pairCount
      invariant 0 <= pairIndex <= pairCount
      invariant PairsParsed(Meanings(ps, convert), 0, 0)
             == PairsParsed(Meanings(ps[pairIndex..], convert), config, period)
    {
      MeaningsStep(ps, pairIndex, convert, config, period);
      var pair := Pair(CString(buffer[..], keys[pairIndex]), CString(buffer[..], values[pairIndex]));
      code, config, period := ParseEventPair(pair, config, period, convert);
      if code != 0 {
        return;
      }
      pairIndex := pairIndex + 1;
    }
    return 0, config, period;
  }

  /** Parsing the printed form of any list of up to eight pairs parses the list itself, and
      longer lists are refused. */
  lemma ParsePrinted(ps: seq<Pair>, convert: Convert)
    requires PairsOk(ps)
    ensures Parseable(Print(ps))
    ensures PlatformEvent(Print(ps), convert)
         == if |ps| <= 8 then PairsParsed(Meanings(ps, convert), 0, 0) else Parsed(-22, 0, 0)
  {
    SplitPrint(ps);
    GrammarOutcome(Print(ps));
  }

  /** An event string is accepted exactly when it lists at most eight pairs, all with a known
      key and a value that converts. */
  lemma AcceptedIff(event: string, convert: Convert)
    requires Parseable(event)
    ensures PlatformEvent(event, convert).code == 0
            <==> && Grammar(event) && |Split(event)| <= 8
                 && forall i :: 0 <= i < |Split(event)| ==>
                      && convert(Split(event)[i].value).Number?
                      && Split(event)[i].key in {"event", "umask", "cmask", "edge", "inv", "any", "period"}
  {
    if !Grammar(event) {
      return;
    }
    GrammarOutcome(event);
    var ps := Split(event);
    var ms := Meanings(ps, convert);
    MeaningsHaveNonzeroCodes(ps, convert);
    SucceedsIffAllGood(ms, 0, 0);
    forall i | 0 <= i < |ps|
      ensures ms[i].Bad? <==>
                || convert(ps[i].value).NotANumber?
                || ps[i].key !in {"event", "umask", "cmask", "edge", "inv", "any", "period"}
    {
      InterpretByName(ps[i], convert);
    }
  }

  /* ---------- From a configuration to a string and back ---------- */

  /** The pairs that describe a configuration, with values printed by `show`. */
  function Describe(config: bv64, show: bv64 -> string): (ps: seq<Pair>)
    ensures |ps| == 6
  {
    [Pair("event", show(Decode(Event, config))), Pair("umask", show(Decode(Umask, config))),
     Pair("edge", show(Decode(Edge, config))), Pair("any", show(Decode(Any, config))),
     Pair("inv", show(Decode(Inv, config))), Pair("cmask", show(Decode(Cmask, config)))]
  }

  lemma DescribeOk(config: bv64, show: bv64 -> string)
    requires forall v :: ValueOk(show(v))
    ensures PairsOk(Describe(config, show))
  {
    var ps, fields := Describe(config, show), [Event, Umask, Edge, Any, Inv, Cmask];
    forall i | 0 <= i < |ps| ensures KeyOk(ps[i].key, i == 0) && ValueOk(ps[i].value) {
      assert ps[i].key == Name(fields[i]);
      NameOk(fields[i], i == 0);
    }
  }

  lemma NameOk(f: Field, first: bool)
    ensures KeyOk(Name(f), first)
  {
    match f case Event => case Umask => case Edge => case Any => case Inv => case Cmask =>
  }

  /** Any configuration within the layout survives being written as an event string and
      parsed, for every way of writing numbers that the conversion reads back. */
  lemma ConfigRoundTrip(config: bv64, show: bv64 -> string, convert: Convert)
    requires Outside(config) == 0
    requires forall v :: ValueOk(show(v)) && convert(show(v)) == Number(v)
    ensures Parseable(Print(Describe(config, show)))
    ensures PlatformEvent(Print(Describe(config, show)), convert) == Parsed(0, config, 0)
  {
    var ps := Describe(config, show);
    DescribeOk(config, show);
    ParsePrinted(ps, convert);
    var ms := Meanings(ps, convert);
    DescribedMeanings(config, show, convert);
    ConfigIsOr(ms);
    PeriodIsLast(ms, 0, 0, |ms|);
    forall f ensures Decode(f, PairsParsed(ms, 0, 0).config) == Decode(f, config) {
      DescribedField(f, config, show, convert);
    }
    ConfigDecodes(Event, ms);
    SameFields(config, PairsParsed(ms, 0, 0).config);
  }

  lemma DescribedMeanings(config: bv64, show: bv64 -> string, convert: Convert)
    requires forall v :: convert(show(v)) == Number(v)
    ensures AllGood(Meanings(Describe(config, show), convert))
    ensures forall i :: 0 <= i < 6 ==> !Meanings(Describe(config, show), convert)[i].Period?
  {
    var ps := Describe(config, show);
    forall i | 0 <= i < |ps|
      ensures !Interpret(ps[i], convert).Bad? && !Interpret(ps[i], convert).Period?
    {
      InterpretByName(ps[i], convert);
    }
  }

  lemma SameFields(a: bv64, b: bv64)
    requires Outside(a) == 0 && Outside(b) == 0 && forall f :: Decode(f, a) == Decode(f, b)
    ensures a == b
  {
    FieldsDetermineConfig(a);
    FieldsDetermineConfig(b);
  }

  /** Which of the six pairs describes the field. */
  function IndexOf(f: Field): (i: nat)
    ensures i < 6
  {
    match f case Event => 0 case Umask => 1 case Edge => 2 case Any => 3 case Inv => 4 case Cmask => 5
  }

  lemma DescribedPair(f: Field, config: bv64, show: bv64 -> string)
    ensures Describe(config, show)[IndexOf(f)] == Pair(Name(f), show(Decode(f, config)))
  {
    var ps := Describe(config, show);
    match f
    case Event => assert ps[0].key == Name(f);
    case Umask => assert ps[1].key == Name(f);
    case Edge => assert ps[2].key == Name(f);
    case Any => assert ps[3].key == Name(f);
    case Inv => assert ps[4].key == Name(f);
    case Cmask => assert ps[5].key == Name(f);
  }

  lemma DescribedKeys(config: bv64, show: bv64 -> string)
    ensures DistinctKeys(Describe(config, show))
  {
    var ps := Describe(config, show);
    var fields := [Event, Umask, Edge, Any, Inv, Cmask];
    DistinctNames();
    assert forall i :: 0 <= i < 6 ==> ps[i].key == Name(fields[i]);
    assert forall i, j :: 0 <= i < j < 6 ==> fields[i] != fields[j];
  }

  lemma DecodedIsMasked(f: Field, config: bv64)
    ensures Masked(f, Decode(f, config)) == Decode(f, config)
  {
    match f case Event => case Umask => case Edge => case Any => case Inv => case Cmask =>
  }

  lemma DescribedField(f: Field, config: bv64, show: bv64 -> string, convert: Convert)
    requires forall v :: convert(show(v)) == Number(v)
    requires AllGood(Meanings(Describe(config, show), convert))
    ensures Decode(f, PairsParsed(Meanings(Describe(config, show), convert), 0, 0).config) == Decode(f, config)
  {
    var ps := Describe(config, show);
    DescribedPair(f, config, show);
    DescribedKeys(config, show);
    DecodedIsMasked(f, config);
    PackingRoundTrip(f, ps, convert);
    assert ps[IndexOf(f)].key == Name(f) && convert(ps[IndexOf(f)].value) == Number(Decode(f, config));
  }
}
