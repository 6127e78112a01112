/** Packing the key-value pairs of a platform event into the raw PMU configuration, laid out
    like IA32_PERFEVTSELx (Intel SDM Volume 3B, section 18.2.1.1 in the 2021 editions). */
module EventConfig {
  import opened Basics

  datatype Pair = Pair(key: string, value: string)

  /** What kstrtoull makes of a string: a number, or its nonzero error code. */
  datatype Conversion = Number(value: bv64) | NotANumber(error: nat)

  type Convert = string -> Conversion

  datatype Field = Event | Umask | Edge | Any | Inv | Cmask

  /** The field's bits, moved to their place in the configuration. */
  function Place(f: Field, v: bv64): bv64 {
    match f
    case Event => v & 0xFF
    case Umask => (v & 0xFF) << 8
    case Edge => (v & 1) << 18
    case Any => (v & 1) << 21
    case Inv => (v & 1) << 23
    case Cmask => (v & 0xFF) << 24
  }

  /** Reading a field back out of a configuration. */
  function Decode(f: Field, config: bv64): bv64 {
    match f
    case Event => config & 0xFF
    case Umask => (config >> 8) & 0xFF
    case Edge => (config >> 18) & 1
    case Any => (config >> 21) & 1
    case Inv => (config >> 23) & 1
    case Cmask => (config >> 24) & 0xFF
  }

  function Masked(f: Field, v: bv64): bv64 {
    match f
    case Event => v & 0xFF
    case Umask => v & 0xFF
    case Cmask => v & 0xFF
    case Edge => v & 1
    case Any => v & 1
    case Inv => v & 1
  }

  /** All bits that belong to some field. */
  const LAYOUT: bv64 := 0xFFA4_FFFF

  /** What a pair asks for, or why it cannot be parsed. */
  datatype Meaning = Bits(field: Field, value: bv64) | Period(value: bv64) | Bad(code: int)

  datatype Key = FieldKey(field: Field) | PeriodKey | UnknownKey

  function Classify(key: string): Key {
    if key == "event" then FieldKey(Event)
    else if key == "umask" then FieldKey(Umask)
    else if key == "cmask" then FieldKey(Cmask)
    else if key == "edge" then FieldKey(Edge)
    else if key == "inv" then FieldKey(Inv)
    else if key == "any" then FieldKey(Any)
    else if key == "period" then PeriodKey
    else UnknownKey
  }

  function Interpret(p: Pair, convert: Convert): Meaning {
    match convert(p.value)
    case NotANumber(error) => Bad(-1 - error)
    case Number(v) => KeyMeaning(Classify(p.key), v)
  }

  function KeyMeaning(key: Key, v: bv64): Meaning {
    match key
    case FieldKey(f) => Bits(f, v)
    case PeriodKey => Period(v)
    case UnknownKey => Bad(-EINVAL)
  }

  function Name(f: Field): string {
    match f
    case Event => "event"
    case Umask => "umask"
    case Edge => "edge"
    case Any => "any"
    case Inv => "inv"
    case Cmask => "cmask"
  }

  /** A pair fails exactly when its value does not convert or its key is not one of the seven;
      otherwise it sets the field, or the period, that it names. */
  lemma InterpretByName(p: Pair, convert: Convert)
    ensures Interpret(p, convert).Bad? <==>
              convert(p.value).NotANumber? || p.key !in {"event", "umask", "cmask", "edge", "inv", "any", "period"}
    ensures forall f :: Interpret(p, convert).Bits? ==> (Interpret(p, convert).field == f <==> p.key == Name(f))
    ensures Interpret(p, convert).Period? ==> p.key == "period"
    ensures Interpret(p, convert).Bad? || convert(p.value) == Number(Interpret(p, convert).value)
  {
    DistinctNames();
  }

  lemma DistinctNames()
    ensures forall f, g :: Name(f) == Name(g) ==> f == g
    ensures forall f :: Name(f) != "period"
  {
    assert |Name(Event)| == 5 && |Name(Umask)| == 5 && |Name(Cmask)| == 5 && |Name(Edge)| == 4;
    assert |Name(Any)| == 3 && |Name(Inv)| == 3 && |"period"| == 6;
    assert Name(Event)[0] == 'e' && Name(Umask)[0] == 'u' && Name(Cmask)[0] == 'c';
    assert Name(Any)[0] == 'a' && Name(Inv)[0] == 'i';
  }

  /** The state while pairs are parsed: 0 or an error code, and *config and *period. */
  datatype Parsed = Parsed(code: int, config: bv64, period: bv64)

  function Placed(m: Meaning): bv64 {
    if m.Bits? then Place(m.field, m.value) else 0
  }

  function Or(a: bv64, b: bv64): bv64 { a | b }

  /** One pair: a failure leaves config and period alone. */
  function OneParsed(m: Meaning, config: bv64, period: bv64): Parsed {
    match m
    case Bad(code) => Parsed(code, config, period)
    case Period(v) => Parsed(0, config, v)
    case Bits(f, v) => Parsed(0, Or(config, Place(f, v)), period)
  }

  /** All pairs in order, up to the first that fails. */
  function PairsParsed(ms: seq<Meaning>, config: bv64, period: bv64): Parsed {
    if ms == [] then Parsed(0, config, period)
    else
      var r := OneParsed(ms[0], config, period);
      if r.code != 0 then r else PairsParsed(ms[1..], r.config, r.period)
  }

  function Meanings(ps: seq<Pair>, convert: Convert): (ms: seq<Meaning>)
    ensures |ms| == |ps| && forall i :: 0 <= i < |ps| ==> ms[i] == Interpret(ps[i], convert)
  {
    seq(|ps|, i requires 0 <= i < |ps| => Interpret(ps[i], convert))
  }

  /** parse_event_pair, with *config and *period as results. */
  method ParseEventPair(p: Pair, config: bv64, period: bv64, convert: Convert)
    returns (code: int, newConfig: bv64, newPeriod: bv64)
    ensures Parsed(code, newConfig, newPeriod) == OneParsed(Interpret(p, convert), config, period)
  {
    var conversion := convert(p.value);
    if conversion.NotANumber? {
      return -1 - conversion.error, config, period;
    }
    var value := conversion.value;
    if "event" == p.key {
      FieldParsed(p, Event, value, config, period, convert);
      return 0, Or(config, Place(Event, value)), period;
    } else if "umask" == p.key {
      FieldParsed(p, Umask, value, config, period, convert);
      return 0, Or(config, Place(Umask, value)), period;
    } else if "cmask" == p.key {
      FieldParsed(p, Cmask, value, config, period, convert);
      return 0, Or(config, Place(Cmask, value)), period;
    } else if "edge" == p.key {
      FieldParsed(p, Edge, value, config, period, convert);
      return 0, Or(config, Place(Edge, value)), period;
    } else if "inv" == p.key {
      FieldParsed(p, Inv, value, config, period, convert);
      return 0, Or(config, Place(Inv, value)), period;
    } else if "any" == p.key {
      FieldParsed(p, Any, value, config, period, convert);
      return 0, Or(config, Place(Any, value)), period;
    } else if "period" == p.key {
      PeriodParsed(p, value, config, period, convert);
      return 0, config, value;
    } else {
      return -EINVAL, config, period;
    }
  }

  lemma FieldParsed(p: Pair, f: Field, value: bv64, config: bv64, period: bv64, convert: Convert)
    requires convert(p.value) == Number(value) && p.key == Name(f)
    ensures OneParsed(Interpret(p, convert), config, period) == Parsed(0, Or(config, Place(f, value)), period)
  {
    BitsParsed(f, value, config, period);
    ClassifyName(f);
    NumberMeaning(p, FieldKey(f), value, convert);
  }

  lemma ClassifyName(f: Field)
    ensures Classify(Name(f)) == FieldKey(f)
  {
    DistinctNames();
  }

  lemma PeriodParsed(p: Pair, value: bv64, config: bv64, period: bv64, convert: Convert)
    requires convert(p.value) == Number(value) && p.key == "period"
    ensures OneParsed(Interpret(p, convert), config, period) == Parsed(0, config, value)
  {
    assert Classify(p.key) == PeriodKey;
    NumberMeaning(p, PeriodKey, value, convert);
  }

  lemma BitsParsed(f: Field, value: bv64, config: bv64, period: bv64)
    ensures OneParsed(Bits(f, value), config, period) == Parsed(0, Or(config, Place(f, value)), period)
  {
  }

  lemma NumberMeaning(p: Pair, key: Key, value: bv64, convert: Convert)
    requires convert(p.value) == Number(value) && Classify(p.key) == key
    ensures Interpret(p, convert) == KeyMeaning(key, value)
  {
  }

  /* ---------- The seven keys, bit by bit ---------- */

  lemma OrIsOr(a: bv64, b: bv64)
    ensures Or(a, b) == a | b
  {
  }

  lemma PlaceIs(v: bv64)
    ensures Place(Event, v) == v & 0xFF && Place(Umask, v) == (v & 0xFF) << 8 && Place(Cmask, v) == (v & 0xFF) << 24
    ensures Place(Edge, v) == (v & 1) << 18 && Place(Any, v) == (v & 1) << 21 && Place(Inv, v) == (v & 1) << 23
  {
  }

  /** What each key does with a value that converts: where its bits go. */
  lemma NamedPairs(value: string, v: bv64, config: bv64, period: bv64, convert: Convert)
    requires convert(value) == Number(v)
    ensures OneParsed(Interpret(Pair("event", value), convert), config, period)
         == Parsed(0, Or(config, v & 0xFF), period)
    ensures OneParsed(Interpret(Pair("umask", value), convert), config, period)
         == Parsed(0, Or(config, (v & 0xFF) << 8), period)
    ensures OneParsed(Interpret(Pair("cmask", value), convert), config, period)
         == Parsed(0, Or(config, (v & 0xFF) << 24), period)
    ensures OneParsed(Interpret(Pair("edge", value), convert), config, period)
         == Parsed(0, Or(config, (v & 1) << 18), period)
    ensures OneParsed(Interpret(Pair("any", value), convert), config, period)
         == Parsed(0, Or(config, (v & 1) << 21), period)
    ensures OneParsed(Interpret(Pair("inv", value), convert), config, period)
         == Parsed(0, Or(config, (v & 1) << 23), period)
    ensures OneParsed(Interpret(Pair("period", value), convert), config, period) == Parsed(0, config, v)
  {
    PlaceIs(v);
    FieldParsed(Pair("event", value), Event, v, config, period, convert);
    FieldParsed(Pair("umask", value), Umask, v, config, period, convert);
    FieldParsed(Pair("cmask", value), Cmask, v, config, period, convert);
    FieldParsed(Pair("edge", value), Edge, v, config, period, convert);
    FieldParsed(Pair("any", value), Any, v, config, period, convert);
    FieldParsed(Pair("inv", value), Inv, v, config, period, convert);
    PeriodParsed(Pair("period", value), v, config, period, convert);
  }

  /** And the two ways to fail: the conversion's own error comes first. */
  lemma FailedPairs(p: Pair, config: bv64, period: bv64, convert: Convert)
    ensures convert(p.value).NotANumber? ==>
              OneParsed(Interpret(p, convert), config, period) == Parsed(-1 - convert(p.value).error, config, period)
    ensures convert(p.value).Number? && p.key !in {"event", "umask", "cmask", "edge", "inv", "any", "period"} ==>
              OneParsed(Interpret(p, convert), config, period) == Parsed(-22, config, period)
  {
    InterpretByName(p, convert);
  }

  /** The first pair that fails decides the code, and the pairs before it the rest. */
  lemma {:induction false} FirstBadDecides(ms: seq<Meaning>, i: nat, config: bv64, period: bv64)
    requires i < |ms| && ms[i].Bad? && ms[i].code != 0 && forall k :: 0 <= k < i ==> !ms[k].Bad?
    ensures var r, before := PairsParsed(ms, config, period), PairsParsed(ms[..i], config, period);
            r.code == ms[i].code && r.config == before.config && r.period == before.period
  {
    if i > 0 {
      var r := OneParsed(ms[0], config, period);
      assert !ms[0].Bad? && ms[..i][1..] == ms[1..][..i - 1];
      FirstBadDecides(ms[1..], i - 1, r.config, r.period);
    }
  }

  /* ---------- When parsing fails ---------- */

  predicate AllGood(ms: seq<Meaning>) {
    forall i :: 0 <= i < |ms| ==> !ms[i].Bad?
  }

  predicate NonzeroCodes(ms: seq<Meaning>) {
    forall i :: 0 <= i < |ms| && ms[i].Bad? ==> ms[i].code != 0
  }

  lemma MeaningsHaveNonzeroCodes(ps: seq<Pair>, convert: Convert)
    ensures NonzeroCodes(Meanings(ps, convert))
  {
  }

  /** Parsing succeeds exactly when every pair can be parsed. */
  lemma {:induction false} SucceedsIffAllGood(ms: seq<Meaning>, config: bv64, period: bv64)
    requires NonzeroCodes(ms)
    ensures PairsParsed(ms, config, period).code == 0 <==> AllGood(ms)
  {
    if ms != [] && !ms[0].Bad? {
      var tail := ms[1..];
      assert forall i :: 0 < i < |ms| ==> ms[i] == tail[i - 1];
      assert AllGood(ms) <==> AllGood(tail);
      var r := OneParsed(ms[0], config, period);
      SucceedsIffAllGood(tail, r.config, r.period);
    }
  }

  /* ---------- Folding with a commutative operation ---------- */

  function Fold<T>(op: (T, T) -> T, unit: T, xs: seq<T>): T {
    if xs == [] then unit else op(xs[0], Fold(op, unit, xs[1..]))
  }

  function Accumulate<T>(op: (T, T) -> T, acc: T, xs: seq<T>): T {
    if xs == [] then acc else Accumulate(op, op(acc, xs[0]), xs[1..])
  }

  ghost predicate Commutes<T(!new)>(op: (T, T) -> T, unit: T) {
    && (forall a :: op(unit, a) == a)
    && (forall a, b :: op(a, b) == op(b, a))
    && (forall a, b, c :: op(op(a, b), c) == op(a, op(b, c)))
  }

  lemma {:induction false} AccumulateIsFold<T(!new)>(op: (T, T) -> T, unit: T, acc: T, xs: seq<T>)
    requires Commutes(op, unit)
    ensures Accumulate(op, acc, xs) == op(acc, Fold(op, unit, xs))
  {
    if xs == [] {
      assert op(acc, unit) == op(unit, acc) == acc;
    } else {
      AccumulateIsFold(op, unit, op(acc, xs[0]), xs[1..]);
      assert op(op(acc, xs[0]), Fold(op, unit, xs[1..])) == op(acc, op(xs[0], Fold(op, unit, xs[1..])));
    }
  }

  /** A function that distributes over the operation distributes over a fold. */
  lemma {:induction false} FoldMaps<T(!new)>(op: (T, T) -> T, unit: T, g: T -> T, xs: seq<T>, ys: seq<T>)
    requires g(unit) == unit && forall a, b :: g(op(a, b)) == op(g(a), g(b))
    requires |ys| == |xs| && forall i :: 0 <= i < |xs| ==> ys[i] == g(xs[i])
    ensures g(Fold(op, unit, xs)) == Fold(op, unit, ys)
  {
    if xs != [] {
      FoldMaps(op, unit, g, xs[1..], ys[1..]);
      assert g(op(xs[0], Fold(op, unit, xs[1..]))) == op(g(xs[0]), g(Fold(op, unit, xs[1..])));
    }
  }

  lemma {:induction false} FoldUnits<T(!new)>(op: (T, T) -> T, unit: T, xs: seq<T>)
    requires Commutes(op, unit) && forall i :: 0 <= i < |xs| ==> xs[i] == unit
    ensures Fold(op, unit, xs) == unit
  {
    if xs != [] {
      FoldUnits(op, unit, xs[1..]);
      assert op(unit, unit) == unit;
    }
  }

  lemma {:induction false} FoldExtract<T(!new)>(op: (T, T) -> T, unit: T, xs: seq<T>, j: nat)
    requires Commutes(op, unit) && j < |xs|
    ensures Fold(op, unit, xs) == op(xs[j], Fold(op, unit, xs[..j] + xs[j + 1..]))
  {
    var rest := xs[..j] + xs[j + 1..];
    if j == 0 {
      assert rest == xs[1..];
    } else {
      FoldExtract(op, unit, xs[1..], j - 1);
      assert xs[1..][..j - 1] + xs[1..][j..] == rest[1..];
      var a, b, c := xs[0], xs[j], Fold(op, unit, rest[1..]);
      assert op(a, op(b, c)) == op(op(a, b), c) == op(op(b, a), c) == op(b, op(a, c));
    }
  }

  lemma {:induction false} FoldPermutes<T(!new)>(op: (T, T) -> T, unit: T, xs: seq<T>, ys: seq<T>)
    requires Commutes(op, unit) && multiset(xs) == multiset(ys)
    ensures Fold(op, unit, xs) == Fold(op, unit, ys)
  {
    if xs == [] {
      assert |multiset(ys)| == 0;
      assert ys == [];
    } else {
      assert xs[0] in multiset(ys);
      var j :| 0 <= j < |ys| && ys[j] == xs[0];
      FoldExtract(op, unit, ys, j);
      RemoveOne(xs, ys, j);
      FoldPermutes(op, unit, xs[1..], ys[..j] + ys[j + 1..]);
    }
  }

  lemma RemoveOne<T>(xs: seq<T>, ys: seq<T>, j: nat)
    requires xs != [] && j < |ys| && ys[j] == xs[0] && multiset(xs) == multiset(ys)
    ensures multiset(xs[1..]) == multiset(ys[..j] + ys[j + 1..])
  {
    assert xs == [xs[0]] + xs[1..];
    assert ys == ys[..j] + [ys[j]] + ys[j + 1..];
    assert multiset(xs[1..]) == multiset(xs) - multiset{xs[0]};
    assert multiset(ys[..j] + ys[j + 1..]) == multiset(ys) - multiset{ys[j]};
  }

  lemma PutBack<T>(xs: seq<T>, ys: seq<T>, j: nat)
    requires xs != [] && j < |ys| && ys[j] == xs[0] && multiset(xs[1..]) == multiset(ys[..j] + ys[j + 1..])
    ensures multiset(xs) == multiset(ys)
  {
    assert xs == [xs[0]] + xs[1..];
    assert ys == ys[..j] + [ys[j]] + ys[j + 1..];
  }

  lemma MapWithout<S, T>(g: S -> T, ys: seq<S>, cs: seq<T>, j: nat)
    requires j < |ys| == |cs| && forall i :: 0 <= i < |ys| ==> cs[i] == g(ys[i])
    ensures var zs, ds := ys[..j] + ys[j + 1..], cs[..j] + cs[j + 1..];
            |ds| == |zs| && forall i :: 0 <= i < |zs| ==> ds[i] == g(zs[i])
  {
  }

  /** Applying a function to permuted sequences gives permuted sequences. */
  lemma {:induction false} MapPermutes<S, T>(g: S -> T, xs: seq<S>, ys: seq<S>, bs: seq<T>, cs: seq<T>)
    requires multiset(xs) == multiset(ys)
    requires |bs| == |xs| && forall i :: 0 <= i < |xs| ==> bs[i] == g(xs[i])
    requires |cs| == |ys| && forall i :: 0 <= i < |ys| ==> cs[i] == g(ys[i])
    ensures multiset(bs) == multiset(cs)
  {
    if xs == [] {
      assert |multiset(ys)| == 0;
      assert ys == [] && bs == [] && cs == [];
    } else {
      assert xs[0] in multiset(ys);
      var j :| 0 <= j < |ys| && ys[j] == xs[0];
      RemoveOne(xs, ys, j);
      MapWithout(g, ys, cs, j);
      MapPermutes(g, xs[1..], ys[..j] + ys[j + 1..], bs[1..], cs[..j] + cs[j + 1..]);
      PutBack(bs, cs, j);
    }
  }

  lemma OrCommutes()
    ensures Commutes(Or, 0)
  {
    forall a, b, c ensures Or(Or(a, b), c) == Or(a, Or(b, c)) {
      OrAssociates(a, b, c);
    }
  }

  lemma OrAssociates(a: bv64, b: bv64, c: bv64)
    ensures Or(Or(a, b), c) == Or(a, Or(b, c))
  {
  }

  function OrAll(bs: seq<bv64>): bv64 { Fold(Or, 0, bs) }

  lemma OrAllZeros(bs: seq<bv64>)
    requires forall i :: 0 <= i < |bs| ==> bs[i] == 0
    ensures OrAll(bs) == 0
  {
    OrCommutes();
    FoldUnits(Or, 0, bs);
  }

  lemma OrAllSingle(bs: seq<bv64>, i: nat)
    requires i < |bs| && forall k :: 0 <= k < |bs| && k != i ==> bs[k] == 0
    ensures OrAll(bs) == bs[i]
  {
    var rest := bs[..i] + bs[i + 1..];
    OrAllZeros(rest);
    OrCommutes();
    FoldExtract(Or, 0, bs, i);
    assert Or(bs[i], 0) == bs[i];
  }

  lemma OrAllPermutes(bs: seq<bv64>, cs: seq<bv64>)
    requires multiset(bs) == multiset(cs)
    ensures OrAll(bs) == OrAll(cs)
  {
    OrCommutes();
    FoldPermutes(Or, 0, bs, cs);
  }

  /* ---------- What the configuration contains ---------- */

  function AllPlaced(ms: seq<Meaning>): (bs: seq<bv64>)
    ensures |bs| == |ms| && forall i :: 0 <= i < |ms| ==> bs[i] == Placed(ms[i])
  {
    seq(|ms|, i requires 0 <= i < |ms| => Placed(ms[i]))
  }

  lemma OneAccumulates(m: Meaning, config: bv64, period: bv64)
    requires !m.Bad?
    ensures OneParsed(m, config, period).code == 0
    ensures OneParsed(m, config, period).config == Or(config, Placed(m))
  {
    match m
    case Bits(f, v) => assert Placed(m) == Place(f, v);
    case Period(_) => OrZero(config);
  }

  lemma OrZero(a: bv64)
    ensures Or(a, 0) == a
  {
  }

  lemma {:induction false} ConfigAccumulates(ms: seq<Meaning>, config: bv64, period: bv64)
    requires AllGood(ms)
    ensures PairsParsed(ms, config, period).code == 0
    ensures PairsParsed(ms, config, period).config == Accumulate(Or, config, AllPlaced(ms))
  {
    if ms != [] {
      assert !ms[0].Bad?;
      var r := OneParsed(ms[0], config, period);
      assert AllPlaced(ms)[1..] == AllPlaced(ms[1..]);
      OneAccumulates(ms[0], config, period);
      ConfigAccumulates(ms[1..], r.config, r.period);
    }
  }

  lemma ConfigIsOr(ms: seq<Meaning>)
    requires AllGood(ms)
    ensures PairsParsed(ms, 0, 0).code == 0
    ensures PairsParsed(ms, 0, 0).config == OrAll(AllPlaced(ms))
  {
    ConfigAccumulates(ms, 0, 0);
    OrCommutes();
    AccumulateIsFold(Or, 0, 0, AllPlaced(ms));
    assert Or(0, OrAll(AllPlaced(ms))) == OrAll(AllPlaced(ms));
  }

  /** What the pairs give for field f. */
  function Given(f: Field, m: Meaning): bv64 {
    if m.Bits? && m.field == f then Masked(f, m.value) else 0
  }

  function AllGiven(f: Field, ms: seq<Meaning>): (bs: seq<bv64>)
    ensures |bs| == |ms| && forall i :: 0 <= i < |ms| ==> bs[i] == Given(f, ms[i])
  {
    seq(|ms|, i requires 0 <= i < |ms| => Given(f, ms[i]))
  }

  lemma DecodeZero(f: Field)
    ensures Decode(f, 0) == 0
  {
  }

  lemma DecodeOr(f: Field)
    ensures Decode(f, 0) == 0
    ensures forall a, b :: Decode(f, Or(a, b)) == Or(Decode(f, a), Decode(f, b))
  {
    forall a, b ensures Decode(f, Or(a, b)) == Or(Decode(f, a), Decode(f, b)) {
      match f case Event => case Umask => case Edge => case Any => case Inv => case Cmask =>
    }
  }

  lemma DecodePlaced(f: Field, g: Field, v: bv64)
    ensures Decode(f, Place(g, v)) == if f == g then Masked(f, v) else 0
  {
    match f {
      case Event => match g { case Event => case Umask => case Edge => case Any => case Inv => case Cmask => }
      case Umask => match g { case Event => case Umask => case Edge => case Any => case Inv => case Cmask => }
      case Edge => match g { case Event => case Umask => case Edge => case Any => case Inv => case Cmask => }
      case Any => match g { case Event => case Umask => case Edge => case Any => case Inv => case Cmask => }
      case Inv => match g { case Event => case Umask => case Edge => case Any => case Inv => case Cmask => }
      case Cmask => match g { case Event => case Umask => case Edge => case Any => case Inv => case Cmask => }
    }
  }

  function Outside(b: bv64): bv64 { b & !LAYOUT }

  lemma PlacedInside(m: Meaning)
    ensures Outside(Placed(m)) == 0
  {
    if m.Bits? {
      match m.field case Event => case Umask => case Edge => case Any => case Inv => case Cmask =>
    }
  }

  /** For any pairs that parse, also with repeated keys: each field of the configuration is
      what the pairs give for it or-ed together, and no bit outside the layout is set. */
  lemma ConfigDecodes(f: Field, ms: seq<Meaning>)
    requires AllGood(ms)
    ensures Decode(f, PairsParsed(ms, 0, 0).config) == OrAll(AllGiven(f, ms))
    ensures Outside(PairsParsed(ms, 0, 0).config) == 0
  {
    var bs := AllPlaced(ms);
    ConfigIsOr(ms);
    forall i | 0 <= i < |ms| ensures Decode(f, bs[i]) == Given(f, ms[i]) && Outside(bs[i]) == 0 {
      PlacedInside(ms[i]);
      DecodeZero(f);
      if ms[i].Bits? {
        DecodePlaced(f, ms[i].field, ms[i].value);
      }
    }
    DecodeOfOr(f, bs, AllGiven(f, ms));
    OutsideOfOr(bs);
  }

  lemma DecodeOfOr(f: Field, bs: seq<bv64>, cs: seq<bv64>)
    requires |bs| == |cs| && forall i :: 0 <= i < |bs| ==> cs[i] == Decode(f, bs[i])
    ensures Decode(f, OrAll(bs)) == OrAll(cs)
  {
    DecodeOr(f);
    FoldMaps(Or, 0, b => Decode(f, b), bs, cs);
  }

  lemma OutsideOfOr(bs: seq<bv64>)
    requires forall i :: 0 <= i < |bs| ==> Outside(bs[i]) == 0
    ensures Outside(OrAll(bs)) == 0
  {
    var zeros := seq(|bs|, i => 0);
    OutsideOr();
    FoldMaps(Or, 0, Outside, bs, zeros);
    OrAllZeros(zeros);
  }

  lemma OutsideOr()
    ensures Outside(0) == 0
    ensures forall a, b :: Outside(Or(a, b)) == Or(Outside(a), Outside(b))
  {
  }

  /** Conversely, a configuration inside the layout is determined by its fields. */
  lemma FieldsDetermineConfig(config: bv64)
    requires Outside(config) == 0
    ensures config == Place(Event, Decode(Event, config)) | Place(Umask, Decode(Umask, config))
                    | Place(Edge, Decode(Edge, config)) | Place(Any, Decode(Any, config))
                    | Place(Inv, Decode(Inv, config)) | Place(Cmask, Decode(Cmask, config))
  {
  }

  predicate DistinctKeys(ps: seq<Pair>) {
    forall i, j :: 0 <= i < j < |ps| ==> ps[i].key != ps[j].key
  }

  /** The round trip: with distinct keys, a field that pair i names decodes back to that
      pair's masked value, and a field that no pair names is 0. */
  lemma PackingRoundTrip(f: Field, ps: seq<Pair>, convert: Convert)
    requires AllGood(Meanings(ps, convert)) && DistinctKeys(ps)
    ensures var config := PairsParsed(Meanings(ps, convert), 0, 0).config;
            && (forall i :: 0 <= i < |ps| && ps[i].key == Name(f) ==>
                  convert(ps[i].value).Number? && Decode(f, config) == Masked(f, convert(ps[i].value).value))
            && ((forall i :: 0 <= i < |ps| ==> ps[i].key != Name(f)) ==> Decode(f, config) == 0)
  {
    var ms := Meanings(ps, convert);
    var gs := AllGiven(f, ms);
    ConfigDecodes(f, ms);
    DistinctNames();
    forall i | 0 <= i < |ps|
      ensures gs[i] == if ps[i].key == Name(f) then Masked(f, ms[i].value) else 0
      ensures convert(ps[i].value) == Number(ms[i].value)
    {
      assert !ms[i].Bad?;
      InterpretByName(ps[i], convert);
    }
    forall i | 0 <= i < |ps| && ps[i].key == Name(f)
      ensures OrAll(gs) == Masked(f, ms[i].value)
    {
      OrAllSingle(gs, i);
    }
    if forall i :: 0 <= i < |ps| ==> ps[i].key != Name(f) {
      OrAllZeros(gs);
    }
  }

  /* ---------- Order does not matter ---------- */

  /** Neither success nor the packed configuration depends on the order of the pairs,
      whether or not a key is repeated. */
  lemma PackingIgnoresOrder(ms: seq<Meaning>, ns: seq<Meaning>)
    requires multiset(ms) == multiset(ns) && NonzeroCodes(ms) && NonzeroCodes(ns)
    ensures var r, t := PairsParsed(ms, 0, 0), PairsParsed(ns, 0, 0);
            (r.code == 0 <==> t.code == 0) && (r.code == 0 ==> r.config == t.config)
  {
    SucceedsIffAllGood(ms, 0, 0);
    SucceedsIffAllGood(ns, 0, 0);
    SameMembers(ms, ns);
    SameMembers(ns, ms);
    if AllGood(ms) {
      ConfigIsOr(ms);
      ConfigIsOr(ns);
      MapPermutes(Placed, ms, ns, AllPlaced(ms), AllPlaced(ns));
      OrAllPermutes(AllPlaced(ms), AllPlaced(ns));
    }
  }

  lemma SameMembers(ms: seq<Meaning>, ns: seq<Meaning>)
    requires multiset(ms) == multiset(ns)
    ensures AllGood(ms) ==> AllGood(ns)
  {
    forall i | 0 <= i < |ns| ensures ns[i] in ms {
      assert ns[i] in multiset(ns);
    }
  }

  /** The period is the value of the last pair that sets it. */
  lemma {:induction false} PeriodIsLast(ms: seq<Meaning>, config: bv64, period: bv64, i: nat)
    requires AllGood(ms) && i <= |ms| && (i < |ms| ==> ms[i].Period?)
    requires forall k :: (if i < |ms| then i else -1) < k < |ms| ==> !ms[k].Period?
    ensures PairsParsed(ms, config, period).period == if i < |ms| then ms[i].value else period
  {
    if ms != [] {
      assert !ms[0].Bad?;
      var config' := if ms[0].Bits? then Or(config, Placed(ms[0])) else config;
      if i == 0 {
        assert forall k :: 0 <= k < |ms[1..]| ==> !ms[1..][k].Period?;
        PeriodIsLast(ms[1..], config', ms[0].value, |ms| - 1);
      } else {
        PeriodIsLast(ms[1..], config', if ms[0].Period? then ms[0].value else period, i - 1);
      }
    }
  }
}
