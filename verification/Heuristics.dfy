/** The two fixed-point frequency heuristics: a ratio of two counters, in per cent, is
    interpolated between two configured percentages and mapped to a frequency.
    `FrequencyIn` is the C function with every intermediate cut to its C type;
    `Frequency` is the same formula on unbounded integers. */
module Heuristics {
  import opened CInt

  datatype Heuristic = Ipc | OffcoreStalls

  /** The module parameters min_* and max_*, in per cent. */
  datatype Band = Band(low: S32, high: S32)
  {
    /** The difference must be an int, and it is a divisor. */
    predicate Usable() { high != low && WrapS32(high - low) == high - low }

    predicate Increasing() { low < high && Usable() }
  }

  function Clamp(x: int, lo: int, hi: int): int {
    if x < lo then lo else if x > hi then hi else x
  }

  function Percent(count: int, cycles: int): int
    requires cycles != 0
  {
    TruncDiv(count * 100, cycles)
  }

  /** How far, in per cent, the measured ratio lies inside the band. */
  function Position(count: int, cycles: int, band: Band): int
    requires cycles != 0 && band.high != band.low
  {
    Clamp(TruncDiv((Percent(count, cycles) - band.low) * 100, band.high - band.low), 0, 100)
  }

  function Factor(h: Heuristic, count: int, cycles: int, band: Band): int
    requires cycles != 0 && band.high != band.low
  {
    var p := Position(count, cycles, band);
    match h
    case Ipc => p
    case OffcoreStalls => 100 - p
  }

  function Frequency(h: Heuristic, count: int, cycles: int, band: Band, maxFreq: int, minFreq: int): int
    requires cycles != 0 && band.high != band.low
  {
    Scale(Factor(h, count, cycles, band), maxFreq - minFreq, minFreq)
  }

  function Scale(factor: int, width: int, minFreq: int): int {
    TruncDiv(factor * width, 100) + minFreq
  }

  /* ---------- The C functions, in their own integer widths ---------- */

  /** An s64 division the machine can perform: a nonzero divisor and a quotient that fits. */
  predicate Divides(a: S64, b: S64) {
    b != 0 && !(a == -0x8000_0000_0000_0000 && b == -1)
  }

  function PercentIn(count: S64, cycles: S64): S64
    requires Divides(WrapS64(count * 100), cycles)
  {
    WrapS64(TruncDiv(WrapS64(count * 100), cycles))
  }

  function OffsetIn(count: S64, cycles: S64, band: Band): S64
    requires Divides(WrapS64(count * 100), cycles)
  {
    WrapS64(WrapS64(PercentIn(count, cycles) - band.low) * 100)
  }

  /** Both divisions of the heuristic can be performed. */
  predicate Computable(count: S64, cycles: S64, band: Band) {
    && Divides(WrapS64(count * 100), cycles)
    && Divides(OffsetIn(count, cycles, band), WrapS32(band.high - band.low))
  }

  function FactorIn(h: Heuristic, count: S64, cycles: S64, band: Band): int
    requires Computable(count, cycles, band)
  {
    var p := Clamp(WrapS64(TruncDiv(OffsetIn(count, cycles, band), WrapS32(band.high - band.low))), 0, 100);
    match h
    case Ipc => p
    case OffcoreStalls => 100 - p
  }

  function FrequencyIn(h: Heuristic, count: S64, cycles: S64, band: Band, maxFreq: S32, minFreq: S32): U32
    requires Computable(count, cycles, band)
  {
    ScaledIn(FactorIn(h, count, cycles, band) * WrapS32(maxFreq - minFreq), minFreq)
  }

  /** The tail of the return expression: product / 100 + min_freq, as unsigned int. */
  function ScaledIn(product: int, minFreq: S32): U32 {
    WrapU32(WrapS64(WrapS64(TruncDiv(WrapS64(product), 100)) + minFreq))
  }

  /* ---------- Overflow ---------- */

  const COUNT_BOUND: int := 900_000_000_000_000

  lemma WrapS64Exact(x: int)
    requires -TWO63 <= x < TWO63
    ensures WrapS64(x) == x
  {
  }

  /** A truncated quotient is no larger in magnitude than its dividend. */
  lemma TruncDivMagnitude(a: int, b: int)
    requires b != 0
    ensures if a >= 0 then -a <= TruncDiv(a, b) <= a else a <= TruncDiv(a, b) <= -a
  {
    MagnitudeDiv(a, b);
    DivShrinks(if a >= 0 then a else -a, if b > 0 then b else -b);
  }

  lemma DivShrinks(m: int, c: int)
    requires m >= 0 && c > 0
    ensures 0 <= m / c <= m
  {
    DivMonotone(0, m, c);
    TruncDivAntitone(m, 1, c);
  }

  /** With counts of at most 9 * 10^14 in magnitude both divisions can be performed, and
      no 64-bit intermediate wraps: the position in the band is the unbounded one. */
  lemma NoOverflowInPosition(h: Heuristic, count: S64, cycles: S64, band: Band)
    requires -COUNT_BOUND <= count <= COUNT_BOUND && cycles != 0 && band.Usable()
    ensures Computable(count, cycles, band)
    ensures WrapS64(count * 100) == count * 100
    ensures PercentIn(count, cycles) == Percent(count, cycles)
    ensures OffsetIn(count, cycles, band) == (Percent(count, cycles) - band.low) * 100
    ensures FactorIn(h, count, cycles, band) == Factor(h, count, cycles, band)
  {
    WrapS64Exact(count * 100);
    TruncDivMagnitude(count * 100, cycles);
    var percent := Percent(count, cycles);
    WrapS64Exact(percent);
    WrapS64Exact(percent - band.low);
    WrapS64Exact((percent - band.low) * 100);
    TruncDivMagnitude((percent - band.low) * 100, band.high - band.low);
    WrapS64Exact(TruncDiv((percent - band.low) * 100, band.high - band.low));
  }

  /** The last step of the C function never overflows, whatever the counters were, and
      its result lies between the limits. */
  lemma FrequencyInRange(h: Heuristic, count: S64, cycles: S64, band: Band, maxFreq: S32, minFreq: S32)
    requires Computable(count, cycles, band) && 0 <= minFreq <= maxFreq
    ensures 0 <= FactorIn(h, count, cycles, band) <= 100
    ensures FrequencyIn(h, count, cycles, band, maxFreq, minFreq)
         == Scale(FactorIn(h, count, cycles, band), maxFreq - minFreq, minFreq)
    ensures minFreq <= FrequencyIn(h, count, cycles, band, maxFreq, minFreq) <= maxFreq
  {
    var f := FactorIn(h, count, cycles, band);
    assert FrequencyIn(h, count, cycles, band, maxFreq, minFreq) == ScaledIn(f * WrapS32(maxFreq - minFreq), minFreq);
    ScaledInRange(f, maxFreq - minFreq, minFreq);
  }

  lemma ScaledInRange(f: int, width: int, minFreq: S32)
    requires 0 <= f <= 100 && 0 <= minFreq && 0 <= width && minFreq + width < TWO31
    ensures WrapS32(width) == width
    ensures ScaledIn(f * width, minFreq) == Scale(f, width, minFreq)
    ensures minFreq <= Scale(f, width, minFreq) <= minFreq + width
  {
    ScaledSpan(f, width);
    ScaleBack(f * width, width, minFreq);
  }

  lemma ScaleBack(product: int, width: int, minFreq: S32)
    requires 0 <= minFreq && 0 <= width && minFreq + width < TWO31 && 0 <= product <= 100 * width
    ensures ScaledIn(product, minFreq) == product / 100 + minFreq
    ensures 0 <= product / 100 <= width
  {
    WrapS64Exact(product);
    WrapS64Exact(product / 100);
    WrapS64Exact(product / 100 + minFreq);
  }

  lemma ScaledSpan(f: int, d: int)
    requires 0 <= f <= 100 && 0 <= d
    ensures 0 <= f * d <= 100 * d
  {
  }

  /** In the documented range the C function is the unbounded formula. */
  lemma FrequencyInExact(h: Heuristic, count: S64, cycles: S64, band: Band, maxFreq: S32, minFreq: S32)
    requires -COUNT_BOUND <= count <= COUNT_BOUND && cycles != 0 && band.Usable()
    requires 0 <= minFreq <= maxFreq
    ensures Computable(count, cycles, band)
    ensures FrequencyIn(h, count, cycles, band, maxFreq, minFreq) == Frequency(h, count, cycles, band, maxFreq, minFreq)
    ensures minFreq <= Frequency(h, count, cycles, band, maxFreq, minFreq) <= maxFreq
  {
    NoOverflowInPosition(h, count, cycles, band);
    FrequencyInRange(h, count, cycles, band, maxFreq, minFreq);
  }

  predicate FitsS64(x: int) { -TWO63 <= x < TWO63 }

  /** The percentage is right exactly when the first product does not wrap: two dividends
      2^64 apart never have the same quotient by an s64. */
  lemma PercentExactIff(count: S64, cycles: S64)
    requires Divides(WrapS64(count * 100), cycles)
    ensures PercentIn(count, cycles) == Percent(count, cycles) <==> FitsS64(count * 100)
  {
    var a, b := count * 100, WrapS64(count * 100);
    QuotientFits(b, cycles);
    assert FitsS64(a) ==> a == b;
    if !FitsS64(a) {
      TruncDivLaw(a, cycles);
      TruncDivLaw(b, cycles);
      FarFromWrapped(a);
    }
  }

  lemma QuotientFits(a: S64, b: S64)
    requires Divides(a, b)
    ensures WrapS64(TruncDiv(a, b)) == TruncDiv(a, b)
  {
    TruncDivMagnitude(a, b);
    if a == -TWO63 {
      LowestQuotient(b);
    }
    WrapS64Exact(TruncDiv(a, b));
  }

  lemma LowestQuotient(b: int)
    requires b != 0 && b != -1
    ensures TruncDiv(-TWO63, b) < TWO63
  {
    MagnitudeDiv(-TWO63, b);
    if b < 0 {
      TruncDivAntitone(TWO63, 2, -b);
    } else {
      DivMonotone(0, TWO63, b);
    }
  }

  lemma FarFromWrapped(x: int)
    requires !FitsS64(x)
    ensures x - WrapS64(x) >= TWO64 || WrapS64(x) - x >= TWO64
  {
  }

  /** Wrapping early changes nothing modulo 2^64. */
  lemma WrapTwice(x: int)
    ensures WrapS64(WrapS64(x) * 100) == WrapS64(x * 100)
  {
    var k := (x - WrapS64(x)) / TWO64;
    assert x - WrapS64(x) == k * TWO64;
    WrapShift(WrapS64(x) * 100, 100 * k);
    assert x * 100 == WrapS64(x) * 100 + (100 * k) * TWO64;
  }

  lemma WrapShift(x: int, k: int)
    ensures WrapS64(x + k * TWO64) == WrapS64(x)
  {
    assert (x + k * TWO64) % TWO64 == x % TWO64;
  }

  /** The values of the wrapped offset that give position q. */
  predicate InCell(wrapped: int, q: int, range: int) {
    && (q == 0 ==> wrapped < range)
    && (q == 100 ==> wrapped >= 100 * range)
    && (0 < q < 100 ==> q * range <= wrapped < (q + 1) * range)
  }

  lemma ClampedQuotientIff(w: int, range: int, q: int)
    requires range > 0 && 0 <= q <= 100
    ensures Clamp(TruncDiv(w, range), 0, 100) == q <==> InCell(w, q, range)
  {
    var d := TruncDiv(w, range);
    if w < 0 {
      TruncDivMonotone(w, 0, range);
      assert d <= 0;
      assert q > 0 ==> q * range >= range;
    } else {
      TruncDivLaw(w, range);
      assert d * range <= w < d * range + range;
      QuotientAtLeast(w, range, d, 1);
      QuotientAtLeast(w, range, d, 100);
      QuotientAtLeast(w, range, d, q);
      QuotientAtLeast(w, range, d, q + 1);
    }
  }

  lemma QuotientAtLeast(w: int, range: int, d: int, k: int)
    requires range > 0 && d * range <= w < d * range + range
    ensures d >= k <==> w >= k * range
  {
    if d >= k {
      assert d * range >= k * range;
    } else {
      assert (d + 1) * range <= k * range;
    }
  }

  /** For all counters: the C function finds the right factor exactly when its wrapped
      offset lies in the hundredth of the band that the unbounded position names. */
  lemma FactorExactIff(h: Heuristic, count: S64, cycles: S64, band: Band)
    requires Divides(WrapS64(count * 100), cycles) && band.Increasing()
    ensures Computable(count, cycles, band)
    ensures FactorIn(h, count, cycles, band) == Factor(h, count, cycles, band)
            <==> InCell(OffsetIn(count, cycles, band), Position(count, cycles, band), band.high - band.low)
  {
    var w, range := OffsetIn(count, cycles, band), band.high - band.low;
    assert WrapS32(range) == range;
    QuotientFits(w, range);
    ClampedQuotientIff(w, range, Position(count, cycles, band));
  }

  /** An offset that leaves the right factor standing: it fits 64 bits, or what wrapping
      makes of it lies on the same side of the band. */
  predicate Harmless(offset: int, range: int) {
    if offset >= TWO63 then WrapS64(offset) >= 100 * range
    else if offset < -TWO63 then WrapS64(offset) < range
    else true
  }

  /** As long as the first product fits, the exact condition is on the second alone ... */
  lemma FactorExactIffHarmless(h: Heuristic, count: S64, cycles: S64, band: Band)
    requires Divides(WrapS64(count * 100), cycles) && FitsS64(count * 100) && band.Increasing()
    ensures Computable(count, cycles, band)
    ensures FactorIn(h, count, cycles, band) == Factor(h, count, cycles, band)
            <==> Harmless((Percent(count, cycles) - band.low) * 100, band.high - band.low)
  {
    var offset, range := (Percent(count, cycles) - band.low) * 100, band.high - band.low;
    PercentExactIff(count, cycles);
    WrapTwice(Percent(count, cycles) - band.low);
    FactorExactIff(h, count, cycles, band);
    ClampedQuotientIff(offset, range, Position(count, cycles, band));
    if offset >= TWO63 {
      BigOffset(offset, range);
    } else if offset < -TWO63 {
      TruncDivMonotone(offset, 0, range);
    } else {
      WrapS64Exact(offset);
    }
  }

  /** ... and it is the exact condition for the frequency too, as soon as the limits are
      100 kHz apart, so that no two factors give the same frequency. */
  lemma FrequencyExactIffHarmless(h: Heuristic, count: S64, cycles: S64, band: Band, maxFreq: S32, minFreq: S32)
    requires Divides(WrapS64(count * 100), cycles) && FitsS64(count * 100) && band.Increasing()
    requires 0 <= minFreq <= maxFreq
    ensures Computable(count, cycles, band)
    ensures var harmless := Harmless((Percent(count, cycles) - band.low) * 100, band.high - band.low);
            var right := FrequencyIn(h, count, cycles, band, maxFreq, minFreq)
                      == Frequency(h, count, cycles, band, maxFreq, minFreq);
            (harmless ==> right) && (maxFreq - minFreq >= 100 ==> (right <==> harmless))
  {
    FactorExactIffHarmless(h, count, cycles, band);
    FrequencyInRange(h, count, cycles, band, maxFreq, minFreq);
    var f, g, width := FactorIn(h, count, cycles, band), Factor(h, count, cycles, band), maxFreq - minFreq;
    if width >= 100 && f != g {
      ScaleInjective(if f < g then f else g, if f < g then g else f, width, minFreq);
    }
  }

  lemma ScaleInjective(f: int, g: int, width: int, minFreq: int)
    requires 0 <= f < g && width >= 100
    ensures Scale(f, width, minFreq) < Scale(g, width, minFreq)
  {
    assert f * width + 100 <= g * width;
    assert 0 <= f * width;
    TruncDivMonotone(f * width + 100, g * width, 100);
  }

  lemma PercentOfOneCycle(count: nat)
    ensures Percent(count, 1) == count * 100
  {
  }

  /** An input that shows it, with the default band of the stalls heuristic: one cycle and
      922,337,203,685,478 stalls get the highest frequency instead of the lowest ... */
  lemma OverflowExample(maxFreq: S32, minFreq: S32)
    requires 0 <= minFreq <= maxFreq
    ensures Computable(922_337_203_685_478, 1, Band(10, 65))
    ensures Frequency(OffcoreStalls, 922_337_203_685_478, 1, Band(10, 65), maxFreq, minFreq) == minFreq
    ensures FrequencyIn(OffcoreStalls, 922_337_203_685_478, 1, Band(10, 65), maxFreq, minFreq) == maxFreq
  {
    var count: S64 := 922_337_203_685_478;
    PercentOfOneCycle(count);
    OverflowInvertsTheChoice(count, 1, Band(10, 65), maxFreq, minFreq);
  }

  /** ... while every lower count gets the right one, ... */
  lemma BelowTheExample(count: S64)
    requires 0 <= count < 922_337_203_685_478
    ensures Computable(count, 1, Band(10, 65))
    ensures FactorIn(OffcoreStalls, count, 1, Band(10, 65)) == Factor(OffcoreStalls, count, 1, Band(10, 65))
  {
    PercentOfOneCycle(count);
    FactorExactIffHarmless(OffcoreStalls, count, 1, Band(10, 65));
  }

  lemma WrapsPastTheBand()
    ensures Harmless((1_900_000_000_000_000 * 100 - 10) * 100, 65 - 10)
  {
    assert (1_900_000_000_000_000 * 100 - 10) * 100 == 18_999_999_999_999_999_000;
    assert 18_999_999_999_999_999_000 - TWO64 == 553_255_926_290_447_384;
    WrapShift(553_255_926_290_447_384, 1);
    WrapS64Exact(553_255_926_290_447_384);
  }

  /** ... and 1,900,000,000,000,000 stalls, whose product wraps too, get the right one again. */
  lemma HarmlessOverflowExample()
    ensures (Percent(1_900_000_000_000_000, 1) - 10) * 100 > TWO64
    ensures Computable(1_900_000_000_000_000, 1, Band(10, 65))
    ensures FactorIn(OffcoreStalls, 1_900_000_000_000_000, 1, Band(10, 65))
         == Factor(OffcoreStalls, 1_900_000_000_000_000, 1, Band(10, 65))
  {
    var count: S64 := 1_900_000_000_000_000;
    PercentOfOneCycle(count);
    WrapsPastTheBand();
    FactorExactIffHarmless(OffcoreStalls, count, 1, Band(10, 65));
  }

  /** What a harmful offset does: while the second product is between 2^63 and 2^64, a
      processor that stalls all the time is given the highest frequency instead of the
      lowest, and the IPC heuristic errs the other way. */
  lemma OverflowInvertsTheChoice(count: S64, cycles: S64, band: Band, maxFreq: S32, minFreq: S32)
    requires cycles > 0 && 0 <= count * 100 < TWO63 && band.Increasing() && 0 <= minFreq <= maxFreq
    requires Percent(count, cycles) - band.low < TWO63
    requires TWO63 <= (Percent(count, cycles) - band.low) * 100 < TWO64
    ensures Computable(count, cycles, band)
    ensures Frequency(OffcoreStalls, count, cycles, band, maxFreq, minFreq) == minFreq
    ensures FrequencyIn(OffcoreStalls, count, cycles, band, maxFreq, minFreq) == maxFreq
    ensures Frequency(Ipc, count, cycles, band, maxFreq, minFreq) == maxFreq
    ensures FrequencyIn(Ipc, count, cycles, band, maxFreq, minFreq) == minFreq
  {
    WrappedPosition(count, cycles, band);
    FrequencyInRange(Ipc, count, cycles, band, maxFreq, minFreq);
    FrequencyInRange(OffcoreStalls, count, cycles, band, maxFreq, minFreq);
    ScaleEnds(maxFreq - minFreq, minFreq);
  }

  lemma ScaleEnds(width: int, minFreq: int)
    ensures Scale(0, width, minFreq) == minFreq && Scale(100, width, minFreq) == minFreq + width
  {
  }

  lemma WrappedPosition(count: S64, cycles: S64, band: Band)
    requires cycles > 0 && 0 <= count * 100 < TWO63 && band.Increasing()
    requires Percent(count, cycles) - band.low < TWO63
    requires TWO63 <= (Percent(count, cycles) - band.low) * 100 < TWO64
    ensures Computable(count, cycles, band)
    ensures FactorIn(Ipc, count, cycles, band) == 0 && Factor(Ipc, count, cycles, band) == 100
  {
    var percent, range := Percent(count, cycles), band.high - band.low;
    WrappedOffset(count, cycles, band);
    WrappedQuotient((percent - band.low) * 100, range);
    assert WrapS32(range) == range;
  }

  lemma WrappedOffset(count: S64, cycles: S64, band: Band)
    requires cycles > 0 && 0 <= count * 100 < TWO63
    requires Percent(count, cycles) - band.low < TWO63
    requires TWO63 <= (Percent(count, cycles) - band.low) * 100 < TWO64
    ensures Divides(WrapS64(count * 100), cycles)
    ensures OffsetIn(count, cycles, band) == (Percent(count, cycles) - band.low) * 100 - TWO64
  {
    var product := count * 100;
    TruncDivMagnitude(product, cycles);
    WrapS64Exact(product);
    WrapS64Exact(Percent(count, cycles));
    WrapS64Exact(Percent(count, cycles) - band.low);
  }

  lemma WrappedQuotient(offset: int, range: int)
    requires TWO63 <= offset < TWO64 && 0 < range < TWO31
    ensures Clamp(WrapS64(TruncDiv(offset - TWO64, range)), 0, 100) == 0
    ensures Clamp(TruncDiv(offset, range), 0, 100) == 100
  {
    TruncDivMonotone(offset - TWO64, 0, range);
    TruncDivMagnitude(offset - TWO64, range);
    WrapS64Exact(TruncDiv(offset - TWO64, range));
    BigOffset(offset, range);
  }

  lemma BigOffset(offset: int, range: int)
    requires offset >= TWO63 && 0 < range < TWO31
    ensures TruncDiv(offset, range) >= 100
  {
    TruncDivAntitone(offset, range, TWO31);
    TruncDivMonotone(TWO63, offset, TWO31);
  }

  /* ---------- Laws ---------- */

  lemma ClampMonotone(x: int, y: int)
    requires x <= y
    ensures Clamp(x, 0, 100) <= Clamp(y, 0, 100)
  {
  }

  /** More counted events, or fewer cycles, never lower the position. */
  lemma PositionMonotone(count: int, cycles: int, count': int, cycles': int, band: Band)
    requires 0 < cycles' <= cycles && count <= count' && band.low < band.high
    requires count >= 0 || cycles == cycles'
    ensures Position(count, cycles, band) <= Position(count', cycles', band)
  {
    var r := band.high - band.low;
    TruncDivMonotone(count * 100, count' * 100, cycles);
    if cycles != cycles' {
      TruncDivAntitone(count' * 100, cycles', cycles);
    }
    var p, p' := Percent(count, cycles), Percent(count', cycles');
    TruncDivMonotone((p - band.low) * 100, (p' - band.low) * 100, r);
    ClampMonotone(TruncDiv((p - band.low) * 100, r), TruncDiv((p' - band.low) * 100, r));
  }

  lemma SpanMonotone(f: int, f': int, d: int)
    requires 0 <= f <= f' && 0 <= d
    ensures TruncDiv(f * d, 100) <= TruncDiv(f' * d, 100)
  {
    assert f * d <= f' * d;
    TruncDivMonotone(f * d, f' * d, 100);
  }

  /** Stalls lower the frequency and cycles raise it; for instructions per cycle it is
      the other way round. */
  lemma FrequencyMonotone(count: int, cycles: int, count': int, cycles': int, band: Band, maxFreq: int, minFreq: int)
    requires 0 < cycles' <= cycles && count <= count' && band.low < band.high && minFreq <= maxFreq
    requires count >= 0 || cycles == cycles'
    ensures Frequency(OffcoreStalls, count', cycles', band, maxFreq, minFreq)
         <= Frequency(OffcoreStalls, count, cycles, band, maxFreq, minFreq)
    ensures Frequency(Ipc, count, cycles, band, maxFreq, minFreq)
         <= Frequency(Ipc, count', cycles', band, maxFreq, minFreq)
  {
    PositionMonotone(count, cycles, count', cycles', band);
    var p, p' := Position(count, cycles, band), Position(count', cycles', band);
    SpanMonotone(100 - p', 100 - p, maxFreq - minFreq);
    SpanMonotone(p, p', maxFreq - minFreq);
  }

  /** Only the ratio of the counters matters. */
  lemma FrequencyScaleInvariant(h: Heuristic, count: int, cycles: int, k: int, band: Band, maxFreq: int, minFreq: int)
    requires cycles != 0 && k > 0 && band.low != band.high
    ensures k * cycles != 0
    ensures Frequency(h, k * count, k * cycles, band, maxFreq, minFreq)
         == Frequency(h, count, cycles, band, maxFreq, minFreq)
  {
    TruncDivScale(count * 100, cycles, k);
    assert (k * count) * 100 == k * (count * 100);
  }

  /** With the same band and counters the two heuristics are mirror images, up to one
      unit lost to rounding. */
  lemma HeuristicsMirror(count: int, cycles: int, band: Band, maxFreq: int, minFreq: int)
    requires cycles != 0 && band.low != band.high && minFreq <= maxFreq
    ensures var sum := Frequency(Ipc, count, cycles, band, maxFreq, minFreq)
                     + Frequency(OffcoreStalls, count, cycles, band, maxFreq, minFreq);
            maxFreq + minFreq - 1 <= sum <= maxFreq + minFreq
    ensures var sum := Frequency(Ipc, count, cycles, band, maxFreq, minFreq)
                     + Frequency(OffcoreStalls, count, cycles, band, maxFreq, minFreq);
            sum == maxFreq + minFreq <==> (Position(count, cycles, band) * (maxFreq - minFreq)) % 100 == 0
  {
    var p, d := Position(count, cycles, band), maxFreq - minFreq;
    ScaledSpan(p, d);
    assert (100 - p) * d == 100 * d - p * d;
    ComplementaryQuotients(p * d, d);
  }

  lemma ComplementaryQuotients(x: int, d: int)
    requires 0 <= x <= 100 * d
    ensures d - 1 <= x / 100 + (100 * d - x) / 100 <= d
    ensures x % 100 == 0 <==> x / 100 + (100 * d - x) / 100 == d
  {
  }

  /* ---------- The ends of the band ---------- */

  /** A ratio at or below the lower percentage, compared without division, gets the frequency
      for an unstalled processor, and one at or above the upper percentage that for a stalled
      one; for instructions per cycle the other way round. */
  lemma EndsOfTheBand(count: int, cycles: int, band: Band, maxFreq: int, minFreq: int)
    requires count >= 0 && cycles > 0 && 0 <= band.low < band.high
    ensures count * 100 <= band.low * cycles ==>
              && Frequency(OffcoreStalls, count, cycles, band, maxFreq, minFreq) == maxFreq
              && Frequency(Ipc, count, cycles, band, maxFreq, minFreq) == minFreq
    ensures count * 100 >= band.high * cycles ==>
              && Frequency(OffcoreStalls, count, cycles, band, maxFreq, minFreq) == minFreq
              && Frequency(Ipc, count, cycles, band, maxFreq, minFreq) == maxFreq
  {
    var percent, range := Percent(count, cycles), band.high - band.low;
    TruncDivLaw(count * 100, cycles);
    if count * 100 <= band.low * cycles {
      QuotientAtMost(count * 100, cycles, percent, band.low);
      TruncDivMonotone((percent - band.low) * 100, 0, range);
    } else if count * 100 >= band.high * cycles {
      QuotientAtLeast(count * 100, cycles, percent, band.high);
      HundredTimes(range, percent - band.low);
      TruncDivMonotone(range * 100, (percent - band.low) * 100, range);
    }
    if band.high * cycles <= count * 100 <= band.low * cycles {
      OneMoreTimes(band.low, band.high, cycles);
    }
    ScaleEnds(maxFreq - minFreq, minFreq);
  }

  lemma QuotientAtMost(a: int, c: int, q: int, k: int)
    requires c > 0 && q * c <= a <= k * c
    ensures q <= k
  {
    OneMoreTimes(k, q, c);
  }

  lemma HundredTimes(range: int, x: int)
    requires 0 < range <= x
    ensures range * 100 <= x * 100 && TruncDiv(range * 100, range) == 100
  {
    QuotientUnique(range * 100, range, 100);
  }

  /** A sample in the middle, with the default band: 50 stalls in 100 cycles, between 800 MHz
      and 4 GHz. */
  lemma MiddleExample()
    ensures Frequency(OffcoreStalls, 50, 100, Band(10, 65), 4_000_000, 800_000) == 1_696_000
    ensures Frequency(Ipc, 30, 100, Band(10, 45), 4_000_000, 800_000) == 2_624_000
  {
    assert Percent(50, 100) == 50 && Percent(30, 100) == 30;
    assert Position(50, 100, Band(10, 65)) == 72 && Position(30, 100, Band(10, 45)) == 57;
  }

  /* ---------- Accuracy ---------- */

  function ClampReal(x: real): real {
    if x < 0.0 then 0.0 else if x > 100.0 then 100.0 else x
  }

  /** The exact position: no rounding anywhere. */
  function ExactPosition(count: int, cycles: int, band: Band): real
    requires cycles > 0 && band.low < band.high
  {
    ClampReal((100.0 * count as real / cycles as real - band.low as real) * 100.0 / (band.high - band.low) as real)
  }

  function ExactFrequency(h: Heuristic, count: int, cycles: int, band: Band, maxFreq: int, minFreq: int): real
    requires cycles > 0 && band.low < band.high
  {
    var p := ExactPosition(count, cycles, band);
    var f := match h case Ipc => p case OffcoreStalls => 100.0 - p;
    ScaleExactly(f, maxFreq - minFreq, minFreq)
  }

  function ScaleExactly(factor: real, width: int, minFreq: int): real {
    factor * width as real / 100.0 + minFreq as real
  }

  /** What rounding the position by at most 1 + 100 * step per cent can cost over a
      frequency interval. */
  function Slack(width: int, step: real): real {
    width as real * (step + 1.0 / 100.0)
  }

  lemma RealDivMonotone(x: real, y: real, c: real)
    requires c > 0.0
    ensures x <= y ==> x / c <= y / c
    ensures x < y ==> x / c < y / c
  {
  }

  /** A truncated quotient of a nonnegative number, seen as a rounding of the real one. */
  lemma TruncDivRounds(a: int, c: int)
    requires c > 0
    ensures a >= 0 ==> a as real / c as real - 1.0 < TruncDiv(a, c) as real <= a as real / c as real
    ensures a < 0 ==> TruncDiv(a, c) <= 0 && a as real / c as real < 0.0
  {
    if a >= 0 {
      TruncDivLaw(a, c);
      IntegerBoundsReal(a, c, TruncDiv(a, c));
    } else {
      TruncDivMonotone(a, 0, c);
      RealDivMonotone(a as real, 0.0, c as real);
    }
  }

  lemma IntegerBoundsReal(a: int, c: int, q: int)
    requires c > 0 && q * c <= a < q * c + c
    ensures q as real <= a as real / c as real < q as real + 1.0
  {
    assert (q as real) * (c as real) == (q * c) as real;
    RealQuotientBounds(a as real, c as real, q as real);
  }

  lemma RealQuotientBounds(a: real, c: real, q: real)
    requires c > 0.0 && q * c <= a < q * c + c
    ensures q <= a / c < q + 1.0
  {
    var z := a / c;
    assert z * c == a;
    SignOfRealProduct(z - q, c);
    SignOfRealProduct(z - q - 1.0, c);
    assert (z - q) * c == a - q * c;
    assert (z - q - 1.0) * c == a - q * c - c;
  }

  lemma SignOfRealProduct(x: real, c: real)
    requires c > 0.0
    ensures x < 0.0 <==> x * c < 0.0
  {
  }

  /** Three roundings cost the position less than 1 + 100 / range, always downwards. */
  lemma PositionAccuracy(count: int, cycles: int, band: Band)
    requires cycles > 0 && count >= 0 && band.low < band.high
    ensures ExactPosition(count, cycles, band) - 1.0 - 100.0 / (band.high - band.low) as real
          < Position(count, cycles, band) as real
         <= ExactPosition(count, cycles, band)
  {
    var r := band.high - band.low;
    var percent, exact := Percent(count, cycles), 100.0 * count as real / cycles as real;
    TruncDivRounds(count * 100, cycles);
    assert exact - 1.0 < percent as real <= exact by {
      assert (count * 100) as real == 100.0 * count as real;
    }
    var offset := (percent - band.low) * 100;
    var y, z := offset as real / r as real, (exact - band.low as real) * 100.0 / r as real;
    assert y <= z < y + 100.0 / r as real by {
      OffsetStep(percent, exact, band.low, r);
    }
    TruncDivRounds(offset, r);
    ClampRounds(TruncDiv(offset, r), y);
    assert ClampReal(y) <= ClampReal(z) < ClampReal(y) + 100.0 / r as real;
  }

  lemma OffsetStep(percent: int, exact: real, low: int, r: int)
    requires r > 0 && exact - 1.0 < percent as real <= exact
    ensures var y, z := ((percent - low) * 100) as real / r as real, (exact - low as real) * 100.0 / r as real;
            y <= z < y + 100.0 / r as real
  {
    var a, b := ((percent - low) * 100) as real, (exact - low as real) * 100.0;
    assert a <= b < a + 100.0;
    RealDivMonotone(a, b, r as real);
    RealDivMonotone(b, a + 100.0, r as real);
    assert (a + 100.0) / r as real == a / r as real + 100.0 / r as real;
  }

  lemma ClampRounds(t: int, y: real)
    requires y >= 0.0 ==> y - 1.0 < t as real <= y
    requires y < 0.0 ==> t <= 0
    ensures ClampReal(y) - 1.0 < Clamp(t, 0, 100) as real <= ClampReal(y)
  {
  }

  lemma HundredOver(r: real)
    requires r > 0.0
    ensures 100.0 / r == 100.0 * (1.0 / r)
  {
  }

  /** The stalls heuristic errs upwards by at most D * (1/range + 1/100), and downwards by
      less than one kHz, where D is the width of the frequency interval. */
  lemma StallsAccuracy(stalls: int, cycles: int, band: Band, maxFreq: int, minFreq: int)
    requires cycles > 0 && stalls >= 0 && band.low < band.high && minFreq <= maxFreq
    ensures var error := Frequency(OffcoreStalls, stalls, cycles, band, maxFreq, minFreq) as real
                       - ExactFrequency(OffcoreStalls, stalls, cycles, band, maxFreq, minFreq);
            -1.0 < error <= Slack(maxFreq - minFreq, 1.0 / (band.high - band.low) as real)
  {
    PositionAccuracy(stalls, cycles, band);
    var f, g := 100 - Position(stalls, cycles, band), 100.0 - ExactPosition(stalls, cycles, band);
    var step := 1.0 / (band.high - band.low) as real;
    HundredOver((band.high - band.low) as real);
    ErrorUpwards(f, g, maxFreq - minFreq, minFreq, step);
  }

  /** The IPC heuristic errs only downwards. */
  lemma IpcAccuracy(instructions: int, cycles: int, band: Band, maxFreq: int, minFreq: int)
    requires cycles > 0 && instructions >= 0 && band.low < band.high && minFreq <= maxFreq
    ensures var error := Frequency(Ipc, instructions, cycles, band, maxFreq, minFreq) as real
                       - ExactFrequency(Ipc, instructions, cycles, band, maxFreq, minFreq);
            -1.0 - Slack(maxFreq - minFreq, 1.0 / (band.high - band.low) as real) < error <= 0.0
  {
    PositionAccuracy(instructions, cycles, band);
    var f, g := Position(instructions, cycles, band), ExactPosition(instructions, cycles, band);
    var step := 1.0 / (band.high - band.low) as real;
    HundredOver((band.high - band.low) as real);
    ErrorDownwards(f, g, maxFreq - minFreq, minFreq, step);
  }

  /** How an error in the factor, g being exact, becomes an error in the frequency. */
  lemma ErrorUpwards(f: int, g: real, d: int, minFreq: int, step: real)
    requires 0 <= f <= 100 && 0 <= d && g <= f as real < g + 1.0 + 100.0 * step
    ensures -1.0 < Scale(f, d, minFreq) as real - ScaleExactly(g, d, minFreq) <= Slack(d, step)
  {
    FinalRounding(f, d, minFreq);
    SpanError(g, f as real, d, minFreq, step);
  }

  lemma ErrorDownwards(f: int, g: real, d: int, minFreq: int, step: real)
    requires 0 <= f <= 100 && 0 <= d && g - 1.0 - 100.0 * step < f as real <= g
    ensures -1.0 - Slack(d, step) < Scale(f, d, minFreq) as real - ScaleExactly(g, d, minFreq) <= 0.0
  {
    FinalRounding(f, d, minFreq);
    SpanError(f as real, g, d, minFreq, step);
  }

  lemma FinalRounding(f: int, d: int, minFreq: int)
    requires 0 <= f <= 100 && 0 <= d
    ensures ScaleExactly(f as real, d, minFreq) - 1.0 < Scale(f, d, minFreq) as real
         <= ScaleExactly(f as real, d, minFreq)
  {
    ScaledSpan(f, d);
    TruncDivRounds(f * d, 100);
    assert (f * d) as real == f as real * d as real;
  }

  lemma SpanError(g: real, f: real, d: int, minFreq: int, step: real)
    requires d >= 0 && g <= f <= g + 1.0 + 100.0 * step
    ensures ScaleExactly(g, d, minFreq) <= ScaleExactly(f, d, minFreq) <= ScaleExactly(g, d, minFreq) + Slack(d, step)
  {
    var x, top := d as real, g + 1.0 + 100.0 * step;
    assert g * x <= f * x <= top * x;
    assert top * x == g * x + x + 100.0 * (x * step);
    assert Slack(d, step) == x * step + x / 100.0;
  }
}
