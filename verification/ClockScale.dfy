/** The choice of the scaled-math factors (src/include/clocksource/clocksource.h; the same search in
    src/include/clockevent/clockevent.h, with nanoseconds as the frequency to convert from) and the
    scheduling of clock events with them (src/driver/clockevent/clockevent.c). */
module ClockScale {
  import opened Arith
  import opened Clocksource

  /** `to` / `from` scaled by 2^shift and rounded to the nearest. */
  function ScaledMult(from: nat, to: nat, shift: nat): nat
    requires from > 0
  {
    Quotient(to * Pow2(shift) + from / 2, from)
  }

  lemma ScaledMultRounds(from: nat, to: nat, shift: nat)
    requires from > 0
    ensures Accurate(from, to, ScaledMult(from, to, shift), shift)
  {
    var x := to * Pow2(shift) + from / 2;
    assert x == ScaledMult(from, to, shift) * from + x % from;
  }

  /** `mult` is `to` / `from` scaled by 2^shift, to within half a unit. */
  predicate Accurate(from: nat, to: nat, mult: nat, shift: nat) {
    var d: int := mult * from - to * Pow2(shift);
    0 <= from + 2 * d <= 2 * from
  }

  lemma ScaledMultGrows(from: nat, to: nat, a: nat, b: nat)
    requires from > 0 && a <= b
    ensures ScaledMult(from, to, a) <= ScaledMult(from, to, b)
  {
    Pow2Monotone(a, b);
    ProductMonotone(to, Pow2(a), Pow2(b));
    QuotientMonotone(to * Pow2(a) + from / 2, to * Pow2(b) + from / 2, from);
  }

  lemma ProductMonotone(k: nat, a: nat, b: nat)
    requires a <= b
    ensures k * a <= k * b
  {
    assert k * b == k * a + k * (b - a);
    assert k * (b - a) >= 0;
  }

  /** The multiplier and the longest conversion do not overflow together. */
  predicate Covers(from: nat, maxsec: nat, mult: nat) {
    forall cycles: nat {:trigger cycles * mult} :: cycles <= maxsec * from ==> cycles * mult < U64
  }

  lemma CoversRange(from: nat, maxsec: nat, mult: nat, acc: nat)
    requires acc <= 32 && mult < Pow2(acc) && maxsec * from / U32 < Pow2(32 - acc)
    ensures Covers(from, maxsec, mult)
  {
    var range, high := maxsec * from, Pow2(32 - acc);
    assert range < U32 * high;
    Pow2Adds(32 - acc, acc);
    WordSizes();
    forall cycles: nat | cycles <= range ensures cycles * mult < U64 {
      CyclesFit(cycles, mult, high, Pow2(acc));
    }
  }

  lemma CyclesFit(cycles: nat, mult: nat, high: nat, p: nat)
    requires cycles < U32 * high && mult < p && high * p == U32 && high > 0
    ensures cycles * mult < U64
  {
    ProductMonotone(mult, cycles, U32 * high);
    assert mult * (U32 * high) == U32 * (high * mult);
    StrictProduct(high, mult, p);
  }

  lemma StrictProduct(k: nat, a: nat, b: nat)
    requires k > 0 && a < b
    ensures k * a < k * b
  {
    FactorBound(b - a, k);
    assert k * b - k * a == (b - a) * k;
  }

  /** The number of bits of a number. */
  function BitLength(n: nat): nat {
    if n == 0 then 0 else 1 + BitLength(n / 2)
  }

  lemma {:induction false} BitLengthBounds(n: nat)
    ensures n < Pow2(BitLength(n)) && (n > 0 ==> Pow2(BitLength(n) - 1) <= n)
  {
    if n > 0 {
      BitLengthBounds(n / 2);
      if n / 2 > 0 { assert Pow2(BitLength(n) - 1) == 2 * Pow2(BitLength(n / 2) - 1); }
    }
  }

  lemma {:induction false} FewBits(n: nat, k: nat)
    requires n < Pow2(k)
    ensures BitLength(n) <= k
  {
    if n > 0 && k > 0 { FewBits(n / 2, k - 1); }
  }

  /** How many bits the multiplier may have: 32 less the bits that the range in cycles has beyond 32. */
  function Accuracy(from: nat, maxsec: nat): int {
    32 - BitLength(Quotient(maxsec * from, U32))
  }

  lemma AccuracyBounds(from: nat, maxsec: nat)
    requires from < U32 && maxsec < U32
    ensures 0 <= Accuracy(from, maxsec) <= 32
    ensures maxsec * from / U32 < Pow2(32 - Accuracy(from, maxsec))
  {
    RangeBound(from, maxsec);
    WordSizes();
    FewBits(Quotient(maxsec * from, U32), 32);
    BitLengthBounds(Quotient(maxsec * from, U32));
  }

  method AccuracyBits(from: nat, maxsec: nat) returns (acc: nat)
    requires from < U32 && maxsec < U32
    ensures acc == Accuracy(from, maxsec)
  {
    AccuracyBounds(from, maxsec);
    var tmp := Quotient(maxsec * from, U32);
    ghost var range := tmp;
    acc := 32;
    while tmp != 0
      invariant acc - BitLength(tmp) == 32 - BitLength(range)
    {
      tmp := tmp / 2;
      acc := acc - 1;
    }
  }

  lemma RangeBound(from: nat, maxsec: nat)
    requires from < U32 && maxsec < U32
    ensures 0 <= maxsec * from / U32 < U32
  {
    ProductMonotone(maxsec, from, U32);
    ProductMonotone(U32, maxsec, U32 - 1);
  }

  /** The multiplier of a shift has no more bits than it may have. */
  predicate Fitting(from: nat, to: nat, maxsec: nat, shift: nat)
    requires from > 0
  {
    ScaledMult(from, to, shift) < Pow2(if Accuracy(from, maxsec) > 0 then Accuracy(from, maxsec) else 0)
  }

  lemma ShiftedOut(x: nat, n: nat)
    ensures ShiftedRight(x, n) == 0 <==> x < Pow2(n)
  {
    var p := Pow2(n);
    assert x == x / p * p + x % p;
    FactorBound(x / p, p);
  }

  /** The largest shift whose multiplier fits, if there is one; otherwise the multiplier of shift 1
      is left with shift 0. */
  method CalcMultShift(from: nat, to: nat, maxsec: nat) returns (mult: nat, shift: nat)
    requires 0 < from < U32 && to < U32 && maxsec < U32
    ensures shift <= 32 && mult < U32
    ensures shift > 0 <==> Fitting(from, to, maxsec, 1)
    ensures shift > 0 ==>
      mult == ScaledMult(from, to, shift) && Accurate(from, to, mult, shift) && Covers(from, maxsec, mult)
    ensures shift > 0 ==> Fitting(from, to, maxsec, shift) && forall s :: shift < s <= 32 ==>
      !Fitting(from, to, maxsec, s)
    ensures shift == 0 ==> mult == ScaledMult(from, to, 1) % U32
  {
    hide ScaledMult, Pow2;
    var acc := AccuracyBits(from, maxsec);
    AccuracyBounds(from, maxsec);
    var tmp := 0;
    var sft := 32;
    while sft > 0
      invariant 0 <= sft <= 32
      invariant forall s :: sft < s <= 32 ==> !Fitting(from, to, maxsec, s)
      invariant sft < 32 ==> tmp == ScaledMult(from, to, sft + 1)
    {
      tmp := ScaledMult(from, to, sft);
      if ShiftedRight(tmp, acc) == 0 {
        ShiftedOut(tmp, acc);
        break;
      }
      ShiftedOut(tmp, acc);
      sft := sft - 1;
    }
    mult := tmp % U32;
    shift := sft;
    WordSizes();
    Pow2Monotone(acc, 32);
    if shift > 0 {
      ScaledMultGrows(from, to, 1, shift);
      ScaledMultRounds(from, to, shift);
      CoversRange(from, maxsec, mult, acc);
    }
  }

  /** Exactly when the search gives factors that are right: if the multiplier of shift 1 fits, or if
      it is 1 and `to` is at least half of `from`, so that 1 is right for shift 0 as well. */
  method CalcIsAccurate(from: nat, to: nat, maxsec: nat) returns (mult: nat, shift: nat)
    requires 0 < from < U32 && to < U32 && maxsec < U32
    ensures Accurate(from, to, mult, shift) <==>
      Fitting(from, to, maxsec, 1) || (ScaledMult(from, to, 1) == 1 && 2 * to >= from)
  {
    mult, shift := CalcMultShift(from, to, maxsec);
    AccuracyBounds(from, maxsec);
    if shift == 0 { FallThrough(from, to, Accuracy(from, maxsec)); }
  }

  /** A frequency for which no multiplier fits: the factors found are off by a factor of two and more. */
  method NoFactors() returns (mult: nat, shift: nat)
    ensures mult == 0xffff_fffe && shift == 0 && !Accurate(1, 0xffff_ffff, mult, shift)
  {
    assert Pow2(1) == 2;
    assert BitLength(Quotient(1, U32)) == 0;
    WordSizes();
    assert ScaledMult(1, 0xffff_ffff, 1) == 0x1_ffff_fffe && !Fitting(1, 0xffff_ffff, 1, 1);
    mult, shift := CalcMultShift(1, 0xffff_ffff, 1);
    FallThrough(1, 0xffff_ffff, 32);
  }

  lemma FallThrough(from: nat, to: nat, acc: nat)
    requires 0 < from < U32 && to < U32 && ScaledMult(from, to, 1) >= Pow2(acc)
    ensures Accurate(from, to, ScaledMult(from, to, 1) % U32, 0) <==> ScaledMult(from, to, 1) == 1 && 2 * to >= from
  {
    hide Pow2, Accurate, ScaledMult;
    var m, r := ScaledMult(from, to, 1), (to * 2 + from / 2) % from;
    ScaledOnce(from, to);
    if m >= U32 {
      Truncated(from, to, m, r);
    } else if m >= 2 {
      Doubled(from, to, m, r);
    } else {
      assert m == 1;
      Single(from, to, r);
    }
  }

  lemma ScaledOnce(from: nat, to: nat)
    requires from > 0
    ensures to * 2 + from / 2 == ScaledMult(from, to, 1) * from + (to * 2 + from / 2) % from
  {
    assert Pow2(1) == 2;
    hide Quotient, Pow2;
    QuotientSplits(to * 2 + from / 2, from);
  }

  lemma Single(from: nat, to: nat, r: nat)
    requires 0 < from < U32 && to * 2 + from / 2 == from + r && r < from
    ensures Accurate(from, to, 1, 0) <==> 2 * to >= from
  {
    assert Pow2(0) == 1;
  }

  lemma Truncated(from: nat, to: nat, m: nat, r: nat)
    requires 0 < from < U32 && to < U32 && m >= U32 && to * 2 + from / 2 == m * from + r
    ensures !Accurate(from, to, m % U32, 0)
  {
    assert Pow2(0) == 1;
    ProductMonotone(from, U32, m);
    assert from == 1;
  }

  lemma Doubled(from: nat, to: nat, m: nat, r: nat)
    requires 0 < from < U32 && to < U32 && 2 <= m < U32 && to * 2 + from / 2 == m * from + r && r < from
    ensures !Accurate(from, to, m % U32, 0)
  {
    assert Pow2(0) == 1;
    ProductMonotone(from, 2, m);
    assert from * m == m * from;
  }

  // Clock events

  /** The nanoseconds after which a device with these factors has counted `latch` ticks: rounded up if
      there is room and the device ticks at most once a nanosecond, and at least 1000. */
  function LatchToNs(mult: nat, shift: nat, latch: nat): nat
    requires mult > 0
  {
    var clc := Wrap(latch * Pow2(shift));
    var full := if ShiftedRight(clc, shift) != latch then U64 - 1 else clc;
    var up := if U64 - 1 - full > mult - 1 && mult <= Pow2(shift) then full + mult - 1 else full;
    if up / mult > 1000 then up / mult else 1000
  }

  /** The ticks that are programmed for an event `delta` nanoseconds away. */
  function Programmed(mult: nat, shift: nat, delta: nat, min: nat, max: nat): nat {
    var capped := if delta > max then max else delta;
    var d := if capped < min then min else capped;
    ShiftedRight(Wrap(d * mult), shift)
  }

  /** The whole ticks in `d` nanoseconds. */
  function TicksIn(mult: nat, shift: nat, d: nat): nat {
    Quotient(d * mult, Pow2(shift))
  }

  lemma TicksMonotone(mult: nat, shift: nat, a: nat, b: nat)
    requires a <= b
    ensures TicksIn(mult, shift, a) <= TicksIn(mult, shift, b)
  {
    assert b * mult == a * mult + (b - a) * mult;
    assert (b - a) * mult >= 0;
    QuotientMonotone(a * mult, b * mult, Pow2(shift));
  }

  /** For any event the ticks programmed lie between those of the shortest and those of the longest time
      that the device can do, and are the event's own if it lies between these. */
  lemma ProgrammedBetween(mult: nat, shift: nat, delta: nat, min: nat, max: nat)
    requires min <= max && max * mult < U64
    ensures var p := Programmed(mult, shift, delta, min, max);
      && TicksIn(mult, shift, min) <= p <= TicksIn(mult, shift, max)
      && (delta <= min ==> p == TicksIn(mult, shift, min))
      && (min <= delta <= max ==> p == TicksIn(mult, shift, delta))
      && (max <= delta ==> p == TicksIn(mult, shift, max))
  {
    hide Pow2;
    var d := if delta < min then min else if delta > max then max else delta;
    ProgrammedExactly(mult, shift, delta, min, max, d);
    assert (max - d) * mult >= 0 && (max - d) * mult == max * mult - d * mult;
    TicksMonotone(mult, shift, min, d);
    TicksMonotone(mult, shift, d, max);
  }

  /** A later event is not programmed earlier. */
  lemma ProgrammedInOrder(mult: nat, shift: nat, delta: nat, later: nat, min: nat, max: nat)
    requires min <= max && max * mult < U64 && delta <= later
    ensures Programmed(mult, shift, delta, min, max) <= Programmed(mult, shift, later, min, max)
  {
    hide Pow2, Programmed;
    ProgrammedBetween(mult, shift, delta, min, max);
    ProgrammedBetween(mult, shift, later, min, max);
    TicksMonotone(mult, shift, delta, later);
  }

  /** Whatever the limits, the ticks are those of the time cut to them, where the lower one wins, if and
      only if that time does not overflow 64 bits in the product. */
  lemma ProgrammedExactly(mult: nat, shift: nat, delta: nat, min: nat, max: nat, d: nat)
    requires d == if delta < min || max < min then min else if delta > max then max else delta
    ensures d * mult < U64 ==> Programmed(mult, shift, delta, min, max) == TicksIn(mult, shift, d)
    ensures shift < 64 && Programmed(mult, shift, delta, min, max) == TicksIn(mult, shift, d) ==> d * mult < U64
  {
    assert d * mult >= 0;
    assert Programmed(mult, shift, delta, min, max) == ShiftedRight(Wrap(d * mult), shift);
    if shift < 64 && d * mult >= U64 { WrappedIsLess(d * mult, shift); }
  }

  /** Nothing saturates in the conversion of `latch`. */
  predicate Fits(mult: nat, shift: nat, latch: nat) {
    latch * Pow2(shift) + mult < U64
  }

  lemma FitsUnshifts(mult: nat, shift: nat, latch: nat)
    requires mult > 0 && Fits(mult, shift, latch)
    ensures Wrap(latch * Pow2(shift)) == latch * Pow2(shift) && ShiftedRight(latch * Pow2(shift), shift) == latch
  {
    assert latch * Pow2(shift) >= 0;
    ProductIsMultiple(latch, Pow2(shift));
  }

  lemma LatchToNsIs(mult: nat, shift: nat, latch: nat)
    requires mult > 0 && Fits(mult, shift, latch)
    ensures var x := latch * Pow2(shift); var ns := (if mult <= Pow2(shift) then x + mult - 1 else x) / mult;
      LatchToNs(mult, shift, latch) == if ns > 1000 then ns else 1000
  {
    FitsUnshifts(mult, shift, latch);
  }

  /** A latch value of too many nanoseconds counts as the most that 64 bits hold, and one without room to
      round up is rounded down. */
  lemma LatchToNsSaturates(mult: nat, shift: nat, latch: nat)
    requires 0 < mult < U32 && shift < 64 && latch < U64 && !Fits(mult, shift, latch)
    ensures var x := latch * Pow2(shift); var ns := (if x >= U64 then U64 - 1 else x) / mult;
      LatchToNs(mult, shift, latch) == if ns > 1000 then ns else 1000
  {
    hide Pow2;
    var x := latch * Pow2(shift);
    assert x >= 0;
    ProductIsMultiple(latch, Pow2(shift));
    if x >= U64 { WrappedIsLess(x, shift); }
  }

  /** A device whose longest time is worked out from its largest latch value never overflows. */
  lemma LongestIsSafe(mult: nat, shift: nat, latch: nat)
    requires 0 < mult < U32 && Fits(mult, shift, latch)
    ensures LatchToNs(mult, shift, latch) * mult < U64
  {
    hide Pow2, LatchToNs;
    LatchToNsIs(mult, shift, latch);
    var x := latch * Pow2(shift);
    var y := if mult <= Pow2(shift) then x + mult - 1 else x;
    assert x >= 0;
    QuotientSplits(y, mult);
    assert y / mult == Quotient(y, mult);
  }

  /** With a longer one the product can wrap around, and the event is programmed for at once. */
  lemma EventOverflows()
    ensures Programmed(4, 0, 0x4000_0000_0000_0000, 0, U64 - 1) == 0 && TicksIn(4, 0, 0x4000_0000_0000_0000) == U64
  {
    assert Pow2(0) == 1;
  }

  lemma RoundsUp(mult: nat, p: nat, latch: nat, ns: nat)
    requires 0 < mult <= p && ns == (latch * p + mult - 1) / mult
    ensures latch * p <= ns * mult < latch * p + mult && ns * mult / p == latch
  {
    var r := (latch * p + mult - 1) % mult;
    assert ns * mult == latch * p + mult - 1 - r;
    QuotientUnique(ns * mult, p, latch, mult - 1 - r);
  }

  lemma RoundsDown(mult: nat, p: nat, latch: nat, ns: nat)
    requires 0 < p < mult && ns == latch * p / mult
    ensures 0 <= ns * mult <= latch * p && (ns * mult / p == latch <==> latch * p % mult == 0)
  {
    var r := latch * p % mult;
    assert ns * mult == latch * p - r;
    if r == 0 { ProductIsMultiple(latch, p); } else { Below(ns * mult, p, latch); }
  }

  /** Scheduling the nanoseconds worked out for `latch` ticks programs exactly `latch` ticks if and only
      if the device ticks at most once a nanosecond or the division comes out even. */
  lemma EventRoundTrip(mult: nat, shift: nat, latch: nat, min: nat, max: nat)
    requires mult > 0 && Fits(mult, shift, latch)
    requires var ns := LatchToNs(mult, shift, latch); ns > 1000 && min <= ns <= max
    ensures var ns := LatchToNs(mult, shift, latch);
      Programmed(mult, shift, ns, min, max) == latch <==> mult <= Pow2(shift) || latch * Pow2(shift) % mult == 0
  {
    hide LatchToNs, Pow2;
    LatchToNsIs(mult, shift, latch);
    var ns := LatchToNs(mult, shift, latch);
    if mult <= Pow2(shift) {
      RoundsUp(mult, Pow2(shift), latch, ns);
    } else {
      RoundsDown(mult, Pow2(shift), latch, ns);
    }
  }

  /** A device that ticks more than once a nanosecond, and a latch value that comes back one short. */
  lemma EventFallsShort()
    ensures LatchToNs(3, 1, 1600) == 1066 && Programmed(3, 1, 1066, 0, U32) == 1599
  {
    assert Pow2(1) == 2;
    LatchToNsIs(3, 1, 1600);
  }

  /** The device that events are programmed into; `granted` are its answers in turn. */
  class ClockEvent {
    const mult: nat
    const shift: nat
    const min: nat
    const max: nat
    const granted: seq<bool>
    /** The ticks that it has been asked for so far. */
    var asked: seq<nat>

    constructor (mult: nat, shift: nat, min: nat, max: nat, granted: seq<bool>)
      ensures this.mult == mult && this.shift == shift && this.min == min && this.max == max
      ensures this.granted == granted && asked == []
    {
      this.mult, this.shift, this.min, this.max, this.granted, asked := mult, shift, min, max, granted, [];
    }

    method Next(evt: nat) returns (ok: bool)
      modifies this`asked
      ensures asked == old(asked) + [evt]
      ensures ok <==> |old(asked)| < |granted| && granted[|old(asked)|]
    {
      ok := |asked| < |granted| && granted[|asked|];
      asked := asked + [evt];
    }

    /** An event in the past is refused without asking the device; for any other the device is asked
        once. */
    method SetEventNext(now: int, expires: int) returns (ok: bool)
      modifies this`asked
      ensures expires < now ==> !ok && asked == old(asked)
      ensures expires >= now ==> asked == old(asked) + [Programmed(mult, shift, expires - now, min, max)]
      ensures expires >= now ==> (ok <==> |old(asked)| < |granted| && granted[|old(asked)|])
      ensures expires >= now && min <= max && max * mult < U64 ==>
        TicksIn(mult, shift, min) <= asked[|old(asked)|] <= TicksIn(mult, shift, max)
    {
      if expires < now {
        return false;
      }
      var delta := expires - now;
      if delta > max {
        delta := max;
      }
      if delta < min {
        delta := min;
      }
      if min <= max && max * mult < U64 { ProgrammedBetween(mult, shift, expires - now, min, max); }
      ok := Next(ShiftedRight(Wrap(delta * mult), shift));
    }
  }

  lemma CoversLatch(mult: nat, p: nat, latch: nat)
    requires 0 < mult <= p && (latch * p + mult - 1) / mult <= 1000
    ensures latch * p <= 1000 * mult
  {
    var q, r := (latch * p + mult - 1) / mult, (latch * p + mult - 1) % mult;
    assert q * mult == latch * p + mult - 1 - r;
    ProductMonotone(mult, q, 1000);
  }

  /** Where the floor of 1000 nanoseconds applies, at least `latch` ticks are programmed. */
  lemma EventFloor(mult: nat, shift: nat, latch: nat, min: nat, max: nat)
    requires 0 < mult < U32 && mult <= Pow2(shift) && Fits(mult, shift, latch)
    requires LatchToNs(mult, shift, latch) == 1000 && min <= 1000 <= max
    ensures Programmed(mult, shift, 1000, min, max) >= latch
  {
    LatchToNsIs(mult, shift, latch);
    CoversLatch(mult, Pow2(shift), latch);
    FitsUnshifts(mult, shift, latch);
    QuotientMonotone(latch * Pow2(shift), 1000 * mult, Pow2(shift));
  }
}
