/** Timekeeping with a wrapping counter (src/include/clocksource/clocksource.h,
    src/driver/clocksource/clocksource.c). */
module Clocksource {
  import opened Arith

  /** 64-bit arithmetic wraps around. */
  function Wrap(x: int): (r: nat)
    ensures r < U64 && (0 <= x < U64 ==> r == x)
  {
    x % U64
  }

  /** `x >> n` */
  function ShiftedRight(x: nat, n: nat): nat {
    Quotient(x, Pow2(n))
  }

  /** A counter of `bits` bits whose cycles last mult / 2^shift nanoseconds. */
  datatype Scale = Scale(bits: nat, mult: nat, shift: nat)
  {
    predicate Valid() {
      1 <= bits <= 64 && mult < U32 && shift <= 32
    }

    /** The mask plus one. */
    function Modulus(): (m: nat)
      ensures m > 0
    {
      Pow2(bits)
    }

    /** `x & mask` */
    function Masked(x: nat): nat {
      x % Modulus()
    }

    function Delta(last: nat, now: nat): nat {
      if last < now then Masked(now - last) else Masked(Wrap(Wrap(Modulus()) - last + now))
    }

    function DeltaToNs(delta: nat): nat {
      ShiftedRight(Wrap(delta * mult), shift)
    }

    /** The nanoseconds of a number of cycles, rounded down, without overflow. */
    function Ns(cycles: nat): nat {
      ShiftedRight(cycles * mult, shift)
    }

    function Deferment(): nat {
      ShiftedRight(Wrap((Modulus() - 1) * mult), shift)
    }
  }

  lemma ModulusFits(c: Scale)
    requires c.Valid()
    ensures 2 <= c.Modulus() <= U64
  {
    Pow2Monotone(1, c.bits);
    Pow2Monotone(c.bits, 64);
    WordSizes();
  }

  /** Across any number of counter wraps the difference of two readings is the cycles between
      them, modulo the counter's range; so it is exactly the cycles if there are fewer. */
  lemma DeltaCounts(c: Scale, t0: nat, t1: nat)
    requires c.Valid() && t0 <= t1
    ensures c.Delta(c.Masked(t0), c.Masked(t1)) == c.Masked(t1 - t0)
    ensures t1 - t0 < c.Modulus() ==> c.Delta(c.Masked(t0), c.Masked(t1)) == t1 - t0
  {
    hide Pow2;
    var m, last, now := c.Modulus(), c.Masked(t0), c.Masked(t1);
    ModulusFits(c);
    var q := t1 / m - t0 / m;
    assert t1 - t0 == q * m + (now - last) by {
      assert t1 == t1 / m * m + now && t0 == t0 / m * m + last;
      assert q * m == t1 / m * m - t0 / m * m;
    }
    if last < now {
      SameRemainder(t1 - t0, m, q, now - last);
      SameRemainder(now - last, m, 0, now - last);
    } else if last == now {
      SameRemainder(t1 - t0, m, q, 0);
      assert Wrap(Wrap(m) - last + now) == Wrap(m);
      FullTurn(m);
    } else {
      assert (q - 1) * m == q * m - m;
      SameRemainder(t1 - t0, m, q - 1, m - last + now);
      SameRemainder(m - last + now, m, 0, m - last + now);
      assert Wrap(Wrap(m) - last + now) == m - last + now;
    }
    if t1 - t0 < m { SameRemainder(t1 - t0, m, 0, t1 - t0); }
  }

  lemma SameRemainder(c: int, m: int, q: int, r: int)
    requires m > 0 && c == q * m + r && 0 <= r < m
    ensures c % m == r
  {
    QuotientUnique(c, m, q, r);
  }

  lemma FullTurn(m: nat)
    requires 0 < m <= U64
    ensures Wrap(m) % m == 0
  {
    if m < U64 { SameRemainder(m, m, 1, 0); } else { SameRemainder(0, m, 0, 0); }
  }

  // Products and quotients

  lemma NsMonotone(c: Scale, a: nat, b: nat)
    requires a <= b
    ensures c.Ns(a) <= c.Ns(b)
  {
    assert b * c.mult == a * c.mult + (b - a) * c.mult;
    assert (b - a) * c.mult >= 0;
    QuotientMonotone(a * c.mult, b * c.mult, Pow2(c.shift));
  }

  lemma QuotientMonotone(x: nat, y: nat, p: nat)
    requires p > 0 && x <= y
    ensures x / p <= y / p
  {
    var a, b := x / p, y / p;
    assert x == a * p + x % p && y == b * p + y % p;
    QuotientsAscend(a, x % p, b, y % p, p);
  }

  lemma QuotientsAscend(a: int, r: int, b: int, s: int, p: int)
    requires a * p + r <= b * p + s && 0 <= r && 0 <= s < p
    ensures a <= b
  {
    FactorBound(a - b, p);
    assert (a - b) * p == a * p - b * p;
  }

  /** However the product in it wraps around, the deferment is safe: after fewer nanoseconds than
      that the counter has not come round, and the conversion does not overflow. */
  lemma DefermentIsSafe(c: Scale, cycles: nat)
    requires c.Valid() && c.Ns(cycles) < c.Deferment()
    ensures cycles < c.Modulus() && cycles * c.mult < U64 && c.DeltaToNs(cycles) == c.Ns(cycles)
  {
    hide Pow2, ShiftedRight, Wrap;
    var mask := c.Modulus() - 1;
    ShiftReflects(cycles * c.mult, Wrap(mask * c.mult), c.shift);
    WrapShrinks(mask * c.mult);
    ProductReflects(cycles, mask, c.mult);
  }

  /** And it is not shorter than it need be: it is the time of the largest counter value, unless that
      overflows 64 bits; then it falls short of it. */
  lemma DefermentIsTight(c: Scale)
    requires c.Valid()
    ensures c.Deferment() <= c.Ns(c.Modulus() - 1)
    ensures c.Deferment() == c.Ns(c.Modulus() - 1) <==> (c.Modulus() - 1) * c.mult < U64
  {
    hide Pow2;
    var x := (c.Modulus() - 1) * c.mult;
    assert x >= 0;
    if x >= U64 { WrappedIsLess(x, c.shift); }
  }

  /** A value that wraps around is another one, also after a shift. */
  lemma WrappedIsLess(x: nat, shift: nat)
    requires shift < 64 && x >= U64
    ensures ShiftedRight(Wrap(x), shift) < ShiftedRight(x, shift)
  {
    hide Pow2;
    var p, q := Pow2(shift), Pow2(64 - shift);
    Pow2Adds(shift, 64 - shift);
    WordSizes();
    assert q * p == U64;
    Below(Wrap(x), p, q);
    QuotientMonotone(U64, x, p);
    ProductIsMultiple(q, p);
  }

  lemma Below(x: nat, p: nat, q: nat)
    requires p > 0 && x < q * p
    ensures x / p < q
  {
    assert x == x / p * p + x % p;
    FactorBound(x / p - q, p);
    assert (x / p - q) * p == x / p * p - q * p;
  }

  lemma ShiftReflects(x: nat, y: nat, n: nat)
    requires ShiftedRight(x, n) < ShiftedRight(y, n)
    ensures x < y
  {
    if x >= y { QuotientMonotone(y, x, Pow2(n)); }
  }

  lemma ProductReflects(a: nat, b: nat, k: nat)
    requires a * k < b * k
    ensures a < b
  {
  }

  lemma WrapShrinks(x: nat)
    ensures Wrap(x) <= x
  {
  }

  // The keeper

  /** What the keeper has stored: the counter and the nanoseconds at its last tick. `taken` is the
      true number of cycles at that moment, of which `last` shows the low bits. */
  datatype Snapshot = Snapshot(last: nat, nsec: nat, taken: nat)

  /** The time that a reader who finds `s` stored works out after `t` true cycles. */
  function TimeAt(c: Scale, s: Snapshot, t: nat): nat {
    Wrap(s.nsec + c.DeltaToNs(c.Delta(s.last, c.Masked(t))))
  }

  /** What a tick stores after `t` true cycles. */
  function Ticked(c: Scale, s: Snapshot, t: nat): Snapshot {
    Snapshot(c.Masked(t), Wrap(s.nsec + c.DeltaToNs(c.Delta(s.last, c.Masked(t)))), t)
  }

  /** Since the last tick the counter has not come round, and nothing overflows. */
  predicate InReach(c: Scale, s: Snapshot, t: nat) {
    && s.last == c.Masked(s.taken) && s.taken <= t && t - s.taken < c.Modulus()
    && (t - s.taken) * c.mult < U64 && s.nsec + c.Ns(t - s.taken) < U64
  }

  lemma TimeIs(c: Scale, s: Snapshot, t: nat)
    requires c.Valid() && InReach(c, s, t)
    ensures TimeAt(c, s, t) == s.nsec + c.Ns(t - s.taken)
  {
    DeltaCounts(c, s.taken, t);
  }

  /** Time does not go backwards, whether the clock runs on or a tick comes in between. */
  lemma TimeIsMonotone(c: Scale, s: Snapshot, t: nat, t': nat)
    requires c.Valid() && t <= t' && InReach(c, s, t) && InReach(c, s, t')
    ensures TimeAt(c, s, t) <= TimeAt(c, s, t')
  {
    TimeIs(c, s, t);
    TimeIs(c, s, t');
    NsMonotone(c, t - s.taken, t' - s.taken);
  }

  lemma TickKeepsTime(c: Scale, s: Snapshot, t: nat)
    requires c.Valid() && InReach(c, s, t)
    ensures InReach(c, Ticked(c, s, t), t) && TimeAt(c, Ticked(c, s, t), t) == TimeAt(c, s, t)
  {
    TimeIs(c, s, t);
    assert 0 * c.mult == 0;
    assert c.Ns(0) == 0 by { QuotientUnique(0, Pow2(c.shift), 0, 0); }
    TimeIs(c, Ticked(c, s, t), t);
  }

  /** A run of the clock: the counter advances, or the keeper ticks. */
  datatype Event = Advance(cycles: nat) | Tick

  datatype Clock = Clock(now: nat, stored: Snapshot)

  function Next(c: Scale, w: Clock, e: Event): Clock {
    match e
    case Advance(cycles) => Clock(w.now + cycles, w.stored)
    case Tick => Clock(w.now, Ticked(c, w.stored, w.now))
  }

  function Run(c: Scale, w: Clock, es: seq<Event>): Clock {
    if es == [] then w else Next(c, Run(c, w, es[..|es| - 1]), es[|es| - 1])
  }

  function Ticks(es: seq<Event>): nat {
    if es == [] then 0 else Ticks(es[..|es| - 1]) + if es[|es| - 1].Tick? then 1 else 0
  }

  /** No gap between ticks is too long anywhere in the run. */
  predicate RunInReach(c: Scale, w: Clock, es: seq<Event>) {
    && (es != [] ==> RunInReach(c, w, es[..|es| - 1]))
    && InReach(c, Run(c, w, es).stored, Run(c, w, es).now)
  }

  function Reading(c: Scale, w: Clock): nat {
    TimeAt(c, w.stored, w.now)
  }

  /** Over every run of ticks and readings the time read never goes backwards. */
  lemma {:induction false} ReadingsAreMonotone(c: Scale, w: Clock, es: seq<Event>, more: seq<Event>)
    requires c.Valid() && RunInReach(c, w, es + more)
    ensures RunInReach(c, w, es) && Reading(c, Run(c, w, es)) <= Reading(c, Run(c, w, es + more))
    decreases |more|
  {
    var all := es + more;
    if more == [] {
      assert all == es;
    } else {
      var n := |more| - 1;
      assert all[..|all| - 1] == es + more[..n] && all[|all| - 1] == more[n];
      ReadingsAreMonotone(c, w, es, more[..n]);
      var v := Run(c, w, es + more[..n]);
      match more[n]
      case Advance(cycles) => TimeIsMonotone(c, v.stored, v.now, v.now + cycles);
      case Tick => TickKeepsTime(c, v.stored, v.now);
    }
  }

  /** `nsec` nanoseconds are at most `cycles` cycles, and fall short of them by less than a
      nanosecond for each of `n` roundings. */
  predicate Rounded(c: Scale, nsec: nat, cycles: nat, n: nat) {
    var one := Pow2(c.shift);
    nsec * one <= cycles * c.mult <= nsec * one + n * (one - 1)
  }

  lemma RoundedOn(c: Scale, nsec: nat, cycles: nat, n: nat, more: nat)
    requires Rounded(c, nsec, cycles, n)
    ensures Rounded(c, nsec + c.Ns(more), cycles + more, n + 1)
  {
    var one, q := Pow2(c.shift), c.Ns(more);
    var r := more * c.mult % one;
    assert (cycles + more) * c.mult == cycles * c.mult + more * c.mult;
    assert more * c.mult == q * one + r;
    assert (nsec + q) * one == nsec * one + q * one;
    assert (n + 1) * (one - 1) == n * (one - 1) + (one - 1);
  }

  /** After any run with n ticks, what the keeper has added up is at most the exact scaled time
      since the start and, for n > 0, less than n nanoseconds below it; a reading is rounded once
      more. */
  lemma {:induction false} DriftIsBounded(c: Scale, start: nat, es: seq<Event>)
    requires c.Valid()
    requires RunInReach(c, Clock(start, Snapshot(c.Masked(start), 0, start)), es)
    ensures var w := Run(c, Clock(start, Snapshot(c.Masked(start), 0, start)), es);
      && start <= w.stored.taken <= w.now
      && Rounded(c, w.stored.nsec, w.stored.taken - start, Ticks(es))
      && Rounded(c, Reading(c, w), w.now - start, Ticks(es) + 1)
  {
    hide Pow2, Wrap;
    var w0 := Clock(start, Snapshot(c.Masked(start), 0, start));
    var w := Run(c, w0, es);
    if es == [] {
      assert 0 * c.mult == 0 && 0 * Pow2(c.shift) == 0 && 0 * (Pow2(c.shift) - 1) == 0;
    } else {
      var n := |es| - 1;
      DriftIsBounded(c, start, es[..n]);
      var v := Run(c, w0, es[..n]);
      TimeIs(c, v.stored, v.now);
    }
    TimeIs(c, w.stored, w.now);
    RoundedOn(c, w.stored.nsec, w.stored.taken - start, Ticks(es), w.now - w.stored.taken);
  }

  // When a run is in reach

  function FromStart(c: Scale, start: nat): Clock {
    Clock(start, Snapshot(c.Masked(start), 0, start))
  }

  /** The cycles since the last tick. */
  function Gap(w: Clock): nat {
    if w.stored.taken <= w.now then w.now - w.stored.taken else 0
  }

  function Elapsed(start: nat, w: Clock): nat {
    if start <= w.now then w.now - start else 0
  }

  /** The keeper never has to wait for as long as the deferment. */
  predicate GapsShort(c: Scale, w: Clock, es: seq<Event>) {
    && (es != [] ==> GapsShort(c, w, es[..|es| - 1]))
    && c.Ns(Gap(Run(c, w, es))) < c.Deferment()
  }

  lemma NsAdds(c: Scale, nsec: nat, a: nat, b: nat)
    requires nsec * Pow2(c.shift) <= a * c.mult
    ensures nsec + c.Ns(b) <= c.Ns(a + b)
  {
    hide Pow2;
    var one, x := Pow2(c.shift), b * c.mult;
    Distributes(a, b, c.mult);
    QuotientShifts(nsec, x, one);
    QuotientMonotone(nsec * one + x, (a + b) * c.mult, one);
  }

  lemma QuotientShifts(n: nat, x: nat, d: nat)
    requires d > 0
    ensures n + x / d == (n * d + x) / d && n * d >= 0
  {
    assert n * d + x == (n + x / d) * d + x % d;
    QuotientUnique(n * d + x, d, n + x / d, x % d);
  }

  lemma {:induction false} NowGrows(c: Scale, start: nat, es: seq<Event>)
    ensures var w := Run(c, FromStart(c, start), es); start <= w.stored.taken <= w.now
  {
    if es != [] { NowGrows(c, start, es[..|es| - 1]); }
  }

  /** A run whose gaps are shorter than the deferment, for less than 2^64 nanoseconds in all, is in
      reach; so its readings are monotone and its drift is bounded. */
  lemma {:induction false} ShortGapsAreInReach(c: Scale, start: nat, es: seq<Event>)
    requires c.Valid() && GapsShort(c, FromStart(c, start), es)
    requires c.Ns(Elapsed(start, Run(c, FromStart(c, start), es))) < U64
    ensures RunInReach(c, FromStart(c, start), es)
  {
    var w0 := FromStart(c, start);
    var w := Run(c, w0, es);
    NowGrows(c, start, es);
    DefermentIsSafe(c, Gap(w));
    if es == [] {
      NsAdds(c, 0, 0, Gap(w));
    } else {
      var h := es[..|es| - 1];
      var v := Run(c, w0, h);
      NowGrows(c, start, h);
      NsMonotone(c, v.now - start, w.now - start);
      ShortGapsAreInReach(c, start, h);
      match es[|es| - 1]
      case Advance(_) =>
        DriftIsBounded(c, start, h);
        NsAdds(c, v.stored.nsec, v.stored.taken - start, Gap(w));
      case Tick => TickKeepsTime(c, v.stored, v.now);
    }
  }

  /** The keeper's timer is set to half the deferment, so it may fire late by as much again. */
  predicate TicksTimely(c: Scale, interval: nat, w: Clock, es: seq<Event>) {
    && (es != [] ==> TicksTimely(c, interval, w, es[..|es| - 1]))
    && c.Ns(Gap(Run(c, w, es))) < 2 * interval
  }

  lemma {:induction false} TimelyTicksKeepGapsShort(c: Scale, interval: nat, w: Clock, es: seq<Event>)
    requires interval == c.Deferment() / 2 && TicksTimely(c, interval, w, es)
    ensures GapsShort(c, w, es)
  {
    if es != [] { TimelyTicksKeepGapsShort(c, interval, w, es[..|es| - 1]); }
  }

  /** The clock source: a free-running counter and the keeper that follows it. */
  class ClocksourceDevice {
    const scale: Scale
    /** The true number of cycles; the counter shows its low bits. */
    ghost var cycles: nat
    var counter: nat
    var last: nat
    var nsec: nat
    /** After how many nanoseconds the keeper is to tick. */
    var interval: nat
    ghost var taken: nat

    ghost predicate Valid()
      reads this
    {
      scale.Valid() && counter == scale.Masked(cycles) && interval == scale.Deferment() / 2
    }

    ghost function Stored(): Snapshot
      reads this
    {
      Snapshot(last, nsec, taken)
    }

    ghost function State(): Clock
      reads this
    {
      Clock(cycles, Stored())
    }

    constructor (scale: Scale, counter: nat)
      requires scale.Valid() && counter < scale.Modulus()
      ensures Valid() && State() == Clock(counter, Snapshot(scale.Masked(counter), 0, counter)) && this.scale == scale
    {
      this.scale := scale;
      this.counter, cycles := counter, counter;
      last, nsec, taken, interval := counter, 0, counter, scale.Deferment() / 2;
      new;
      SameRemainder(counter, scale.Modulus(), 0, counter);
    }

    /** Time passes. */
    method Pass(n: nat)
      requires Valid()
      modifies this`cycles, this`counter
      ensures Valid() && State() == Next(scale, old(State()), Advance(n))
    {
      cycles := cycles + n;
      counter := (counter + n) % scale.Modulus();
      MaskedAdds(scale, old(cycles), n);
    }

    method KeeperTick()
      requires Valid()
      modifies this`last, this`nsec, this`taken
      ensures Valid() && State() == Next(scale, old(State()), Tick)
    {
      var now := counter;
      var delta := scale.Delta(last, now);
      var offset := scale.DeltaToNs(delta);
      nsec := Wrap(nsec + offset);
      last := now;
      taken := cycles;
    }

    method KeeperRead() returns (time: nat)
      requires Valid()
      ensures time == Reading(scale, State())
    {
      var now := counter;
      var delta := scale.Delta(last, now);
      var offset := scale.DeltaToNs(delta);
      time := Wrap(nsec + offset);
    }

    /** A clock source started with its constructor that ticks less than one interval late each time, for
        less than 2^64 nanoseconds in all, is always in reach. */
    lemma TimelyTicksAreInReach(start: nat, es: seq<Event>)
      requires Valid() && TicksTimely(scale, interval, FromStart(scale, start), es)
      requires scale.Ns(Elapsed(start, Run(scale, FromStart(scale, start), es))) < U64
      ensures RunInReach(scale, FromStart(scale, start), es)
    {
      TimelyTicksKeepGapsShort(scale, interval, FromStart(scale, start), es);
      ShortGapsAreInReach(scale, start, es);
    }
  }

  lemma MaskedAdds(c: Scale, t: nat, n: nat)
    ensures (c.Masked(t) + n) % c.Modulus() == c.Masked(t + n)
  {
    var m := c.Modulus();
    var q, r := (c.Masked(t) + n) / m, (c.Masked(t) + n) % m;
    assert t == t / m * m + c.Masked(t);
    assert (t / m + q) * m == t / m * m + q * m;
    SameRemainder(t + n, m, t / m + q, r);
  }
}
