/** Decoding a rotary encoder from its two lines (src/driver/input/rotary-gpio.c). */
module Rotary {

  /** What the two lines show at a phase: they change one at a time, 0, 1, 3, 2 and so on around. */
  function Lines(phase: int): (s: int)
    ensures 0 <= s <= 3
  {
    var r := phase % 4;
    if r == 0 then 0 else if r == 1 then 1 else if r == 2 then 3 else 2
  }

  /** The decoder: `state` and `dir` are kept between interrupts, `total` adds up the turns reported. */
  datatype Decoder = Decoder(state: int, dir: int, total: int)
  {
    function Report(): Decoder {
      this.(total := total + if dir != 0 then 1 else -1)
    }
  }

  function FullPeriod(d: Decoder, s: int): Decoder {
    if s == 0 then (if d.state != 0 then d.Report().(state := 0) else d)
    else if s == 1 || s == 2 then (if d.state != 0 then d.(dir := s - 1) else d)
    else if s == 3 then d.(state := 1)
    else d
  }

  function HalfPeriod(d: Decoder, s: int): Decoder {
    if s == 0 || s == 3 then (if s != d.state then d.Report().(state := s) else d)
    else if s == 1 || s == 2 then d.(dir := (d.state + s) % 2)
    else d
  }

  /** The lines after a quarter turn forward. */
  function Next(s: int): int {
    if s == 0 then 1 else if s == 1 then 3 else if s == 3 then 2 else if s == 2 then 0 else -1
  }

  function QuarterPeriod(d: Decoder, s: int): Decoder {
    if Next(s) == d.state then d.(state := s, dir := 0).Report()
    else if Next(d.state) == s then d.(state := s, dir := 1).Report()
    else d.(state := s)
  }

  lemma SumTells(state: int, s: int)
    requires 0 <= s <= 3 && 0 <= state <= 3
    ensures Next(s) == state <==> state * 16 + s in {0x31, 0x10, 0x02, 0x23}
    ensures Next(state) == s <==> state * 16 + s in {0x13, 0x01, 0x20, 0x32}
  {
  }

  class RotaryGpio {
    var state: int
    var dir: int
    /** The sum of the turns reported so far. */
    var total: int

    constructor (lines: int, full: bool)
      ensures Now() == Decoder(if full then 0 else lines, 0, 0)
    {
      state, dir, total := if full then 0 else lines, 0, 0;
    }

    function Now(): Decoder
      reads this
    {
      Decoder(state, dir, total)
    }

    method PushTurn()
      modifies this`total
      ensures Now() == old(Now()).Report()
    {
      total := total + if dir != 0 then 1 else -1;
    }

    method Irq(s: int)
      requires 0 <= s <= 3
      modifies this
      ensures Now() == FullPeriod(old(Now()), s)
    {
      match s
      case 0 =>
        if state != 0 {
          PushTurn();
          state := 0;
        }
      case 1 => if state != 0 { dir := s - 1; }
      case 2 => if state != 0 { dir := s - 1; }
      case _ => state := 1;
    }

    method HalfPeriodIrq(s: int)
      requires 0 <= s <= 3
      modifies this
      ensures Now() == HalfPeriod(old(Now()), s)
    {
      match s
      case 1 => dir := (state + s) % 2;
      case 2 => dir := (state + s) % 2;
      case _ =>
        if s != state {
          PushTurn();
          state := s;
        }
    }

    method QuarterPeriodIrq(s: int)
      requires 0 <= s <= 3 && 0 <= state <= 3
      modifies this
      ensures Now() == QuarterPeriod(old(Now()), s)
    {
      var sum := state * 16 + s;
      SumTells(state, s);
      state := s;
      if sum == 0x31 || sum == 0x10 || sum == 0x02 || sum == 0x23 {
        dir := 0;
      } else if sum == 0x13 || sum == 0x01 || sum == 0x20 || sum == 0x32 {
        dir := 1;
      } else {
        return;
      }
      PushTurn();
    }
  }

  // Runs without glitches

  /** Between two interrupts the phase moves by at most a quarter period. */
  predicate Glitchless(moves: seq<int>) {
    forall i :: 0 <= i < |moves| ==> -1 <= moves[i] <= 1
  }

  function Phase(start: int, moves: seq<int>): int {
    if moves == [] then start else Phase(start, moves[..|moves| - 1]) + moves[|moves| - 1]
  }

  function RunQuarter(d: Decoder, start: int, moves: seq<int>): Decoder {
    if moves == [] then d else QuarterPeriod(RunQuarter(d, start, moves[..|moves| - 1]), Lines(Phase(start, moves)))
  }

  function RunHalf(d: Decoder, start: int, moves: seq<int>): Decoder {
    if moves == [] then d else HalfPeriod(RunHalf(d, start, moves[..|moves| - 1]), Lines(Phase(start, moves)))
  }

  function RunFull(d: Decoder, start: int, moves: seq<int>): Decoder {
    if moves == [] then d else FullPeriod(RunFull(d, start, moves[..|moves| - 1]), Lines(Phase(start, moves)))
  }

  lemma LinesNext(phase: int)
    ensures Lines(phase + 1) == Next(Lines(phase)) && Lines(phase) == Next(Lines(phase - 1))
    ensures Lines(phase + 2) != Lines(phase) && Lines(phase - 2) == Lines(phase + 2)
  {
    var r := phase % 4;
    assert (phase + 1) % 4 == (r + 1) % 4 && (phase + 2) % 4 == (r + 2) % 4 && (phase - 1) % 4 == (r + 3) % 4 &&
      (phase - 2) % 4 == (r + 2) % 4;
  }

  lemma QuarterStep(d: Decoder, phase: int, move: int)
    requires d.state == Lines(phase) && -1 <= move <= 1
    ensures var r := QuarterPeriod(d, Lines(phase + move)); r.state == Lines(phase + move) && r.total == d.total + move
  {
    LinesNext(phase);
    var s := Lines(phase);
    assert Next(s) != s && Next(Next(s)) != s;
  }

  /** What can be told of a move from the lines: a quarter forward or back, or nothing if it is half a
      period or a whole number of them. */
  function Told(move: int): int {
    if move % 4 == 1 then 1 else if move % 4 == 3 then -1 else 0
  }

  function AllTold(moves: seq<int>): int {
    if moves == [] then 0 else AllTold(moves[..|moves| - 1]) + Told(moves[|moves| - 1])
  }

  lemma AnyQuarterStep(d: Decoder, phase: int, move: int)
    requires d.state == Lines(phase)
    ensures var r := QuarterPeriod(d, Lines(phase + move));
      r.state == Lines(phase + move) && r.total == d.total + Told(move)
  {
    var r, m := phase % 4, move % 4;
    var k := r + m;
    assert (phase + move) % 4 == k % 4;
    assert k % 4 == if k < 4 then k else k - 4;
  }

  /** On every run, with glitches of any size, the quarter-period decoder reports of each move what the
      lines tell, and gets out of step with the lines at no time. */
  lemma {:induction false} QuarterTellsMoves(start: int, dir: int, moves: seq<int>)
    ensures var d := RunQuarter(Decoder(Lines(start), dir, 0), start, moves);
      d.state == Lines(Phase(start, moves)) && d.total == AllTold(moves)
  {
    if moves != [] {
      hide Lines, QuarterPeriod, Told;
      var h := moves[..|moves| - 1];
      QuarterTellsMoves(start, dir, h);
      AnyQuarterStep(RunQuarter(Decoder(Lines(start), dir, 0), start, h), Phase(start, h), moves[|moves| - 1]);
    }
  }

  /** The quarter-period decoder reports exactly the displacement. */
  lemma {:induction false} QuarterIsExact(start: int, dir: int, moves: seq<int>)
    requires Glitchless(moves)
    ensures var d := RunQuarter(Decoder(Lines(start), dir, 0), start, moves);
      d.state == Lines(Phase(start, moves)) && d.total == Phase(start, moves) - start
  {
    if moves != [] {
      var h := moves[..|moves| - 1];
      QuarterIsExact(start, dir, h);
      QuarterStep(RunQuarter(Decoder(Lines(start), dir, 0), start, h), Phase(start, h), moves[|moves| - 1]);
    }
  }

  /** The decoder at phase `phase` after its last report at the detent `detent`. */
  predicate Near(d: Decoder, detent: int, phase: int) {
    && detent % 2 == 0 && d.state == Lines(detent)
    && (phase == detent || (phase == detent + 1 && d.dir == 1) || (phase == detent - 1 && d.dir == 0))
  }

  /** The lines around a detent are 0 with 1 after and 2 before it, or 3 with 2 after and 1 before it. */
  lemma DetentLines(detent: int)
    requires detent % 2 == 0
    ensures var l, after := Lines(detent), Lines(detent + 1);
      && ((l == 0 && after == 1) || (l == 3 && after == 2))
      && Lines(detent - 1) == 3 - after && Lines(detent + 2) == 3 - l && Lines(detent - 2) == 3 - l
  {
    var r := detent % 4;
    assert r == 0 || r == 2;
    assert (detent + 1) % 4 == (r + 1) % 4 && (detent - 1) % 4 == (r + 3) % 4 && (detent + 2) % 4 == (r + 2) % 4 &&
      (detent - 2) % 4 == (r + 2) % 4;
  }

  lemma HalfStep(d: Decoder, detent: int, phase: int, move: int)
    requires Near(d, detent, phase) && -1 <= move <= 1
    ensures var r := HalfPeriod(d, Lines(phase + move)); Near(r, detent + 2 * (r.total - d.total), phase + move)
  {
    DetentLines(detent);
    var s, r := Lines(phase + move), HalfPeriod(d, Lines(phase + move));
    if phase + move == detent + 2 {
      assert r.total == d.total + 1 && r.state == Lines(detent + 2);
    } else if phase + move == detent - 2 {
      assert r.total == d.total - 1 && r.state == Lines(detent - 2);
    } else if phase + move == detent {
      assert r == d;
    } else {
      assert r.total == d.total && r.dir == if phase + move == detent + 1 then 1 else 0;
    }
  }

  lemma {:induction false} HalfIsNear(start: int, dir: int, moves: seq<int>)
    requires Glitchless(moves) && start % 2 == 0
    ensures var d := RunHalf(Decoder(Lines(start), dir, 0), start, moves);
      Near(d, start + 2 * d.total, Phase(start, moves))
  {
    hide Lines, HalfPeriod;
    if moves != [] {
      var h := moves[..|moves| - 1];
      HalfIsNear(start, dir, h);
      var d := RunHalf(Decoder(Lines(start), dir, 0), start, h);
      HalfStep(d, start + 2 * d.total, Phase(start, h), moves[|moves| - 1]);
    }
  }

  /** The half-period decoder, started at a detent, is never off by more than a quarter period, and
      right at every detent. */
  lemma HalfIsClose(start: int, dir: int, moves: seq<int>)
    requires Glitchless(moves) && start % 2 == 0
    ensures var d, q := RunHalf(Decoder(Lines(start), dir, 0), start, moves), Phase(start, moves) - start;
      Near(d, start + 2 * d.total, start + q) && -1 <= q - 2 * d.total <= 1 && (q % 2 == 0 ==> q == 2 * d.total)
  {
    hide Lines, RunHalf, Phase;
    HalfIsNear(start, dir, moves);
  }

  /** The motion as the full-period decoder sees it: the last phase of rest (a multiple of 4), the phase
      half a period away from it that was reached since, if any, and how many more times the motion
      came back to rest from half a period ahead than from half a period behind. */
  datatype Motion = Motion(rest: int, far: int, stray: int)
  {
    function To(phase: int): Motion {
      if phase % 4 == 2 then this.(far := phase - rest)
      else if phase % 4 != 0 then this
      else if phase != rest then Motion(phase, 0, stray)
      else Motion(rest, 0, stray + if far == 2 then 1 else if far == -2 then -1 else 0)
    }
  }

  function Moved(start: int, moves: seq<int>): Motion {
    if moves == [] then Motion(start, 0, 0) else Moved(start, moves[..|moves| - 1]).To(Phase(start, moves))
  }

  /** The decoder's state tells whether half a period was reached, and its direction on which side of
      that phase the lines are. */
  predicate Sees(d: Decoder, m: Motion, phase: int) {
    && m.rest % 4 == 0 && d.state == (if m.far == 0 then 0 else 1)
    && var q := phase - m.rest;
       if m.far == 0 then -1 <= q <= 1
       else if m.far == 2 then q == 2 || (q == 1 && d.dir == 0) || (q == 3 && d.dir == 1)
       else m.far == -2 && (q == -2 || (q == -1 && d.dir == 1) || (q == -3 && d.dir == 0))
  }

  /** Every turn reported is a period of motion, or one of the returns to rest. */
  predicate Counts(d: Decoder, m: Motion, start: int) {
    4 * (d.total + m.stray) == m.rest - start
  }

  lemma FullStep(d: Decoder, m: Motion, start: int, phase: int, move: int)
    requires Sees(d, m, phase) && Counts(d, m, start) && -1 <= move <= 1
    ensures Sees(FullPeriod(d, Lines(phase + move)), m.To(phase + move), phase + move)
    ensures Counts(FullPeriod(d, Lines(phase + move)), m.To(phase + move), start)
  {
    var q := phase + move - m.rest;
    assert (phase + move) % 4 == q % 4;
  }

  lemma {:induction false} FullSees(start: int, dir: int, moves: seq<int>)
    requires Glitchless(moves) && start % 4 == 0
    ensures var d, m := RunFull(Decoder(0, dir, 0), start, moves), Moved(start, moves);
      Sees(d, m, Phase(start, moves)) && Counts(d, m, start)
  {
    if moves != [] {
      var h := moves[..|moves| - 1];
      FullSees(start, dir, h);
      FullStep(RunFull(Decoder(0, dir, 0), start, h), Moved(start, h), start, Phase(start, h), moves[|moves| - 1]);
    }
  }

  /** The full-period decoder, started at rest, is off by exactly the returns to rest from half a period
      away; so at rest it is right if and only if there were as many from ahead as from behind. */
  lemma FullIsOffByStray(start: int, dir: int, moves: seq<int>)
    requires Glitchless(moves) && start % 4 == 0
    ensures var d, m := RunFull(Decoder(0, dir, 0), start, moves), Moved(start, moves);
      && m.rest - start == 4 * (d.total + m.stray) && -3 <= Phase(start, moves) - m.rest <= 3
      && (Phase(start, moves) % 4 == 0 ==> (4 * d.total == Phase(start, moves) - start <==> m.stray == 0))
  {
    FullSees(start, dir, moves);
  }

  /** The full-period decoder can report a turn where there was none: half a period forth and back. */
  lemma FullCanStray()
    ensures var moves := [1, 1, -1, -1]; Phase(0, moves) == 0 && RunFull(Decoder(0, 0, 0), 0, moves).total == -1
  {
    var m := [1, 1, -1, -1];
    assert m[..3] == [1, 1, -1] && m[..3][..2] == [1, 1] && m[..3][..2][..1] == [1];
    assert Phase(0, [1]) == 1 && Phase(0, [1, 1]) == 2 && Phase(0, [1, 1, -1]) == 1;
    assert RunFull(Decoder(0, 0, 0), 0, [1]) == Decoder(0, 0, 0);
    assert RunFull(Decoder(0, 0, 0), 0, [1, 1]) == Decoder(1, 0, 0);
    assert RunFull(Decoder(0, 0, 0), 0, [1, 1, -1]) == Decoder(1, 0, 0);
  }
}
