/** The two wires of an I2C bus and what a slave hears on them (src/driver/i2c/i2c-algo-bit.c,
    sections 3.1.3 to 3.1.6 of NXP UM10204). */
module I2cBus {
  import opened Wrappers
  import opened Arith

  /** The levels of the two lines. */
  datatype Level = Level(sda: bool, scl: bool)

  /** What a slave can tell from the lines: a start or stop condition is SDA falling or rising
      while SCL is high; any other high phase of SCL is a bit. */
  datatype Event = Start | Stop | Bit(b: bool)

  datatype Ear = Ear(level: Level, pending: Option<bool>, heard: seq<Event>)

  function Listen(e: Ear, l: Level): Ear {
    if !e.level.scl && l.scl then Ear(l, Some(l.sda), e.heard)
    else if e.level.scl && !l.scl then
      Ear(l, None, if e.pending.Some? then e.heard + [Bit(e.pending.value)] else e.heard)
    else if l.scl && e.level.sda != l.sda then Ear(l, None, e.heard + [if l.sda then Stop else Start])
    else Ear(l, e.pending, e.heard)
  }

  function ListenAll(e: Ear, trace: seq<Level>): Ear {
    if trace == [] then e else Listen(ListenAll(e, trace[..|trace| - 1]), trace[|trace| - 1])
  }

  const IDLE := Ear(Level(true, true), None, [])

  // Bytes and bits

  /** Bit `i` of `c`: `(c >> i) & 1`. */
  function BitAt(c: nat, i: nat): bool {
    if i == 0 then c % 2 == 1 else BitAt(c / 2, i - 1)
  }

  /** The `n` low bits of `c`, most significant first. */
  function BitsOf(c: nat, n: nat): (r: seq<bool>)
    ensures |r| == n
  {
    if n == 0 then [] else [BitAt(c, n - 1)] + BitsOf(c, n - 1)
  }

  function ValueOf(bits: seq<bool>): nat {
    if bits == [] then 0 else 2 * ValueOf(bits[..|bits| - 1]) + if bits[|bits| - 1] then 1 else 0
  }

  lemma {:induction false} BitsOfHalf(c: nat, n: nat)
    requires n > 0
    ensures BitsOf(c, n) == BitsOf(c / 2, n - 1) + [c % 2 == 1]
  {
    if n > 1 {
      BitsOfHalf(c, n - 1);
    }
  }

  /** A byte sent bit by bit arrives as that byte. */
  lemma {:induction false} ByteRoundTrip(c: nat, n: nat)
    requires c < Pow2(n)
    ensures ValueOf(BitsOf(c, n)) == c
  {
    if n > 0 {
      BitsOfHalf(c, n);
      ByteRoundTrip(c / 2, n - 1);
      var b := BitsOf(c, n);
      assert b[..n - 1] == BitsOf(c / 2, n - 1);
    }
  }

  /** Bits collected into a byte are the bits of that byte. */
  lemma {:induction false} BitsRoundTrip(bits: seq<bool>)
    ensures ValueOf(bits) < Pow2(|bits|) && BitsOf(ValueOf(bits), |bits|) == bits
  {
    if bits != [] {
      var n := |bits|;
      BitsRoundTrip(bits[..n - 1]);
      BitsOfHalf(ValueOf(bits), n);
      assert ValueOf(bits) / 2 == ValueOf(bits[..n - 1]);
      assert bits == bits[..n - 1] + [bits[n - 1]];
    }
  }

  function BitEvents(bits: seq<bool>): (r: seq<Event>)
    ensures |r| == |bits|
  {
    if bits == [] then [] else BitEvents(bits[..|bits| - 1]) + [Bit(bits[|bits| - 1])]
  }

  /** The bus as the master drives it.  A slave answers in the clock pulses in which the master
      listens, with `answers` in that order (true leaves SDA high), and otherwise leaves SDA alone.
      `trace` records the levels of the lines; `ear` is what a slave has made of them. */
  class Bus {
    /** The levels that the master lets the lines have. */
    var sda: bool
    var scl: bool
    const answers: seq<bool>
    var cursor: nat
    ghost var trace: seq<Level>
    ghost var ear: Ear
    /** Whether a slave has ever held SCL low for longer than the master waits. */
    var timedOut: bool
    /** How often that was. */
    ghost var timeouts: nat

    constructor (answers: seq<bool>)
      ensures Idle() && this.answers == answers && cursor == 0 && ear.heard == [] && !timedOut && timeouts == 0
    {
      this.answers := answers;
      sda, scl, cursor, timedOut := true, true, 0, false;
      trace, ear, timeouts := [], IDLE, 0;
    }

    /** What a slave puts on SDA in the `k`-th clock pulse in which the master listens; SDA stays high
        when there is no answer any more. */
    predicate Reply(k: nat) {
      k >= |answers| || answers[k]
    }

    ghost predicate Valid()
      reads this
    {
      ear == ListenAll(IDLE, trace) && ear.level == Level(sda, scl)
    }

    /** Both lines released. */
    ghost predicate Idle()
      reads this
    {
      Valid() && sda && scl && ear.pending == None
    }

    /** In a transfer, between clock pulses. */
    ghost predicate Busy()
      reads this
    {
      Valid() && !scl && ear.pending == None
    }

    /** The lines take new levels. */
    ghost method Record(l: Level)
      modifies this`trace, this`ear
      ensures trace == old(trace) + [l] && ear == Listen(old(ear), l)
      ensures old(ear) == ListenAll(IDLE, old(trace)) ==> ear == ListenAll(IDLE, trace)
    {
      trace, ear := trace + [l], Listen(ear, l);
    }

    method SetSda(v: bool)
      modifies this`sda, this`trace, this`ear
      ensures sda == v && ear == Listen(old(ear), Level(v, scl))
      ensures old(Valid()) ==> Valid()
    {
      sda := v;
      Record(Level(v, scl));
    }

    method SclLo()
      modifies this`scl, this`trace, this`ear
      ensures !scl && ear == Listen(old(ear), Level(sda, false))
      ensures old(Valid()) ==> Valid()
    {
      scl := false;
      Record(Level(sda, false));
    }

    /** Releases SCL and waits for it to rise; -1 if a slave holds it low for too long. */
    method SclHi() returns (r: int)
      modifies this`scl, this`trace, this`ear, this`timedOut, this`timeouts
      ensures (r == 0 || r == -1) && timeouts == old(timeouts) + if r == -1 then 1 else 0
      ensures scl && (old(timedOut) ==> timedOut) && (r == -1 ==> timedOut)
      ensures !timedOut ==> ear == Listen(old(ear), Level(sda, true))
      ensures old(Valid()) && !timedOut ==> Valid()
    {
      var stretched: bool := *;
      scl := true;
      if stretched {
        timedOut, timeouts := true, timeouts + 1;
        return -1;
      }
      Record(Level(sda, true));
      r := 0;
    }

    /** One clock pulse in which the master listens, with SDA released: the slave sets SDA while
        SCL is low, the master samples it while SCL is high, and the slave lets go once SCL is low
        again. */
    method ListenPulse() returns (r: int, v: bool)
      requires timedOut || (Busy() && sda)
      modifies this`scl, this`cursor, this`trace, this`ear, this`timedOut, this`timeouts
      ensures (r == 0 || r == -1) && timeouts == old(timeouts) + if r == -1 then 1 else 0
      ensures (old(timedOut) ==> timedOut) && (r == -1 ==> timedOut)
      ensures !timedOut ==> Busy() && v == Reply(old(cursor)) && cursor == old(cursor) + 1
      ensures !timedOut ==> ear.heard == old(ear).heard + [Bit(v)]
    {
      var stretched: bool := *;
      v := Reply(cursor);
      if stretched {
        timedOut, timeouts := true, timeouts + 1;
        return -1, v;
      }
      Record(Level(v, false));
      scl := true;
      Record(Level(v, true));
      cursor := cursor + 1;
      scl := false;
      Record(Level(v, false));
      Record(Level(true, false));
      r := 0;
    }
  }
}
