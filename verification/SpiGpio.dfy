/** The bit-banging SPI master (src/driver/spi/spi-gpio.c).  Words are written as their bits, most
    significant first. */
module SpiGpio {
  import opened Wrappers
  import Arith
  import opened BitWords
  import opened Sequences

  /** The clock's idle level and phase. */
  datatype Mode = Mode(cpol: bool, cpha: bool)
  {
    /** The level that the clock goes to when both ends sample: away from idle in phase 0, back to idle
        in phase 1. */
    function SamplingLevel(): bool {
      cpol == cpha
    }
  }

  /** The lines between master and slave.  On each edge of the clock to the sampling level the slave
      samples MOSI into `heard`; on each of the other edges, of which there have been `cursor`, it shifts
      the next bit of `answers` out to MISO.  In phase 0 the first one is there from the start; in phase 1
      MISO floats until the first edge. */
  class Lines {
    const mode: Mode
    const answers: seq<bool>
    const floating: bool
    var sclk: bool
    var mosi: bool
    var cursor: nat
    ghost var heard: Bits

    constructor (mode: Mode, answers: seq<bool>, floating: bool, mosi: bool)
      ensures this.mode == mode && this.answers == answers && sclk == mode.cpol && cursor == 0 && heard == []
    {
      this.mode, this.answers, this.floating, this.mosi := mode, answers, floating, mosi;
      sclk, cursor, heard := mode.cpol, 0, [];
    }

    method SetSclk(v: bool)
      modifies this`sclk, this`heard, this`cursor
      ensures sclk == v
      ensures heard == if v != old(sclk) && v == mode.SamplingLevel() then old(heard) + [mosi] else old(heard)
      ensures cursor == if v != old(sclk) && v != mode.SamplingLevel() then old(cursor) + 1 else old(cursor)
    {
      if v != sclk {
        if v == mode.SamplingLevel() {
          heard := heard + [mosi];
        } else {
          cursor := cursor + 1;
        }
      }
      sclk := v;
    }

    /** Bit `k` of what the slave sends; ones come when it has no more. */
    predicate Reply(k: nat) {
      k >= |answers| || answers[k]
    }

    /** The level of MISO. */
    function Miso(): bool
      reads this
    {
      if !mode.cpha then Reply(cursor) else if cursor > 0 then Reply(cursor - 1) else floating
    }

    method GetMiso() returns (v: bool)
      ensures v == Miso()
    {
      v := Miso();
    }

    function Replied(at: nat, n: nat): (r: Bits)
      ensures |r| == n
    {
      seq(n, i requires 0 <= i < n => Reply(at + i))
    }

    /** One clock cycle: MOSI is set to `bit`, unless it is known to be that already, and MISO is read. */
    method Cycle(bit: bool, oldbit: bool) returns (v: bool)
      requires sclk == mode.cpol && (bit == oldbit ==> mosi == bit)
      modifies this`sclk, this`mosi, this`cursor, this`heard
      ensures sclk == mode.cpol && mosi == bit && heard == old(heard) + [bit]
      ensures v == Reply(old(cursor)) && cursor == old(cursor) + 1
    {
      if mode.cpha {
        SetSclk(!mode.cpol);
      }
      if bit != oldbit {
        mosi := bit;
      }
      SetSclk(if mode.cpha then mode.cpol else !mode.cpol);
      v := GetMiso();
      if !mode.cpha {
        SetSclk(mode.cpol);
      }
    }

    /** Exchanges the low `bits` bits of a 32-bit word with the slave. */
    method TxRx(val: Bits, bits: nat) returns (r: Bits)
      requires |val| == 32 && 1 <= bits <= 32 && sclk == mode.cpol
      modifies this`sclk, this`mosi, this`cursor, this`heard
      ensures sclk == mode.cpol && cursor == old(cursor) + bits
      ensures heard == old(heard) + val[32 - bits..]
      ensures r == Zeros(32 - bits) + Replied(old(cursor), bits)
    {
      hide Lines.Replied, Zeros, Sent, WordSent, Mode.SamplingLevel, Lines.Reply;
      var oldbit := !val[32 - bits];
      r := val[32 - bits..] + Zeros(32 - bits);
      ghost var at, h := cursor, heard;
      var i := 0;
      while i < bits
        invariant 0 <= i <= bits && sclk == mode.cpol && cursor == at + i
        invariant if i == 0 then oldbit == !val[32 - bits] else oldbit == mosi
        invariant r == val[32 - bits + i..] + Zeros(32 - bits) + Replied(at, i)
        invariant heard == h + val[32 - bits..32 - bits + i]
      {
        var bit := r[0];
        var v := Cycle(bit, oldbit);
        oldbit := bit;
        Shifted(val, bits, i, at, r, v);
        Assoc(h, val[32 - bits..32 - bits + i], [bit]);
        r := r[1..] + [v];
        i := i + 1;
      }
    }

    lemma Shifted(val: Bits, bits: nat, i: nat, at: nat, r: Bits, v: bool)
      requires |val| == 32 && i < bits <= 32 && v == Reply(at + i)
      requires r == val[32 - bits + i..] + Zeros(32 - bits) + Replied(at, i)
      ensures r[0] == val[32 - bits + i]
      ensures r[1..] + [v] == val[32 - bits + i + 1..] + Zeros(32 - bits) + Replied(at, i + 1)
      ensures val[32 - bits..32 - bits + i] + [r[0]] == val[32 - bits..32 - bits + i + 1]
    {
      assert Replied(at, i + 1) == Replied(at, i) + [v];
    }

    /** Exchanges words of `width` bits, of which `bits` are transferred; without words to send, ones
        are sent. */
    method Xfer(tx: Option<seq<Bits>>, width: nat, bits: nat, len: nat) returns (rx: seq<Bits>, done: nat)
      requires width in {8, 16, 32} && 1 <= bits <= width && sclk == mode.cpol
      requires tx.Some? ==> |tx.value| == len / (width / 8) && forall k :: 0 <= k < |tx.value| ==>
        |tx.value[k]| == width
      modifies this`sclk, this`mosi, this`cursor, this`heard
      ensures sclk == mode.cpol && done == len - len % (width / 8) && |rx| == len / (width / 8)
      ensures heard == old(heard) + Sent(tx, width, bits, |rx|)
      ensures rx == Received(old(cursor), width, bits, |rx|)
    {
      var step := width / 8;
      var count, k := len, 0;
      ghost var at := cursor;
      rx := [];
      while count > step - 1
        invariant count == len - Product(k, step) && 0 <= count && |rx| == k && sclk == mode.cpol
        invariant cursor == at + Product(k, bits)
        invariant heard == old(heard) + Sent(tx, width, bits, k) && rx == Received(at, width, bits, k)
      {
        StepsLeft(len, count, k, step);
        rx := XferNext(tx, rx, width, bits, at, old(heard));
        count, k := count - step, k + 1;
      }
      StepsDone(len, count, k, step);
      done := len - count;
    }

    /** Transfers the word after those received already. */
    method XferNext(tx: Option<seq<Bits>>, rx: seq<Bits>, width: nat, bits: nat, ghost at: nat, ghost h: Bits)
      returns (more: seq<Bits>)
      requires 1 <= bits <= width <= 32 && sclk == mode.cpol
      requires tx.Some? ==> |rx| < |tx.value| && |tx.value[|rx|]| == width
      requires cursor == at + Product(|rx|, bits) && heard == h + Sent(tx, width, bits, |rx|) &&
        rx == Received(at, width, bits, |rx|)
      modifies this`sclk, this`mosi, this`cursor, this`heard
      ensures sclk == mode.cpol && |more| == |rx| + 1
      ensures cursor == at + Product(|more|, bits) && heard == h + Sent(tx, width, bits, |more|)
      ensures more == Received(at, width, bits, |more|)
    {
      var w := XferWord(tx, |rx|, width, bits);
      SentNext(h, tx, width, bits, |rx|);
      more := rx + [w];
    }

    /** The first `n` words that the slave sends, from bit `at` on. */
    function Received(at: nat, width: nat, bits: nat, n: nat): (r: seq<Bits>)
      requires bits <= width
      ensures |r| == n
    {
      if n == 0 then []
      else Received(at, width, bits, n - 1) + [Zeros(width - bits) + Replied(at + Product(n - 1, bits), bits)]
    }

    /** One word; what comes back is cut down to its width. */
    method XferWord(tx: Option<seq<Bits>>, k: nat, width: nat, bits: nat) returns (w: Bits)
      requires 1 <= bits <= width <= 32 && sclk == mode.cpol
      requires tx.Some? ==> k < |tx.value| && |tx.value[k]| == width
      modifies this`sclk, this`mosi, this`cursor, this`heard
      ensures sclk == mode.cpol && cursor == old(cursor) + bits
      ensures heard == old(heard) + WordSent(tx, width, bits, k)
      ensures w == Zeros(width - bits) + Replied(old(cursor), bits)
    {
      var val := if tx.Some? then tx.value[k] else Ones(width);
      var v := TxRx(Zeros(32 - width) + val, bits);
      w := v[32 - width..];
      assert (Zeros(32 - width) + val)[32 - bits..] == val[width - bits..];
    }
  }

  /** `a` times `b`. */
  function Product(a: nat, b: nat): nat {
    if a == 0 then 0 else Product(a - 1, b) + b
  }

  lemma {:induction false} ProductIs(a: nat, b: nat)
    ensures Product(a, b) == a * b
  {
    if a > 0 { ProductIs(a - 1, b); }
  }

  function WordSent(tx: Option<seq<Bits>>, width: nat, bits: nat, k: nat): Bits
    requires bits <= width
  {
    var w := if tx.Some? && k < |tx.value| && |tx.value[k]| == width then tx.value[k] else Ones(width);
    w[width - bits..]
  }

  /** The bits that the slave hears of the first `n` words. */
  function Sent(tx: Option<seq<Bits>>, width: nat, bits: nat, n: nat): Bits
    requires bits <= width
  {
    if n == 0 then [] else Sent(tx, width, bits, n - 1) + WordSent(tx, width, bits, n - 1)
  }

  /** Without words to send, the slave hears nothing but ones. */
  lemma {:induction false} OnesAreSent(width: nat, bits: nat, n: nat)
    requires bits <= width
    ensures |Sent(None, width, bits, n)| == Product(n, bits)
    ensures forall i :: 0 <= i < |Sent(None, width, bits, n)| ==> Sent(None, width, bits, n)[i]
  {
    if n > 0 { OnesAreSent(width, bits, n - 1); }
  }

  lemma SentNext(h: Bits, tx: Option<seq<Bits>>, width: nat, bits: nat, k: nat)
    requires bits <= width
    ensures h + Sent(tx, width, bits, k) + WordSent(tx, width, bits, k) == h + Sent(tx, width, bits, k + 1)
  {
    Assoc(h, Sent(tx, width, bits, k), WordSent(tx, width, bits, k));
  }

  lemma StepsLeft(len: nat, count: nat, k: nat, step: nat)
    requires step > 0 && count == len - Product(k, step) && count >= step
    ensures k < len / step && count - step == len - Product(k + 1, step)
  {
    ProductIs(k, step);
    assert len == len / step * step + len % step;
    Arith.FactorBound(k - len / step, step);
    assert (k - len / step) * step == k * step - len / step * step;
  }

  lemma StepsDone(len: nat, count: nat, k: nat, step: nat)
    requires step > 0 && count == len - Product(k, step) && 0 <= count < step
    ensures k == len / step && count == len % step
  {
    ProductIs(k, step);
    Arith.QuotientUnique(len, step, k, count);
  }
}
