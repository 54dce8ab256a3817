/** The bit-banging I2C master (src/driver/i2c/i2c-algo-bit.c). */
module I2cAlgoBit {
  import opened Arith
  import opened I2cBus
  import opened Sequences

  datatype Flags = Flags(ten: bool, rd: bool, noStart: bool, revDirAddr: bool, ignoreNak: bool, noRdAck: bool,
      recvLen: bool)

  /** What a transfer is made of: conditions, frames of a byte's bits and its acknowledge bit, and,
      if the master does not acknowledge, bare bytes. */
  datatype Token = TStart | TStop | Frame(bits: seq<bool>, nak: bool) | Bare(bits: seq<bool>)

  function ByteFrame(c: nat, nak: bool): Token {
    Frame(BitsOf(c, 8), nak)
  }

  function EventsOf(t: Token): seq<Event> {
    match t
    case TStart => [Start]
    case TStop => [Stop]
    case Frame(bits, nak) => BitEvents(bits) + [Bit(nak)]
    case Bare(bits) => BitEvents(bits)
  }

  function Flatten(ts: seq<Token>): seq<Event> {
    if ts == [] then [] else EventsOf(ts[0]) + Flatten(ts[1..])
  }

  lemma {:induction false} FlattenConcat(a: seq<Token>, b: seq<Token>)
    ensures Flatten(a + b) == Flatten(a) + Flatten(b)
  {
    hide EventsOf, BitEvents;
    if a == [] {
      assert a + b == b;
    } else {
      FlattenConcat(a[1..], b);
      Assoc(EventsOf(a[0]), Flatten(a[1..]), Flatten(b));
      assert (a + b)[0] == a[0] && (a + b)[1..] == a[1..] + b;
    }
  }

  lemma FlattenSingle(t: Token)
    ensures Flatten([t]) == EventsOf(t)
  {
    assert [t][1..] == [];
  }

  /** The transfer so far: no line is free, and a slave has heard exactly `ts` since `before`. */
  ghost predicate Sent(bus: Bus, before: seq<Event>, ts: seq<Token>)
    reads bus
  {
    bus.timedOut || (bus.Busy() && bus.ear.heard == before + Flatten(ts))
  }

  /** What has been sent before and what is sent now add up. */
  lemma SentOn(bus: Bus, before: seq<Event>, middle: seq<Event>, a: seq<Token>, b: seq<Token>)
    requires middle == before + Flatten(a) && Sent(bus, middle, b)
    ensures Sent(bus, before, a + b)
  {
    FlattenConcat(a, b);
    Assoc(before, Flatten(a), Flatten(b));
  }

  // In what follows `pre` is what has been sent since `before`; each method says what it adds.

  method I2cStart(bus: Bus, ghost before: seq<Event>)
    requires bus.timedOut || (bus.Idle() && before == bus.ear.heard)
    modifies bus
    ensures old(bus.timedOut) ==> bus.timedOut
    ensures Sent(bus, before, [TStart]) && bus.cursor == old(bus.cursor)
  {
    bus.SetSda(false);
    bus.SclLo();
    FlattenSingle(TStart);
  }

  method I2cRepStart(bus: Bus, ghost before: seq<Event>, ghost pre: seq<Token>)
    requires Sent(bus, before, pre)
    modifies bus
    ensures old(bus.timedOut) ==> bus.timedOut
    ensures Sent(bus, before, pre + [TStart]) && bus.cursor == old(bus.cursor)
  {
    ghost var heard := bus.ear.heard;
    bus.SetSda(true);
    var r := bus.SclHi();
    bus.SetSda(false);
    bus.SclLo();
    FlattenSingle(TStart);
    if !bus.timedOut { SentOn(bus, before, heard, pre, [TStart]); }
  }

  method I2cStop(bus: Bus)
    requires bus.timedOut || bus.Busy()
    modifies bus
    ensures old(bus.timedOut) ==> bus.timedOut
    ensures bus.sda && bus.scl && bus.cursor == old(bus.cursor)
    ensures bus.timedOut || (bus.Idle() && bus.ear.heard == old(bus.ear).heard + [Stop])
  {
    bus.SetSda(false);
    var r := bus.SclHi();
    bus.SetSda(true);
  }

  method Retry(bus: Bus, ghost before: seq<Event>, ghost pre: seq<Token>)
    requires Sent(bus, before, pre)
    modifies bus
    ensures old(bus.timedOut) ==> bus.timedOut
    ensures Sent(bus, before, pre + [TStop, TStart]) && bus.cursor == old(bus.cursor)
  {
    ghost var heard := bus.ear.heard;
    I2cStop(bus);
    ghost var stopped := bus.ear.heard;
    I2cStart(bus, stopped);
    FlattenSingle(TStart);
    FlattenSingle(TStop);
    FlattenConcat([TStop], [TStart]);
    assert [TStop] + [TStart] == [TStop, TStart];
    if !bus.timedOut {
      Assoc(heard, [Stop], [Start]);
      SentOn(bus, before, heard, pre, [TStop, TStart]);
    }
  }

  method SendBits(bus: Bus, c: nat) returns (ok: bool)
    requires c < 256 && (bus.timedOut || bus.Busy())
    modifies bus
    ensures old(bus.timedOut) || !ok ==> bus.timedOut
    ensures bus.cursor == old(bus.cursor) && bus.timeouts == old(bus.timeouts) + if ok then 0 else 1
    ensures bus.timedOut || (bus.Busy() && bus.ear.heard == old(bus.ear).heard + BitEvents(BitsOf(c, 8)))
  {
    ghost var before := bus.ear.heard;
    var i := 7;
    while i >= 0
      invariant -1 <= i <= 7 && bus.cursor == old(bus.cursor) && bus.timeouts == old(bus.timeouts)
      invariant old(bus.timedOut) ==> bus.timedOut
      invariant bus.timedOut || (bus.Busy() && bus.ear.heard == before + BitEvents(BitsOf(c, 8)[..7 - i]))
    {
      var sb := BitAt(c, i);
      bus.SetSda(sb);
      var r := bus.SclHi();
      if r < 0 {
        return false;
      }
      bus.SclLo();
      BitsOfAt(c, 8, 7 - i);
      assert BitsOf(c, 8)[..8 - i][..7 - i] == BitsOf(c, 8)[..7 - i];
      i := i - 1;
    }
    assert BitsOf(c, 8)[..8] == BitsOf(c, 8);
    ok := true;
  }

  /** Sends a byte, most significant bit first; 1 if it is acknowledged, 0 if not. */
  method OutByte(bus: Bus, c: nat, ghost bits: seq<bool>, ghost before: seq<Event>, ghost pre: seq<Token>)
    returns (ack: int)
    requires c < 256 && bits == BitsOf(c, 8) && Sent(bus, before, pre)
    modifies bus
    ensures old(bus.timedOut) ==> bus.timedOut
    ensures ack == -1 || ack == 0 || ack == 1
    ensures ack == -1 ==> bus.timedOut
    ensures bus.timeouts == old(bus.timeouts) + if ack == -1 then 1 else 0
    ensures Sent(bus, before, pre + [Frame(bits, ack != 1)])
    ensures !bus.timedOut ==> bus.cursor == old(bus.cursor) + 1 && (ack == 1 <==> !bus.Reply(old(bus.cursor)))
  {
    ghost var heard := bus.ear.heard;
    var ok := SendBits(bus, c);
    if !ok {
      return -1;
    }
    bus.SetSda(true);
    var r, v := bus.ListenPulse();
    if r < 0 {
      return -1;
    }
    ack := if v then 0 else 1;
    FlattenSingle(Frame(bits, v));
    if !bus.timedOut {
      Assoc(heard, BitEvents(bits), [Bit(v)]);
      SentOn(bus, before, heard, pre, [Frame(bits, v)]);
    }
  }

  lemma {:induction false} BitsOfAt(c: nat, n: nat, k: nat)
    requires k < n
    ensures BitsOf(c, n)[k] == BitAt(c, n - 1 - k)
  {
    if k > 0 { BitsOfAt(c, n - 1, k - 1); }
  }

  /** The bits that a slave drives from clock pulse `at` on. */
  function Replied(bus: Bus, at: nat, n: nat): (r: seq<bool>)
    ensures |r| == n
  {
    seq(n, i requires 0 <= i < n => bus.Reply(at + i))
  }

  lemma RepliedNext(bus: Bus, at: nat, i: nat)
    ensures BitEvents(Replied(bus, at, i + 1)) == BitEvents(Replied(bus, at, i)) + [Bit(bus.Reply(at + i))]
    ensures ValueOf(Replied(bus, at, i + 1)) == 2 * ValueOf(Replied(bus, at, i)) + if bus.Reply(at + i) then 1 else 0
  {
    assert Replied(bus, at, i + 1)[..i] == Replied(bus, at, i);
  }

  lemma ByteReceived(bus: Bus, at: nat)
    ensures var bits := Replied(bus, at, 8);
      ValueOf(bits) < 256 && Flatten([Bare(BitsOf(ValueOf(bits), 8))]) == BitEvents(bits)
  {
    BitsRoundTrip(Replied(bus, at, 8));
    FlattenSingle(Bare(Replied(bus, at, 8)));
    assert Pow2(8) == 256;
  }

  /** `i` bits have come since clock pulse `at`, and make up `indata`. */
  ghost predicate Receiving(bus: Bus, at: nat, heard: seq<Event>, i: nat, indata: int)
    reads bus
  {
    && 0 <= indata < Pow2(i)
    && (bus.timedOut || (
          && bus.Busy() && bus.sda && bus.cursor == at + i && indata == ValueOf(Replied(bus, at, i))
          && bus.ear.heard == heard + BitEvents(Replied(bus, at, i))))
  }

  method InBit(bus: Bus, i: nat, indata: int, ghost at: nat, ghost heard: seq<Event>) returns (r: int, next: int)
    requires Receiving(bus, at, heard, i, indata)
    modifies bus
    ensures old(bus.timedOut) || r < 0 ==> bus.timedOut
    ensures bus.timeouts == old(bus.timeouts) + if r < 0 then 1 else 0
    ensures r >= 0 ==> Receiving(bus, at, heard, i + 1, next)
  {
    var v;
    r, v := bus.ListenPulse();
    next := indata * 2;
    if v {
      next := next + 1;
    }
    RepliedNext(bus, at, i);
    if !bus.timedOut { Assoc(heard, BitEvents(Replied(bus, at, i)), [Bit(v)]); }
  }

  /** Receives a byte, most significant bit first. */
  method InByte(bus: Bus, ghost before: seq<Event>, ghost pre: seq<Token>) returns (indata: int)
    requires Sent(bus, before, pre)
    modifies bus
    ensures old(bus.timedOut) ==> bus.timedOut
    ensures -1 <= indata < 256 && (indata == -1 ==> bus.timedOut)
    ensures bus.timeouts == old(bus.timeouts) + if indata == -1 then 1 else 0
    ensures !bus.timedOut ==>
      bus.sda && bus.cursor == old(bus.cursor) + 8 && indata == ValueOf(Replied(bus, old(bus.cursor), 8))
    ensures bus.timedOut || Sent(bus, before, pre + [Bare(BitsOf(indata, 8))])
  {
    ghost var heard, at := bus.ear.heard, bus.cursor;
    bus.SetSda(true);
    indata := 0;
    for i := 0 to 8
      invariant (old(bus.timedOut) ==> bus.timedOut) && bus.timeouts == old(bus.timeouts)
      invariant Receiving(bus, at, heard, i, indata)
    {
      var r, next := InBit(bus, i, indata, at, heard);
      if r < 0 {
        return -1;
      }
      indata := next;
    }
    assert Pow2(8) == 256;
    ByteReceived(bus, at);
    if !bus.timedOut { SentOn(bus, before, heard, pre, [Bare(BitsOf(indata, 8))]); }
  }

  /** Address attempts that no slave acknowledges, each given up with a stop and a new start. */
  function Attempts(address: seq<bool>, n: nat): seq<Token> {
    if n == 0 then [] else Attempts(address, n - 1) + [Frame(address, true), TStop, TStart]
  }

  /** An address that is sent `n` times in vain and then once more, acknowledged or not. */
  datatype Try = Try(n: nat, nak: bool)

  function TryTokens(address: seq<bool>, t: Try): seq<Token> {
    Attempts(address, t.n) + [Frame(address, t.nak)]
  }

  lemma TryNext(pre: seq<Token>, bits: seq<bool>, n: nat, nak: bool)
    ensures pre + Attempts(bits, n) + [Frame(bits, nak)] == pre + TryTokens(bits, Try(n, nak))
    ensures pre + TryTokens(bits, Try(n, true)) + [TStop, TStart] == pre + Attempts(bits, n + 1)
  {
  }

  /** All of the `n` answers from clock pulse `at` on are refusals. */
  predicate Refusals(bus: Bus, at: nat, n: nat) {
    n == 0 || (Refusals(bus, at, n - 1) && bus.Reply(at + n - 1))
  }

  lemma RefusalsNext(bus: Bus, at: nat, n: nat)
    ensures Refusals(bus, at, n + 1) <==> Refusals(bus, at, n) && bus.Reply(at + n)
  {
  }

  lemma {:induction false} RefusedAtFirst(bus: Bus, at: nat, n: nat)
    requires n > 0 && Refusals(bus, at, n)
    ensures bus.Reply(at)
  {
    if n > 1 { RefusedAtFirst(bus, at, n - 1); }
  }

  /** Sends an address once; if it is refused and may be tried again, gives it up for now. */
  method TryOnce(bus: Bus, addr: nat, ghost bits: seq<bool>, i: nat, last: bool, ghost before: seq<Event>,
      ghost pre: seq<Token>)
    returns (ret: int)
    requires addr < 256 && bits == BitsOf(addr, 8) && Sent(bus, before, pre + Attempts(bits, i))
    modifies bus
    ensures old(bus.timedOut) ==> bus.timedOut
    ensures ret == -1 || ret == 0 || ret == 1
    ensures Sent(bus, before, pre + if ret == 1 || last then TryTokens(bits, Try(i, ret != 1))
      else Attempts(bits, i + 1))
    ensures !bus.timedOut ==> bus.cursor == old(bus.cursor) + 1 && (ret == 1 <==> !bus.Reply(old(bus.cursor)))
  {
    ret := OutByte(bus, addr, bits, before, pre + Attempts(bits, i));
    TryNext(pre, bits, i, ret != 1);
    if ret != 1 && !last {
      Retry(bus, before, pre + TryTokens(bits, Try(i, true)));
    }
  }

  /** Sends an address until it is acknowledged, at most `retries` times more than once. */
  method TryAddress(bus: Bus, addr: nat, ghost bits: seq<bool>, retries: nat,
                    ghost before: seq<Event>, ghost pre: seq<Token>)
    returns (ret: int, ghost naks: nat)
    requires addr < 256 && bits == BitsOf(addr, 8) && Sent(bus, before, pre)
    modifies bus
    ensures old(bus.timedOut) ==> bus.timedOut
    ensures ret == -1 || ret == 0 || ret == 1
    ensures naks <= retries && (ret != 1 ==> naks == retries)
    ensures Sent(bus, before, pre + TryTokens(bits, Try(naks, ret != 1)))
    ensures !bus.timedOut ==> bus.cursor == old(bus.cursor) + naks + 1
    ensures !bus.timedOut ==> Refusals(bus, old(bus.cursor), naks)
    ensures !bus.timedOut ==> (ret == 1 <==> !bus.Reply(old(bus.cursor) + naks))
  {
    hide Flatten, BitsOf;
    ghost var at := bus.cursor;
    ret, naks := 0, 0;
    var i := 0;
    assert pre + Attempts(bits, 0) == pre;
    while true
      invariant 0 <= i <= retries && naks == i
      invariant old(bus.timedOut) ==> bus.timedOut
      invariant Sent(bus, before, pre + Attempts(bits, i))
      invariant !bus.timedOut ==> bus.cursor == at + i && Refusals(bus, at, i)
      decreases retries - i
    {
      ret := TryOnce(bus, addr, bits, i, i == retries, before, pre);
      RefusalsNext(bus, at, i);
      if ret == 1 || i == retries {
        return;
      }
      i, naks := i + 1, naks + 1;
    }
  }

  class I2cMsg {
    const addr: nat
    const flags: Flags
    var len: nat
    const buf: array<nat>

    constructor (addr: nat, flags: Flags, len: nat, buf: array<nat>)
      ensures this.addr == addr && this.flags == flags && this.len == len && this.buf == buf
    {
      this.addr, this.flags, this.len, this.buf := addr, flags, len, buf;
    }

    /** The buffer holds bytes and has room for what a slave-given length may add. */
    ghost predicate Valid()
      reads this, buf
    {
      len + (if flags.recvLen then 32 else 0) <= buf.Length && forall i :: 0 <= i < buf.Length ==> buf[i] < 256
    }

    ghost function Data(): (d: seq<nat>)
      reads this, buf
      ensures len <= buf.Length ==> |d| == len
    {
      if len <= buf.Length then buf[..len] else []
    }
  }

  /** The frames of a write: the bytes in order; `naks` says which ones were not acknowledged. */
  function WriteTokens(data: seq<nat>, naks: seq<bool>): (r: seq<Token>)
    requires |data| == |naks|
    ensures |r| == |data|
  {
    if data == [] then []
    else WriteTokens(data[..|data| - 1], naks[..|data| - 1]) + [ByteFrame(data[|data| - 1], naks[|data| - 1])]
  }

  function NoNaks(n: nat): (r: seq<bool>)
    ensures |r| == n
  {
    seq(n, _ => false)
  }

  /** What the slave answers to `n` bytes from clock pulse `at` on. */
  function Answers(bus: Bus, at: nat, n: nat): (r: seq<bool>)
    ensures |r| == n
  {
    seq(n, k requires 0 <= k < n => bus.Reply(at + k))
  }

  /** The first bytes of `data` have been sent from clock pulse `at` on, and answered with `naks`. */
  ghost predicate SentBytes(bus: Bus, before: seq<Event>, pre: seq<Token>, at: nat, data: seq<nat>, naks: seq<bool>)
    requires |naks| <= |data|
    reads bus
  {
    && Sent(bus, before, pre + WriteTokens(data[..|naks|], naks))
    && (bus.timedOut || (bus.cursor == at + |naks| && naks == Answers(bus, at, |naks|)))
  }

  method SendByte(bus: Bus, c: nat, ghost before: seq<Event>, ghost pre: seq<Token>, ghost at: nat,
      ghost data: seq<nat>,
                  ghost naks: seq<bool>)
    returns (retval: int)
    requires |naks| < |data| && c == data[|naks|] < 256 && SentBytes(bus, before, pre, at, data, naks)
    modifies bus
    ensures old(bus.timedOut) || retval == -1 ==> bus.timedOut
    ensures bus.timeouts == old(bus.timeouts) + if retval == -1 then 1 else 0
    ensures -1 <= retval <= 1 && SentBytes(bus, before, pre, at, data, naks + [retval != 1])
  {
    hide Flatten, BitsOf, BitEvents;
    retval := OutByte(bus, c, BitsOf(c, 8), before, pre + WriteTokens(data[..|naks|], naks));
    WriteNext(pre, data, naks, |naks|, retval != 1);
    AnswersNext(bus, at, |naks|);
  }

  lemma NoNaksNext(n: nat)
    ensures NoNaks(n + 1) == NoNaks(n) + [false]
  {
  }

  /** Sends the bytes of a message until one is not acknowledged. */
  method SendBytes(bus: Bus, msg: I2cMsg, ghost before: seq<Event>, ghost pre: seq<Token>)
    returns (ret: int, ghost naks: seq<bool>)
    requires msg.Valid() && Sent(bus, before, pre)
    modifies bus
    ensures old(bus.timedOut) ==> bus.timedOut
    ensures |naks| <= msg.len && SentBytes(bus, before, pre, old(bus.cursor), msg.Data(), naks)
    ensures (ret == msg.len || ret == -1) && (bus.timeouts != old(bus.timeouts) ==> ret == -1)
    ensures !bus.timedOut && ret == msg.len ==> |naks| == msg.len && (!msg.flags.ignoreNak ==> naks == NoNaks(msg.len))
    ensures !bus.timedOut && ret == -1 ==> !msg.flags.ignoreNak && naks != [] && naks == NoNaks(|naks| - 1) + [true]
  {
    hide Flatten, BitsOf, BitEvents;
    ghost var data, at := msg.Data(), bus.cursor;
    var count, temp := msg.len, 0;
    var wrcount := 0;
    naks := [];
    assert pre + WriteTokens(data[..0], naks) == pre;
    while count > 0
      invariant count + temp == msg.len && wrcount == temp == |naks|
      invariant (old(bus.timedOut) ==> bus.timedOut) && bus.timeouts == old(bus.timeouts)
      invariant SentBytes(bus, before, pre, at, data, naks)
      invariant !bus.timedOut && !msg.flags.ignoreNak ==> naks == NoNaks(temp)
    {
      var retval := SendByte(bus, msg.buf[temp], before, pre, at, data, naks);
      NoNaksNext(temp);
      naks := naks + [retval != 1];
      if retval > 0 || (msg.flags.ignoreNak && retval == 0) {
        count, temp, wrcount := count - 1, temp + 1, wrcount + 1;
      } else if retval == 0 {
        return -1, naks;
      } else {
        return retval, naks;
      }
    }
    ret := wrcount;
  }

  lemma AnswersNext(bus: Bus, at: nat, n: nat)
    ensures Answers(bus, at, n + 1) == Answers(bus, at, n) + [bus.Reply(at + n)]
  {
  }

  lemma WriteNext(pre: seq<Token>, data: seq<nat>, naks: seq<bool>, k: nat, nak: bool)
    requires k < |data| && |naks| == k
    ensures pre + WriteTokens(data[..k], naks) + [ByteFrame(data[k], nak)]
      == pre + WriteTokens(data[..k + 1], naks + [nak])
  {
    assert data[..k + 1][..k] == data[..k] && (naks + [nak])[..k] == naks;
  }

  /** Adds the master's acknowledge bit to the byte just received. */
  method AckNak(bus: Bus, isAck: bool, ghost before: seq<Event>, ghost pre: seq<Token>, ghost bits: seq<bool>)
    returns (r: int)
    requires Sent(bus, before, pre + [Bare(bits)]) && (bus.timedOut || bus.sda)
    modifies bus
    ensures old(bus.timedOut) ==> bus.timedOut
    ensures (r == 0 || r == -1) && (r == -1 ==> bus.timedOut) && bus.cursor == old(bus.cursor)
    ensures bus.timeouts == old(bus.timeouts) + if r == -1 then 1 else 0
    ensures Sent(bus, before, pre + [Frame(bits, !isAck)])
  {
    FlattenConcat(pre, [Bare(bits)]);
    FlattenSingle(Bare(bits));
    FlattenConcat(pre, [Frame(bits, !isAck)]);
    FlattenSingle(Frame(bits, !isAck));
    Assoc(before, Flatten(pre), BitEvents(bits));
    Assoc(before + Flatten(pre), BitEvents(bits), [Bit(!isAck)]);
    Assoc(before, Flatten(pre), BitEvents(bits) + [Bit(!isAck)]);
    if isAck {
      bus.SetSda(false);
    }
    r := bus.SclHi();
    if r < 0 {
      return;
    }
    bus.SclLo();
  }

  /** The frames of a read: every byte acknowledged by the master, but for the last one if `last`;
      bare bytes if the master does not acknowledge at all. */
  function ReadTokens(data: seq<nat>, bare: bool, last: bool): (r: seq<Token>)
    ensures |r| == |data|
  {
    if data == [] then []
    else
      var c := data[|data| - 1];
      ReadTokens(data[..|data| - 1], bare, false) + [if bare then Bare(BitsOf(c, 8)) else ByteFrame(c, last)]
  }

  lemma ReadNext(pre: seq<Token>, data: seq<nat>, c: nat, bare: bool, last: bool)
    ensures ReadTokens(data + [c], bare, last) == ReadTokens(data, bare, false) + [if bare then Bare(BitsOf(c, 8))
      else ByteFrame(c, last)]
    ensures pre + ReadTokens(data, bare, false) + [if bare then Bare(BitsOf(c, 8))
      else ByteFrame(c, last)] == pre + ReadTokens(data + [c], bare, last)
  {
    assert (data + [c])[..|data|] == data;
  }

  /** The bytes that a slave sends from clock pulse `at` on. */
  ghost predicate SlaveSent(bus: Bus, at: nat, data: seq<nat>) {
    forall k :: 0 <= k < |data| ==> data[k] == ValueOf(Replied(bus, at + 8 * k, 8))
  }

  /** Acknowledges the byte `c` that has just come in after `data`, or not if it is the last one;
      with `bare` the master does neither. */
  method AckUnless(bare: bool, bus: Bus, isAck: bool, ghost before: seq<Event>, ghost pre: seq<Token>,
      ghost data: seq<nat>, ghost c: nat)
      returns (r: int)
    requires Sent(bus, before, pre + ReadTokens(data, bare, false) + [Bare(BitsOf(c, 8))]) && (bus.timedOut || bus.sda)
    modifies bus
    ensures old(bus.timedOut) ==> bus.timedOut
    ensures -1 <= r <= 0 && (r == -1 ==> bus.timedOut) && bus.cursor == old(bus.cursor)
    ensures bus.timeouts == old(bus.timeouts) + if r == -1 then 1 else 0
    ensures Sent(bus, before, pre + ReadTokens(data + [c], bare, !isAck))
  {
    ReadNext(pre, data, c, bare, !isAck);
    r := 0;
    if !bare {
      r := AckNak(bus, isAck, before, pre + ReadTokens(data, bare, false), BitsOf(c, 8));
    }
  }

  lemma SlaveSentNext(bus: Bus, at: nat, data: seq<nat>, c: nat)
    requires SlaveSent(bus, at, data) && c == ValueOf(Replied(bus, at + 8 * |data|, 8))
    ensures SlaveSent(bus, at, data + [c])
  {
  }

  /** The first `k` bytes of the buffer are `data`, which a slave has sent since clock pulse `at`. */
  ghost predicate Received(bus: Bus, buf: array<nat>, k: nat, at: nat, data: seq<nat>)
    reads bus, buf
  {
    k <= buf.Length && |data| == k && data == buf[..k] && bus.cursor == at + 8 * k && SlaveSent(bus, at, data)
  }

  method InInto(bus: Bus, buf: array<nat>, k: nat, ghost at: nat, ghost data: seq<nat>, ghost before: seq<Event>,
      ghost pre: seq<Token>)
      returns (inval: int)
    requires k < buf.Length && Sent(bus, before, pre) && (bus.timedOut || Received(bus, buf, k, at, data))
    modifies bus, buf
    ensures old(bus.timedOut) || inval < 0 ==> bus.timedOut
    ensures -1 <= inval < 256 && bus.timeouts == old(bus.timeouts) + if inval < 0 then 1 else 0
    ensures inval < 0 ==> buf[..] == old(buf[..])
    ensures inval >= 0 ==> buf[..] == old(buf[..])[k := inval]
    ensures bus.timedOut ||
      (bus.sda && Received(bus, buf, k + 1, at, data + [inval]) && Sent(bus, before, pre + [Bare(BitsOf(inval, 8))]))
  {
    inval := InByte(bus, before, pre);
    if inval >= 0 {
      if !bus.timedOut { SlaveSentNext(bus, at, data, inval); }
      buf[k] := inval;
    }
  }

  /** After a byte has come in: a slave-given length that is the first byte of the message extends the
      message, or ends it if it is out of range; then the byte is acknowledged unless it is the last. */
  method AfterByte(bus: Bus, msg: I2cMsg, inval: nat, rdcount: nat, count: nat, ghost before: seq<Event>,
      ghost pre: seq<Token>, ghost data: seq<nat>)
      returns (r: int, left: nat)
    requires Sent(bus, before, pre + ReadTokens(data, msg.flags.noRdAck, false) + [Bare(BitsOf(inval, 8))]) &&
      (bus.timedOut || bus.sda)
    requires msg.len == rdcount + count
    modifies bus, msg`len
    ensures old(bus.timedOut) ==> bus.timedOut
    ensures bus.cursor == old(bus.cursor) && (r == 0 || r == -1)
    ensures r == 0 ==> bus.timeouts == old(bus.timeouts)
    ensures var first := rdcount == 1 && msg.flags.recvLen;
      && (r == 0 ==> msg.len == rdcount + left && left == if first then count + inval else count)
      && (first && r == 0 ==> 0 < inval <= 32)
      && (msg.len == old(msg.len) || (first && 0 < inval <= 32 && msg.len == old(msg.len) + inval))
      && (r == -1 ==> bus.timedOut || (first && (inval == 0 || inval > 32)))
    ensures Sent(bus, before, pre + ReadTokens(data + [inval], msg.flags.noRdAck, r == -1 || left == 0)) || bus.timedOut
  {
    var bare := msg.flags.noRdAck;
    left := count;
    if rdcount == 1 && msg.flags.recvLen {
      if inval <= 0 || inval > 32 {
        r := AckUnless(bare, bus, false, before, pre, data, inval);
        return -1, left;
      }
      left := left + inval;
      msg.len := msg.len + inval;
    }
    r := AckUnless(bare, bus, left > 0, before, pre, data, inval);
  }

  /** From index `k` on the buffer holds what it did. */
  ghost predicate UntouchedFrom(buf: array<nat>, was: seq<nat>, k: nat)
    reads buf
  {
    |was| == buf.Length && forall i :: k <= i < buf.Length ==> buf[i] == was[i]
  }

  /** The buffer has room for the message, and for what a length that is yet to come may add. */
  ghost predicate HasRoom(msg: I2cMsg, len: nat, rdcount: nat)
    reads msg, msg.buf
  {
    && rdcount <= msg.len <= msg.buf.Length && AllBytes(msg.buf) && (!msg.flags.recvLen ==> msg.len == len)
    && (rdcount == 0 ==> msg.len == len && len + (if msg.flags.recvLen then 32 else 0) <= msg.buf.Length)
  }

  /** The first bytes of a message of `len` bytes, or more if the slave has said so, have been read. */
  ghost predicate ReadSoFar(bus: Bus, msg: I2cMsg, at: nat, len: nat, data: seq<nat>)
    reads bus, msg, msg.buf
  {
    bus.timedOut || (Received(bus, msg.buf, |data|, at, data) && (data != [] ==> Lengthened(msg, len, data)))
  }

  /** One byte of a message. */
  method ReadByte(bus: Bus, msg: I2cMsg, rdcount: nat, count: nat, ghost at: nat, ghost len: nat, ghost data: seq<nat>,
                  ghost before: seq<Event>, ghost pre: seq<Token>)
    returns (inval: int, r: int, left: nat)
    requires rdcount == |data| && count > 0 && msg.len == rdcount + count && HasRoom(msg, len, rdcount)
    requires ReadSoFar(bus, msg, at, len, data) && Sent(bus, before, pre + ReadTokens(data, msg.flags.noRdAck, false))
    modifies bus, msg`len, msg.buf
    ensures old(bus.timedOut) || inval < 0 ==> bus.timedOut
    ensures -1 <= inval < 256 && (r == 0 || r == -1) && HasRoom(msg, len, if inval < 0 then rdcount else rdcount + 1)
    ensures r == 0 ==> left <= msg.len && (inval >= 0 ==> msg.len == rdcount + 1 + left)
    ensures inval >= 0 ==> Sent(bus, before, pre + ReadTokens(data + [inval], msg.flags.noRdAck, r == -1 || left == 0))
    ensures inval >= 0 && r == 0 ==> ReadSoFar(bus, msg, at, len, data + [inval])
    ensures inval >= 0 && r == -1 ==> rdcount + 1 <= msg.len
    ensures r == -1 && !bus.timedOut ==>
      inval >= 0 && msg.flags.recvLen && BadLength(data + [inval]) && len > 0
    ensures r == -1 && !bus.timedOut ==> Received(bus, msg.buf, rdcount + 1, at, data + [inval])
    ensures UntouchedFrom(msg.buf, old(msg.buf[..]), if inval < 0 then rdcount else rdcount + 1)
    ensures inval >= 0 && r == 0 ==> bus.timeouts == old(bus.timeouts)
    ensures inval < 0 ==> msg.len == old(msg.len)
  {
    hide Flatten, BitsOf, BitEvents, ValueOf, ReadTokens, SlaveSent, Replied;
    inval := InInto(bus, msg.buf, rdcount, at, data, before, pre + ReadTokens(data, msg.flags.noRdAck, false));
    r, left := 0, 0;
    if inval >= 0 {
      r, left := AfterByte(bus, msg, inval, rdcount + 1, count - 1, before, pre, data);
    }
  }

  /** Fills the message's buffer with what the slave sends; a slave-given length comes first. */
  method ReadBytes(bus: Bus, msg: I2cMsg, ghost before: seq<Event>, ghost pre: seq<Token>)
    returns (ret: int, ghost data: seq<nat>)
    requires msg.Valid() && Sent(bus, before, pre)
    modifies bus, msg`len, msg.buf
    ensures old(bus.timedOut) ==> bus.timedOut
    ensures msg.len <= msg.buf.Length && AllBytes(msg.buf) && ret <= msg.len
    ensures !msg.flags.recvLen ==> msg.len == old(msg.len)
    ensures Sent(bus, before, pre + ReadTokens(data, msg.flags.noRdAck, true))
    ensures !bus.timedOut ==> bus.cursor == old(bus.cursor) + 8 * |data| && SlaveSent(bus, old(bus.cursor), data)
    ensures !bus.timedOut && ret == msg.len ==> data == msg.Data() && Lengthened(msg, old(msg.len), data)
    ensures !bus.timedOut && ret != msg.len ==> ret == -1 && msg.flags.recvLen && old(msg.len) > 0 && BadLength(data)
    ensures UntouchedFrom(msg.buf, old(msg.buf[..]), msg.len)
    ensures bus.timeouts != old(bus.timeouts) ==> ret < msg.len
  {
    hide Flatten, BitsOf, BitEvents, ValueOf, Replied;
    ghost var at, len, bare, was := bus.cursor, msg.len, msg.flags.noRdAck, msg.buf[..];
    data := [];
    var rdcount, count := 0, msg.len;
    assert pre + ReadTokens(data, bare, true) == pre;
    while count > 0
      invariant 0 <= count && rdcount + count == msg.len && rdcount == |data|
      invariant HasRoom(msg, len, rdcount) && ReadSoFar(bus, msg, at, len, data)
      invariant (old(bus.timedOut) ==> bus.timedOut) && bus.timeouts == old(bus.timeouts)
      invariant Sent(bus, before, pre + ReadTokens(data, bare, count == 0))
      invariant UntouchedFrom(msg.buf, was, rdcount)
      decreases msg.buf.Length - rdcount
    {
      var inval, r, left := ReadByte(bus, msg, rdcount, count, at, len, data, before, pre);
      if inval < 0 {
        break;
      }
      rdcount, count := rdcount + 1, left;
      data := data + [inval];
      if r < 0 {
        return r, data;
      }
    }
    ret := rdcount;
  }

  /** A length that is given by the slave has been added to the message's own. */
  ghost predicate Lengthened(msg: I2cMsg, len: nat, data: seq<nat>)
    reads msg
  {
    if msg.flags.recvLen && len > 0 then |data| > 0 && 1 <= data[0] <= 32 && msg.len == len + data[0]
      else msg.len == len
  }

  /** The slave-given length, and nothing else, was read: it is out of range. */
  predicate BadLength(data: seq<nat>) {
    |data| == 1 && (data[0] == 0 || data[0] > 32)
  }

  ghost predicate AllBytes(buf: array<nat>)
    reads buf
  {
    forall i :: 0 <= i < buf.Length ==> buf[i] < 256
  }

  // Addresses

  function SevenBitByte(addr: nat, read: bool): nat {
    addr * 2 % 256 + if read then 1 else 0
  }

  /** The first byte of a 10-bit address. */
  function TenBitByte(addr: nat, read: bool): nat {
    0xf0 + addr / 256 % 4 * 2 + if read then 1 else 0
  }

  /** Seven address bits and the direction (section 3.1.10 of NXP UM10204). */
  function SevenBits(addr: nat, read: bool): seq<bool> {
    BitsOf(addr, 7) + [read]
  }

  /** 11110, the two high address bits and the direction (section 3.1.11 of NXP UM10204). */
  function TenBits(addr: nat, read: bool): seq<bool> {
    [true, true, true, true, false, BitAt(addr, 9), BitAt(addr, 8), read]
  }

  /** Bits from `n` on do not show in the `n` low bits. */
  lemma {:induction false} LowBits(c: nat, k: nat, p: nat, n: nat)
    requires p == k * Pow2(n)
    ensures BitsOf(c + p, n) == BitsOf(c, n)
  {
    if n > 0 {
      var q := k * Pow2(n - 1);
      assert p == 2 * q;
      BitsOfHalf(c + p, n);
      BitsOfHalf(c, n);
      assert (c + p) / 2 == c / 2 + q && (c + p) % 2 == c % 2;
      LowBits(c / 2, k, q, n - 1);
    }
  }

  lemma SevenBitsSent(addr: nat, read: bool)
    ensures SevenBitByte(addr, read) < 256 && BitsOf(SevenBitByte(addr, read), 8) == SevenBits(addr, read)
  {
    SevenBitByteIs(addr, read);
    BitsOfHalf(SevenBitByte(addr, read), 8);
    PowersAre();
    LowBits(addr % 128, addr / 128, addr / 128 * 128, 7);
  }

  lemma SevenBitByteIs(addr: nat, read: bool)
    ensures SevenBitByte(addr, read) < 256
    ensures SevenBitByte(addr, read) / 2 == addr % 128 && (SevenBitByte(addr, read) % 2 == 1 <==> read)
  {
  }

  lemma LowByteSent(addr: nat)
    ensures BitsOf(addr % 256, 8) == BitsOf(addr, 8)
  {
    PowersAre();
    LowBits(addr % 256, addr / 256, addr / 256 * 256, 8);
  }

  lemma PowersAre()
    ensures Pow2(7) == 128 && Pow2(8) == 256 && Pow2(9) == 512
  {
  }

  lemma {:induction false} BitAtIs(c: nat, i: nat)
    ensures BitAt(c, i) <==> c / Pow2(i) % 2 == 1
  {
    if i > 0 {
      BitAtIs(c / 2, i - 1);
      DivTwice(c, Pow2(i - 1));
    }
  }

  lemma TenBitsSent(addr: nat, read: bool)
    ensures TenBitByte(addr, read) < 256 && BitsOf(TenBitByte(addr, read), 8) == TenBits(addr, read)
  {
    hide Pow2, TenBitByte;
    var h := addr / 256 % 4;
    TenBitByteIs(addr, read);
    BitsOfHalf(TenBitByte(addr, read), 8);
    BitsOfHalf(0x78 + h, 7);
    BitsOfHalf(0x3c + h / 2, 6);
    assert BitsOf(0x1e, 5) == [true, true, true, true, false];
    HighBits(addr);
  }

  lemma TenBitByteIs(addr: nat, read: bool)
    ensures TenBitByte(addr, read) < 256
    ensures TenBitByte(addr, read) / 2 == 0x78 + addr / 256 % 4 && (TenBitByte(addr, read) % 2 == 1 <==> read)
  {
  }

  lemma HighBits(addr: nat)
    ensures BitAt(addr, 8) == (addr / 256 % 4 % 2 == 1) && BitAt(addr, 9) == (addr / 256 % 4 / 2 % 2 == 1)
  {
    Bit8(addr);
    Bit9(addr);
    Quarters(addr);
  }

  lemma Quarters(addr: nat)
    ensures addr / 256 % 4 % 2 == addr / 256 % 2 && addr / 256 % 4 / 2 % 2 == addr / 512 % 2
  {
    var q := addr / 256;
    LowTwo(q);
    QuotientUnique(addr, 512, q / 2, 256 * (q % 2) + addr % 256);
  }

  lemma LowTwo(q: nat)
    ensures q % 4 % 2 == q % 2 && q % 4 / 2 % 2 == q / 2 % 2
  {
    assert q == 4 * (q / 4) + q % 4;
    QuotientUnique(q, 2, 2 * (q / 4) + q % 4 / 2, q % 4 % 2);
  }

  lemma Bit8(addr: nat)
    ensures BitAt(addr, 8) == (addr / 256 % 2 == 1)
  {
    BitAtIs(addr, 8);
    PowersAre();
  }

  lemma Bit9(addr: nat)
    ensures BitAt(addr, 9) == (addr / 512 % 2 == 1)
  {
    BitAtIs(addr, 9);
    PowersAre();
  }
}
