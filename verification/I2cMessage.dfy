/** Addresses and messages of the bit-banging I2C master (src/driver/i2c/i2c-algo-bit.c). */
module I2cMessage {
  import opened I2cBus
  import opened I2cAlgoBit
  import opened Sequences

  function DataTokens(flags: Flags, data: seq<nat>, naks: seq<bool>): seq<Token> {
    if flags.rd then ReadTokens(data, flags.noRdAck, true)
    else if |naks| == |data| then WriteTokens(data, naks) else []
  }

  /** One message as it went over the bus: the attempts at its address byte, the acknowledge bit of
      the low byte of a 10-bit address, the attempts at the byte that repeats such an address to read,
      and the data from clock pulse `at` on, with the answers to what was written. */
  datatype View = View(addr: nat, flags: Flags, first: Try, low: bool, second: Try,
                       data: seq<nat>, naks: seq<bool>, at: nat)
  {
    /** A message without any of the flags that change the protocol. */
    predicate Plain() {
      !flags.noStart && !flags.revDirAddr && !flags.ignoreNak && !flags.noRdAck && !flags.recvLen
    }

    function FirstBits(): (r: seq<bool>)
      ensures |r| == 8
    {
      if flags.ten then TenBits(addr, false) else SevenBits(addr, flags.rd != flags.revDirAddr)
    }

    function FirstTokens(): seq<Token> {
      TryTokens(FirstBits(), first)
    }

    function LowTokens(): seq<Token> {
      FirstTokens() + [Frame(BitsOf(addr, 8), low)]
    }

    function AddressTokens(): seq<Token> {
      if flags.noStart then []
      else if !flags.ten then FirstTokens()
      else if !flags.rd then LowTokens()
      else LowTokens() + ([TStart] + TryTokens(TenBits(addr, true), second))
    }

    function Tokens(): seq<Token> {
      AddressTokens() + DataTokens(flags, data, naks)
    }

    predicate AddressAcked() {
      flags.ignoreNak || (!first.nak && !low && !second.nak)
    }

    /** Whatever the slave is asked for an acknowledge for, it acknowledges. */
    predicate Acked() {
      AddressAcked() && (flags.rd || (|naks| == |data| && (flags.ignoreNak || naks == NoNaks(|data|))))
    }
  }

  const NO_VIEW := View(0, Flags(false, false, false, false, false, false, false), Try(0, false), false, Try(0, false),
    [], [], 0)

  /** Where a message breaks off: at an address byte or a byte of data that is refused, or at a
      slave-given length that is out of range. */
  datatype Stage = FirstByte | LowByte | SecondByte | DataByte | LengthByte

  predicate Breaks(v: View, stage: Stage) {
    match stage
    case FirstByte => !v.flags.noStart && !v.flags.ignoreNak && v.first == Try(3, true)
    case LowByte => !v.flags.noStart && !v.flags.ignoreNak && v.flags.ten && !v.first.nak && v.low
    case SecondByte =>
      && !v.flags.noStart && !v.flags.ignoreNak && v.flags.ten && v.flags.rd
      && !v.first.nak && !v.low && v.second == Try(3, true)
    case DataByte =>
      && !v.flags.rd && !v.flags.ignoreNak && v.AddressAcked()
      && |v.naks| == |v.data| > 0 && v.naks == NoNaks(|v.data| - 1) + [true]
    case LengthByte => v.flags.rd && v.flags.recvLen && v.AddressAcked() && BadLength(v.data)
  }

  function BrokenTokens(v: View, stage: Stage): seq<Token> {
    match stage
    case FirstByte => v.FirstTokens()
    case LowByte => v.LowTokens()
    case SecondByte => v.AddressTokens()
    case _ => v.Tokens()
  }

  // How many clock pulses the slave answers in, and when it answers as it is asked to

  function AddressPulses(flags: Flags): nat {
    if flags.noStart then 0 else if !flags.ten then 1 else if flags.rd then 3 else 2
  }

  predicate AddressAnswered(bus: Bus, at: nat, flags: Flags) {
    flags.ignoreNak || forall k :: at <= k < at + AddressPulses(flags) ==> !bus.Reply(k)
  }

  function GivenLength(bus: Bus, at: nat, flags: Flags, len: nat): nat {
    if flags.recvLen && len > 0 then ValueOf(Replied(bus, at, 8)) else 0
  }

  function DataPulses(bus: Bus, at: nat, flags: Flags, len: nat): nat {
    if flags.rd then 8 * (len + GivenLength(bus, at, flags, len)) else len
  }

  predicate DataAnswered(bus: Bus, at: nat, flags: Flags, len: nat) {
    if flags.rd then flags.recvLen && len > 0 ==> 1 <= GivenLength(bus, at, flags, len) <= 32
    else flags.ignoreNak || forall k :: at <= k < at + len ==> !bus.Reply(k)
  }

  /** What is known of a message before its transfer. */
  datatype Shape = Shape(flags: Flags, len: nat)

  function Pulses(bus: Bus, at: nat, s: Shape): nat {
    var a := AddressPulses(s.flags);
    a + DataPulses(bus, at + a, s.flags, s.len)
  }

  predicate Answered(bus: Bus, at: nat, s: Shape) {
    AddressAnswered(bus, at, s.flags) && DataAnswered(bus, at + AddressPulses(s.flags), s.flags, s.len)
  }

  /** From clock pulse `at` on the slaves acknowledge all that they are asked to acknowledge, and give
      lengths in range. */
  predicate AllAnswered(bus: Bus, at: nat, shapes: seq<Shape>, from: nat)
    decreases |shapes| - from
  {
    from >= |shapes| ||
      (Answered(bus, at, shapes[from]) && AllAnswered(bus, at + Pulses(bus, at, shapes[from]), shapes, from + 1))
  }

  // Addresses

  /** Sends an address byte under the given retry policy and says whether to go on. */
  method AddressByte(bus: Bus, a: nat, ghost bits: seq<bool>, nakOk: bool, ghost before: seq<Event>,
      ghost pre: seq<Token>)
    returns (ok: bool, ghost t: Try)
    requires a < 256 && bits == BitsOf(a, 8) && Sent(bus, before, pre)
    modifies bus
    ensures old(bus.timedOut) ==> bus.timedOut
    ensures Sent(bus, before, pre + TryTokens(bits, t))
    ensures ok <==> nakOk || !t.nak
    ensures t.n <= (if nakOk then 0 else 3) && (!ok ==> t == Try(3, true))
    ensures !bus.timedOut ==> bus.cursor == old(bus.cursor) + t.n + 1 && (t.nak <==> bus.Reply(bus.cursor - 1))
    ensures !bus.timedOut && !bus.Reply(old(bus.cursor)) ==> t == Try(0, false)
  {
    hide Flatten, BitsOf, Attempts;
    var ret;
    ghost var naks;
    ret, naks := TryAddress(bus, a, bits, if nakOk then 0 else 3, before, pre);
    t := Try(naks, ret != 1);
    if naks > 0 && !bus.timedOut { RefusedAtFirst(bus, old(bus.cursor), naks); }
    ok := ret == 1 || nakOk;
  }

  /** The last answer that was heard was a refusal. */
  ghost predicate Refused(bus: Bus)
    reads bus
  {
    bus.cursor > 0 && bus.Reply(bus.cursor - 1)
  }

  /** Two bytes for the address, the second of them once only. */
  method TenBitAddress(bus: Bus, addr: nat, nakOk: bool, ghost before: seq<Event>, ghost pre: seq<Token>)
    returns (ok: bool, ghost first: Try, ghost low: bool, ghost stage: Stage)
    requires Sent(bus, before, pre)
    modifies bus
    ensures old(bus.timedOut) ==> bus.timedOut
    ensures var tries := TryTokens(TenBits(addr, false), first);
      Sent(bus, before, pre + if !ok && stage == FirstByte then tries else tries + [Frame(BitsOf(addr, 8), low)])
    ensures ok ==> nakOk || (!first.nak && !low)
    ensures !ok ==>
      !nakOk && if stage == FirstByte then first == Try(3, true) else stage == LowByte && !first.nak && low
    ensures !ok && !bus.timedOut ==> Refused(bus)
    ensures !bus.timedOut && (nakOk || (!bus.Reply(old(bus.cursor)) && !bus.Reply(old(bus.cursor) + 1)))
      ==> ok && bus.cursor == old(bus.cursor) + 2
  {
    hide Flatten, BitsOf, Attempts, WriteTokens, ReadTokens;
    TenBitsSent(addr, false);
    low, stage := false, FirstByte;
    ok, first := AddressByte(bus, TenBitByte(addr, false), TenBits(addr, false), nakOk, before, pre);
    if !ok {
      return;
    }
    LowByteSent(addr);
    ghost var tries := TryTokens(TenBits(addr, false), first);
    var ack := OutByte(bus, addr % 256, BitsOf(addr, 8), before, pre + tries);
    low, stage := ack != 1, LowByte;
    assert pre + tries + [Frame(BitsOf(addr, 8), low)] == pre + (tries + [Frame(BitsOf(addr, 8), low)]);
    ok := ack == 1 || nakOk;
  }

  /** The view of a message whose address has been tried. */
  function AddressView(msg: I2cMsg, first: Try, low: bool, second: Try): View {
    View(msg.addr, msg.flags, first, low, second, [], [], 0)
  }

  /** The address phase has ended with `ret`. */
  ghost predicate Addressed(v: View, ret: int, stage: Stage) {
    if ret == 0 then v.AddressAcked() else ret == -1 && Breaks(v, stage) && !stage.DataByte? && !stage.LengthByte?
  }

  /** All of the address phase of a message that began at clock pulse `at`. */
  ghost predicate AddressDone(bus: Bus, msg: I2cMsg, at: nat, before: seq<Event>, pre: seq<Token>, v: View, ret: int,
      stage: Stage)
    reads bus
  {
    && v == AddressView(msg, v.first, v.low, v.second)
    && Sent(bus, before, pre + if ret == 0 then v.AddressTokens() else BrokenTokens(v, stage))
    && Addressed(v, ret, stage)
    && (bus.timedOut || (
          && (ret == -1 ==> Refused(bus))
          && (AddressAnswered(bus, at, msg.flags) ==> ret == 0 && bus.cursor == at + AddressPulses(msg.flags))))
  }

  method LongAddress(bus: Bus, msg: I2cMsg, ghost before: seq<Event>, ghost pre: seq<Token>)
    returns (ret: int, ghost v: View, ghost stage: Stage)
    requires Sent(bus, before, pre) && !msg.flags.noStart && msg.flags.ten
    modifies bus
    ensures old(bus.timedOut) ==> bus.timedOut
    ensures AddressDone(bus, msg, old(bus.cursor), before, pre, v, ret, stage)
  {
    hide Flatten, BitsOf, Attempts, WriteTokens, ReadTokens;
    var flags, addr := msg.flags, msg.addr;
    var ok;
    ghost var first: Try, low: bool, second: Try := Try(0, false), false, Try(0, false);
    ok, first, low, stage := TenBitAddress(bus, addr, flags.ignoreNak, before, pre);
    v := AddressView(msg, first, low, second);
    if !ok {
      return -1, v, stage;
    }
    ret := 0;
    if flags.rd {
      ghost var sent := v.LowTokens();
      I2cRepStart(bus, before, pre + sent);
      TenBitsSent(addr, true);
      ok, second := AddressByte(bus, TenBitByte(addr, true), TenBits(addr, true), flags.ignoreNak, before,
        pre + sent + [TStart]);
      v, stage := AddressView(msg, first, low, second), SecondByte;
      TokensAssoc(pre, sent, [TStart], TryTokens(TenBits(addr, true), second));
      ret := if ok then 0 else -1;
    }
  }

  method DoAddress(bus: Bus, msg: I2cMsg, ghost before: seq<Event>, ghost pre: seq<Token>)
    returns (ret: int, ghost v: View, ghost stage: Stage)
    requires Sent(bus, before, pre) && !msg.flags.noStart
    modifies bus
    ensures old(bus.timedOut) ==> bus.timedOut
    ensures AddressDone(bus, msg, old(bus.cursor), before, pre, v, ret, stage)
  {
    hide Flatten, BitsOf, Attempts, WriteTokens, ReadTokens;
    var flags := msg.flags;
    if flags.ten {
      ret, v, stage := LongAddress(bus, msg, before, pre);
    } else {
      var read := flags.rd != flags.revDirAddr;
      SevenBitsSent(msg.addr, read);
      var ok;
      ghost var first;
      ok, first := AddressByte(bus, SevenBitByte(msg.addr, read), SevenBits(msg.addr, read), flags.ignoreNak, before,
        pre);
      v, stage := AddressView(msg, first, false, Try(0, false)), FirstByte;
      ret := if ok then 0 else -1;
    }
  }

  lemma TokensAssoc(pre: seq<Token>, a: seq<Token>, b: seq<Token>, c: seq<Token>)
    ensures pre + a + b + c == pre + (a + (b + c))
    ensures a + b + c == a + (b + c)
  {
  }

  // Messages

  /** How the body of a message that holds `held` has ended: all its bytes have gone through, or one
      that was written was refused, or the slave gave a length out of range. */
  ghost predicate BodyEnded(bus: Bus, at: nat, flags: Flags, held: seq<nat>, ret: int, data: seq<nat>, naks: seq<bool>)
    reads bus
  {
    && (flags.rd ==> SlaveSent(bus, at, data))
    && (!flags.rd ==> |naks| == |data| && data <= held)
    && if ret == 0 then data == held && (flags.rd || flags.ignoreNak || naks == NoNaks(|data|))
       else if flags.rd then flags.recvLen && BadLength(data)
       else !flags.ignoreNak && |data| > 0 && naks == NoNaks(|data| - 1) + [true] && Refused(bus)
  }

  /** What a message holds when the master is handed it. */
  datatype Given = Given(len: nat, bytes: seq<nat>)

  ghost function GivenOf(msg: I2cMsg): Given
    reads msg, msg.buf
  {
    Given(msg.len, msg.buf[..])
  }

  /** A message that is written is left as it was; one that is read changes only in the bytes read, and
      in its length only if the slave is to add to it. */
  ghost predicate Kept(msg: I2cMsg, given: Given)
    reads msg, msg.buf
  {
    if msg.flags.rd then
      UntouchedFrom(msg.buf, given.bytes, msg.len) && (!msg.flags.recvLen ==> msg.len == given.len)
    else GivenOf(msg) == given
  }

  method DoRead(bus: Bus, msg: I2cMsg, ghost before: seq<Event>, ghost pre: seq<Token>)
    returns (ret: int, ghost data: seq<nat>)
    requires msg.Valid() && msg.flags.rd && Sent(bus, before, pre)
    modifies bus, msg`len, msg.buf
    ensures old(bus.timedOut) ==> bus.timedOut
    ensures (ret == 0 || ret == -1) && (bus.timeouts != old(bus.timeouts) ==> ret == -1)
    ensures msg.len <= msg.buf.Length && AllBytes(msg.buf) && Kept(msg, old(GivenOf(msg)))
    ensures Sent(bus, before, pre + DataTokens(msg.flags, data, []))
    ensures !bus.timedOut ==> BodyEnded(bus, old(bus.cursor), msg.flags, msg.Data(), ret, data, [])
    ensures !bus.timedOut && ret == 0 ==> Lengthened(msg, old(msg.len), msg.Data())
    ensures !bus.timedOut && DataAnswered(bus, old(bus.cursor), msg.flags, old(msg.len)) ==>
      ret == 0 && bus.cursor == old(bus.cursor) + DataPulses(bus, old(bus.cursor), msg.flags, old(msg.len))
  {
    hide Flatten, BitsOf, Attempts, WriteTokens, ReadTokens;
    ghost var at := bus.cursor;
    ret, data := ReadBytes(bus, msg, before, pre);
    assert !bus.timedOut && data != [] ==> data[0] == ValueOf(Replied(bus, at + 8 * 0, 8));
    ret := if ret < msg.len then -1 else 0;
  }

  method DoWrite(bus: Bus, msg: I2cMsg, ghost before: seq<Event>, ghost pre: seq<Token>)
    returns (ret: int, ghost data: seq<nat>, ghost naks: seq<bool>)
    requires msg.Valid() && !msg.flags.rd && Sent(bus, before, pre)
    modifies bus
    ensures old(bus.timedOut) ==> bus.timedOut
    ensures (ret == 0 || ret == -1) && (bus.timeouts != old(bus.timeouts) ==> ret == -1)
    ensures Sent(bus, before, pre + DataTokens(msg.flags, data, naks))
    ensures !bus.timedOut ==> BodyEnded(bus, old(bus.cursor), msg.flags, msg.Data(), ret, data, naks)
    ensures !bus.timedOut && DataAnswered(bus, old(bus.cursor), msg.flags, msg.len) ==>
      ret == 0 && bus.cursor == old(bus.cursor) + DataPulses(bus, old(bus.cursor), msg.flags, msg.len)
  {
    hide Flatten, BitsOf, Attempts, WriteTokens, ReadTokens;
    ghost var at := bus.cursor;
    ret, naks := SendBytes(bus, msg, before, pre);
    data := msg.Data()[..|naks|];
    assert |naks| == msg.len ==> data == msg.Data();
    assert !bus.timedOut && naks != [] ==> naks[|naks| - 1] == bus.Reply(at + |naks| - 1);
    ret := if ret < msg.len then -1 else 0;
  }

  /** `view` is what the message holds now, and it has gone through; if it is a read, a slave has sent
      it. */
  ghost predicate Carried(bus: Bus, msg: I2cMsg, view: View)
    reads msg, msg.buf
  {
    && msg.len <= msg.buf.Length && view.addr == msg.addr && view.flags == msg.flags && view.data == msg.Data()
    && AllBytes(msg.buf) && view.Acked() && (msg.flags.rd ==> SlaveSent(bus, view.at, view.data))
  }

  /** `view` is how far the message has gone: the slave refused a byte of it, or gave a bad length. */
  ghost predicate Broken(bus: Bus, msg: I2cMsg, view: View, stage: Stage)
    reads bus, msg, msg.buf
  {
    && view.addr == msg.addr && view.flags == msg.flags && Breaks(view, stage)
    && (stage.DataByte? ==> view.data <= msg.Data())
    && (if stage.LengthByte? then SlaveSent(bus, view.at, view.data) else Refused(bus))
  }

  /** A repeated start comes before each message but the first and those that want none. */
  function Joint(first: bool, flags: Flags): seq<Token> {
    if first || flags.noStart then [] else [TStart]
  }

  lemma BodyIs(bus: Bus, msg: I2cMsg, ret: int, v: View, stage: Stage)
    requires v.addr == msg.addr && v.flags == msg.flags && v.AddressAcked() && (ret == 0 || ret == -1)
    requires msg.len <= msg.buf.Length && AllBytes(msg.buf) && stage == if v.flags.rd then LengthByte else DataByte
    requires BodyEnded(bus, v.at, msg.flags, msg.Data(), ret, v.data, v.naks)
    ensures if ret == 0 then Carried(bus, msg, v) else Broken(bus, msg, v, stage)
  {
  }

  /** The body of a message after its address phase, `address`. */
  method DoBody(bus: Bus, msg: I2cMsg, ghost before: seq<Event>, ghost pre: seq<Token>, ghost address: View)
    returns (ret: int, ghost view: View, ghost stage: Stage)
    requires msg.Valid() && Sent(bus, before, pre + address.AddressTokens()) && address.AddressAcked()
    requires address == AddressView(msg, address.first, address.low, address.second)
    modifies bus, msg`len, msg.buf
    ensures old(bus.timedOut) ==> bus.timedOut
    ensures (ret == 0 || ret == -1) && (bus.timeouts != old(bus.timeouts) ==> ret == -1)
    ensures msg.len <= msg.buf.Length && AllBytes(msg.buf) && Kept(msg, old(GivenOf(msg)))
    ensures Sent(bus, before, pre + view.Tokens())
    ensures !bus.timedOut ==> if ret == 0 then Carried(bus, msg, view) else Broken(bus, msg, view, stage)
    ensures stage.DataByte? || stage.LengthByte?
    ensures !bus.timedOut && ret == 0 && msg.flags.rd ==> Lengthened(msg, old(msg.len), msg.Data())
    ensures !bus.timedOut && DataAnswered(bus, old(bus.cursor), msg.flags, old(msg.len)) ==>
      ret == 0 && bus.cursor == old(bus.cursor) + DataPulses(bus, old(bus.cursor), msg.flags, old(msg.len))
  {
    hide Flatten, BitsOf, Attempts, WriteTokens, ReadTokens;
    ghost var at := bus.cursor;
    ghost var data: seq<nat>, naks: seq<bool> := [], [];
    if msg.flags.rd {
      ret, data := DoRead(bus, msg, before, pre + address.AddressTokens());
    } else {
      ret, data, naks := DoWrite(bus, msg, before, pre + address.AddressTokens());
    }
    stage := if msg.flags.rd then LengthByte else DataByte;
    view := address.(data := data, naks := naks, at := at);
    Assoc(pre, address.AddressTokens(), DataTokens(msg.flags, data, naks));
    if !bus.timedOut { BodyIs(bus, msg, ret, view, stage); }
  }

  /** The start condition of a message, unless it is the first, and its address; neither if it wants
      none. */
  method DoStart(bus: Bus, msg: I2cMsg, first: bool, ghost before: seq<Event>, ghost pre: seq<Token>)
    returns (ret: int, ghost v: View, ghost stage: Stage)
    requires Sent(bus, before, pre)
    modifies bus
    ensures old(bus.timedOut) ==> bus.timedOut
    ensures AddressDone(bus, msg, old(bus.cursor), before, pre + Joint(first, msg.flags), v, ret, stage)
  {
    hide Flatten, BitsOf, Attempts, WriteTokens, ReadTokens;
    ghost var start := pre + Joint(first, msg.flags);
    ret := 0;
    if !msg.flags.noStart {
      if !first {
        I2cRepStart(bus, before, pre);
      } else {
        assert start == pre;
      }
      ret, v, stage := DoAddress(bus, msg, before, start);
    } else {
      v, stage := AddressView(msg, Try(0, false), false, Try(0, false)), FirstByte;
      assert start + [] == pre;
    }
  }

  /** One message of a transfer, from its start condition to its last byte. */
  method DoMessage(bus: Bus, msg: I2cMsg, first: bool, ghost before: seq<Event>, ghost pre: seq<Token>)
    returns (ret: int, ghost view: View, ghost stage: Stage)
    requires msg.Valid() && Sent(bus, before, pre)
    modifies bus, msg`len, msg.buf
    ensures old(bus.timedOut) ==> bus.timedOut
    ensures ret == 0 || ret == -1
    ensures msg.len <= msg.buf.Length && AllBytes(msg.buf) && Kept(msg, old(GivenOf(msg)))
    ensures Sent(bus, before, pre + Joint(first, msg.flags) + if ret == 0 then view.Tokens()
      else BrokenTokens(view, stage))
    ensures !bus.timedOut ==> if ret == 0 then Carried(bus, msg, view) else Broken(bus, msg, view, stage)
    ensures !bus.timedOut && ret == 0 && msg.flags.rd ==> Lengthened(msg, old(msg.len), msg.Data())
    ensures !bus.timedOut && Answered(bus, old(bus.cursor), Shape(msg.flags, old(msg.len))) ==>
      ret == 0 && bus.cursor == old(bus.cursor) + Pulses(bus, old(bus.cursor), Shape(msg.flags, old(msg.len)))
  {
    hide Flatten, BitsOf, Attempts, WriteTokens, ReadTokens, DataTokens, View.FirstTokens, View.LowTokens;
    ret, view, stage := DoStart(bus, msg, first, before, pre);
    if ret != 0 && !msg.flags.ignoreNak {
      return;
    }
    ret, view, stage := DoBody(bus, msg, before, pre + Joint(first, msg.flags), view);
  }
}
