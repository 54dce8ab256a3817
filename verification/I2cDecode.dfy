/** What a slave makes of a transfer of src/driver/i2c/i2c-algo-bit.c: bits are gathered into frames
    of eight bits and an acknowledge bit, and frames into messages. */
module I2cDecode {
  import opened I2cBus
  import opened I2cAlgoBit
  import opened I2cMessage
  import opened I2cTransfer
  import opened Sequences

  // Events to frames

  datatype Gatherer = Gatherer(tokens: seq<Token>, bits: seq<bool>)

  function Hear(g: Gatherer, e: Event): Gatherer {
    match e
    case Start => Gatherer(g.tokens + [TStart], [])
    case Stop => Gatherer(g.tokens + [TStop], [])
    case Bit(b) => if |g.bits| == 8 then Gatherer(g.tokens + [Frame(g.bits, b)], [])
      else Gatherer(g.tokens, g.bits + [b])
  }

  function HearAll(g: Gatherer, events: seq<Event>): Gatherer
    decreases |events|
  {
    if events == [] then g else HearAll(Hear(g, events[0]), events[1..])
  }

  predicate Octets(ts: seq<Token>) {
    forall i :: 0 <= i < |ts| ==> !ts[i].Bare? && (ts[i].Frame? ==> |ts[i].bits| == 8)
  }

  lemma {:induction false} HearConcat(g: Gatherer, a: seq<Event>, b: seq<Event>)
    ensures HearAll(g, a + b) == HearAll(HearAll(g, a), b)
    decreases |a|
  {
    if a == [] {
      assert a + b == b;
    } else {
      HearConcat(Hear(g, a[0]), a[1..], b);
      assert (a + b)[0] == a[0] && (a + b)[1..] == a[1..] + b;
    }
  }

  lemma {:induction false} HearBits(ts: seq<Token>, bits: seq<bool>)
    requires |bits| <= 8
    ensures HearAll(Gatherer(ts, []), BitEvents(bits)) == Gatherer(ts, bits)
  {
    if bits != [] {
      var n := |bits| - 1;
      HearBits(ts, bits[..n]);
      HearConcat(Gatherer(ts, []), BitEvents(bits[..n]), [Bit(bits[n])]);
      assert bits[..n] + [bits[n]] == bits;
    }
  }

  lemma HearToken(ts: seq<Token>, t: Token)
    requires Octets([t])
    ensures HearAll(Gatherer(ts, []), EventsOf(t)) == Gatherer(ts + [t], [])
  {
    assert [t][0] == t;
    match t
    case Frame(bits, nak) =>
      HearBits(ts, bits);
      HearConcat(Gatherer(ts, []), BitEvents(bits), [Bit(nak)]);
    case _ =>
  }

  /** Frames come out of their events again. */
  lemma {:induction false} HearTokens(before: seq<Token>, ts: seq<Token>)
    requires Octets(ts)
    ensures HearAll(Gatherer(before, []), Flatten(ts)) == Gatherer(before + ts, [])
    decreases |ts|
  {
    if ts == [] {
      assert before + ts == before;
    } else {
      HearToken(before, ts[0]);
      HearConcat(Gatherer(before, []), EventsOf(ts[0]), Flatten(ts[1..]));
      HearTokens(before + [ts[0]], ts[1..]);
      assert before + [ts[0]] + ts[1..] == before + ts;
    }
  }

  // Frames to messages

  /** A message with its bytes and whether each was left unacknowledged. */
  datatype Message = Message(addr: nat, ten: bool, read: bool, data: seq<nat>, naks: seq<bool>)

  datatype Talk = Talk(messages: seq<Message>, frames: seq<Token>)

  function Values(frames: seq<Token>): seq<nat> {
    seq(|frames|, i requires 0 <= i < |frames| => if frames[i].Frame? then ValueOf(frames[i].bits) else 0)
  }

  function Naks(frames: seq<Token>): seq<bool> {
    seq(|frames|, i requires 0 <= i < |frames| => frames[i].Frame? && frames[i].nak)
  }

  predicate IsTen(bits: seq<bool>) {
    |bits| == 8 && bits[..5] == [true, true, true, true, false]
  }

  /** The frames since the last start condition are complete.  A lone address that nobody
      acknowledged is no message; a 10-bit address that is repeated with the read direction turns
      the empty write that it follows into a read. */
  function Close(t: Talk): seq<Message> {
    var m, f := t.messages, t.frames;
    if f == [] || !f[0].Frame? || |f[0].bits| != 8 || (|f| == 1 && f[0].nak) then m
    else
      var head := f[0].bits;
      if !IsTen(head) then
        m + [Message(ValueOf(head[..7]), false, head[7], Values(f[1..]), Naks(f[1..]))]
      else if head[7] then
        if m == [] then m
        else m[..|m| - 1] + [m[|m| - 1].(read := true, data := Values(f[1..]), naks := Naks(f[1..]))]
      else if |f| == 1 || !f[1].Frame? then m
      else m + [Message(ValueOf(head[5..7] + f[1].bits), true, false, Values(f[2..]), Naks(f[2..]))]
  }

  function Follow(t: Talk, token: Token): Talk {
    if token.TStart? || token.TStop? then Talk(Close(t), []) else Talk(t.messages, t.frames + [token])
  }

  function FollowAll(t: Talk, ts: seq<Token>): Talk
    decreases |ts|
  {
    if ts == [] then t else FollowAll(Follow(t, ts[0]), ts[1..])
  }

  lemma {:induction false} FollowConcat(t: Talk, a: seq<Token>, b: seq<Token>)
    ensures FollowAll(t, a + b) == FollowAll(FollowAll(t, a), b)
    decreases |a|
  {
    if a == [] {
      assert a + b == b;
    } else {
      FollowConcat(Follow(t, a[0]), a[1..], b);
      assert (a + b)[0] == a[0] && (a + b)[1..] == a[1..] + b;
    }
  }

  predicate Frames(ts: seq<Token>) {
    forall i :: 0 <= i < |ts| ==> ts[i].Frame?
  }

  lemma {:induction false} FollowFrames(t: Talk, ts: seq<Token>)
    requires Frames(ts)
    ensures FollowAll(t, ts) == Talk(t.messages, t.frames + ts)
    decreases |ts|
  {
    if ts == [] {
      assert t.frames + ts == t.frames;
    } else {
      FollowFrames(Follow(t, ts[0]), ts[1..]);
      assert t.frames + [ts[0]] + ts[1..] == t.frames + ts;
    }
  }

  lemma FollowOne(t: Talk, token: Token)
    ensures FollowAll(t, [token]) == Follow(t, token)
  {
    assert [token][1..] == [];
  }

  lemma {:induction false} FollowAttempts(m: seq<Message>, address: seq<bool>, n: nat)
    requires |address| == 8
    ensures FollowAll(Talk(m, []), Attempts(address, n)) == Talk(m, [])
  {
    if n > 0 {
      FollowAttempts(m, address, n - 1);
      var f := Frame(address, true);
      FollowConcat(Talk(m, []), Attempts(address, n - 1), [f, TStop, TStart]);
      assert [f, TStop, TStart][1..] == [TStop, TStart] && [TStop, TStart][1..] == [TStart] && [] + [f] == [f];
      FollowOne(Talk(m, []), TStart);
    }
  }

  /** An address that gets through, after any number of attempts that do not. */
  lemma FollowAddress(m: seq<Message>, address: seq<bool>, n: nat)
    requires |address| == 8
    ensures FollowAll(Talk(m, []), Attempts(address, n) + [Frame(address, false)]) == Talk(m, [Frame(address, false)])
  {
    FollowAttempts(m, address, n);
    FollowConcat(Talk(m, []), Attempts(address, n), [Frame(address, false)]);
    FollowOne(Talk(m, []), Frame(address, false));
    assert [] + [Frame(address, false)] == [Frame(address, false)];
  }

  // The messages of a transfer

  predicate Bytes(data: seq<nat>) {
    forall i :: 0 <= i < |data| ==> data[i] < 256
  }

  /** Addresses that the address phase can carry: the 7-bit ones that begin with 11110 are taken by
      10-bit addressing. */
  predicate Addressable(v: View) {
    v.Plain() && v.Acked() && Bytes(v.data) && AddressFits(v.addr, v.flags.ten)
  }

  predicate AddressFits(addr: nat, ten: bool) {
    if ten then addr < 1024 else addr < 128 && addr / 4 != 0x1e
  }

  /** The acknowledge bits of `n` bytes: the reader acknowledges all bytes but the last, and in a
      transfer that goes through the slave acknowledges all that is written. */
  function Acks(n: nat, read: bool): seq<bool> {
    seq(n, i => read && i == n - 1)
  }

  function MessageOf(v: View): Message {
    Message(v.addr, v.flags.ten, v.flags.rd, v.data, Acks(|v.data|, v.flags.rd))
  }

  function MessagesOf(views: seq<View>): seq<Message> {
    seq(|views|, i requires 0 <= i < |views| => MessageOf(views[i]))
  }

  function Body(v: View): seq<Token> {
    DataTokens(v.flags, v.data, v.naks)
  }

  lemma {:induction false} ReadTokenAt(data: seq<nat>, last: bool, k: nat)
    requires k < |data|
    ensures ReadTokens(data, false, last)[k] == ByteFrame(data[k], last && k == |data| - 1)
  {
    if k < |data| - 1 { ReadTokenAt(data[..|data| - 1], false, k); }
  }

  lemma {:induction false} WriteTokenAt(data: seq<nat>, naks: seq<bool>, k: nat)
    requires k < |data| == |naks|
    ensures WriteTokens(data, naks)[k] == ByteFrame(data[k], naks[k])
  {
    if k < |data| - 1 { WriteTokenAt(data[..|data| - 1], naks[..|data| - 1], k); }
  }

  lemma DataTokenAt(v: View, k: nat)
    requires k < |v.data| && v.data[k] < 256 && v.Plain() && v.Acked()
    ensures |Body(v)| == |v.data| && Body(v)[k].Frame? && |Body(v)[k].bits| == 8
    ensures ValueOf(Body(v)[k].bits) == v.data[k] && Body(v)[k].nak == (v.flags.rd && k == |v.data| - 1)
  {
    if v.flags.rd { ReadTokenAt(v.data, true, k); } else { WriteTokenAt(v.data, v.naks, k); }
    ByteIs(v.data[k]);
  }

  lemma ByteIs(c: nat)
    requires c < 256
    ensures ValueOf(BitsOf(c, 8)) == c
  {
    assert Arith.Pow2(8) == 256;
    ByteRoundTrip(c, 8);
  }

  lemma DataTokensAre(v: View)
    requires Bytes(v.data) && v.Plain() && v.Acked()
    ensures Frames(Body(v)) && Values(Body(v)) == v.data && Naks(Body(v)) == Acks(|v.data|, v.flags.rd)
  {
    forall k | 0 <= k < |v.data|
      ensures Body(v)[k].Frame? && Values(Body(v))[k] == v.data[k] &&
        Naks(Body(v))[k] == (v.flags.rd && k == |v.data| - 1)
    {
      DataTokenAt(v, k);
    }
    assert |Body(v)| == |v.data|;
  }

  lemma SevenIsAddress(addr: nat, read: bool)
    requires addr < 128 && addr / 4 != 0x1e
    ensures |SevenBits(addr, read)| == 8 && ValueOf(SevenBits(addr, read)[..7]) == addr &&
      SevenBits(addr, read)[7] == read
    ensures !IsTen(SevenBits(addr, read))
  {
    assert Arith.Pow2(7) == 128;
    ByteRoundTrip(addr, 7);
    assert SevenBits(addr, read)[..7] == BitsOf(addr, 7);
    HighFive(addr);
    assert SevenBits(addr, read)[..5] == BitsOf(addr, 7)[..5];
  }

  lemma HighFive(addr: nat)
    requires addr < 128 && addr / 4 != 0x1e
    ensures BitsOf(addr, 7)[..5] != [true, true, true, true, false]
  {
    BitsOfHalf(addr, 7);
    BitsOfHalf(addr / 2, 6);
    assert BitsOf(addr, 7)[..5] == BitsOf(addr / 2 / 2, 5);
    assert Arith.Pow2(5) == 32;
    ByteRoundTrip(addr / 2 / 2, 5);
    ByteRoundTrip(0x1e, 5);
    assert BitsOf(0x1e, 5) == [true, true, true, true, false];
  }

  lemma TenBitsSplit(addr: nat)
    ensures [BitAt(addr, 9), BitAt(addr, 8)] + BitsOf(addr, 8) == BitsOf(addr, 10)
  {
    hide BitsOf, BitAt;
    BitsFirst(addr, 8);
    BitsFirst(addr, 9);
    Assoc([BitAt(addr, 9)], [BitAt(addr, 8)], BitsOf(addr, 8));
    assert [BitAt(addr, 9)] + [BitAt(addr, 8)] == [BitAt(addr, 9), BitAt(addr, 8)];
  }

  lemma BitsFirst(c: nat, n: nat)
    ensures BitsOf(c, n + 1) == [BitAt(c, n)] + BitsOf(c, n)
  {
  }

  lemma TenIsAddress(addr: nat, read: bool)
    requires addr < 1024
    ensures IsTen(TenBits(addr, read)) && TenBits(addr, read)[7] == read
    ensures ValueOf(TenBits(addr, read)[5..7] + BitsOf(addr, 8)) == addr
  {
    assert Arith.Pow2(10) == 1024;
    ByteRoundTrip(addr, 10);
    TenBitsSplit(addr);
    assert TenBits(addr, read)[5..7] == [BitAt(addr, 9), BitAt(addr, 8)];
  }

  /** The frames of a 7-bit message. */
  lemma SevenFollowed(m: seq<Message>, v: View)
    requires Addressable(v) && !v.flags.ten
    ensures Close(FollowAll(Talk(m, []), v.Tokens())) == m + [MessageOf(v)]
  {
    var a := SevenBits(v.addr, v.flags.rd);
    var f := Frame(a, false);
    SevenIsAddress(v.addr, v.flags.rd);
    DataTokensAre(v);
    FollowAddress(m, a, v.first.n);
    FollowConcat(Talk(m, []), Attempts(a, v.first.n) + [f], Body(v));
    FollowFrames(Talk(m, [f]), Body(v));
    assert ([f] + Body(v))[1..] == Body(v);
  }

  lemma TenAddressed(m: seq<Message>, v: View)
    requires Addressable(v) && v.flags.ten
    ensures var a, low := TenBits(v.addr, false), Frame(BitsOf(v.addr, 8), false);
      FollowAll(Talk(m, []), Attempts(a, v.first.n) + [Frame(a, false)] + [low]) == Talk(m, [Frame(a, false), low])
  {
    var a, low := TenBits(v.addr, false), Frame(BitsOf(v.addr, 8), false);
    FollowAddress(m, a, v.first.n);
    FollowConcat(Talk(m, []), Attempts(a, v.first.n) + [Frame(a, false)], [low]);
    FollowOne(Talk(m, [Frame(a, false)]), low);
  }

  lemma TenWriteFollowed(m: seq<Message>, v: View)
    requires Addressable(v) && v.flags.ten && !v.flags.rd
    ensures Close(FollowAll(Talk(m, []), v.Tokens())) == m + [MessageOf(v)]
  {
    var a, low := TenBits(v.addr, false), Frame(BitsOf(v.addr, 8), false);
    var f := [Frame(a, false), low];
    var address := Attempts(a, v.first.n) + [Frame(a, false)] + [low];
    TenIsAddress(v.addr, false);
    DataTokensAre(v);
    TenAddressed(m, v);
    assert v.AddressTokens() == address;
    FollowConcat(Talk(m, []), address, Body(v));
    FollowFrames(Talk(m, f), Body(v));
    assert (f + Body(v))[2..] == Body(v);
  }

  /** The read half of a 10-bit read, after the empty write that names the address. */
  lemma TenReadCloses(m: seq<Message>, w: Message, v: View)
    requires Addressable(v) && v.flags.ten && v.flags.rd
    requires w == Message(v.addr, true, false, [], [])
    ensures var b := TenBits(v.addr, true);
      Close(FollowAll(Talk(m + [w], []), Attempts(b, v.second.n) + [Frame(b, false)] + Body(v))) == m + [MessageOf(v)]
  {
    var b := TenBits(v.addr, true);
    TenIsAddress(v.addr, true);
    DataTokensAre(v);
    FollowAddress(m + [w], b, v.second.n);
    FollowConcat(Talk(m + [w], []), Attempts(b, v.second.n) + [Frame(b, false)], Body(v));
    FollowFrames(Talk(m + [w], [Frame(b, false)]), Body(v));
    assert ([Frame(b, false)] + Body(v))[1..] == Body(v);
    assert (m + [w])[..|m|] == m;
  }

  lemma TenReadFollowed(m: seq<Message>, v: View)
    requires Addressable(v) && v.flags.ten && v.flags.rd
    ensures Close(FollowAll(Talk(m, []), v.Tokens())) == m + [MessageOf(v)]
  {
    hide BitsOf, Attempts;
    var a, b, low := TenBits(v.addr, false), TenBits(v.addr, true), Frame(BitsOf(v.addr, 8), false);
    var f := [Frame(a, false), low];
    var address, again := Attempts(a, v.first.n) + [Frame(a, false)] + [low],
      Attempts(b, v.second.n) + [Frame(b, false)];
    var w := Message(v.addr, true, false, [], []);
    TenIsAddress(v.addr, false);
    TenAddressed(m, v);
    assert v.Tokens() == address + ([TStart] + (again + Body(v)));
    FollowConcat(Talk(m, []), address, [TStart] + (again + Body(v)));
    FollowConcat(Talk(m, f), [TStart], again + Body(v));
    FollowOne(Talk(m, f), TStart);
    assert Values(f[2..]) == [] && Naks(f[2..]) == [] && Close(Talk(m, f)) == m + [w];
    TenReadCloses(m, w, v);
  }

  lemma MessageFollowed(m: seq<Message>, v: View)
    requires Addressable(v)
    ensures Close(FollowAll(Talk(m, []), v.Tokens())) == m + [MessageOf(v)]
  {
    if !v.flags.ten { SevenFollowed(m, v); }
    else if v.flags.rd { TenReadFollowed(m, v); }
    else { TenWriteFollowed(m, v); }
  }

  predicate AllAddressable(views: seq<View>) {
    forall k :: 0 <= k < |views| ==> Addressable(views[k])
  }

  lemma MessagesNext(views: seq<View>)
    requires views != []
    ensures MessagesOf(views) == MessagesOf(views[..|views| - 1]) + [MessageOf(views[|views| - 1])]
  {
  }

  /** The frames of a transfer give back its messages. */
  lemma {:induction false} MessagesFollowed(views: seq<View>)
    requires AllAddressable(views)
    ensures Close(FollowAll(Talk([], []), TransferTokens(views))) == MessagesOf(views)
  {
    if views != [] {
      var n := |views| - 1;
      var h, v := TransferTokens(views[..n]), views[n];
      MessagesFollowed(views[..n]);
      MessagesNext(views);
      MessageFollowed(MessagesOf(views[..n]), v);
      if n == 0 {
        assert TransferTokens(views) == v.Tokens();
      } else {
        FollowConcat(Talk([], []), h, [TStart] + v.Tokens());
        FollowConcat(FollowAll(Talk([], []), h), [TStart], v.Tokens());
        FollowOne(FollowAll(Talk([], []), h), TStart);
      }
    }
  }

  lemma OctetsConcat(a: seq<Token>, b: seq<Token>)
    requires Octets(a) && Octets(b)
    ensures Octets(a + b)
  {
  }

  lemma {:induction false} AttemptsOctets(address: seq<bool>, n: nat)
    requires |address| == 8
    ensures Octets(Attempts(address, n) + [Frame(address, false)])
  {
    if n > 0 {
      AttemptsOctets(address, n - 1);
      var t := Attempts(address, n - 1) + [Frame(address, false)];
      assert t[..|t| - 1] == Attempts(address, n - 1);
      OctetsConcat(t[..|t| - 1], [Frame(address, true), TStop, TStart]);
    }
  }

  lemma MessageOctets(v: View)
    requires Addressable(v)
    ensures Octets(v.Tokens())
  {
    forall k | 0 <= k < |v.data| ensures Body(v)[k].Frame? && |Body(v)[k].bits| == 8 { DataTokenAt(v, k); }
    assert |Body(v)| == |v.data|;
    var a, b, low := TenBits(v.addr, false), TenBits(v.addr, true), [Frame(BitsOf(v.addr, 8), false)];
    var c := SevenBits(v.addr, v.flags.rd);
    AttemptsOctets(a, v.first.n);
    AttemptsOctets(b, v.second.n);
    AttemptsOctets(c, v.first.n);
    OctetsConcat(Attempts(a, v.first.n) + [Frame(a, false)], low);
    OctetsConcat(Attempts(a, v.first.n) + [Frame(a, false)] + low,
      [TStart] + (Attempts(b, v.second.n) + [Frame(b, false)]));
    assert Octets(v.AddressTokens());
    OctetsConcat(v.AddressTokens(), Body(v));
  }

  lemma {:induction false} TransferOctets(views: seq<View>)
    requires AllAddressable(views)
    ensures Octets(TransferTokens(views))
  {
    if views != [] {
      var n := |views| - 1;
      TransferOctets(views[..n]);
      MessageOctets(views[n]);
      OctetsConcat(Joint(n == 0, views[n].flags), views[n].Tokens());
      OctetsConcat(TransferTokens(views[..n]), Joint(n == 0, views[n].flags) + views[n].Tokens());
    }
  }

  /** From the two lines to the messages: a transfer that goes through is heard as exactly the
      messages that the master was given, with every byte, and with every byte acknowledged but the
      last one of each read. */
  lemma TransferUnderstood(views: seq<View>)
    requires AllAddressable(views)
    ensures var g := HearAll(Gatherer([], []), Flatten([TStart] + TransferTokens(views)) + [Stop]);
      g.bits == [] && FollowAll(Talk([], []), g.tokens) == Talk(MessagesOf(views), [])
  {
    var ts := [TStart] + TransferTokens(views);
    TransferOctets(views);
    OctetsConcat([TStart], TransferTokens(views));
    HearConcat(Gatherer([], []), Flatten(ts), [Stop]);
    HearTokens([], ts);
    assert [] + ts == ts;
    assert HearAll(Gatherer(ts, []), [Stop]) == Gatherer(ts + [TStop], []);
    TransferFollowed(views);
  }

  lemma TransferFollowed(views: seq<View>)
    requires AllAddressable(views)
    ensures FollowAll(Talk([], []), [TStart] + TransferTokens(views) + [TStop]) == Talk(MessagesOf(views), [])
  {
    FollowConcat(Talk([], []), [TStart] + TransferTokens(views), [TStop]);
    FollowConcat(Talk([], []), [TStart], TransferTokens(views));
    FollowOne(Talk([], []), TStart);
    MessagesFollowed(views);
    FollowOne(FollowAll(Talk([], []), TransferTokens(views)), TStop);
  }

  // The lines themselves

  predicate SdaMoves(trace: seq<Level>, i: nat) {
    i < |trace| && var l := if i == 0 then IDLE.level else trace[i - 1]; l.scl && trace[i].scl && l.sda != trace[i].sda
  }

  function MovesWhileHigh(trace: seq<Level>): nat {
    if trace == [] then 0
    else MovesWhileHigh(trace[..|trace| - 1]) + if SdaMoves(trace, |trace| - 1) then 1 else 0
  }

  function Conditions(events: seq<Event>): nat {
    if events == [] then 0
    else Conditions(events[..|events| - 1]) + if events[|events| - 1].Bit? then 0 else 1
  }

  lemma ConditionsNext(events: seq<Event>, e: Event)
    ensures Conditions(events + [e]) == Conditions(events) + if e.Bit? then 0 else 1
  {
    assert (events + [e])[..|events|] == events;
  }

  /** SDA changes while SCL is high exactly as often as a start or stop condition is heard. */
  lemma {:induction false} SdaMovesOnlyAtConditions(trace: seq<Level>)
    ensures var e := ListenAll(IDLE, trace);
      e.level == (if trace == [] then IDLE.level
        else trace[|trace| - 1]) && Conditions(e.heard) == MovesWhileHigh(trace)
  {
    if trace != [] {
      var n := |trace| - 1;
      SdaMovesOnlyAtConditions(trace[..n]);
      ListenCounts(ListenAll(IDLE, trace[..n]), trace[n]);
    }
  }

  lemma ListenCounts(e: Ear, l: Level)
    ensures var r := Listen(e, l);
      r.level == l &&
        Conditions(r.heard) == Conditions(e.heard) + if e.level.scl && l.scl && e.level.sda != l.sda then 1 else 0
  {
    if e.pending.Some? { ConditionsNext(e.heard, Bit(e.pending.value)); }
    ConditionsNext(e.heard, if l.sda then Stop else Start);
  }

  function ConditionTokens(ts: seq<Token>): nat {
    if ts == [] then 0 else (if ts[0].TStart? || ts[0].TStop? then 1 else 0) + ConditionTokens(ts[1..])
  }

  lemma {:induction false} ConditionsConcat(a: seq<Event>, b: seq<Event>)
    ensures Conditions(a + b) == Conditions(a) + Conditions(b)
  {
    if b == [] {
      assert a + b == a;
    } else {
      var n := |b| - 1;
      ConditionsConcat(a, b[..n]);
      assert a + b == (a + b[..n]) + [b[n]];
      ConditionsNext(a + b[..n], b[n]);
    }
  }

  lemma {:induction false} NoConditions(bits: seq<bool>)
    ensures Conditions(BitEvents(bits)) == 0
  {
    if bits != [] {
      NoConditions(bits[..|bits| - 1]);
      ConditionsNext(BitEvents(bits[..|bits| - 1]), Bit(bits[|bits| - 1]));
    }
  }

  lemma TokenConditions(t: Token)
    ensures Conditions(EventsOf(t)) == if t.TStart? || t.TStop? then 1 else 0
  {
    match t
    case TStart => ConditionsNext([], Start);
    case TStop => ConditionsNext([], Stop);
    case Frame(bits, nak) => NoConditions(bits); ConditionsNext(BitEvents(bits), Bit(nak));
    case Bare(bits) => NoConditions(bits);
  }

  lemma {:induction false} FlattenConditions(ts: seq<Token>)
    ensures Conditions(Flatten(ts)) == ConditionTokens(ts)
  {
    if ts != [] {
      TokenConditions(ts[0]);
      FlattenConditions(ts[1..]);
      ConditionsConcat(EventsOf(ts[0]), Flatten(ts[1..]));
    }
  }

  /** On every run, finished or broken off, SDA moves while SCL is high just at the start and stop
      conditions that were sent. */
  lemma MovesAreConditions(before: seq<Level>, after: seq<Level>, ts: seq<Token>)
    requires ListenAll(IDLE, after).heard == ListenAll(IDLE, before).heard + Flatten(ts) + [Stop]
    ensures MovesWhileHigh(after) == MovesWhileHigh(before) + ConditionTokens(ts) + 1
  {
    SdaMovesOnlyAtConditions(before);
    SdaMovesOnlyAtConditions(after);
    var h := ListenAll(IDLE, before).heard;
    ConditionsConcat(h, Flatten(ts));
    ConditionsNext(h + Flatten(ts), Stop);
    FlattenConditions(ts);
  }

  // The shape of the traffic on every run

  /** Bytes have eight bits and lack an acknowledge bit only if that is allowed; and a stop is followed
      by a new start. */
  predicate Formed(ts: seq<Token>, bare: bool) {
    forall i :: 0 <= i < |ts| ==> FormedAt(ts, i, bare)
  }

  predicate FormedAt(ts: seq<Token>, i: nat, bare: bool)
    requires i < |ts|
  {
    match ts[i]
    case TStart => true
    case TStop => i + 1 < |ts| && ts[i + 1] == TStart
    case Frame(bits, _) => |bits| == 8
    case Bare(bits) => bare && |bits| == 8
  }

  lemma FormedConcat(a: seq<Token>, b: seq<Token>, bare: bool)
    requires Formed(a, bare) && Formed(b, bare)
    ensures Formed(a + b, bare)
  {
    var c := a + b;
    forall i | 0 <= i < |c| ensures FormedAt(c, i, bare) {
      if i < |a| { assert FormedAt(a, i, bare); } else { assert FormedAt(b, i - |a|, bare); }
    }
  }

  lemma {:induction false} TriesFormed(address: seq<bool>, t: Try, bare: bool)
    requires |address| == 8
    ensures Formed(TryTokens(address, t), bare)
    decreases t.n
  {
    if t.n > 0 {
      TriesFormed(address, Try(t.n - 1, true), bare);
      assert TryTokens(address, t) == TryTokens(address, Try(t.n - 1, true)) + [TStop, TStart, Frame(address, t.nak)];
      FormedConcat(TryTokens(address, Try(t.n - 1, true)), [TStop, TStart, Frame(address, t.nak)], bare);
    }
  }

  lemma {:induction false} DataFormed(flags: Flags, data: seq<nat>, naks: seq<bool>, last: bool)
    ensures Formed(DataTokens(flags, data, naks), flags.noRdAck)
    ensures Formed(ReadTokens(data, flags.noRdAck, last), flags.noRdAck)
    decreases |data|
  {
    if data != [] {
      var n := |data| - 1;
      var c, bare := data[n], flags.noRdAck;
      DataFormed(flags, data[..n], if |naks| == |data| then naks[..n] else [], false);
      FormedConcat(ReadTokens(data[..n], bare, false), [if bare then Bare(BitsOf(c, 8)) else ByteFrame(c, last)], bare);
      FormedConcat(ReadTokens(data[..n], bare, false), [if bare then Bare(BitsOf(c, 8)) else ByteFrame(c, true)], bare);
      if !flags.rd && |naks| == |data| {
        FormedConcat(WriteTokens(data[..n], naks[..n]), [ByteFrame(c, naks[n])], bare);
      }
    }
  }

  lemma MessageFormed(v: View, stage: Stage)
    ensures Formed(v.Tokens(), v.flags.noRdAck) && Formed(BrokenTokens(v, stage), v.flags.noRdAck)
  {
    var bare := v.flags.noRdAck;
    TriesFormed(v.FirstBits(), v.first, bare);
    TriesFormed(TenBits(v.addr, true), v.second, bare);
    FormedConcat(v.FirstTokens(), [Frame(BitsOf(v.addr, 8), v.low)], bare);
    FormedConcat([TStart], TryTokens(TenBits(v.addr, true), v.second), bare);
    FormedConcat(v.LowTokens(), [TStart] + TryTokens(TenBits(v.addr, true), v.second), bare);
    DataFormed(v.flags, v.data, v.naks, true);
    FormedConcat(v.AddressTokens(), DataTokens(v.flags, v.data, v.naks), bare);
  }

  lemma FormedMore(ts: seq<Token>, a: bool, b: bool)
    requires Formed(ts, a) && (a ==> b)
    ensures Formed(ts, b)
  {
    forall i | 0 <= i < |ts| ensures FormedAt(ts, i, b) { assert FormedAt(ts, i, a); }
  }

  lemma {:induction false} TransferFormed(views: seq<View>, bare: bool)
    requires forall k :: 0 <= k < |views| && views[k].flags.noRdAck ==> bare
    ensures Formed(TransferTokens(views), bare)
  {
    if views != [] {
      var n := |views| - 1;
      TransferFormed(views[..n], bare);
      MessageFormed(views[n], FirstByte);
      FormedMore(views[n].Tokens(), views[n].flags.noRdAck, bare);
      FormedConcat(Joint(n == 0, views[n].flags), views[n].Tokens(), bare);
      FormedConcat(TransferTokens(views[..n]), Joint(n == 0, views[n].flags) + views[n].Tokens(), bare);
    }
  }

  /** Whatever happens in a transfer, what is heard between its start and its stop are conditions and
      bytes of eight bits, with an acknowledge bit unless a message wants none. */
  lemma TrafficFormed(views: seq<View>, ret: int, last: View, stage: Stage, bare: bool)
    requires forall k :: 0 <= k < |views| && views[k].flags.noRdAck ==> bare
    requires ret < 0 && last.flags.noRdAck ==> bare
    ensures Formed(Traffic(views, ret, last, stage), bare)
  {
    TransferFormed(views, bare);
    if ret < 0 {
      MessageFormed(last, stage);
      FormedMore(BrokenTokens(last, stage), last.flags.noRdAck, bare);
      FormedConcat(Joint(|views| == 0, last.flags), BrokenTokens(last, stage), bare);
      FormedConcat(TransferTokens(views), Joint(|views| == 0, last.flags) + BrokenTokens(last, stage), bare);
    }
  }

  // The flags that change the protocol

  /** With the direction reversed, a 7-bit address is heard as that of a message in the other direction;
      10-bit addresses do not heed the flag. */
  lemma ReversedIsOther(v: View)
    requires v.flags.revDirAddr
    ensures var f := v.flags.(revDirAddr := false);
      v.AddressTokens() == v.(flags := if v.flags.ten then f else f.(rd := !f.rd)).AddressTokens()
  {
  }

  /** With noRdAck each byte read is eight bits and nothing else. */
  lemma {:induction false} BareAt(data: seq<nat>, last: bool, i: nat)
    requires i < |data|
    ensures ReadTokens(data, true, last)[i] == Bare(BitsOf(data[i], 8))
    decreases |data|
  {
    if i < |data| - 1 { BareAt(data[..|data| - 1], false, i); }
  }

  lemma {:induction false} WriteConcat(a: seq<nat>, b: seq<nat>, x: seq<bool>, y: seq<bool>)
    requires |a| == |x| && |b| == |y|
    ensures WriteTokens(a + b, x + y) == WriteTokens(a, x) + WriteTokens(b, y)
    decreases |b|
  {
    if b == [] {
      assert a + b == a && x + y == x;
    } else {
      var n := |b| - 1;
      WriteConcat(a, b[..n], x, y[..n]);
      assert (a + b)[..|a| + n] == a + b[..n] && (x + y)[..|x| + n] == x + y[..n];
    }
  }

  /** A write without a start of its own goes on with the bytes of the write before it. */
  lemma NoStartGoesOn(views: seq<View>, u: View, v: View)
    requires !u.flags.rd && !v.flags.rd && v.flags.noStart && |u.naks| == |u.data| && |v.naks| == |v.data|
    ensures TransferTokens(views + [u, v])
      == TransferTokens(views + [u.(data := u.data + v.data, naks := u.naks + v.naks)])
  {
    hide View.AddressTokens, View.Tokens, TransferTokens, WriteTokens, Joint;
    var w := u.(data := u.data + v.data, naks := u.naks + v.naks);
    TransferNext(views, u);
    TransferNext(views + [u], v);
    TransferNext(views, w);
    assert views + [u, v] == views + [u] + [v];
    NoStartIs(v);
    WritesAre(u);
    WritesAre(w);
    AddressIs(u, w);
    WriteConcat(u.data, v.data, u.naks, v.naks);
    FiveAssoc(TransferTokens(views), Joint(|views| == 0, u.flags), u.AddressTokens(), WriteTokens(u.data, u.naks),
      WriteTokens(v.data, v.naks));
  }

  lemma WritesAre(v: View)
    requires !v.flags.rd && |v.naks| == |v.data|
    ensures v.Tokens() == v.AddressTokens() + WriteTokens(v.data, v.naks)
  {
  }

  lemma AddressIs(u: View, w: View)
    requires w == u.(data := w.data, naks := w.naks)
    ensures w.AddressTokens() == u.AddressTokens()
  {
  }

  lemma NoStartIs(v: View)
    requires v.flags.noStart && !v.flags.rd && |v.naks| == |v.data|
    ensures Joint(false, v.flags) + v.Tokens() == WriteTokens(v.data, v.naks)
  {
    assert v.AddressTokens() == [];
  }

  lemma FiveAssoc(t: seq<Token>, j: seq<Token>, a: seq<Token>, x: seq<Token>, y: seq<Token>)
    ensures t + (j + (a + x)) + y == t + (j + (a + (x + y)))
  {
  }

  // From the lines to the messages

  /** The message that the master was given, with the bytes given if it is written and those read if it
      is read. */
  ghost function Asked(msg: I2cMsg, given: Given): Message
    requires given.len <= |given.bytes|
    reads msg, msg.buf
  {
    Message(msg.addr, msg.flags.ten, msg.flags.rd, if msg.flags.rd then msg.Data() else given.bytes[..given.len],
      Acks(given.len, msg.flags.rd))
  }

  ghost predicate AllAsked(msgs: seq<I2cMsg>, given: seq<Given>, messages: seq<Message>)
    requires |given| == |msgs|
    reads msgs, set i | 0 <= i < |msgs| :: msgs[i].buf
  {
    |messages| == |msgs| && forall k :: 0 <= k < |msgs| ==>
      given[k].len <= |given[k].bytes| && messages[k] == Asked(msgs[k], given[k])
  }

  /** Messages without any of the flags that change the protocol. */
  ghost predicate AllOrdinary(msgs: seq<I2cMsg>) {
    forall k :: 0 <= k < |msgs| ==> Ordinary(msgs[k].flags) && AddressFits(msgs[k].addr, msgs[k].flags.ten)
  }

  predicate Ordinary(f: Flags) {
    !f.noStart && !f.revDirAddr && !f.ignoreNak && !f.noRdAck && !f.recvLen
  }

  lemma CarriedAsAsked(bus: Bus, msgs: seq<I2cMsg>, given: seq<Given>, views: seq<View>)
    requires |views| == |msgs| == |given| && AllCarried(bus, msgs, views) && AllOrdinary(msgs)
    requires AllKept(msgs, given, |msgs|)
    ensures AllAddressable(views) && AllAsked(msgs, given, MessagesOf(views))
  {
    forall k | 0 <= k < |views|
      ensures Addressable(views[k]) && given[k].len <= |given[k].bytes|
      ensures MessagesOf(views)[k] == Asked(msgs[k], given[k])
    {
      assert Carried(bus, msgs[k], views[k]) && Kept(msgs[k], given[k]);
    }
  }

  /** What a slave makes of events. */
  function Understood(events: seq<Event>): Talk {
    FollowAll(Talk([], []), HearAll(Gatherer([], []), events).tokens)
  }

  /** A transfer seen from the lines: SDA moves while SCL is high just at the conditions that were
      sent.  If the slaves answer as they are asked to, the transfer goes through; and a slave that
      decodes the levels of a transfer that went through gets its messages: the bytes that the master
      was given to write, and those that it has read. */
  method XferHeard(bus: Bus, msgs: seq<I2cMsg>)
    returns (ret: int, ghost views: seq<View>, ghost last: View, ghost stage: Stage)
    requires bus.Idle() && AllValid(msgs, 0) && Distinct(msgs)
    modifies bus, msgs, set i | 0 <= i < |msgs| :: msgs[i].buf
    ensures |views| <= |msgs| && ret == (if |views| == |msgs| then |msgs| else -1)
    ensures AllKept(msgs, old(AllGiven(msgs)), |views| + 1) && (!bus.timedOut ==> AllCarried(bus, msgs, views))
    ensures !bus.timedOut && AllAnswered(bus, old(bus.cursor), old(Shapes(msgs)), 0) ==> ret == |msgs|
    ensures !bus.timedOut ==>
      MovesWhileHigh(bus.trace) - old(MovesWhileHigh(bus.trace))
        == ConditionTokens([TStart] + Traffic(views, ret, last, stage)) + 1
    ensures !bus.timedOut && ret == |msgs| && AllOrdinary(msgs) ==>
      old(|bus.ear.heard|) <= |ListenAll(IDLE, bus.trace).heard|
    ensures !bus.timedOut && ret == |msgs| && AllOrdinary(msgs) ==>
      var talk := Understood(ListenAll(IDLE, bus.trace).heard[old(|bus.ear.heard|)..]);
      talk.frames == [] && AllAsked(msgs, old(AllGiven(msgs)), talk.messages)
  {
    ghost var trace, heard, given := bus.trace, bus.ear.heard, AllGiven(msgs);
    ret, views, last, stage := Xfer(bus, msgs);
    if !bus.timedOut {
      ghost var ts := [TStart] + Traffic(views, ret, last, stage);
      MovesAreConditions(trace, bus.trace, ts);
      assert bus.ear.heard[|heard|..] == Flatten(ts) + [Stop];
      if ret == |msgs| && AllOrdinary(msgs) {
        CarriedAsAsked(bus, msgs, given, views);
        TransferUnderstood(views);
      }
    }
  }
}
