/** What the ESP8266 driver makes of the bytes of its serial line (src/driver/wifi/wifi-esp8266.c). */
module Wifi {
  import opened Arith
  import opened Wrappers

  datatype RecvState = Plus | I | P | D | Comma | Count | Byte | R | N

  /** The receiver between two bytes: `cbuf` are the digits of the length read so far, `count` the
      bytes of the frame that are still to come. */
  datatype Receiver = Receiver(state: RecvState, cbuf: string, count: int)

  const START := Receiver(Plus, [], 0)

  predicate IsDigit(c: char) {
    '0' <= c <= '9'
  }

  function Digit(c: char): int {
    c as int - '0' as int
  }

  function Decimal(s: string): int {
    if s == [] then 0 else Decimal(s[..|s| - 1]) * 10 + Digit(s[|s| - 1])
  }

  function Octal(s: string): int {
    if s == [] then 0 else if s[0] < '0' || s[0] > '7' then 0 else OctalFrom(s, 0)
  }

  function OctalFrom(s: string, acc: int): int {
    if s == [] || s[0] < '0' || s[0] > '7' then acc else OctalFrom(s[1..], acc * 8 + Digit(s[0]))
  }

  /** strtoul with base 0, of digits only: a leading zero means octal. */
  function StrToUl(s: string): int {
    if s != [] && s[0] == '0' then Octal(s) else Decimal(s)
  }

  /** The receiver after one more byte, and the byte that goes to the caller. */
  function Receive(r: Receiver, c: char): (Receiver, Option<char>) {
    match r.state
    case Plus => (r.(state := if c == '+' then I else Plus), None)
    case I => (r.(state := if c == 'I' then P else Plus), None)
    case P => (r.(state := if c == 'P' then D else Plus), None)
    case D => (r.(state := if c == 'D' then Comma else Plus), None)
    case Comma => (if c == ',' then r.(cbuf := [], state := Count) else r.(state := Plus), None)
    case Count =>
      (if IsDigit(c) then r.(cbuf := r.cbuf + [c])
       else if c == ':' then r.(count := Int32(StrToUl(r.cbuf)), state := Byte)
       else r.(cbuf := [], state := Plus), None)
    case Byte => (r.(count := r.count - 1, state := if r.count - 1 <= 0 then R else Byte), Some(c))
    case R => (r.(state := if c == '\r' then N else Plus), None)
    case N => (r.(state := Plus), None)
  }

  function ReceiveAll(r: Receiver, s: string): Receiver
    decreases |s|
  {
    if s == [] then r else ReceiveAll(Receive(r, s[0]).0, s[1..])
  }

  function Output(o: Option<char>): string {
    if o.Some? then [o.value] else []
  }

  function Delivered(r: Receiver, s: string): string
    decreases |s|
  {
    if s == [] then [] else Output(Receive(r, s[0]).1) + Delivered(Receive(r, s[0]).0, s[1..])
  }

  lemma {:induction false} ReceiveConcat(r: Receiver, a: string, b: string)
    ensures ReceiveAll(r, a + b) == ReceiveAll(ReceiveAll(r, a), b)
    ensures Delivered(r, a + b) == Delivered(r, a) + Delivered(ReceiveAll(r, a), b)
    decreases |a|
  {
    if a == [] {
      assert a + b == b;
    } else {
      ReceiveConcat(Receive(r, a[0]).0, a[1..], b);
      assert (a + b)[0] == a[0] && (a + b)[1..] == a[1..] + b;
    }
  }

  lemma ReceiveOne(r: Receiver, c: char)
    ensures ReceiveAll(r, [c]) == Receive(r, c).0 && Delivered(r, [c]) == Output(Receive(r, c).1)
  {
    assert [c][1..] == [];
  }

  // Text without a frame in it

  const HEAD := "+IPD,"
  const COLON := ":"
  const TAIL := "\r\n"

  predicate AllDigits(s: string) {
    forall i :: 0 <= i < |s| ==> IsDigit(s[i])
  }

  /** What may yet become the head of a frame: part of "+IPD,", or that and digits. */
  predicate Begun(h: string) {
    h <= HEAD || (HEAD <= h && AllDigits(h[|HEAD|..]))
  }

  predicate GoesOn(h: string, c: char) {
    if |h| < |HEAD| then c == HEAD[|h|] else IsDigit(c) || c == ':'
  }

  /** The start of a head, or none of it, up to the first character that does not go on with it. */
  predicate Failed(w: string) {
    w != [] && Begun(w[..|w| - 1]) && !GoesOn(w[..|w| - 1], w[|w| - 1])
  }

  /** Text that falls into such attempts. */
  predicate Noise(s: string)
    decreases |s|
  {
    s == [] || exists k :: 0 < k <= |s| && Failed(s[..k]) && Noise(s[k..])
  }

  /** What the receiver waits for after the start of a head. */
  function Waiting(h: string): RecvState {
    match |h|
    case 0 => Plus
    case 1 => I
    case 2 => P
    case 3 => D
    case 4 => Comma
    case _ => Count
  }

  lemma ReceiveNext(r: Receiver, s: string)
    requires s != []
    ensures var h := s[..|s| - 1];
      && ReceiveAll(r, s) == Receive(ReceiveAll(r, h), s[|s| - 1]).0
      && Delivered(r, s) == Delivered(r, h) + Output(Receive(ReceiveAll(r, h), s[|s| - 1]).1)
  {
    var h, c := s[..|s| - 1], s[|s| - 1];
    ReceiveConcat(r, h, [c]);
    ReceiveOne(ReceiveAll(r, h), c);
    assert h + [c] == s;
  }

  lemma BegunShorter(h: string)
    requires Begun(h) && h != []
    ensures var g := h[..|h| - 1]; Begun(g) && GoesOn(g, h[|h| - 1]) && h[|h| - 1] != ':'
    ensures |h| > |HEAD| ==> h[|HEAD|..] == h[..|h| - 1][|HEAD|..] + [h[|h| - 1]]
  {
    var n := |h| - 1;
    if n >= |HEAD| {
      assert HEAD <= h[..n];
      assert h[|HEAD|..][n - |HEAD|] == h[n];
    } else {
      assert h <= HEAD;
    }
  }

  /** The start of a head delivers nothing. */
  lemma {:induction false} BegunReceived(r: Receiver, h: string)
    requires r.state == Plus && Begun(h)
    ensures Delivered(r, h) == [] && ReceiveAll(r, h).state == Waiting(h)
    ensures |h| >= |HEAD| ==> ReceiveAll(r, h).cbuf == h[|HEAD|..]
    decreases |h|
  {
    if h != [] {
      hide Begun;
      var g := h[..|h| - 1];
      BegunShorter(h);
      BegunReceived(r, g);
      ReceiveNext(r, h);
    }
  }

  lemma FailedReceived(r: Receiver, w: string)
    requires r.state == Plus && Failed(w)
    ensures ReceiveAll(r, w).state == Plus && Delivered(r, w) == []
  {
    BegunReceived(r, w[..|w| - 1]);
    ReceiveNext(r, w);
  }

  lemma NoiseSplits(s: string) returns (w: string, rest: string)
    requires Noise(s) && s != []
    ensures s == w + rest && |rest| < |s| && Failed(w) && Noise(rest)
  {
    hide Failed;
    var k :| 0 < k <= |s| && Failed(s[..k]) && Noise(s[k..]);
    w, rest := s[..k], s[k..];
  }

  /** A receiver that waits for a frame skips text without one. */
  lemma {:induction false} NoiseSkipped(r: Receiver, s: string)
    requires r.state == Plus && Noise(s)
    ensures ReceiveAll(r, s).state == Plus && Delivered(r, s) == []
    decreases |s|
  {
    if s != [] {
      hide Failed, Noise;
      var w, rest := NoiseSplits(s);
      FailedReceived(r, w);
      NoiseSkipped(ReceiveAll(r, w), rest);
      ReceiveConcat(r, w, rest);
    }
  }

  lemma NoiseBefore(w: string, s: string)
    requires Failed(w) && Noise(s)
    ensures Noise(w + s)
  {
    assert (w + s)[..|w|] == w && (w + s)[|w|..] == s;
  }

  lemma BegunLonger(h: string, c: char)
    requires Begun(h)
    ensures GoesOn(h, c) && c != ':' ==> Begun(h + [c])
    ensures !GoesOn(h, c) ==> Failed(h + [c])
  {
    var g := h + [c];
    assert g[..|h|] == h;
    if GoesOn(h, c) && |h| >= |HEAD| {
      assert HEAD <= h;
      assert g[|HEAD|..] == h[|HEAD|..] + [c];
    }
  }

  /** Text without '+' is such text. */
  lemma {:induction false} NoPlusIsNoise(s: string)
    requires '+' !in s
    ensures Noise(s)
    decreases |s|
  {
    if s != [] {
      NoPlusIsNoise(s[1..]);
      assert s[0] in s;
      BegunLonger([], s[0]);
      assert [] + [s[0]] == s[..1];
    }
  }

  // The frames

  /** How many bytes a receiver takes for a frame of the announced length: never none. */
  function Announced(digits: string): (n: nat)
    ensures n > 0
  {
    var n := Int32(StrToUl(digits));
    if n <= 0 then 1 else n
  }

  /** What a receiver takes for the end of a frame. */
  predicate IsTail(t: string) {
    (|t| == 1 && t[0] != '\r') || (|t| == 2 && t[0] == '\r')
  }

  function Frame(digits: string, payload: string, tail: string): string {
    HEAD + digits + COLON + payload + tail
  }

  predicate IsFrame(digits: string, payload: string, tail: string) {
    AllDigits(digits) && |payload| == Announced(digits) && IsTail(tail)
  }

  /** A frame, and what comes in front of it. */
  datatype Part = Part(noise: string, digits: string, payload: string, tail: string)
  {
    predicate Good() {
      Noise(noise) && IsFrame(digits, payload, tail)
    }

    function Text(): string {
      noise + Frame(digits, payload, tail)
    }
  }

  function Stream(parts: seq<Part>): string {
    if parts == [] then [] else parts[0].Text() + Stream(parts[1..])
  }

  function Joined(parts: seq<Part>): string {
    if parts == [] then [] else parts[0].payload + Joined(parts[1..])
  }

  predicate AllGood(parts: seq<Part>) {
    forall i :: 0 <= i < |parts| ==> parts[i].Good()
  }

  function Printed(n: nat): string {
    if n < 10 then ["0123456789"[n]] else Printed(n / 10) + ["0123456789"[n % 10]]
  }

  /** A length is announced by its decimal digits. */
  lemma {:induction false} PrintedIsRead(n: nat)
    ensures Decimal(Printed(n)) == n && Printed(n) != [] && AllDigits(Printed(n))
    ensures n > 0 ==> Printed(n)[0] != '0'
  {
    if n < 10 {
      assert Printed(n)[..0] == [];
    } else {
      PrintedIsRead(n / 10);
      assert Printed(n)[..|Printed(n)| - 1] == Printed(n / 10);
    }
  }

  lemma PrintedAnnounces(n: nat)
    requires 0 < n < 0x8000_0000
    ensures AllDigits(Printed(n)) && Announced(Printed(n)) == n
  {
    hide Printed, Decimal;
    PrintedIsRead(n);
  }

  function OctalPrinted(n: nat): string {
    if n < 8 then ["01234567"[n]] else OctalPrinted(n / 8) + ["01234567"[n % 8]]
  }

  predicate NoOctal(s: string) {
    s != [] ==> s[0] < '0' || s[0] > '7'
  }

  lemma {:induction false} OctalFromConcat(a: string, b: string, acc: int)
    requires forall i :: 0 <= i < |a| ==> '0' <= a[i] <= '7'
    ensures OctalFrom(a + b, acc) == OctalFrom(b, OctalFrom(a, acc))
    decreases |a|
  {
    if a == [] {
      assert a + b == b;
    } else {
      OctalFromConcat(a[1..], b, acc * 8 + Digit(a[0]));
      assert (a + b)[0] == a[0] && (a + b)[1..] == a[1..] + b;
    }
  }

  lemma {:induction false} OctalFromPrinted(n: nat)
    ensures (forall i :: 0 <= i < |OctalPrinted(n)| ==> '0' <= OctalPrinted(n)[i] <= '7')
    ensures OctalFrom(OctalPrinted(n), 0) == n
  {
    if n < 8 {
      assert OctalPrinted(n)[1..] == [];
    } else {
      var d := "01234567"[n % 8];
      OctalFromPrinted(n / 8);
      OctalFromConcat(OctalPrinted(n / 8), [d], 0);
      assert [d][1..] == [];
    }
  }

  /** Behind a leading zero a length counts as octal, up to the first digit that is not. */
  lemma OctalIsRead(n: nat, rest: string)
    requires NoOctal(rest)
    ensures StrToUl("0" + OctalPrinted(n) + rest) == n
  {
    var o := OctalPrinted(n);
    var s := "0" + o + rest;
    OctalFromPrinted(n);
    OctalFromConcat(o, rest, 0);
    assert s[0] == '0' && s[1..] == o + rest;
  }

  lemma {:induction false} PayloadReceived(r: Receiver, s: string)
    requires r.state == Byte && s != [] && (|s| == r.count || (r.count <= 0 && |s| == 1))
    ensures ReceiveAll(r, s).state == R && Delivered(r, s) == s
    decreases |s|
  {
    var r' := Receive(r, s[0]).0;
    if |s| > 1 {
      PayloadReceived(r', s[1..]);
    } else {
      assert s[1..] == [];
    }
    assert [s[0]] + s[1..] == s;
  }

  lemma TailReceived(r: Receiver, t: string)
    requires r.state == R && IsTail(t)
    ensures ReceiveAll(r, t).state == Plus && Delivered(r, t) == []
  {
    ReceiveNext(r, t);
    if |t| == 2 {
      ReceiveNext(r, t[..1]);
      assert t[..1][..0] == [];
    } else {
      assert t[..0] == [];
    }
  }

  lemma LengthReceived(r: Receiver, digits: string)
    requires r.state == Plus && AllDigits(digits)
    ensures var r' := ReceiveAll(r, HEAD + digits + COLON);
      r'.state == Byte && r'.count == Int32(StrToUl(digits)) && Delivered(r, HEAD + digits + COLON) == []
  {
    var h := HEAD + digits;
    assert h[|HEAD|..] == digits && h[..|HEAD|] == HEAD;
    BegunReceived(r, h);
    ReceiveConcat(r, h, COLON);
    ReceiveOne(ReceiveAll(r, h), ':');
  }

  /** A frame yields its payload and leaves the receiver waiting for the next one. */
  lemma FrameReceived(r: Receiver, digits: string, payload: string, tail: string)
    requires r.state == Plus && IsFrame(digits, payload, tail)
    ensures ReceiveAll(r, Frame(digits, payload, tail)).state == Plus
    ensures Delivered(r, Frame(digits, payload, tail)) == payload
  {
    var head := HEAD + digits + COLON;
    LengthReceived(r, digits);
    var r1 := ReceiveAll(r, head);
    PayloadReceived(r1, payload);
    ReceiveConcat(r, head, payload);
    TailReceived(ReceiveAll(r1, payload), tail);
    ReceiveConcat(r, head + payload, tail);
    assert [] + payload == payload && payload + [] == payload;
  }

  lemma PartReceived(r: Receiver, p: Part)
    requires r.state == Plus && p.Good()
    ensures ReceiveAll(r, p.Text()).state == Plus && Delivered(r, p.Text()) == p.payload
  {
    NoiseSkipped(r, p.noise);
    FrameReceived(ReceiveAll(r, p.noise), p.digits, p.payload, p.tail);
    ReceiveConcat(r, p.noise, Frame(p.digits, p.payload, p.tail));
    assert [] + p.payload == p.payload;
  }

  lemma {:induction false} StreamReceived(r: Receiver, parts: seq<Part>)
    requires r.state == Plus && AllGood(parts)
    ensures ReceiveAll(r, Stream(parts)).state == Plus && Delivered(r, Stream(parts)) == Joined(parts)
    decreases |parts|
  {
    if parts != [] {
      PartReceived(r, parts[0]);
      StreamReceived(ReceiveAll(r, parts[0].Text()), parts[1..]);
      ReceiveConcat(r, parts[0].Text(), Stream(parts[1..]));
    }
  }

  /** However far the stream has come, what has been delivered is a prefix of the payloads; and all of
      them once the stream is drained.  There may be noise before, between and after the frames. */
  lemma PrefixDelivered(parts: seq<Part>, rest: string, k: nat)
    requires AllGood(parts) && Noise(rest) && k <= |Stream(parts) + rest|
    ensures Delivered(START, (Stream(parts) + rest)[..k]) <= Joined(parts)
    ensures k == |Stream(parts) + rest| ==> Delivered(START, (Stream(parts) + rest)[..k]) == Joined(parts)
  {
    var s := Stream(parts) + rest;
    StreamReceived(START, parts);
    NoiseSkipped(ReceiveAll(START, Stream(parts)), rest);
    ReceiveConcat(START, Stream(parts), rest);
    assert Joined(parts) + [] == Joined(parts);
    ReceiveConcat(START, s[..k], s[k..]);
    assert s[..k] + s[k..] == s;
    assert k == |s| ==> s[..k] == s;
  }

  // Every text is a stream of frames among noise, as far as it has come

  /** The text is a stream of frames among noise. */
  ghost predicate IsStream(s: string) {
    exists parts, rest :: StreamOf(s, parts, rest)
  }

  predicate StreamOf(s: string, parts: seq<Part>, rest: string) {
    AllGood(parts) && Noise(rest) && s == Stream(parts) + rest
  }

  lemma StreamNext(p: Part, parts: seq<Part>)
    ensures Stream([p] + parts) == p.Text() + Stream(parts) && (p.Good() && AllGood(parts) ==> AllGood([p] + parts))
  {
    hide Part.Good, Part.Text;
    assert ([p] + parts)[1..] == parts;
  }

  lemma FailedBeforeStream(w: string, s: string)
    requires Failed(w) && IsStream(s)
    ensures IsStream(w + s)
  {
    hide Failed, Frame, IsFrame, Noise;
    var parts: seq<Part>, rest: string :| StreamOf(s, parts, rest);
    if parts == [] {
      NoiseBefore(w, rest);
      assert StreamOf(w + s, [], w + rest);
    } else {
      var p := parts[0].(noise := w + parts[0].noise);
      NoiseBefore(w, parts[0].noise);
      var more := [p] + parts[1..];
      StreamNext(p, parts[1..]);
      NoiseText(w, parts[0]);
      TextBefore(w, parts[0].Text(), Stream(parts[1..]), rest);
      assert StreamOf(w + s, more, rest);
    }
  }

  lemma NoiseText(w: string, p: Part)
    ensures p.(noise := w + p.noise).Text() == w + p.Text()
  {
  }

  lemma TextBefore(w: string, a: string, b: string, c: string)
    ensures w + a + b + c == w + (a + b + c)
  {
  }

  lemma FrameBeforeStream(digits: string, payload: string, tail: string, s: string)
    requires IsFrame(digits, payload, tail) && IsStream(s)
    ensures IsStream(Frame(digits, payload, tail) + s)
  {
    hide Frame, IsFrame, Failed, AllGood, Stream;
    var parts: seq<Part>, rest: string :| StreamOf(s, parts, rest);
    hide Frame, IsFrame;
    var p := Part([], digits, payload, tail);
    var more := [p] + parts;
    StreamNext(p, parts);
    assert p.Text() == Frame(digits, payload, tail);
    TextBefore([], p.Text(), Stream(parts), rest);
    assert StreamOf(Frame(digits, payload, tail) + s, more, rest);
  }

  /** From the middle of a payload on the receiver comes back to the start only by way of the rest of the
      payload and a tail. */
  lemma {:induction false} PayloadTaken(r: Receiver, s: string) returns (payload: string, tail: string, rest: string)
    requires r.state == Byte && ReceiveAll(r, s).state == Plus
    ensures s == payload + tail + rest && |payload| == (if r.count <= 0 then 1 else r.count) && IsTail(tail)
    decreases |s|
  {
    var c, r' := s[0], Receive(r, s[0]).0;
    if r'.state == Byte {
      payload, tail, rest := PayloadTaken(r', s[1..]);
      payload := [c] + payload;
    } else {
      tail, rest := TailTaken(r', s[1..]);
      payload := [c];
    }
    assert s == [c] + s[1..];
  }

  lemma TailTaken(r: Receiver, s: string) returns (tail: string, rest: string)
    requires r.state == R && ReceiveAll(r, s).state == Plus
    ensures s == tail + rest && IsTail(tail)
  {
    var n := if s[0] == '\r' then 2 else 1;
    tail, rest := s[..n], s[n..];
  }

  /** From the start of a head on. */
  lemma {:induction false} HeadTaken(r: Receiver, h: string, s: string)
    requires r.state == Plus && Begun(h) && ReceiveAll(r, h + s).state == Plus
    ensures IsStream(h + s)
    decreases |s|
  {
    assert Begun([]);
    hide Begun, GoesOn, Failed, IsTail;
    BegunReceived(r, h);
    ReceiveConcat(r, h, s);
    if s == [] {
      assert h == [];
      assert StreamOf(h + s, [], []);
    } else {
      var c := s[0];
      assert h + s == h + [c] + s[1..];
      ReceiveConcat(r, h + [c], s[1..]);
      BegunLonger(h, c);
      if !GoesOn(h, c) {
        FailedReceived(r, h + [c]);
        assert [] + s[1..] == s[1..];
        HeadTaken(ReceiveAll(r, h + [c]), [], s[1..]);
        FailedBeforeStream(h + [c], s[1..]);
      } else if c != ':' {
        HeadTaken(r, h + [c], s[1..]);
      } else {
        FrameTaken(r, h, s[1..]);
      }
    }
  }

  lemma FrameTaken(r: Receiver, h: string, s: string)
    requires r.state == Plus && Begun(h) && GoesOn(h, ':') && ReceiveAll(r, h + [':'] + s).state == Plus
    ensures IsStream(h + [':'] + s)
    decreases |s|, 0
  {
    assert Begun([]);
    var digits := DigitsTaken(h);
    LengthReceived(r, digits);
    var head := HEAD + digits + COLON;
    hide Begun, GoesOn, AllDigits, IsTail, StrToUl, Frame, Receive, Failed;
    assert h + [':'] == head;
    ReceiveConcat(r, head, s);
    var payload, tail, rest := PayloadTaken(ReceiveAll(r, head), s);
    FrameReceived(r, digits, payload, tail);
    var f := Frame(digits, payload, tail);
    FrameText(digits, payload, tail, rest);
    ReceiveConcat(r, f, rest);
    assert [] + rest == rest;
    HeadTaken(ReceiveAll(r, f), [], rest);
    FrameBeforeStream(digits, payload, tail, rest);
  }

  lemma FrameText(digits: string, payload: string, tail: string, rest: string)
    ensures HEAD + digits + COLON + (payload + tail + rest) == Frame(digits, payload, tail) + rest
  {
    var head := HEAD + digits + COLON;
    assert head + (payload + tail + rest) == head + payload + tail + rest;
  }

  lemma DigitsTaken(h: string) returns (digits: string)
    requires Begun(h) && GoesOn(h, ':')
    ensures AllDigits(digits) && h == HEAD + digits
  {
    digits := h[|HEAD|..];
  }

  /** The receiver waits for a frame exactly where the text so far is a stream of frames among noise. */
  lemma WaitsAfterStreams(s: string)
    ensures ReceiveAll(START, s).state == Plus <==> IsStream(s)
  {
    if ReceiveAll(START, s).state == Plus {
      assert [] + s == s;
      HeadTaken(START, [], s);
    }
    if parts, rest :| StreamOf(s, parts, rest) {
      StreamReceived(START, parts);
      NoiseSkipped(ReceiveAll(START, Stream(parts)), rest);
      ReceiveConcat(START, Stream(parts), rest);
    }
  }

  /** A frame right behind a stray '+' is lost: that and the frame's own '+' are a failed attempt, and what
      comes behind is noise. */
  lemma StrayPlus(digits: string, payload: string, tail: string)
    requires AllDigits(digits) && '+' !in payload && '+' !in tail
    ensures Noise("+" + Frame(digits, payload, tail)) && Delivered(START, "+" + Frame(digits, payload, tail)) == []
  {
    hide Noise, Frame, AllDigits;
    var f := Frame(digits, payload, tail);
    BehindPlus(digits, payload, tail);
    TwoPlusFail();
    NoPlusIsNoise(f[1..]);
    NoiseBefore("++", f[1..]);
    assert "++" + f[1..] == "+" + f;
    NoiseSkipped(START, "+" + f);
  }

  lemma TwoPlusFail()
    ensures Failed("++")
  {
    var h: string := "+";
    BegunLonger(h, '+');
    assert h + ['+'] == "++";
  }

  lemma BehindPlus(digits: string, payload: string, tail: string)
    requires AllDigits(digits) && '+' !in payload && '+' !in tail
    ensures var f := Frame(digits, payload, tail); f != [] && f[0] == '+' && '+' !in f[1..]
  {
    var f := Frame(digits, payload, tail);
    var r := "IPD," + digits + COLON + payload + tail;
    assert f == ['+'] + r;
    assert f[1..] == r;
  }

  /** A serial line: bytes come in order, but a read may find none there yet. */
  class Uart {
    const line: string
    var taken: nat
    /** How often a read has found nothing. */
    ghost var stalls: nat

    constructor (line: string)
      ensures this.line == line && taken == 0
    {
      this.line, taken, stalls := line, 0, 0;
    }

    method ReadByte() returns (c: Option<char>)
      requires taken <= |line|
      modifies this
      ensures taken == old(taken) + (if c.Some? then 1 else 0) <= |line|
      ensures c.Some? ==> c.value == line[old(taken)]
      ensures stalls == old(stalls) + if c.Some? then 0 else 1
    {
      var stalled: bool := *;
      if stalled || taken == |line| {
        stalls := stalls + 1;
        return None;
      }
      c := Some(line[taken]);
      taken := taken + 1;
    }
  }

  class Esp8266 {
    const uart: Uart
    var rstate: RecvState
    var cbuf: string
    var count: int
    /** All bytes that reads have returned so far. */
    ghost var given: string

    constructor (uart: Uart)
      requires uart.taken == 0
      ensures Valid() && this.uart == uart && given == []
    {
      this.uart := uart;
      rstate, cbuf, count, given := Plus, [], 0, [];
    }

    function Now(): Receiver
      reads this
    {
      Receiver(rstate, cbuf, count)
    }

    /** The receiver, and what it has given out, follow from the bytes taken so far, wherever the reads
        were cut off. */
    ghost predicate Valid()
      reads this, uart
    {
      && uart.taken <= |uart.line|
      && Now() == ReceiveAll(START, uart.line[..uart.taken]) && given == Delivered(START, uart.line[..uart.taken])
    }

    /** One byte goes through the receiver. */
    method Consume(c: char) returns (o: Option<char>)
      modifies this`rstate, this`cbuf, this`count
      ensures (Now(), o) == Receive(old(Now()), c)
    {
      o := None;
      match rstate
      case Plus => rstate := if c == '+' then I else Plus;
      case I => rstate := if c == 'I' then P else Plus;
      case P => rstate := if c == 'P' then D else Plus;
      case D => rstate := if c == 'D' then Comma else Plus;
      case Comma =>
        if c == ',' {
          cbuf := [];
          rstate := Count;
        } else {
          rstate := Plus;
        }
      case Count =>
        if IsDigit(c) {
          cbuf := cbuf + [c];
        } else if c == ':' {
          count := Int32(StrToUl(cbuf));
          rstate := Byte;
        } else {
          cbuf := [];
          rstate := Plus;
        }
      case Byte =>
        o := Some(c);
        count := count - 1;
        if count <= 0 {
          rstate := R;
        }
      case R => rstate := if c == '\r' then N else Plus;
      case N => rstate := Plus;
    }

    /** Reads `n` payload bytes, or fewer if it finds nothing on the line. */
    method Read(n: nat) returns (data: string)
      requires Valid()
      modifies this, uart
      ensures Valid() && |data| <= n && given == old(given) + data
      ensures |data| == n || uart.stalls > old(uart.stalls)
    {
      var left := n;
      data := [];
      while left > 0
        invariant Valid() && |data| + left == n && given == old(given) + data
        invariant uart.stalls == old(uart.stalls)
        decreases |uart.line| - uart.taken
      {
        var c := uart.ReadByte();
        if c.None? {
          break;
        }
        ghost var k := uart.taken - 1;
        TakenNext(uart.line, k);
        var o := Consume(c.value);
        given := given + Output(o);
        if o.Some? {
          data := data + [o.value];
          left := left - 1;
        }
      }
    }

    /** Of a stream of frames among noise, any sequence of reads has given a prefix of the payloads, and
        all of them once the line is drained. */
    lemma GivenIsPayload(parts: seq<Part>, rest: string)
      requires Valid() && uart.line == Stream(parts) + rest && AllGood(parts) && Noise(rest)
      ensures given <= Joined(parts)
      ensures uart.taken == |uart.line| ==> given == Joined(parts)
    {
      PrefixDelivered(parts, rest, uart.taken);
    }
  }

  lemma TakenNext(s: string, k: nat)
    requires k < |s|
    ensures ReceiveAll(START, s[..k + 1]) == Receive(ReceiveAll(START, s[..k]), s[k]).0
    ensures Delivered(START, s[..k + 1])
      == Delivered(START, s[..k]) + Output(Receive(ReceiveAll(START, s[..k]), s[k]).1)
  {
    ReceiveConcat(START, s[..k], [s[k]]);
    ReceiveOne(ReceiveAll(START, s[..k]), s[k]);
    assert s[..k] + [s[k]] == s[..k + 1];
  }

  // The reply to a command

  datatype Reply = WantO | WantK | WantR | WantN

  function Follow(t: Reply, c: char): Reply {
    match t
    case WantO => if c == 'O' then WantK else WantO
    case WantK => if c == 'K' then WantR else WantO
    case WantR => if c == '\r' then WantN else WantO
    case WantN => WantO
  }

  function FollowAll(s: string): Reply {
    if s == [] then WantO else Follow(FollowAll(s[..|s| - 1]), s[|s| - 1])
  }

  /** Whether the matcher has reported an OK by the end of `s`. */
  predicate Reported(s: string) {
    s != [] && (Reported(s[..|s| - 1]) || (FollowAll(s[..|s| - 1]) == WantN && s[|s| - 1] == '\n'))
  }

  /** "OK" and a line end at position `i`. */
  predicate OkAt(s: string, i: nat) {
    i + 4 <= |s| && s[i] == 'O' && s[i + 1] == 'K' && s[i + 2] == '\r' && s[i + 3] == '\n'
  }

  method MatchReply(s: string) returns (ok: bool)
    ensures ok <==> Reported(s)
  {
    var state := WantO;
    ok := false;
    for i := 0 to |s|
      invariant state == FollowAll(s[..i]) && (ok <==> Reported(s[..i]))
    {
      assert s[..i + 1][..i] == s[..i];
      var c := s[i];
      match state
      case WantO => if c == 'O' { state := WantK; }
      case WantK => state := if c == 'K' then WantR else WantO;
      case WantR => state := if c == '\r' then WantN else WantO;
      case WantN =>
        if c == '\n' {
          ok := true;
        }
        state := WantO;
    }
    assert s[..|s|] == s;
  }

  /** The text falls into attempts that came to an end: a character that starts none, or the start of
      "OK" and a line end with the first character that does not go on with it, or all of it. */
  predicate Attempts(t: string) {
    var n := |t|;
    || n == 0
    || (t[n - 1] != 'O' && Attempts(t[..n - 1]))
    || (n > 1 && t[n - 2] == 'O' && t[n - 1] != 'K' && Attempts(t[..n - 2]))
    || (n > 2 && t[n - 3..n - 1] == "OK" && t[n - 1] != '\r' && Attempts(t[..n - 3]))
    || (n > 3 && t[n - 4..n - 1] == "OK\r" && Attempts(t[..n - 4]))
  }

  /** `t` ends with `w`, which an attempt has come to. */
  predicate Open(t: string, w: string) {
    |t| >= |w| && t[|t| - |w|..] == w && Attempts(t[..|t| - |w|])
  }

  lemma OpenAtOnce(t: string)
    ensures Open(t, "") <==> Attempts(t)
  {
    assert t[..|t|] == t;
  }

  lemma OpenNext(t: string, w: string, c: char, next: string)
    requires t != [] && next == w + [c]
    ensures Open(t, next) <==> Open(t[..|t| - 1], w) && t[|t| - 1] == c
  {
    var n, k := |t|, |w|;
    var h := t[..n - 1];
    if n > k {
      assert t[n - k - 1..] == h[n - 1 - k..] + [t[n - 1]];
      assert h[..n - 1 - k] == t[..n - k - 1];
    }
  }

  lemma AttemptsNext(t: string)
    requires t != []
    ensures var h, c := t[..|t| - 1], t[|t| - 1];
      Attempts(t) <==>
        (Attempts(h) && c != 'O') || (Open(h, "O") && c != 'K') || (Open(h, "OK") && c != '\r') || Open(h, "OK\r")
  {
    var n := |t|;
    var h := t[..n - 1];
    assert n > 1 ==> h[..n - 2] == t[..n - 2] && h[n - 2..] == [t[n - 2]];
    assert n > 2 ==> h[..n - 3] == t[..n - 3] && h[n - 3..] == t[n - 3..n - 1];
    assert n > 3 ==> h[..n - 4] == t[..n - 4] && h[n - 4..] == t[n - 4..n - 1];
  }

  /** What the matcher waits for, in terms of the text. */
  lemma {:induction false} WaitingFor(t: string)
    ensures FollowAll(t) == WantO <==> Attempts(t)
    ensures FollowAll(t) == WantK <==> Open(t, "O")
    ensures FollowAll(t) == WantR <==> Open(t, "OK")
    ensures FollowAll(t) == WantN <==> Open(t, "OK\r")
  {
    if t != [] {
      hide Attempts, Open;
      WaitingFor(t[..|t| - 1]);
      AttemptsNext(t);
      OpenAtOnce(t[..|t| - 1]);
      OpenNext(t, "", 'O', "O");
      OpenNext(t, "O", 'K', "OK");
      OpenNext(t, "OK", '\r', "OK\r");
    }
  }

  lemma {:induction false} ReportedStays(s: string, k: nat)
    requires k <= |s| && Reported(s[..k])
    ensures Reported(s)
    decreases |s|
  {
    if k < |s| {
      assert s[..|s| - 1][..k] == s[..k];
      ReportedStays(s[..|s| - 1], k);
    } else {
      assert s[..k] == s;
    }
  }

  lemma FollowNext(s: string, k: nat)
    requires k < |s|
    ensures FollowAll(s[..k + 1]) == Follow(FollowAll(s[..k]), s[k])
    ensures Reported(s[..k + 1]) <==> Reported(s[..k]) || (FollowAll(s[..k]) == WantN && s[k] == '\n')
  {
    assert s[..k + 1][..k] == s[..k];
  }

  /** An OK at position `i` that the matcher finds. */
  predicate FoundAt(s: string, i: nat) {
    OkAt(s, i) && Attempts(s[..i])
  }

  lemma FoundIsReported(s: string, i: nat)
    requires FoundAt(s, i)
    ensures Reported(s)
  {
    WaitingFor(s[..i]);
    FollowNext(s, i);
    FollowNext(s, i + 1);
    FollowNext(s, i + 2);
    FollowNext(s, i + 3);
    ReportedStays(s, i + 4);
  }

  lemma OpenIsFound(h: string, c: char)
    requires Open(h, "OK\r") && c == '\n'
    ensures FoundAt(h + [c], |h| - 3)
  {
    hide Attempts;
    var s, n := h + [c], |h| - 3;
    assert s[..n] == h[..n];
    assert s[n] == h[n..][0] && s[n + 1] == h[n..][1] && s[n + 2] == h[n..][2];
  }

  /** The matcher reports an OK if and only if there is one right after text that falls into attempts
      that came to an end. */
  lemma {:induction false} ReportedExactly(s: string)
    ensures Reported(s) <==> exists i: nat :: FoundAt(s, i)
  {
    if Reported(s) {
      var h := s[..|s| - 1];
      if Reported(h) {
        ReportedExactly(h);
        var i: nat :| FoundAt(h, i);
        assert h[..i] == s[..i];
        assert FoundAt(s, i);
      } else {
        WaitingFor(h);
        OpenIsFound(h, s[|s| - 1]);
        assert s == h + [s[|s| - 1]];
      }
    }
    if i: nat :| FoundAt(s, i) { FoundIsReported(s, i); }
  }

  function Letters(n: nat): string {
    if n == 0 then [] else Letters(n - 1) + ['O']
  }

  lemma {:induction false} LettersPair(t: string, n: nat)
    requires FollowAll(t) == WantO
    ensures FollowAll(t + Letters(n)) == if n % 2 == 0 then WantO else WantK
  {
    if n == 0 {
      assert t + [] == t;
    } else {
      LettersPair(t, n - 1);
      var u := t + Letters(n);
      assert u[..|u| - 1] == t + Letters(n - 1);
    }
  }

  /** Of an OK behind `n` letters O too many, the matcher finds those with an even `n`. */
  lemma StrayLetters(t: string, n: nat)
    requires Attempts(t)
    ensures Attempts(t + Letters(n)) <==> n % 2 == 0
  {
    WaitingFor(t);
    LettersPair(t, n);
    WaitingFor(t + Letters(n));
  }

  /** After a stray O the matcher misses the reply. */
  lemma StrayIsMissed()
    ensures OkAt("OOK\r\n", 1) && !Reported("OOK\r\n")
  {
    var s := "OOK\r\n";
    assert s[..0] == [];
    FollowNext(s, 0);
    FollowNext(s, 1);
    FollowNext(s, 2);
    FollowNext(s, 3);
    FollowNext(s, 4);
    assert s[..5] == s;
  }

  /** An OK is only reported where there is one. */
  lemma ReportedIsThere(s: string)
    requires Reported(s)
    ensures exists i: nat :: OkAt(s, i)
  {
    ReportedExactly(s);
    var i: nat :| FoundAt(s, i);
  }
}
