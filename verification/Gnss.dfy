/** The tokenizer of NMEA sentences (src/driver/gnss/gnss.c). */
module Gnss {
  import opened Arith
  import opened Sequences
  import opened Wrappers

  type Byte = bv8

  const DOLLAR: Byte := 36
  const STAR: Byte := 42
  const COMMA: Byte := 44
  const CR: Byte := 13
  const LF: Byte := 10

  /** The tokenizer between two bytes: the sentence so far, how much of it belongs to the token that
      is being read, and where each finished token starts and ends. */
  datatype Nmea = Nmea(buffer: seq<Byte>, dindex: int, tokens: seq<(int, int)>)

  const START := Nmea([], 0, [])

  predicate Separates(c: Byte) {
    c == COMMA || c == STAR || c == CR
  }

  predicate Plain(s: seq<Byte>) {
    forall i :: 0 <= i < |s| ==> s[i] != DOLLAR && s[i] != LF && !Separates(s[i])
  }

  function Xor(s: seq<Byte>): Byte {
    if s == [] then 0 else Xor(s[..|s| - 1]) ^ s[|s| - 1]
  }

  function HexDigit(c: Byte): (r: Option<int>)
    ensures r.Some? ==> 0 <= r.value < 16
  {
    if 48 <= c <= 57 then Some((c - 48) as int)
    else if 65 <= c <= 70 then Some((c - 55) as int)
    else if 97 <= c <= 102 then Some((c - 87) as int)
    else None
  }

  const DIGITS: seq<Byte> := [48, 49, 50, 51, 52, 53, 54, 55, 56, 57, 65, 66, 67, 68, 69, 70]
  const LOWER: seq<Byte> := [97, 98, 99, 100, 101, 102]

  /** The digits are those of the table, where letters may be of either case, and no others. */
  lemma HexDigitIs(c: Byte, n: nat)
    requires n < 16
    ensures HexDigit(c) == Some(n) <==> c == DIGITS[n] || (n >= 10 && c == LOWER[n - 10])
  {
    hide HexDigit;
    if HexDigit(c) == Some(n) { HexDigitOnly(c, n); }
    if c == DIGITS[n] || (n >= 10 && c == LOWER[n - 10]) { HexDigitOf(c, n); }
  }

  lemma HexDigitOnly(c: Byte, n: nat)
    requires n < 16 && HexDigit(c) == Some(n)
    ensures c as int == (if n < 10 then 48 + n else if c >= 97 then 87 + n else 55 + n)
  {
  }

  lemma HexDigitOf(c: Byte, n: nat)
    requires n < 16 && (c == DIGITS[n] || (n >= 10 && c == LOWER[n - 10]))
    ensures HexDigit(c) == Some(n)
  {
  }

  predicate AllHex(s: seq<Byte>) {
    forall i :: 0 <= i < |s| ==> HexDigit(s[i]).Some?
  }

  /** The value of hexadecimal digits as a signed 32-bit word; 0 if there is any other character. */
  function HexToInt(s: seq<Byte>): int {
    if AllHex(s) then Int32(HexValue(s)) else 0
  }

  function HexValue(s: seq<Byte>): (r: int)
    requires AllHex(s)
    ensures r >= 0
  {
    if s == [] then 0 else HexValue(s[..|s| - 1]) * 16 + HexDigit(s[|s| - 1]).value
  }

  /** Words that agree modulo 2^32 are the same. */
  lemma Int32Unique(x: int, y: int)
    requires x % U32 == y % U32
    ensures Int32(x) == Int32(y)
  {
  }

  /** It makes no difference whether a digit is added to the value or to the word that is kept of it. */
  lemma DigitAdded(x: int, c: int)
    ensures Int32(Int32(x) * 16 + c) == Int32(x * 16 + c)
  {
    var q := (x - Int32(x)) / U32;
    assert x - Int32(x) == q * U32;
    assert x * 16 + c == Int32(x) * 16 + c + 16 * q * U32;
    AddMultiple(Int32(x) * 16 + c, 16 * q);
    Int32Unique(Int32(x) * 16 + c, x * 16 + c);
  }

  lemma AddMultiple(a: int, q: int)
    ensures (a + q * U32) % U32 == a % U32
  {
    QuotientUnique(a + q * U32, U32, a / U32 + q, a % U32);
  }

  method HexToIntLoop(s: seq<Byte>) returns (result: int)
    ensures result == HexToInt(s)
  {
    result := 0;
    for i := 0 to |s|
      invariant AllHex(s[..i])
      invariant result == Int32(HexValue(s[..i]))
    {
      var c := HexDigit(s[i]);
      if c.None? {
        return 0;
      }
      assert s[..i + 1][..i] == s[..i];
      DigitAdded(HexValue(s[..i]), c.value);
      result := Int32(result * 16 + c.value);
    }
    assert s[..|s|] == s;
  }

  // One byte

  function Token(st: Nmea, i: nat): seq<Byte>
    requires i < |st.tokens|
  {
    Slice(st.buffer, st.tokens[i].0, st.tokens[i].1)
  }

  function Slice(s: seq<Byte>, lo: int, hi: int): seq<Byte> {
    if 0 <= lo <= hi <= |s| then s[lo..hi] else []
  }

  function Tokens(st: Nmea): seq<seq<Byte>>
  {
    seq(|st.tokens|, i requires 0 <= i < |st.tokens| => Token(st, i))
  }

  /** What the checksum is taken over: from the start to the end of the last token but one. */
  function Summed(st: Nmea): seq<Byte>
    requires |st.tokens| > 2
  {
    Slice(st.buffer, 0, st.tokens[|st.tokens| - 2].1 - st.tokens[0].0)
  }

  predicate Accepts(st: Nmea)
  {
    |st.tokens| > 2 && Xor(Summed(st)) as int == HexToInt(Token(st, |st.tokens| - 1))
  }

  function Step(st: Nmea, c: Byte): Nmea
  {
    if c == DOLLAR || c == LF then START
    else if Separates(c) then Nmea(st.buffer + [c], 0, st.tokens + [(|st.buffer| - st.dindex, |st.buffer|)])
    else Nmea(st.buffer + [c], st.dindex + 1, st.tokens)
  }

  /** The sentences accepted at this byte. */
  function Emits(st: Nmea, c: Byte): seq<seq<seq<Byte>>>
  {
    if c == LF && Accepts(st) then [Tokens(st)] else []
  }

  function Run(st: Nmea, s: seq<Byte>): Nmea
    decreases |s|
  {
    if s == [] then st else Run(Step(st, s[0]), s[1..])
  }

  function Accepted(st: Nmea, s: seq<Byte>): seq<seq<seq<Byte>>>
    decreases |s|
  {
    if s == [] then [] else Emits(st, s[0]) + Accepted(Step(st, s[0]), s[1..])
  }

  lemma {:induction false} RunConcat(st: Nmea, a: seq<Byte>, b: seq<Byte>)
    ensures Run(st, a + b) == Run(Run(st, a), b) && Accepted(st, a + b) == Accepted(st, a) + Accepted(Run(st, a), b)
    decreases |a|
  {
    hide Step, Emits;
    if a == [] {
      assert a + b == b;
    } else {
      var next, e := Step(st, a[0]), Emits(st, a[0]);
      RunConcat(next, a[1..], b);
      assert (a + b)[0] == a[0] && (a + b)[1..] == a[1..] + b;
      assert Accepted(st, a + b) == e + Accepted(next, a[1..] + b);
      assert Accepted(st, a) == e + Accepted(next, a[1..]);
      Assoc(e, Accepted(next, a[1..]), Accepted(Run(next, a[1..]), b));
    }
  }

  lemma RunOne(st: Nmea, c: Byte)
    ensures Run(st, [c]) == Step(st, c) && Accepted(st, [c]) == Emits(st, c)
  {
    assert [c][1..] == [];
  }

  // Sentences

  /** A field and what ends it. */
  datatype Part = Part(field: seq<Byte>, end: Byte)

  function Text(parts: seq<Part>): seq<Byte> {
    if parts == [] then []
    else
      var p := parts[|parts| - 1];
      Text(parts[..|parts| - 1]) + (p.field + [p.end])
  }

  function Spans(parts: seq<Part>): (r: seq<(int, int)>)
    ensures |r| == |parts|
  {
    if parts == [] then []
    else
      var at := |Text(parts[..|parts| - 1])|;
      Spans(parts[..|parts| - 1]) + [(at, at + |parts[|parts| - 1].field|)]
  }

  predicate WellFormed(parts: seq<Part>) {
    forall i :: 0 <= i < |parts| ==> Plain(parts[i].field) && Separates(parts[i].end)
  }

  lemma {:induction false} FieldFed(st: Nmea, f: seq<Byte>)
    requires Plain(f)
    ensures Run(st, f) == Nmea(st.buffer + f, st.dindex + |f|, st.tokens) && Accepted(st, f) == []
    decreases |f|
  {
    if f == [] {
      assert st.buffer + f == st.buffer;
    } else {
      FieldFed(Step(st, f[0]), f[1..]);
      assert st.buffer + [f[0]] + f[1..] == st.buffer + f;
    }
  }

  lemma PartFed(st: Nmea, p: Part)
    requires st.dindex == 0 && Plain(p.field) && Separates(p.end)
    ensures var b, s := st.buffer, p.field + [p.end];
      Run(st, s) == Nmea(b + s, 0, st.tokens + [(|b|, |b| + |p.field|)]) && Accepted(st, s) == []
  {
    hide Run, Accepted;
    FieldFed(st, p.field);
    var mid := Nmea(st.buffer + p.field, |p.field|, st.tokens);
    RunOne(mid, p.end);
    Quietly(st, p.field, mid, [p.end], Step(mid, p.end));
    assert st.buffer + p.field + [p.end] == st.buffer + (p.field + [p.end]);
  }

  /** Two stretches in which no sentence ends. */
  lemma Quietly(st: Nmea, a: seq<Byte>, mid: Nmea, b: seq<Byte>, end: Nmea)
    requires Run(st, a) == mid && Run(mid, b) == end
    requires Accepted(st, a) == [] && Accepted(mid, b) == []
    ensures Run(st, a + b) == end && Accepted(st, a + b) == []
  {
    RunConcat(st, a, b);
  }

  lemma {:induction false} PartsFed(parts: seq<Part>)
    requires WellFormed(parts)
    ensures Run(START, Text(parts)) == Nmea(Text(parts), 0, Spans(parts)) && Accepted(START, Text(parts)) == []
  {
    hide Step, Emits, Plain, Separates;
    if parts != [] {
      var init, p := parts[..|parts| - 1], parts[|parts| - 1];
      PartsFed(init);
      var mid := Nmea(Text(init), 0, Spans(init));
      PartFed(mid, p);
      Quietly(START, Text(init), mid, p.field + [p.end], Run(mid, p.field + [p.end]));
    }
  }

  /** The tokens are the fields. */
  lemma {:induction false} SpanIs(parts: seq<Part>, i: nat)
    requires i < |parts|
    ensures 0 <= Spans(parts)[i].0 <= Spans(parts)[i].1 < |Text(parts)|
    ensures Text(parts)[Spans(parts)[i].0..Spans(parts)[i].1] == parts[i].field
  {
    var init, p := parts[..|parts| - 1], parts[|parts| - 1];
    if i < |init| {
      SpanIs(init, i);
      var s := Spans(init)[i];
      assert Text(parts)[s.0..s.1] == Text(init)[s.0..s.1];
    } else {
      assert Text(parts)[|Text(init)|..] == p.field + [p.end];
    }
  }

  function Fields(parts: seq<Part>): seq<seq<Byte>> {
    seq(|parts|, i requires 0 <= i < |parts| => parts[i].field)
  }

  lemma FirstSpan(parts: seq<Part>)
    requires parts != []
    ensures Spans(parts)[0].0 == 0
  {
    if |parts| > 1 { FirstSpan(parts[..|parts| - 1]); } else { assert parts[..0] == []; }
  }

  // Any line

  /** What the checksum of a line is taken over: all but its last field and the separator in front. */
  function Covered(parts: seq<Part>): seq<Byte>
    requires |parts| >= 2
  {
    Text(parts[..|parts| - 2]) + parts[|parts| - 2].field
  }

  /** Fields with any separators, and text that none ends. */
  function Line(parts: seq<Part>, rest: seq<Byte>): seq<Byte> {
    [DOLLAR] + (Text(parts) + rest) + [LF]
  }

  lemma LineFed(parts: seq<Part>, rest: seq<Byte>)
    requires WellFormed(parts) && Plain(rest)
    ensures Run(START, Text(parts) + rest) == Nmea(Text(parts) + rest, |rest|, Spans(parts))
    ensures Accepted(START, Text(parts) + rest) == []
  {
    hide Step, Emits, Plain, Separates;
    PartsFed(parts);
    var mid := Nmea(Text(parts), 0, Spans(parts));
    FieldFed(mid, rest);
    Quietly(START, Text(parts), mid, rest, Run(mid, rest));
  }

  lemma LineTokens(parts: seq<Part>, rest: seq<Byte>)
    ensures Tokens(Nmea(Text(parts) + rest, |rest|, Spans(parts))) == Fields(parts)
  {
    var st := Nmea(Text(parts) + rest, |rest|, Spans(parts));
    forall i | 0 <= i < |parts| ensures Token(st, i) == parts[i].field {
      SpanIs(parts, i);
      SliceBefore(Text(parts), rest, Spans(parts)[i].0, Spans(parts)[i].1);
    }
  }

  lemma SliceBefore(a: seq<Byte>, b: seq<Byte>, lo: int, hi: int)
    requires 0 <= lo <= hi <= |a|
    ensures Slice(a + b, lo, hi) == a[lo..hi]
  {
  }

  lemma LineSummed(parts: seq<Part>, rest: seq<Byte>)
    requires |parts| > 2
    ensures Summed(Nmea(Text(parts) + rest, |rest|, Spans(parts))) == Covered(parts)
  {
    var n := |parts|;
    var init := parts[..n - 1];
    FirstSpan(parts);
    assert init[..n - 2] == parts[..n - 2];
    var at := |Text(parts[..n - 2])|;
    assert Spans(parts)[n - 2] == Spans(init)[n - 2] == (at, at + |parts[n - 2].field|);
    assert Text(init) == Covered(parts) + [parts[n - 2].end];
    SpanIs(init, n - 2);
    SliceBefore(Text(parts), rest, 0, |Covered(parts)|);
    assert Text(parts)[..|Text(init)|] == Text(init);
    assert Text(parts)[0..|Covered(parts)|] == Covered(parts);
  }

  /** Any line, whatever separates its fields, is accepted if and only if it has more than two and the
      last one is the checksum of the others; what no separator ends does not count. */
  lemma LineAccepted(st: Nmea, parts: seq<Part>, rest: seq<Byte>)
    requires WellFormed(parts) && Plain(rest)
    ensures Run(st, Line(parts, rest)) == START
    ensures Accepted(st, Line(parts, rest)) ==
      if |parts| > 2 && Xor(Covered(parts)) as int == HexToInt(parts[|parts| - 1].field) then [Fields(parts)] else []
  {
    var text := Text(parts) + rest;
    LineFed(parts, rest);
    var end := Run(START, text);
    RunOne(st, DOLLAR);
    RunConcat(st, [DOLLAR], text);
    RunConcat(st, [DOLLAR] + text, [LF]);
    RunOne(end, LF);
    LineTokens(parts, rest);
    if |parts| > 2 {
      LineSummed(parts, rest);
      assert Token(end, |parts| - 1) == Tokens(end)[|parts| - 1] == parts[|parts| - 1].field;
    }
  }

  /** The fields, separated by commas, before the star. */
  function Body(fields: seq<seq<Byte>>): seq<Byte> {
    if fields == [] then []
    else if |fields| == 1 then fields[0]
    else Body(fields[..|fields| - 1]) + [COMMA] + fields[|fields| - 1]
  }

  function BodyParts(fields: seq<seq<Byte>>): (r: seq<Part>)
    ensures |r| == |fields|
  {
    seq(|fields|, i requires 0 <= i < |fields| => Part(fields[i], if i == |fields| - 1 then STAR else COMMA))
  }

  function CommaParts(fields: seq<seq<Byte>>): (r: seq<Part>)
    ensures |r| == |fields|
  {
    seq(|fields|, i requires 0 <= i < |fields| => Part(fields[i], COMMA))
  }

  lemma {:induction false} CommaText(fields: seq<seq<Byte>>)
    requires fields != []
    ensures Text(CommaParts(fields)) == Body(fields) + [COMMA]
  {
    var n := |fields| - 1;
    assert CommaParts(fields)[..n] == CommaParts(fields[..n]);
    if n > 0 {
      CommaText(fields[..n]);
    } else {
      assert CommaParts(fields[..0]) == [];
      assert [] + (fields[0] + [COMMA]) == fields[0] + [COMMA];
    }
  }

  lemma BodyText(fields: seq<seq<Byte>>)
    requires fields != []
    ensures Text(BodyParts(fields)) == Body(fields) + [STAR]
  {
    var n := |fields| - 1;
    assert BodyParts(fields)[..n] == CommaParts(fields[..n]);
    if n > 0 {
      CommaText(fields[..n]);
    } else {
      assert CommaParts(fields[..0]) == [];
      assert [] + (fields[0] + [STAR]) == fields[0] + [STAR];
    }
  }

  /** "$f0,...,fk*sum" and a line end. */
  function Sentence(fields: seq<seq<Byte>>, sum: seq<Byte>): seq<Byte> {
    [DOLLAR] + (Body(fields) + [STAR] + sum + [CR] + [LF])
  }

  predicate AllPlain(fields: seq<seq<Byte>>) {
    forall i :: 0 <= i < |fields| ==> Plain(fields[i])
  }

  lemma SentenceParts(fields: seq<seq<Byte>>, sum: seq<Byte>)
    requires fields != []
    ensures var parts := BodyParts(fields) + [Part(sum, CR)];
      Text(parts) == Body(fields) + [STAR] + sum + [CR] && Fields(parts) == fields + [sum]
  {
    var parts := BodyParts(fields) + [Part(sum, CR)];
    assert parts[..|fields|] == BodyParts(fields);
    BodyText(fields);
    assert Body(fields) + [STAR] + (sum + [CR]) == Body(fields) + [STAR] + sum + [CR];
  }

  /** At the line end the tokens are the fields, and the checksum is that of the body. */
  lemma SentenceRead(fields: seq<seq<Byte>>, sum: seq<Byte>)
    requires |fields| >= 2 && AllPlain(fields) && Plain(sum)
    ensures var st := Run(START, Body(fields) + [STAR] + sum + [CR]);
      && Accepted(START, Body(fields) + [STAR] + sum + [CR]) == []
      && |st.tokens| == |fields| + 1 && Tokens(st) == fields + [sum] && Summed(st) == Body(fields)
  {
    var parts := BodyParts(fields) + [Part(sum, CR)];
    SentenceParts(fields, sum);
    PartsFed(parts);
    TokensAre(parts);
    BodySpan(fields, sum);
    SummedIs(fields, sum);
  }

  lemma TokensAre(parts: seq<Part>)
    ensures Tokens(Nmea(Text(parts), 0, Spans(parts))) == Fields(parts)
  {
    var st := Nmea(Text(parts), 0, Spans(parts));
    forall i | 0 <= i < |parts| ensures Token(st, i) == parts[i].field { SpanIs(parts, i); }
  }

  lemma SummedIs(fields: seq<seq<Byte>>, sum: seq<Byte>)
    requires |fields| >= 2
    ensures var parts := BodyParts(fields) + [Part(sum, CR)];
      Summed(Nmea(Text(parts), 0, Spans(parts))) == Body(fields)
  {
    var parts := BodyParts(fields) + [Part(sum, CR)];
    FirstSpan(parts);
    BodySpan(fields, sum);
    SentenceParts(fields, sum);
    SummedFrom(Text(parts), Spans(parts), |fields|, Body(fields), sum);
  }

  lemma SummedFrom(text: seq<Byte>, spans: seq<(int, int)>, n: nat, body: seq<Byte>, sum: seq<Byte>)
    requires n >= 2 && |spans| == n + 1 && spans[0].0 == 0 && spans[n - 1].1 == |body|
    requires text == body + [STAR] + sum + [CR]
    ensures Summed(Nmea(text, 0, spans)) == body
  {
    assert body + ([STAR] + sum + [CR]) == body + [STAR] + sum + [CR];
    PrefixSlice(body, [STAR] + sum + [CR]);
  }

  lemma PrefixSlice(a: seq<Byte>, b: seq<Byte>)
    ensures Slice(a + b, 0, |a|) == a
  {
  }

  lemma BodySpan(fields: seq<seq<Byte>>, sum: seq<Byte>)
    requires fields != []
    ensures Spans(BodyParts(fields) + [Part(sum, CR)])[|fields| - 1].1 == |Body(fields)|
  {
    var parts := BodyParts(fields) + [Part(sum, CR)];
    assert parts[..|fields|] == BodyParts(fields);
    BodyText(fields);
    var n := |fields| - 1;
    var at := |Text(BodyParts(fields)[..n])|;
    assert Spans(BodyParts(fields))[n] == (at, at + |fields[n]|);
    assert |Text(BodyParts(fields))| == at + |fields[n]| + 1;
  }

  /** A sentence fed to the tokenizer in any state is accepted if and only if its checksum is that of
      its body, with exactly its fields as tokens; and the tokenizer is back at the start. */
  lemma SentenceAccepted(st: Nmea, fields: seq<seq<Byte>>, sum: seq<Byte>)
    requires |fields| >= 2 && AllPlain(fields) && Plain(sum)
    ensures Run(st, Sentence(fields, sum)) == START
    ensures Accepted(st, Sentence(fields, sum)) == if Xor(Body(fields)) as int == HexToInt(sum) then [fields + [sum]]
      else []
  {
    var text := Body(fields) + [STAR] + sum + [CR];
    SentenceRead(fields, sum);
    var end := Run(START, text);
    RunOne(st, DOLLAR);
    RunConcat(st, [DOLLAR], text + [LF]);
    RunConcat(START, text, [LF]);
    RunOne(end, LF);
    assert Token(end, |fields|) == Tokens(end)[|fields|] == sum;
  }

  function HexChar(n: int): Byte
    requires 0 <= n < 16
  {
    if n < 10 then (48 + n) as Byte else (55 + n) as Byte
  }

  /** Two upper-case digits, as a checksum is printed. */
  function PrintedSum(x: Byte): seq<Byte> {
    [HexChar(x as int / 16), HexChar(x as int % 16)]
  }

  lemma HexCharIsPlain(n: int)
    requires 0 <= n < 16
    ensures Plain([HexChar(n)])
  {
  }

  lemma HexCharIs(n: int)
    requires 0 <= n < 16
    ensures HexDigit(HexChar(n)) == Some(n)
  {
    if n < 10 {
      Digit((48 + n) as Byte, n);
    } else {
      Letter((55 + n) as Byte, n);
    }
  }

  lemma Digit(c: Byte, n: int)
    requires c as int == 48 + n && 0 <= n < 10
    ensures HexDigit(c) == Some(n)
  {
  }

  lemma Letter(c: Byte, n: int)
    requires c as int == 55 + n && 10 <= n < 16
    ensures HexDigit(c) == Some(n)
  {
  }

  lemma PrintedSumIs(x: Byte)
    ensures Plain(PrintedSum(x)) && HexToInt(PrintedSum(x)) == x as int
  {
    hide HexChar, HexDigit, HexToInt;
    var a, b := x as int / 16, x as int % 16;
    HexCharIs(a);
    HexCharIs(b);
    HexCharIsPlain(a);
    HexCharIsPlain(b);
    assert [HexChar(a)][0] == PrintedSum(x)[0] && [HexChar(b)][0] == PrintedSum(x)[1];
    TwoDigits(HexChar(a), HexChar(b), a, b);
  }

  lemma TwoDigits(c: Byte, d: Byte, a: int, b: int)
    requires HexDigit(c) == Some(a) && HexDigit(d) == Some(b) && 0 <= a < 16 && 0 <= b < 16
    ensures HexToInt([c, d]) == a * 16 + b
  {
    hide HexDigit;
    assert [c, d][..1] == [c] && [c][..0] == [];
    assert HexValue([c]) == a;
  }

  lemma BytesDiffer(x: Byte, y: Byte)
    ensures x as int == y as int <==> x == y
  {
  }

  /** A sentence with the checksum printed for its body is accepted, one with the checksum printed for
      any other value is not. */
  lemma PrintedSentence(st: Nmea, fields: seq<seq<Byte>>, x: Byte, sum: seq<Byte>)
    requires |fields| >= 2 && AllPlain(fields) && sum == PrintedSum(x)
    ensures Accepted(st, Sentence(fields, sum)) == if x == Xor(Body(fields)) then [fields + [sum]] else []
  {
    PrintedSumIs(x);
    BytesDiffer(x, Xor(Body(fields)));
    SentenceAccepted(st, fields, sum);
  }

  /** A sentence with hexadecimal digits for a checksum, however many, is accepted if and only if their
      value is that of its body modulo 2^32. */
  lemma DigitsAccepted(st: Nmea, fields: seq<seq<Byte>>, sum: seq<Byte>)
    requires |fields| >= 2 && AllPlain(fields) && AllHex(sum)
    ensures Accepted(st, Sentence(fields, sum)) == if HexValue(sum) % U32 == Xor(Body(fields)) as int
      then [fields + [sum]] else []
  {
    HexIsPlain(sum);
    SentenceAccepted(st, fields, sum);
    Int32Is(HexValue(sum), Xor(Body(fields)) as int);
  }

  lemma Int32Is(x: int, y: int)
    requires 0 <= y < 256
    ensures Int32(x) == y <==> x % U32 == y
  {
  }

  lemma HexIsPlain(s: seq<Byte>)
    requires AllHex(s)
    ensures Plain(s)
  {
    forall i | 0 <= i < |s| ensures s[i] != DOLLAR && s[i] != LF && !Separates(s[i]) { assert HexDigit(s[i]).Some?; }
  }

  lemma HexValueNext(s: seq<Byte>, c: Byte, n: int)
    requires AllHex(s) && HexDigit(c) == Some(n)
    ensures AllHex(s + [c]) && HexValue(s + [c]) == HexValue(s) * 16 + n
  {
    assert (s + [c])[..|s|] == s;
  }

  /** A digit 1 and `n` digits 0. */
  function OneAndZeros(n: nat): (s: seq<Byte>)
    ensures |s| == n + 1
  {
    if n == 0 then [49] else OneAndZeros(n - 1) + [48]
  }

  lemma FourMoreBits(k: nat)
    ensures Pow2(4 + k) == Pow2(k) * 16
  {
    Pow2Adds(4, k);
    assert Pow2(4) == 16;
  }

  lemma {:induction false} OneAndZerosIs(n: nat)
    ensures AllHex(OneAndZeros(n)) && HexValue(OneAndZeros(n)) == Pow2(4 * n)
  {
    if n == 0 {
      HexValueNext([], 49, 1);
      assert [] + [49] == OneAndZeros(0);
    } else {
      OneAndZerosIs(n - 1);
      HexValueNext(OneAndZeros(n - 1), 48, 0);
      FourMoreBits(4 * (n - 1));
    }
  }

  /** Digits in front of a printed checksum. */
  lemma LongSum(front: seq<Byte>, x: Byte)
    requires AllHex(front)
    ensures AllHex(front + PrintedSum(x)) && HexValue(front + PrintedSum(x)) == HexValue(front) * 256 + x as int
  {
    hide HexChar, HexDigit, HexValue;
    var a, b := x as int / 16, x as int % 16;
    HexCharIs(a);
    HexCharIs(b);
    HexValueNext(front, HexChar(a), a);
    HexValueNext(front + [HexChar(a)], HexChar(b), b);
    assert front + PrintedSum(x) == front + [HexChar(a)] + [HexChar(b)];
  }

  lemma XorOfTwo(a: Byte, b: Byte)
    ensures Xor([a, b]) == a ^ b
  {
    assert [a][..0] == [];
    assert Xor([a]) == 0 ^ a == a;
    assert [a, b][..1] == [a];
  }

  lemma SixZeros()
    ensures OneAndZeros(6) == [49, 48, 48, 48, 48, 48, 48]
  {
    assert OneAndZeros(2) == [49, 48, 48];
    assert OneAndZeros(4) == [49, 48, 48, 48, 48];
  }

  lemma NineDigitsIs(x: Byte)
    ensures var sum := OneAndZeros(6) + PrintedSum(x);
      AllHex(sum) && HexValue(sum) == U32 + x as int && HexValue(sum) % U32 == x as int
  {
    hide HexValue, PrintedSum, OneAndZeros, AllHex, Pow2;
    OneAndZerosIs(6);
    LongSum(OneAndZeros(6), x);
    Pow2Adds(24, 8);
    WordSizes();
    AddMultiple(x as int, 1);
  }

  /** Seven digits in front of the printed checksum, a 1 and six 0, are lost to the 32-bit word: the
      value of the nine digits is not the checksum, but the sentence is accepted. */
  lemma NineDigits(st: Nmea, fields: seq<seq<Byte>>)
    requires |fields| >= 2 && AllPlain(fields)
    ensures var x, sum := Xor(Body(fields)), OneAndZeros(6) + PrintedSum(Xor(Body(fields)));
      && AllHex(sum) && HexValue(sum) == U32 + x as int != x as int
      && Accepted(st, Sentence(fields, sum)) == [fields + [sum]]
  {
    hide HexValue, PrintedSum, OneAndZeros, AllHex, AllPlain, Accepted, Sentence, Body, Xor;
    NineDigitsIs(Xor(Body(fields)));
    DigitsAccepted(st, fields, OneAndZeros(6) + PrintedSum(Xor(Body(fields))));
  }

  lemma PrintedInstance()
    ensures PrintedSum(0x6d) == [54, 68]
  {
  }

  lemma BodyInstance()
    ensures Body([[65], []]) == [65, COMMA] && Xor([65, COMMA]) == 0x6d
  {
    var fields: seq<seq<Byte>> := [[65], []];
    assert fields[..1] == [[65]];
    XorOfTwo(65, COMMA);
  }

  /** For instance `$A,*10000006D`, where the body is `A,`. */
  lemma NineDigitsAt(st: Nmea)
    ensures var fields: seq<seq<Byte>>, sum: seq<Byte> := [[65], []], [49, 48, 48, 48, 48, 48, 48, 54, 68];
      && Xor(Body(fields)) == 0x6d && AllHex(sum) && HexValue(sum) == 0x1_0000_006d
      && Accepted(st, Sentence(fields, sum)) == [fields + [sum]]
  {
    hide HexValue, HexDigit, AllHex, Accepted, Sentence, Body, Xor, PrintedSum, OneAndZeros;
    BodyInstance();
    NineDigits(st, [[65], []]);
    SixZeros();
    PrintedInstance();
    assert OneAndZeros(6) + PrintedSum(0x6d) == [49, 48, 48, 48, 48, 48, 48, 54, 68];
  }

  /** Where the bytes come from, in pieces of any size: of `line`, the first `come` bytes have come so
      far, and more may come at any time. */
  class Source {
    const line: seq<Byte>
    var come: nat
    var taken: nat

    constructor (line: seq<Byte>)
      ensures this.line == line && taken == come == 0
    {
      this.line, taken, come := line, 0, 0;
    }

    ghost predicate Valid()
      reads this
    {
      taken <= come <= |line|
    }

    /** Some of the bytes that have come; none only if there are none. */
    method Read(size: nat) returns (s: seq<Byte>)
      requires Valid() && size > 0
      modifies this
      ensures Valid() && taken == old(taken) + |s| && |s| <= size && old(come) <= come
      ensures s == line[old(taken)..taken]
      ensures s == [] ==> taken == come
    {
      var more, n := *, *;
      come := if come <= more <= |line| then more else come;
      var most := if come - taken < size then come - taken else size;
      n := if 0 < n <= most then n else most;
      s := line[taken..taken + n];
      taken := taken + n;
    }
  }

  class Receiver {
    const source: Source
    var buffer: seq<Byte>
    var dindex: int
    var tokens: seq<(int, int)>
    ghost var sentences: seq<seq<seq<Byte>>>

    constructor (source: Source)
      requires source.Valid() && source.taken == 0
      ensures Valid() && this.source == source && sentences == []
    {
      this.source, buffer, dindex, tokens, sentences := source, [], 0, [], [];
    }

    function Now(): Nmea
      reads this
    {
      Nmea(buffer, dindex, tokens)
    }

    /** The tokenizer and the sentences accepted so far follow from the bytes taken, however they were
        cut into pieces. */
    ghost predicate Valid()
      reads this, source
    {
      source.Valid() && After(source.line, source.taken)
    }

    ghost predicate After(line: seq<Byte>, k: nat)
      requires k <= |line|
      reads this
    {
      Now() == Run(START, line[..k]) && sentences == Accepted(START, line[..k])
    }

    /** Whether the sentence that ends here has the right checksum. */
    method Check() returns (ok: bool)
      ensures ok <==> Accepts(Now())
    {
      var n := |tokens|;
      if n <= 2 {
        return false;
      }
      var summed := Summed(Now());
      var cksum: Byte := 0;
      for j := 0 to |summed|
        invariant cksum == Xor(summed[..j])
      {
        assert summed[..j + 1][..j] == summed[..j];
        cksum := cksum ^ summed[j];
      }
      assert summed[..|summed|] == summed;
      var given := HexToIntLoop(Token(Now(), n - 1));
      ok := cksum as int == given;
    }

    /** One byte; true if it ends a sentence that is accepted. */
    method Feed(c: Byte) returns (update: bool)
      modifies this`buffer, this`dindex, this`tokens, this`sentences
      ensures Now() == Step(old(Now()), c)
      ensures sentences == old(sentences) + Emits(old(Now()), c)
      ensures update <==> Emits(old(Now()), c) != []
    {
      update := false;
      if c == DOLLAR {
        buffer, dindex, tokens := [], 0, [];
      } else if Separates(c) {
        tokens := tokens + [(|buffer| - dindex, |buffer|)];
        buffer := buffer + [c];
        dindex := 0;
      } else if c == LF {
        update := Check();
        if update {
          sentences := sentences + [Tokens(Now())];
        }
        buffer, dindex, tokens := [], 0, [];
      } else {
        buffer := buffer + [c];
        dindex := dindex + 1;
      }
    }

    /** Takes all that has come; true if a sentence was accepted. */
    method Refresh() returns (update: bool)
      requires Valid()
      modifies this, source
      ensures Valid() && source.taken == source.come >= old(source.come)
      ensures sentences == Accepted(START, source.line[..source.taken])
      ensures old(sentences) <= sentences && (update <==> sentences != old(sentences))
    {
      update := false;
      while true
        invariant Valid() && source.come >= old(source.come)
        invariant old(sentences) <= sentences && (update <==> sentences != old(sentences))
        decreases |source.line| - source.taken
      {
        ghost var at := source.taken;
        var buf := source.Read(256);
        if |buf| == 0 {
          break;
        }
        var more := FeedAll(buf, source.line, at);
        update := update || more;
      }
    }

    method FeedAll(buf: seq<Byte>, ghost line: seq<Byte>, ghost at: nat) returns (update: bool)
      requires at + |buf| <= |line| && buf == line[at..at + |buf|] && After(line, at)
      modifies this`buffer, this`dindex, this`tokens, this`sentences
      ensures After(line, at + |buf|)
      ensures old(sentences) <= sentences && (update <==> sentences != old(sentences))
    {
      update := false;
      for i := 0 to |buf|
        invariant After(line, at + i)
        invariant old(sentences) <= sentences && (update <==> sentences != old(sentences))
      {
        TakenNext(line, at + i);
        var accepted := Feed(buf[i]);
        update := update || accepted;
      }
    }
  }

  lemma TakenNext(s: seq<Byte>, k: nat)
    requires k < |s|
    ensures Run(START, s[..k + 1]) == Step(Run(START, s[..k]), s[k])
    ensures Accepted(START, s[..k + 1]) == Accepted(START, s[..k]) + Emits(Run(START, s[..k]), s[k])
  {
    RunConcat(START, s[..k], [s[k]]);
    RunOne(Run(START, s[..k]), s[k]);
    assert s[..k] + [s[k]] == s[..k + 1];
  }
}
