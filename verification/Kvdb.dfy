/** The text in which src/driver/nvmem/nvmem.c keeps its key/value store, and how it reads it back. */
module Kvdb {
  type Char = c: nat | c < 256
  type Text = seq<Char>

  const NUL: Char := 0
  const TAB: Char := 9
  const LF: Char := 10
  const CR: Char := 13
  const SPACE: Char := 32
  const SEMICOLON: Char := 59
  const EQUALS: Char := 61

  predicate IsSpace(c: Char) {
    c == SPACE || TAB <= c < TAB + 5
  }

  /** What separates entries. */
  predicate Ends(c: Char) {
    c == SEMICOLON || c == CR || c == LF
  }

  // Scanning

  /** The position of the first separator of entries, or the length. */
  function EndOf(s: Text): (i: nat)
    ensures i <= |s| && (i < |s| ==> Ends(s[i])) && forall j :: 0 <= j < i ==> !Ends(s[j])
  {
    if s == [] || Ends(s[0]) then 0 else
      var i := EndOf(s[1..]);
      assert forall j :: 1 <= j < 1 + i ==> s[j] == s[1..][j - 1];
      1 + i
  }

  /** The position of the first `c`, or the length. */
  function Find(s: Text, c: Char): (i: nat)
    ensures i <= |s| && (i < |s| ==> s[i] == c) && forall j :: 0 <= j < i ==> s[j] != c
  {
    if s == [] || s[0] == c then 0 else
      var i := Find(s[1..], c);
      assert forall j :: 1 <= j < 1 + i ==> s[j] == s[1..][j - 1];
      1 + i
  }

  function TrimLeft(s: Text): Text {
    if s != [] && IsSpace(s[0]) then TrimLeft(s[1..]) else s
  }

  function TrimRight(s: Text): Text {
    if s != [] && IsSpace(s[|s| - 1]) then TrimRight(s[..|s| - 1]) else s
  }

  function Trim(s: Text): Text {
    TrimRight(TrimLeft(s))
  }

  predicate Trimmed(s: Text) {
    s != [] ==> !IsSpace(s[0]) && !IsSpace(s[|s| - 1])
  }

  lemma {:induction false} TrimLeftIs(s: Text)
    ensures TrimLeft(s) != [] ==> !IsSpace(TrimLeft(s)[0])
    ensures |TrimLeft(s)| <= |s| && TrimLeft(s) == s[|s| - |TrimLeft(s)|..]
  {
    if s != [] && IsSpace(s[0]) {
      TrimLeftIs(s[1..]);
    }
  }

  lemma {:induction false} TrimRightIs(s: Text)
    ensures |TrimRight(s)| <= |s| && TrimRight(s) == s[..|TrimRight(s)|]
    ensures TrimRight(s) != [] ==> !IsSpace(TrimRight(s)[|TrimRight(s)| - 1])
  {
    if s != [] && IsSpace(s[|s| - 1]) {
      TrimRightIs(s[..|s| - 1]);
    }
  }

  predicate Blank(s: Text) {
    forall i :: 0 <= i < |s| ==> IsSpace(s[i])
  }

  lemma {:induction false} TrimLeftBlank(s: Text)
    ensures |TrimLeft(s)| <= |s| && Blank(s[..|s| - |TrimLeft(s)|])
  {
    TrimLeftIs(s);
    if s != [] && IsSpace(s[0]) {
      TrimLeftBlank(s[1..]);
      var n := |s| - |TrimLeft(s)|;
      assert s[..n] == [s[0]] + s[1..][..n - 1];
    }
  }

  lemma {:induction false} TrimRightBlank(s: Text)
    ensures |TrimRight(s)| <= |s| && Blank(s[|TrimRight(s)|..])
  {
    TrimRightIs(s);
    if s != [] && IsSpace(s[|s| - 1]) {
      TrimRightBlank(s[..|s| - 1]);
      var n := |TrimRight(s)|;
      assert s[n..] == s[..|s| - 1][n..] + [s[|s| - 1]];
    }
  }

  lemma TrimIsTrimmed(s: Text)
    ensures Trimmed(Trim(s)) && forall c :: c in Trim(s) ==> c in s
    ensures Trimmed(s) ==> Trim(s) == s
  {
    TrimLeftIs(s);
    TrimRightIs(TrimLeft(s));
  }

  /** Trimming takes away blanks at both ends and nothing else. */
  lemma TrimIsPart(s: Text)
    ensures exists i, j :: 0 <= i <= j <= |s| && Trim(s) == s[i..j] && Blank(s[..i]) && Blank(s[j..])
  {
    var t := TrimLeft(s);
    var i := |s| - |t|;
    var j := i + |Trim(s)|;
    TrimLeftIs(s);
    TrimRightIs(t);
    TrimLeftBlank(s);
    TrimRightBlank(t);
    assert Trim(s) == s[i..j] && s[j..] == t[|Trim(s)|..];
  }

  /** Whatever blanks are put around a trimmed text, trimming takes just them away. */
  lemma {:induction false} TrimAround(a: Text, s: Text, b: Text)
    requires Blank(a) && Blank(b) && Trimmed(s)
    ensures Trim(a + s + b) == s
    decreases |a|, |b|
  {
    var w := a + s + b;
    if a != [] {
      TrimAround(a[1..], s, b);
      assert w[0] == a[0] && w[1..] == a[1..] + s + b;
    } else if s == [] {
      AllBlank(b);
      assert w == b;
    } else {
      assert w[0] == s[0];
      TrimRightAround(s, b);
      assert w == s + b;
    }
  }

  lemma {:induction false} AllBlank(s: Text)
    requires Blank(s)
    ensures TrimLeft(s) == []
  {
    if s != [] { AllBlank(s[1..]); }
  }

  lemma {:induction false} TrimRightAround(s: Text, b: Text)
    requires Blank(b) && s != [] && !IsSpace(s[|s| - 1])
    ensures TrimRight(s + b) == s
  {
    if b == [] {
      assert s + b == s;
    } else {
      var w, n := s + b, |b| - 1;
      TrimRightAround(s, b[..n]);
      assert w[|w| - 1] == b[n] && w[..|w| - 1] == s + b[..n];
    }
  }

  // Entries

  type Store = map<Text, Text>

  function Printed(k: Text, v: Text): Text {
    k + [EQUALS] + v + [SEMICOLON]
  }

  /** What an entry, without its separator, does to the store. */
  function Apply(m: Store, entry: Text): Store {
    var i := Find(entry, EQUALS);
    if i == |entry| then m
    else
      var k, v := Trim(entry[..i]), Trim(entry[i + 1..]);
      if k != [] && v != [] then m[k := v] else m
  }

  function Parse(m: Store, s: Text): Store
    decreases |s|
  {
    var i := EndOf(s);
    if i == |s| then Apply(m, s) else Parse(Apply(m, s[..i]), s[i + 1..])
  }

  predicate Plain(s: Text) {
    s != [] && Trimmed(s) && forall i :: 0 <= i < |s| ==> s[i] != NUL && !Ends(s[i])
  }

  /** The entries that the text can hold. */
  predicate Clean(k: Text, v: Text) {
    Plain(k) && Plain(v) && EQUALS !in k
  }

  ghost predicate AllClean(m: Store) {
    forall k :: k in m ==> Clean(k, m[k])
  }

  /** Only such entries are ever read. */
  lemma ApplyClean(m: Store, entry: Text)
    requires AllClean(m) && NUL !in entry && forall i :: 0 <= i < |entry| ==> !Ends(entry[i])
    ensures AllClean(Apply(m, entry))
  {
    hide Trim, TrimLeft, TrimRight, IsSpace, Trimmed;
    var i := Find(entry, EQUALS);
    if i < |entry| {
      TrimIsTrimmed(entry[..i]);
      TrimIsTrimmed(entry[i + 1..]);
      TrimmedPlain(entry[..i]);
      TrimmedPlain(entry[i + 1..]);
    }
  }

  lemma TrimmedPlain(s: Text)
    requires NUL !in s && forall i :: 0 <= i < |s| ==> !Ends(s[i])
    ensures Trim(s) != [] ==> Plain(Trim(s))
  {
    TrimIsTrimmed(s);
    forall i | 0 <= i < |Trim(s)| ensures Trim(s)[i] != NUL && !Ends(Trim(s)[i]) {
      assert Trim(s)[i] in s;
    }
  }

  lemma {:induction false} ParseClean(m: Store, s: Text)
    requires AllClean(m) && NUL !in s
    ensures AllClean(Parse(m, s))
    decreases |s|
  {
    var i := EndOf(s);
    ApplyClean(m, s[..i]);
    if i < |s| {
      ParseClean(Apply(m, s[..i]), s[i + 1..]);
    } else {
      assert s[..i] == s;
    }
  }

  lemma ApplyEntry(m: Store, k: Text, v: Text)
    requires Clean(k, v)
    ensures Apply(m, k + [EQUALS] + v) == m[k := v]
  {
    var e := k + [EQUALS] + v;
    assert e[|k|] == EQUALS;
    var i := Find(e, EQUALS);
    assert forall j :: 0 <= j < |k| ==> e[j] == k[j];
    assert i == |k|;
    assert e[..i] == k && e[i + 1..] == v;
    TrimIsTrimmed(k);
    TrimIsTrimmed(v);
  }

  /** A printed entry is read as what it was printed from. */
  lemma ParseEntry(m: Store, k: Text, v: Text, rest: Text)
    requires Clean(k, v)
    ensures Parse(m, Printed(k, v) + rest) == Parse(m[k := v], rest)
  {
    var e, s := k + [EQUALS] + v, Printed(k, v) + rest;
    assert s[|e|] == SEMICOLON;
    var i := EndOf(s);
    forall j | 0 <= j < |e| ensures !Ends(s[j]) {
      assert s[j] == if j < |k| then k[j] else if j == |k| then EQUALS else v[j - |k| - 1];
    }
    assert i == |e|;
    assert s[..i] == e && s[i + 1..] == rest;
    ApplyEntry(m, k, v);
  }

  // Text that was not printed

  /** The first separator of `s + [c] + rest`. */
  lemma EndAt(s: Text, c: Char, rest: Text)
    requires Ends(c) && forall i :: 0 <= i < |s| ==> !Ends(s[i])
    ensures EndOf(s + [c] + rest) == |s|
  {
    var t := s + [c] + rest;
    assert t[|s|] == c;
    assert forall j :: 0 <= j < |s| ==> t[j] == s[j];
  }

  /** An entry with any blanks around its key and its value, which are not separators themselves. */
  function Spaced(a: Text, k: Text, b: Text, c: Text, v: Text, d: Text): Text {
    a + k + b + [EQUALS] + (c + v + d)
  }

  lemma ApplySpaced(m: Store, a: Text, k: Text, b: Text, c: Text, v: Text, d: Text)
    requires Blank(a) && Blank(b) && Blank(c) && Blank(d) && Clean(k, v)
    ensures Apply(m, Spaced(a, k, b, c, v, d)) == m[k := v]
  {
    var h, t := a + k + b, c + v + d;
    var e := h + [EQUALS] + t;
    forall j | 0 <= j < |h| ensures e[j] != EQUALS {
      assert h[j] == if j < |a| then a[j] else if j < |a| + |k| then k[j - |a|] else b[j - |a| - |k|];
      if |a| <= j < |a| + |k| { assert h[j] in k; }
    }
    assert e[|h|] == EQUALS && Find(e, EQUALS) == |h|;
    assert e[..|h|] == h && e[|h| + 1..] == t;
    TrimAround(a, k, b);
    TrimAround(c, v, d);
  }

  /** Such an entry is read as its key and value, whichever of the three separators ends it. */
  lemma ParseSpaced(m: Store, a: Text, k: Text, b: Text, c: Text, v: Text, d: Text, end: Char, rest: Text)
    requires Blank(a) && Blank(b) && Blank(c) && Blank(d) && Clean(k, v)
    requires end == SEMICOLON || end == CR || end == LF
    requires forall i :: 0 <= i < |Spaced(a, k, b, c, v, d)| ==> !Ends(Spaced(a, k, b, c, v, d)[i])
    ensures Parse(m, Spaced(a, k, b, c, v, d) + [end] + rest) == Parse(m[k := v], rest)
  {
    var e := Spaced(a, k, b, c, v, d);
    var s := e + [end] + rest;
    EndAt(e, end, rest);
    ApplySpaced(m, a, k, b, c, v, d);
    assert s[..|e|] == e && s[|e| + 1..] == rest;
  }

  /** The last entry needs no separator. */
  lemma ParseLast(m: Store, a: Text, k: Text, b: Text, c: Text, v: Text, d: Text)
    requires Blank(a) && Blank(b) && Blank(c) && Blank(d) && Clean(k, v)
    requires forall i :: 0 <= i < |Spaced(a, k, b, c, v, d)| ==> !Ends(Spaced(a, k, b, c, v, d)[i])
    ensures Parse(m, Spaced(a, k, b, c, v, d)) == m[k := v]
  {
    var e := Spaced(a, k, b, c, v, d);
    assert EndOf(e) == |e|;
    ApplySpaced(m, a, k, b, c, v, d);
  }

  /** What has no equals sign, or nothing but blanks on one side of its first one, which is at `at`, is
      skipped. */
  lemma ParseSkips(m: Store, e: Text, at: nat, end: Char, rest: Text)
    requires (end == SEMICOLON || end == CR || end == LF) && forall i :: 0 <= i < |e| ==> !Ends(e[i])
    requires at <= |e| && EQUALS !in e[..at]
    requires at < |e| ==> e[at] == EQUALS && (Blank(e[..at]) || Blank(e[at + 1..]))
    ensures Parse(m, e + [end] + rest) == Parse(m, rest)
  {
    var s := e + [end] + rest;
    EndAt(e, end, rest);
    assert s[..|e|] == e && s[|e| + 1..] == rest;
    assert forall j :: 0 <= j < at ==> e[j] == e[..at][j];
    assert Find(e, EQUALS) == at;
    if at < |e| {
      if Blank(e[..at]) { AllBlank(e[..at]); } else { AllBlank(e[at + 1..]); }
    }
  }

  // Printing

  /** The keys of a store, each once, in some order. */
  ghost predicate Enumerates(order: seq<Text>, m: Store) {
    && (forall i :: 0 <= i < |order| ==> order[i] in m)
    && (forall k :: k in m ==> k in order)
    && (forall i, j :: 0 <= i < j < |order| ==> order[i] != order[j])
  }

  ghost predicate Within(order: seq<Text>, m: Store) {
    forall i :: 0 <= i < |order| ==> order[i] in m
  }

  /** The entries printed until the next one and the terminator do not fit in `room` any more. */
  ghost function Print(m: Store, order: seq<Text>, room: int): Text
    requires Within(order, m)
  {
    if order == [] then []
    else
      var e := Printed(order[0], m[order[0]]);
      if |e| + 1 > room then [] else e + Print(m, order[1..], room - |e|)
  }

  /** How many entries that is. */
  ghost function Fitting(m: Store, order: seq<Text>, room: int): (n: nat)
    requires Within(order, m)
    ensures n <= |order|
  {
    if order == [] then 0
    else
      var e := Printed(order[0], m[order[0]]);
      if |e| + 1 > room then 0 else 1 + Fitting(m, order[1..], room - |e|)
  }

  ghost function Length(m: Store, order: seq<Text>): nat
    requires Within(order, m)
  {
    if order == [] then 0 else |Printed(order[0], m[order[0]])| + Length(m, order[1..])
  }

  lemma {:induction false} FittingAll(m: Store, order: seq<Text>, room: int)
    requires Within(order, m) && room > 0
    ensures Fitting(m, order, room) == |order| <==> Length(m, order) < room
    ensures |Print(m, order, room)| < room
    ensures Length(m, order) < room ==> |Print(m, order, room)| == Length(m, order)
  {
    if order != [] {
      var e := Printed(order[0], m[order[0]]);
      if |e| + 1 <= room { FittingAll(m, order[1..], room - |e|); }
    }
  }

  /** The part of a store with the given keys. */
  ghost function Restrict(m: Store, keys: seq<Text>): Store
    requires Within(keys, m)
  {
    map k | k in keys :: m[k]
  }

  /** What is printed is read as the entries that fitted. */
  lemma {:induction false} ParsePrint(acc: Store, m: Store, order: seq<Text>, room: int)
    requires Within(order, m) && AllClean(m)
    ensures Parse(acc, Print(m, order, room)) == acc + Restrict(m, order[..Fitting(m, order, room)])
    decreases |order|
  {
    var n := Fitting(m, order, room);
    if n == 0 {
      assert Print(m, order, room) == [] && Restrict(m, order[..0]) == map[];
      assert acc + map[] == acc;
    } else {
      var k, rest := order[0], order[1..];
      var left := room - |Printed(k, m[k])|;
      assert n == 1 + Fitting(m, rest, left);
      ParseEntry(acc, k, m[k], Print(m, rest, left));
      ParsePrint(acc[k := m[k]], m, rest, left);
      RestrictOn(acc, m, order, n);
    }
  }

  lemma RestrictOn(acc: Store, m: Store, order: seq<Text>, n: nat)
    requires Within(order, m) && 0 < n <= |order|
    ensures acc[order[0] := m[order[0]]] + Restrict(m, order[1..][..n - 1]) == acc + Restrict(m, order[..n])
  {
    assert order[..n] == [order[0]] + order[1..][..n - 1];
  }

  lemma {:induction false} PrintHasNoNul(m: Store, order: seq<Text>, room: int)
    requires Within(order, m) && NoNuls(m)
    ensures NUL !in Print(m, order, room)
  {
    if order != [] {
      var e := Printed(order[0], m[order[0]]);
      if |e| + 1 <= room { PrintHasNoNul(m, order[1..], room - |e|); }
    }
  }

  /** Keys and values are C strings. */
  ghost predicate NoNuls(m: Store) {
    forall k :: k in m ==> NUL !in k && NUL !in m[k]
  }

  lemma RestrictAll(m: Store, order: seq<Text>, n: nat)
    requires Enumerates(order, m) && n <= |order|
    ensures Within(order, m) && (map[] + Restrict(m, order[..n]) == m <==> n == |order|)
  {
    var part := Restrict(m, order[..n]);
    assert map[] + part == part;
    if n == |order| {
      assert order[..n] == order;
    } else {
      assert order[n] in m && order[n] !in part;
    }
  }

  /** The text that is printed reads back as the store exactly if all entries are clean and all fit. */
  lemma PrintReadsBack(m: Store, order: seq<Text>, room: int)
    requires Enumerates(order, m) && NoNuls(m) && room > 0
    ensures Parse(map[], Print(m, order, room)) == m <==> AllClean(m) && Length(m, order) < room
  {
    var n := Fitting(m, order, room);
    PrintHasNoNul(m, order, room);
    ParseClean(map[], Print(m, order, room));
    FittingAll(m, order, room);
    if AllClean(m) {
      ParsePrint(map[], m, order, room);
      RestrictAll(m, order, n);
    }
  }

  // The length does not depend on the order

  function Remove(m: Store, k: Text): Store {
    m - {k}
  }

  ghost function TotalLength(m: Store): nat {
    if m == map[] then 0 else var k :| k in m; |Printed(k, m[k])| + TotalLength(Remove(m, k))
  }

  lemma {:induction false} TotalWithout(m: Store, k: Text)
    requires k in m
    ensures TotalLength(m) == |Printed(k, m[k])| + TotalLength(Remove(m, k))
  {
    var j :| j in m && TotalLength(m) == |Printed(j, m[j])| + TotalLength(Remove(m, j));
    if j != k {
      TotalWithout(Remove(m, j), k);
      TotalWithout(Remove(m, k), j);
      assert Remove(Remove(m, j), k) == Remove(Remove(m, k), j);
    }
  }

  lemma TailEnumerates(m: Store, order: seq<Text>)
    requires Enumerates(order, m) && order != []
    ensures Enumerates(order[1..], Remove(m, order[0]))
  {
    assert forall j :: j in order && j != order[0] ==> j in order[1..];
  }

  lemma {:induction false} LengthIsTotal(m: Store, order: seq<Text>)
    requires Enumerates(order, m)
    ensures Length(m, order) == TotalLength(m)
  {
    if order == [] {
      assert m == map[];
    } else {
      var k, rest := order[0], order[1..];
      var m' := Remove(m, k);
      TotalWithout(m, k);
      TailEnumerates(m, order);
      LengthIsTotal(m', rest);
      LengthSame(m, m', rest);
    }
  }

  lemma {:induction false} LengthSame(m: Store, m': Store, order: seq<Text>)
    requires Within(order, m) && Within(order, m')
    requires forall i :: 0 <= i < |order| ==> m[order[i]] == m'[order[i]]
    ensures Length(m, order) == Length(m', order)
  {
    if order != [] { LengthSame(m, m', order[1..]); }
  }
}
