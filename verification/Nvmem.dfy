/** Non-volatile memory and the key/value store kept in it (src/driver/nvmem/nvmem.c). */
module Nvmem {
  import opened Wrappers
  import opened Arith
  import opened Medium
  import opened Kvdb

  type Word = x: nat | x < U32

  /** `n` bytes of `x`, least significant first. */
  function LeBytes(x: nat, n: nat): (r: Text)
    ensures |r| == n
  {
    if n == 0 then [] else [x % 256] + LeBytes(x / 256, n - 1)
  }

  function LeValue(s: Text): nat {
    if s == [] then 0 else s[0] + 256 * LeValue(s[1..])
  }

  lemma {:induction false} LeRoundTrip(x: nat, n: nat)
    requires x < Pow256(n)
    ensures LeValue(LeBytes(x, n)) == x
  {
    if n > 0 {
      LeRoundTrip(x / 256, n - 1);
      assert LeBytes(x, n)[1..] == LeBytes(x / 256, n - 1);
    }
  }

  /** The least significant byte comes first. */
  lemma {:induction false} LeByteAt(x: nat, n: nat, i: nat)
    requires i < n
    ensures LeBytes(x, n)[i] == x / Pow256(i) % 256
  {
    if i > 0 {
      LeByteAt(x / 256, n - 1, i - 1);
      QuotientTwice(x, 256, Pow256(i - 1));
    }
  }

  lemma QuotientTwice(x: nat, a: nat, b: nat)
    requires a > 0 && b > 0
    ensures a * b > 0 && x / (a * b) == x / a / b
  {
    var q := x / a / b;
    var s := x / a % b;
    assert x / a == q * b + s && x == x / a * a + x % a;
    assert (q * b + s) * a == q * (a * b) + s * a;
    FactorBound(b - s, a);
    assert (b - s) * a == a * b - s * a;
    QuotientUnique(x, a * b, q, s * a + x % a);
  }

  lemma WordRoundTrip(x: Word)
    ensures LeValue(LeBytes(x, 4)) == x
  {
    assert Pow256(2) == 0x1_0000;
    assert Pow256(4) == U32;
    LeRoundTrip(x, 4);
  }

  // The medium

  function Clamp(x: int, high: nat): (r: nat)
    ensures r <= high && (0 <= x <= high ==> r == x)
  {
    if x < 0 then 0 else if x > high then high else x
  }

  /** A write that stops at the end of the medium. */
  function Written(m: Text, offset: int, data: Text): (r: Text)
    ensures |r| == |m|
  {
    var at := Clamp(offset, |m|);
    Overwrite(m, at, data[..Clamp(|data|, |m| - at)])
  }

  /** The checksum of a store: over the length field and then over the text. */
  function Sum(crc: (Word, Text) -> Word, length: Text, s: Text): Word {
    crc(crc(0, length), s)
  }

  /** With a checksum that is taken piece by piece, this is the checksum of the two in sequence. */
  lemma SumInSequence(crc: (Word, Text) -> Word, length: Text, s: Text)
    requires forall c, a, b :: crc(crc(c, a), b) == crc(c, a + b)
    ensures Sum(crc, length, s) == crc(0, length + s)
  {
  }

  function Header(crc: (Word, Text) -> Word, s: Text): (h: Text)
    ensures |h| == 8
  {
    var length := LeBytes(|s|, 4);
    LeBytes(Sum(crc, length, s), 4) + length
  }

  /** The medium after a flush of the given text. */
  function Flushed(crc: (Word, Text) -> Word, m: Text, text: Text): (r: Text)
    ensures |r| == |m|
  {
    if m == [] then m else Written(Written(m, 0, Header(crc, text + [NUL])), 8, text + [NUL])
  }

  /** A string ends at its first NUL. */
  function CString(s: Text): Text {
    s[..Find(s, NUL)]
  }

  /** Whether the medium holds a store whose length and checksum are right. */
  predicate Loadable(crc: (Word, Text) -> Word, m: Text) {
    |m| > 8 && var l := LeValue(m[4..8]);
    0 < l && l + 8 < |m| && Sum(crc, m[4..8], m[8..8 + l]) == LeValue(m[..4])
  }

  /** The store that is found on the medium at the start. */
  function Loaded(crc: (Word, Text) -> Word, m: Text): Store {
    if Loadable(crc, m) then Parse(map[], CString(m[8..8 + LeValue(m[4..8])])) else map[]
  }

  /** The stores that survive a restart. */
  ghost predicate Storable(m: Store, capacity: nat) {
    m == map[] || (AllClean(m) && TotalLength(m) + 9 < capacity)
  }

  /** What comes behind the first NUL does not count. */
  lemma CStringOf(text: Text, rest: Text)
    requires NUL !in text
    ensures CString(text + [NUL] + rest) == text
  {
    var s := text + [NUL] + rest;
    assert s[|text|] == NUL;
    assert forall j :: 0 <= j < |text| ==> s[j] == text[j] && s[j] in text;
    assert Find(s, NUL) == |text|;
  }

  /** A medium with a good header. */
  lemma LoadedFrom(crc: (Word, Text) -> Word, f: Text, length: Text, sum: Text, s: Text)
    requires |f| > 8 && s != [] && f[4..8] == length && f[..4] == sum
    requires LeValue(length) == |s| && LeValue(sum) == Sum(crc, length, s)
    requires |s| + 8 < |f| ==> f[8..8 + |s|] == s
    ensures Loaded(crc, f) == if |s| + 8 < |f| then Parse(map[], CString(s)) else map[]
  {
    hide Parse, CString, LeValue, Sum;
  }

  /** Nothing is loaded but what lies behind a length that fits and a checksum that is right. */
  lemma LoadedIsSealed(crc: (Word, Text) -> Word, m: Text)
    requires Loaded(crc, m) != map[]
    ensures |m| > 8 && 0 < LeValue(m[4..8]) && LeValue(m[4..8]) + 8 < |m|
    ensures LeValue(m[..4]) == crc(crc(0, m[4..8]), m[8..8 + LeValue(m[4..8])])
  {
  }

  /** The medium after a flush that broke off behind the header and `k` bytes of the text. */
  function Torn(crc: (Word, Text) -> Word, m: Text, text: Text, k: nat): (r: Text)
    requires k <= |text| + 1
    ensures |r| == |m|
  {
    Written(Written(m, 0, Header(crc, text + [NUL])), 8, (text + [NUL])[..k])
  }

  lemma TornMedium(crc: (Word, Text) -> Word, m: Text, text: Text, k: nat)
    requires k <= |text| + 1 && |text| + 9 < |m|
    ensures var s, f := text + [NUL], Torn(crc, m, text, k);
      && f[4..8] == LeBytes(|s|, 4) && f[..4] == LeBytes(Sum(crc, LeBytes(|s|, 4), s), 4)
      && f[8..8 + |s|] == s[..k] + m[8 + k..8 + |s|]
  {
    var s, f := text + [NUL], Torn(crc, m, text, k);
    var h := Header(crc, s);
    var once := Written(m, 0, h);
    assert h[..8] == h && once == h + m[8..];
    assert s[..k][..k] == s[..k];
    assert f == once[..8] + s[..k] + once[8 + k..];
    assert once[..8] == h && once[8 + k..] == m[8 + k..];
    assert f == h + (s[..k] + m[8 + k..]);
    assert f[..4] == h[..4] && f[4..8] == h[4..];
  }

  /** After such a flush the store that is found is that of the new text's beginning with the old one's
      rest if their checksum happens to be the new text's, and empty otherwise. */
  lemma TornFlush(crc: (Word, Text) -> Word, m: Text, text: Text, k: nat)
    requires k <= |text| + 1 && |text| + 9 < |m| < 0x8000_0000
    ensures var s, t := text + [NUL], (text + [NUL])[..k] + m[8 + k..9 + |text|];
      var length := LeBytes(|s|, 4);
      Loaded(crc, Torn(crc, m, text, k)) ==
        if Sum(crc, length, t) == Sum(crc, length, s) then Parse(map[], CString(t)) else map[]
  {
    hide Torn, CString, Parse, Sum, LeBytes;
    var s := text + [NUL];
    var length := LeBytes(|s|, 4);
    TornMedium(crc, m, text, k);
    WordRoundTrip(|s|);
    WordRoundTrip(Sum(crc, length, s));
  }

  lemma CStringHasNoNul(s: Text)
    ensures NUL !in CString(s)
  {
  }

  /** What a flush leaves behind the header is found again, unless it is too long. */
  lemma FlushedIsLoaded(crc: (Word, Text) -> Word, m: Text, text: Text)
    requires 8 < |m| && |text| < |m| < 0x8000_0000 && NUL !in text
    ensures Loaded(crc, Flushed(crc, m, text)) == if |text| + 9 < |m| then Parse(map[], text) else map[]
  {
    var s, f := text + [NUL], Flushed(crc, m, text);
    var length := LeBytes(|s|, 4);
    var sum := LeBytes(Sum(crc, length, s), 4);
    FlushedHeader(crc, m, text);
    WordRoundTrip(|s|);
    WordRoundTrip(Sum(crc, length, s));
    if |s| + 8 < |m| { FlushedText(crc, m, text); }
    LoadedFrom(crc, f, length, sum, s);
    CStringOf(text, []);
    assert s + [] == s;
  }

  lemma FlushedHeader(crc: (Word, Text) -> Word, m: Text, text: Text)
    requires 8 < |m| && |text| < |m|
    ensures var s, f := text + [NUL], Flushed(crc, m, text);
      f[4..8] == LeBytes(|s|, 4) && f[..4] == LeBytes(Sum(crc, LeBytes(|s|, 4), s), 4)
  {
    var s := text + [NUL];
    var h := Header(crc, s);
    var once := Written(m, 0, h);
    assert h[..8] == h && once[..8] == h;
    var f := Written(once, 8, s);
    assert f[..8] == once[..8];
    assert f[..4] == f[..8][..4] && f[4..8] == f[..8][4..];
    assert h[..4] == LeBytes(Sum(crc, LeBytes(|s|, 4), s), 4) && h[4..] == LeBytes(|s|, 4);
  }

  lemma FlushedText(crc: (Word, Text) -> Word, m: Text, text: Text)
    requires |text| + 9 < |m|
    ensures Flushed(crc, m, text)[8..9 + |text|] == text + [NUL]
  {
    var s := text + [NUL];
    assert s[..|s|] == s;
    OverwriteRead(Written(m, 0, Header(crc, s)), 8, s);
  }

  /** A flush and a restart give back the same store exactly if it can be stored, whatever the
      checksum function and whatever was on the medium before. */
  lemma FlushThenLoad(crc: (Word, Text) -> Word, m: Text, store: Store, order: seq<Text>)
    requires |m| < 0x8000_0000 && Enumerates(order, store) && NoNuls(store)
    ensures Loaded(crc, Flushed(crc, m, Print(store, order, |m|))) == store <==> Storable(store, |m|)
  {
    LengthIsTotal(store, order);
    if |m| > 8 {
      var text := Print(store, order, |m|);
      FittingAll(store, order, |m|);
      PrintHasNoNul(store, order, |m|);
      FlushedIsLoaded(crc, m, text);
      PrintReadsBack(store, order, |m|);
      if store == map[] { EmptyStore(store, order); }
    }
  }

  lemma UncleanIsLost(crc: (Word, Text) -> Word, m: Text, store: Store, order: seq<Text>, key: Text)
    requires |m| < 0x8000_0000 && Enumerates(order, store) && NoNuls(store) && key in store && !Clean(key, store[key])
    ensures Loaded(crc, Flushed(crc, m, Print(store, order, |m|))) != store
  {
    FlushThenLoad(crc, m, store, order);
  }

  lemma UntrimmedKey(key: Text, store: Store, order: seq<Text>)
    requires key == [SPACE, 65] && store == map[key := [66]] && order == [key]
    ensures Enumerates(order, store) && NoNuls(store) && key in store && !Clean(key, store[key])
  {
    assert IsSpace(key[0]);
  }

  /** A key that begins with a space does not survive, on any medium with any checksum. */
  lemma UntrimmedIsLost(crc: (Word, Text) -> Word, m: Text, key: Text, store: Store, order: seq<Text>)
    requires |m| < 0x8000_0000 && key == [SPACE, 65] && store == map[key := [66]] && order == [key]
    ensures Enumerates(order, store) && Loaded(crc, Flushed(crc, m, Print(store, order, |m|))) != store
  {
    UntrimmedKey(key, store, order);
    UncleanIsLost(crc, m, store, order, key);
  }

  lemma EmptyStore(store: Store, order: seq<Text>)
    requires Enumerates(order, store) && store == map[]
    ensures Length(store, order) == 0
  {
  }

  class Nvmem {
    const crc: (Word, Text) -> Word
    const cells: array<Char>
    var store: Store
    var dirty: bool
    /** Whether the timer that flushes the store is running. */
    var armed: bool

    /** A store that is not waiting to be flushed is on the medium if it can be stored at all, and
        a store that waits is not forgotten. */
    ghost predicate Valid()
      reads this, cells
    {
      && cells.Length < 0x8000_0000 && NoNuls(store)
      && (dirty ==> armed)
      && (!dirty && Storable(store, cells.Length) ==> Loaded(crc, cells[..]) == store)
    }

    method ReadAt(offset: int, count: int) returns (data: Text)
      ensures var at := Clamp(offset, cells.Length); data == cells[at..at + Clamp(count, cells.Length - at)]
    {
      var at := Clamp(offset, cells.Length);
      data := cells[at..at + Clamp(count, cells.Length - at)];
    }

    method WriteAt(data: Text, offset: int) returns (n: int)
      modifies cells
      ensures cells[..] == Written(old(cells[..]), offset, data)
      ensures n == Clamp(|data|, cells.Length - Clamp(offset, cells.Length))
    {
      var at := Clamp(offset, cells.Length);
      n := Clamp(|data|, cells.Length - at);
      forall i | 0 <= i < n { cells[at + i] := data[i]; }
    }

    /** What a write says that it wrote is what a read at the same place gives back, and no more was
        written than the data. */
    method WriteThenRead(data: Text, offset: int) returns (n: int, back: Text)
      modifies cells
      ensures 0 <= n <= |data| && back == data[..n]
      ensures var at := if offset < 0 then 0 else offset;
        && n == (if at + |data| <= cells.Length then |data| else if at <= cells.Length then cells.Length - at else 0)
        && forall i :: 0 <= i < cells.Length ==> cells[i] == if at <= i < at + n then data[i - at] else old(cells[i])
    {
      n := WriteAt(data, offset);
      OverwriteRead(old(cells[..]), Clamp(offset, cells.Length), data[..n]);
      back := ReadAt(offset, n);
      assert back == cells[..][Clamp(offset, cells.Length)..Clamp(offset, cells.Length) + n];
      assert forall i :: 0 <= i < cells.Length ==> cells[i] == cells[..][i];
    }

    /** Starts with what is on the medium. */
    constructor (crc: (Word, Text) -> Word, cells: array<Char>)
      requires cells.Length < 0x8000_0000
      ensures Valid() && this.crc == crc && this.cells == cells
      ensures store == Loaded(crc, cells[..]) && !dirty
    {
      this.crc, this.cells := crc, cells;
      store, dirty, armed := map[], false, false;
      new;
      InitKvdb();
    }

    method InitKvdb()
      requires cells.Length < 0x8000_0000 && store == map[]
      modifies this`store
      ensures store == Loaded(crc, cells[..]) && NoNuls(store)
    {
      var size := cells.Length;
      if size > 8 {
        var h := ReadAt(0, 8);
        assert h[..4] == cells[..][..4] && h[4..] == cells[..][4..8];
        var c, l := LeValue(h[..4]), LeValue(h[4..]);
        if l > 0 && l + 8 < size {
          var s := ReadAt(8, l);
          assert s == cells[..][8..8 + l];
          if Sum(crc, h[4..], s) == c {
            CStringHasNoNul(s);
            ParseStore(CString(s));
          }
        }
      }
    }

    /** Adds the entries of a text to the store. */
    method ParseStore(s: Text)
      requires NUL !in s && AllClean(store)
      modifies this`store
      ensures store == Parse(old(store), s) && NoNuls(store)
    {
      hide Trim, IsSpace, Ends;
      ParseClean(store, s);
      var p, more := s, true;
      while more
        invariant Parse(old(store), s) == if more then Parse(store, p) else store
        decreases if more then |p| + 1 else 0
      {
        var i := EndOf(p);
        var r := p[..i];
        if i < |p| {
          p := p[i + 1..];
        } else {
          more := false;
          assert r == p;
        }
        var e := Find(r, EQUALS);
        if e < |r| {
          var k, v := Trim(r[..e]), Trim(r[e + 1..]);
          if k != [] && v != [] {
            store := store[k := v];
          }
        }
      }
    }

    method Set(key: Text, value: Option<Text>)
      requires Valid() && NUL !in key && (value.Some? ==> NUL !in value.value)
      modifies this
      ensures Valid()
      ensures store == if value.Some? then old(store)[key := value.value] else old(store) - {key}
      ensures dirty <==> old(dirty) || value.Some? || key in old(store)
    {
      if key in store {
        dirty := true;
        store := store - {key};
      }
      if value.Some? {
        dirty := true;
        store := store[key := value.value];
      }
      if dirty {
        armed := true;
      }
      assert value.None? && key !in old(store) ==> store == old(store) - {key};
    }

    method Get(key: Text, default: Option<Text>) returns (v: Option<Text>)
      ensures v == if key in store then Some(store[key]) else default
    {
      v := if key in store then Some(store[key]) else default;
    }

    method Clear()
      requires Valid()
      modifies this
      ensures Valid() && store == map[] && dirty
    {
      store := map[];
      dirty := true;
      armed := true;
    }

    /** Prints the entries, in some order, until one does not fit. */
    method PrintStore(size: int) returns (s: Text)
      ensures exists order :: Enumerates(order, store) && s == Print(store, order, size)
    {
      s := [];
      ghost var order: seq<Text> := [];
      var todo := store.Keys;
      while todo != {}
        invariant todo <= store.Keys && (forall k :: k in todo <==> k in store && k !in order)
        invariant Within(order, store) && Distinct(order)
        invariant Print(store, order, size) == s && Fitting(store, order, size) == |order| &&
          Length(store, order) == |s|
        decreases todo
      {
        var k :| k in todo;
        var e := Printed(k, store[k]);
        PrintOn(store, order, k, size);
        order := order + [k];
        todo := todo - {k};
        if |s| + |e| + 1 > size {
          ghost var rest := Listed(todo);
          assert Within(rest,
            store) by { forall i | 0 <= i < |rest| ensures rest[i] in store { assert rest[i] in rest; } }
          PrintStops(store, order, rest, size);
          RestEnumerates(store, order, rest);
          order := order + rest;
          return;
        }
        s := s + e;
      }
    }

    /** Writes the store to the medium if it has changed. */
    method TimerFunction()
      requires Valid() && armed
      modifies this, cells
      ensures Valid() && store == old(store) && !dirty
      ensures old(dirty) ==> (Loaded(crc, cells[..]) == store <==> Storable(store, cells.Length))
      ensures !old(dirty) ==> cells[..] == old(cells[..])
    {
      if dirty {
        var size := cells.Length;
        ghost var m := cells[..];
        if size > 0 {
          var s := PrintStore(size);
          ghost var order :| Enumerates(order, store) && s == Print(store, order, size);
          s := s + [NUL];
          FittingAll(store, order, size);
          var n := WriteAt(Header(crc, s), 0);
          n := WriteAt(s, 8);
          FlushThenLoad(crc, m, store, order);
        } else {
          FlushNothing(crc, m, store);
        }
        dirty := false;
      }
      armed := false;
    }
  }

  /** A value that was set is there again after the next flush and a restart, as is all the rest, if the
      store can be stored. */
  method SetSurvives(n: Nvmem, key: Text, value: Text, other: Text)
    returns (again: Nvmem, v: Option<Text>, w: Option<Text>)
    requires n.Valid() && NUL !in key && NUL !in value && other != key
    modifies n, n.cells
    ensures var store := old(n.store)[key := value];
      Storable(store, n.cells.Length) ==>
        again.store == store && v == Some(value) &&
          w == if other in old(n.store) then Some(old(n.store)[other]) else None
  {
    n.Set(key, Some(value));
    n.TimerFunction();
    again := new Nvmem(n.crc, n.cells);
    v := again.Get(key, None);
    w := again.Get(other, None);
  }

  lemma FlushNothing(crc: (Word, Text) -> Word, m: Text, store: Store)
    requires m == []
    ensures Loaded(crc, m) == store <==> Storable(store, 0)
  {
  }

  ghost predicate Distinct(order: seq<Text>) {
    forall i, j :: 0 <= i < j < |order| ==> order[i] != order[j]
  }

  /** The elements of a set in some order. */
  ghost function Listed(s: set<Text>): (r: seq<Text>)
    ensures Distinct(r) && forall k :: k in s <==> k in r
  {
    if s == {} then [] else var k :| k in s; [k] + Listed(s - {k})
  }

  lemma RestEnumerates(m: Store, order: seq<Text>, rest: seq<Text>)
    requires Within(order, m) && Within(rest, m) && Distinct(order) && Distinct(rest)
    requires forall k :: k in rest <==> k in m && k !in order
    ensures Enumerates(order + rest, m)
  {
    var all := order + rest;
    forall i, j | 0 <= i < j < |all| ensures all[i] != all[j] {
      if i < |order| <= j { assert all[j] in rest && all[i] in order; }
    }
    forall k | k in m ensures k in all {
      assert k in order || k in rest;
    }
  }

  lemma {:induction false} LengthOn(m: Store, order: seq<Text>, k: Text)
    requires Within(order, m) && k in m
    ensures Within(order + [k], m) && Length(m, order + [k]) == Length(m, order) + |Printed(k, m[k])|
  {
    if order == [] {
      assert [k][1..] == [];
    } else {
      LengthOn(m, order[1..], k);
      assert (order + [k])[1..] == order[1..] + [k];
    }
  }

  lemma {:induction false} PrintOn(m: Store, order: seq<Text>, k: Text, room: int)
    requires Within(order, m) && k in m && Fitting(m, order, room) == |order|
    ensures Within(order + [k], m) && Length(m, order + [k]) == Length(m, order) + |Printed(k, m[k])|
    ensures var e, n := Printed(k, m[k]), Length(m, order);
      if n + |e| + 1 > room then
        Print(m, order + [k], room) == Print(m, order, room) && Fitting(m, order + [k], room) == |order|
      else Print(m, order + [k], room) == Print(m, order, room) + e && Fitting(m, order + [k], room) == |order| + 1
    decreases |order|
  {
    LengthOn(m, order, k);
    var all := order + [k];
    if order == [] {
      assert all[1..] == [];
    } else {
      var e := Printed(order[0], m[order[0]]);
      PrintOn(m, order[1..], k, room - |e|);
      assert all[1..] == order[1..] + [k];
    }
  }

  /** Once an entry does not fit, nothing more is printed. */
  lemma {:induction false} PrintStops(m: Store, order: seq<Text>, rest: seq<Text>, room: int)
    requires Within(order, m) && Within(rest, m) && Fitting(m, order, room) < |order|
    ensures Within(order + rest, m) && Print(m, order + rest, room) == Print(m, order, room)
    decreases |order|
  {
    var all, e := order + rest, Printed(order[0], m[order[0]]);
    if |e| + 1 <= room {
      PrintStops(m, order[1..], rest, room - |e|);
      assert all[1..] == order[1..] + rest;
    }
  }
}
