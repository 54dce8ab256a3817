/** Circular doubly linked lists (src/include/list.h).

    A list is a ring of `ListHead` objects, one of which serves as its head; its value is the
    sequence of the other objects of the ring in `next` order. */
module List {

  class ListHead {
    var next: ListHead?
    var prev: ListHead?

    constructor ()
      ensures next == this && prev == this
    {
      next, prev := this, this;
    }
  }

  ghost predicate Distinct(c: seq<ListHead>) {
    forall i, j :: 0 <= i < j < |c| ==> c[i] != c[j]
  }

  ghost predicate Link(a: ListHead, b: ListHead)
    reads a`next, b`prev
  {
    a.next == b && b.prev == a
  }

  ghost predicate Apart(u: seq<ListHead>, v: seq<ListHead>) {
    forall x :: x in u ==> x !in v
  }

  /** Consecutive objects of `c` point to each other. */
  ghost predicate Chain(c: seq<ListHead>)
    reads c
  {
    forall i :: 0 <= i < |c| - 1 ==> Link(c[i], c[i + 1])
  }

  function Last(c: seq<ListHead>): ListHead
    requires c != []
  {
    c[|c| - 1]
  }

  /** `c` is a ring: a closed chain of distinct objects. */
  ghost predicate Ring(c: seq<ListHead>)
    requires c != []
    reads c
  {
    Distinct(c) && Chain(c) && Link(Last(c), c[0])
  }

  ghost predicate IsList(head: ListHead, s: seq<ListHead>)
    reads head, s
  {
    Ring([head] + s)
  }

  lemma DistinctConcat(u: seq<ListHead>, v: seq<ListHead>)
    ensures Distinct(u + v) <==> Distinct(u) && Distinct(v) && Apart(u, v)
  {
    var c := u + v;
    if Distinct(c) {
      forall i, j | 0 <= i < j < |v| ensures v[i] != v[j] { assert c[|u| + i] != c[|u| + j]; }
      forall i, j | 0 <= i < j < |u| ensures u[i] != u[j] { assert c[i] != c[j]; }
      forall i, j | 0 <= i < |u| && 0 <= j < |v| ensures u[i] != v[j] { assert c[i] != c[|u| + j]; }
    } else {
      var i, j :| 0 <= i < j < |c| && c[i] == c[j];
      if j < |u| {
        assert u[i] == u[j];
      } else if i >= |u| { assert v[i - |u|] == v[j - |u|]; } else { assert u[i] in v; }
    }
  }

  lemma ChainConcat(u: seq<ListHead>, v: seq<ListHead>)
    requires u != [] && v != []
    ensures Chain(u + v) <==> Chain(u) && Chain(v) && Link(Last(u), v[0])
  {
    var c := u + v;
    if Chain(c) {
      forall i | 0 <= i < |v| - 1 ensures Link(v[i], v[i + 1]) { assert Link(c[|u| + i], c[|u| + i + 1]); }
      forall i | 0 <= i < |u| - 1 ensures Link(u[i], u[i + 1]) { assert Link(c[i], c[i + 1]); }
      assert Link(c[|u| - 1], c[|u|]);
    }
    if Chain(u) && Chain(v) && Link(Last(u), v[0]) {
      forall i | 0 <= i < |c| - 1 ensures Link(c[i], c[i + 1]) {
        if i < |u| - 1 { assert Link(u[i], u[i + 1]); }
        else if i >= |u| { assert Link(v[i - |u|], v[i - |u| + 1]); }
      }
    }
  }

  /** A ring may be cut open anywhere. */
  lemma RingConcat(u: seq<ListHead>, v: seq<ListHead>)
    requires u != [] && v != []
    ensures Ring(u + v) <==>
      Distinct(u) && Distinct(v) && Apart(u, v) && Chain(u) && Chain(v) && Link(Last(u), v[0]) && Link(Last(v), u[0])
  {
    DistinctConcat(u, v);
    ChainConcat(u, v);
  }

  /** It does not matter where a ring starts. */
  lemma RingRotate(u: seq<ListHead>, v: seq<ListHead>)
    requires u + v != []
    ensures Ring(u + v) <==> Ring(v + u)
  {
    if u == [] || v == [] {
      assert u + v == v + u;
    } else {
      RingConcat(u, v);
      RingConcat(v, u);
    }
  }

  /** Any entry of a list can serve as its head. */
  lemma Rotate(head: ListHead, a: seq<ListHead>, x: ListHead, b: seq<ListHead>)
    ensures IsList(head, a + [x] + b) <==> IsList(x, b + [head] + a)
  {
    RingRotate([head] + a, [x] + b);
    assert [head] + (a + [x] + b) == ([head] + a) + ([x] + b);
    assert [x] + (b + [head] + a) == ([x] + b) + ([head] + a);
  }

  method Init(list: ListHead)
    modifies list
    ensures IsList(list, [])
  {
    list.next := list;
    list.prev := list;
  }

  method AddBetween(x: ListHead, prev: ListHead, next: ListHead)
    requires x != prev && x != next
    modifies x, prev`next, next`prev
    ensures Link(prev, x) && Link(x, next)
  {
    next.prev := x;
    x.next := next;
    x.prev := prev;
    prev.next := x;
  }

  method Add(x: ListHead, head: ListHead, ghost s: seq<ListHead>)
    requires IsList(head, s) && x != head && x !in s
    modifies x, head`next, head`prev, s`prev
    ensures IsList(head, [x] + s)
  {
    if s != [] { RingConcat([head], s); }
    AddBetween(x, head, head.next);
    if s != [] { RingConcat([x], s); RingConcat([head], [x] + s); }
  }

  method AddTail(x: ListHead, head: ListHead, ghost s: seq<ListHead>)
    requires IsList(head, s) && x != head && x !in s
    modifies x, head`next, head`prev, s`next
    ensures IsList(head, s + [x])
  {
    AddBetween(x, head.prev, head);
    assert [head] + (s + [x]) == ([head] + s) + [x];
    RingConcat([head] + s, [x]);
  }

  method DelBetween(prev: ListHead, next: ListHead)
    modifies prev`next, next`prev
    ensures Link(prev, next)
  {
    next.prev := prev;
    prev.next := next;
  }

  /** Unlinks an entry without touching its own fields. */
  method DelEntry(entry: ListHead, ghost head: ListHead, ghost a: seq<ListHead>, ghost b: seq<ListHead>)
    requires IsList(head, a + [entry] + b)
    modifies head, a, b
    ensures IsList(head, a + b) && entry != head && entry !in a && entry !in b
  {
    ghost var w := b + [head] + a;
    Rotate(head, a, entry, b);
    RingConcat([entry], w);
    assert entry !in w && head in w && forall x :: x in a || x in b ==> x in w;
    assert w[0] in [head] + b && Last(w) in [head] + a;
    DelBetween(entry.prev, entry.next);
    RingRotate(b, [head] + a);
    assert w == b + ([head] + a) && ([head] + a) + b == [head] + (a + b);
  }

  method Del(entry: ListHead, ghost head: ListHead, ghost a: seq<ListHead>, ghost b: seq<ListHead>)
    requires IsList(head, a + [entry] + b)
    modifies head, a, b, entry
    ensures IsList(head, a + b) && entry.next == null && entry.prev == null
  {
    DelEntry(entry, head, a, b);
    entry.next := null;
    entry.prev := null;
  }

  method DelInit(entry: ListHead, ghost head: ListHead, ghost a: seq<ListHead>, ghost b: seq<ListHead>)
    requires IsList(head, a + [entry] + b)
    modifies head, a, b, entry
    ensures IsList(head, a + b) && IsList(entry, [])
  {
    DelEntry(entry, head, a, b);
    Init(entry);
  }

  /** Puts `x` in the place of `victim` in the ring that `victim` heads. */
  method Replace(victim: ListHead, x: ListHead, ghost s: seq<ListHead>)
    requires IsList(victim, s) && x != victim && x !in s
    modifies x, victim, s
    ensures IsList(x, s)
    ensures s != [] ==> victim.next == old(victim.next) && victim.prev == old(victim.prev)
  {
    if s != [] { RingConcat([victim], s); }
    x.next := victim.next;
    x.next.prev := x;
    x.prev := victim.prev;
    x.prev.next := x;
    if s != [] { RingConcat([x], s); }
  }

  /** Replacing an entry substitutes it in place in the list of any head. */
  method ReplaceEntry(victim: ListHead, x: ListHead, ghost head: ListHead, ghost a: seq<ListHead>,
      ghost b: seq<ListHead>)
    requires IsList(head, a + [victim] + b) && x !in [head] + a + [victim] + b
    modifies x, victim, head, a, b
    ensures IsList(head, a + [x] + b)
  {
    Rotate(head, a, victim, b);
    Replace(victim, x, b + [head] + a);
    Rotate(head, a, x, b);
  }

  method ReplaceInit(victim: ListHead, x: ListHead, ghost s: seq<ListHead>)
    requires IsList(victim, s) && x != victim && x !in s
    modifies x, victim, s
    ensures IsList(x, s) && IsList(victim, [])
  {
    if s != [] { RingConcat([victim], s); }
    Replace(victim, x, s);
    assert victim !in [x] + s;
    Init(victim);
  }

  /** Moves an entry to the front of its own list. */
  method Move(entry: ListHead, head: ListHead, ghost a: seq<ListHead>, ghost b: seq<ListHead>)
    requires IsList(head, a + [entry] + b)
    modifies head, a, b, entry
    ensures IsList(head, [entry] + (a + b))
  {
    DelEntry(entry, head, a, b);
    Add(entry, head, a + b);
  }

  method MoveTail(entry: ListHead, head: ListHead, ghost a: seq<ListHead>, ghost b: seq<ListHead>)
    requires IsList(head, a + [entry] + b)
    modifies head, a, b, entry
    ensures IsList(head, a + b + [entry])
  {
    DelEntry(entry, head, a, b);
    AddTail(entry, head, a + b);
  }

  twostate lemma RingFrame(c: seq<ListHead>)
    requires c != [] && old(Ring(c))
    requires forall x :: x in c ==> x.next == old(x.next) && x.prev == old(x.prev)
    ensures Ring(c)
  {
    forall i | 0 <= i < |c| - 1 ensures Link(c[i], c[i + 1]) {
      assert old(Link(c[i], c[i + 1]));
    }
  }

  /** Moves an entry to the front of another list. */
  method MoveAcross(entry: ListHead, head: ListHead, ghost from: ListHead, ghost a: seq<ListHead>,
      ghost b: seq<ListHead>, ghost s: seq<ListHead>)
    requires IsList(from, a + [entry] + b) && IsList(head, s)
    requires Apart([head] + s, [from] + (a + [entry] + b))
    modifies from, a, b, entry, head, s
    ensures IsList(from, a + b) && IsList(head, [entry] + s)
  {
    ghost var u := [from] + (a + [entry] + b);
    assert from in u && entry in u && head in [head] + s && forall x :: x in a || x in b ==> x in u;
    assert forall x :: x in s ==> x in [head] + s;
    label before: DelEntry(entry, from, a, b);
    assert forall x :: x in [head] + s ==> x.next == old(x.next) && x.prev == old(x.prev);
    RingFrame@before([head] + s);
    label after: Add(entry, head, s);
    assert forall x :: x in [from] + (a + b) ==> x in u;
    RingFrame@after([from] + (a + b));
  }

  method MoveTailAcross(entry: ListHead, head: ListHead, ghost from: ListHead, ghost a: seq<ListHead>,
      ghost b: seq<ListHead>, ghost s: seq<ListHead>)
    requires IsList(from, a + [entry] + b) && IsList(head, s)
    requires Apart([head] + s, [from] + (a + [entry] + b))
    modifies from, a, b, entry, head, s
    ensures IsList(from, a + b) && IsList(head, s + [entry])
  {
    ghost var u := [from] + (a + [entry] + b);
    assert from in u && entry in u && head in [head] + s && forall x :: x in a || x in b ==> x in u;
    assert forall x :: x in s ==> x in [head] + s;
    label before: DelEntry(entry, from, a, b);
    assert forall x :: x in [head] + s ==> x.next == old(x.next) && x.prev == old(x.prev);
    RingFrame@before([head] + s);
    label after: AddTail(entry, head, s);
    assert forall x :: x in [from] + (a + b) ==> x in u;
    RingFrame@after([from] + (a + b));
  }

  method RotateLeft(head: ListHead, ghost s: seq<ListHead>)
    requires IsList(head, s)
    modifies head, s
    ensures IsList(head, if s == [] then [] else s[1..] + [s[0]])
  {
    var empty := IsEmpty(head, s);
    if !empty {
      RingConcat([head], s);
      assert s == [] + [s[0]] + s[1..];
      MoveTail(head.next, head, [], s[1..]);
      assert [] + s[1..] + [s[0]] == s[1..] + [s[0]];
    }
  }

  method IsEmpty(head: ListHead, ghost s: seq<ListHead>) returns (r: bool)
    requires IsList(head, s)
    ensures r <==> s == []
  {
    if s != [] { RingConcat([head], s); }
    r := head.next == head;
  }

  method IsEmptyCareful(head: ListHead, ghost s: seq<ListHead>) returns (r: bool)
    requires IsList(head, s)
    ensures r <==> s == []
  {
    if s != [] { RingConcat([head], s); }
    var next := head.next;
    r := next == head && next == head.prev;
  }

  method IsSingular(head: ListHead, ghost s: seq<ListHead>) returns (r: bool)
    requires IsList(head, s)
    ensures r <==> |s| == 1
  {
    if s != [] { RingConcat([head], s); }
    var empty := IsEmpty(head, s);
    r := !empty && head.next == head.prev;
  }

  method IsFirst(entry: ListHead, head: ListHead, ghost s: seq<ListHead>) returns (r: bool)
    requires IsList(head, s) && entry in s
    ensures r <==> entry == s[0]
  {
    RingConcat([head], s);
    ghost var k :| 0 <= k < |s| && s[k] == entry;
    if k > 0 { assert Link(s[k - 1], s[k]); }
    r := entry.prev == head;
  }

  method IsLast(entry: ListHead, head: ListHead, ghost s: seq<ListHead>) returns (r: bool)
    requires IsList(head, s) && entry in s
    ensures r <==> entry == Last(s)
  {
    RingConcat([head], s);
    ghost var k :| 0 <= k < |s| && s[k] == entry;
    if k < |s| - 1 { assert Link(s[k], s[k + 1]); }
    r := entry.next == head;
  }

  method CloseOver(first: ListHead, last: ListHead, ghost m: seq<ListHead>, ghost w: seq<ListHead>)
    requires m != [] && w != [] && Ring(m + w) && m[0] == first && Last(m) == last
    modifies w
    ensures Ring(w) && Chain(m) && Distinct(m) && Apart(m, w)
  {
    RingConcat(m, w);
    assert Last(w) in w && w[0] in w;
    first.prev.next := last.next;
    last.next.prev := first.prev;
  }

  /** Moves the entries from `first` to `last` to the tail of the list. */
  method BulkMoveTail(head: ListHead, first: ListHead, last: ListHead, ghost a: seq<ListHead>, ghost m: seq<ListHead>,
      ghost b: seq<ListHead>)
    requires IsList(head, a + m + b) && m != [] && m[0] == first && Last(m) == last
    modifies head, a, m, b
    ensures IsList(head, a + b + m)
  {
    ghost var w, u := b + [head] + a, [head] + a + b;
    assert [head] + (a + m + b) == ([head] + a) + (m + b) && (m + b) + ([head] + a) == m + w;
    RingRotate([head] + a, m + b);
    CloseOver(first, last, m, w);
    assert w == b + ([head] + a) && u == ([head] + a) + b;
    RingRotate(b, [head] + a);
    assert forall x :: x in u ==> x in w;
    OpenAtTail(head, first, last, u, m);
    assert [head] + (a + b + m) == u + m;
  }

  method OpenAtTail(head: ListHead, first: ListHead, last: ListHead, ghost u: seq<ListHead>, ghost m: seq<ListHead>)
    requires u != [] && Ring(u) && u[0] == head
    requires m != [] && Chain(m) && Distinct(m) && Apart(u, m) && m[0] == first && Last(m) == last
    modifies u, m
    ensures Ring(u + m)
  {
    assert Last(u) in u && first in m && last in m && head in u;
    head.prev.next := first;
    first.prev := head.prev;
    last.next := head;
    head.prev := last;
    RingConcat(u, m);
  }

  method CutAt(list: ListHead, head: ListHead, entry: ListHead, ghost a: seq<ListHead>, ghost b: seq<ListHead>)
    requires IsList(head, a + b) && a != [] && entry == Last(a) && list !in [head] + (a + b)
    modifies list, head, a, b
    ensures IsList(list, a) && IsList(head, b)
  {
    assert [head] + (a + b) == ([head] + a) + b;
    RingConcat([head], a + b);
    DistinctConcat(a, b);
    assert head in [head] && (a + b)[0] == a[0];
    assert head !in a && head !in b && list !in a && list !in b && list != head;
    if b != [] {
      ChainConcat(a, b);
      RingConcat([head] + a, b);
    } else {
      assert a + b == a;
    }
    var newFirst := entry.next;
    list.next := head.next;
    list.next.prev := list;
    list.prev := entry;
    entry.next := list;
    head.next := newFirst;
    newFirst.prev := head;
    RingConcat([list], a);
    if b != [] { RingConcat([head], b); }
  }

  /** Moves the entries up to and including `entry` to `list`.  An empty list, and a single-entry
      list that does not hold `entry`, are left alone together with `list`. */
  method CutPosition(list: ListHead, head: ListHead, entry: ListHead, ghost s: seq<ListHead>, ghost k: int)
    requires IsList(head, s) && list !in [head] + s
    requires if 0 <= k <= |s| then entry == ([head] + s)[k] else |s| <= 1 && entry !in [head] + s
    modifies list, head, s
    ensures if s != [] && 0 <= k <= |s| then IsList(list, s[..k]) && IsList(head, s[k..])
            else IsList(head, s) && list.next == old(list.next) && list.prev == old(list.prev)
  {
    var empty := IsEmpty(head, s);
    if empty {
      return;
    }
    var singular := IsSingular(head, s);
    if singular && head.next != entry && head != entry {
      NotHeld(head, s, entry, k);
      return;
    }
    Held(head, s, entry, k);
    if entry == head {
      CutNothing(list, head, entry, s, k);
    } else {
      assert s == s[..k] + s[k..];
      CutAt(list, head, entry, s[..k], s[k..]);
    }
  }

  lemma NotHeld(head: ListHead, s: seq<ListHead>, entry: ListHead, k: int)
    requires |s| == 1 && entry != head && entry != s[0]
    ensures 0 <= k <= |s| ==> entry != ([head] + s)[k]
  {
  }

  lemma Held(head: ListHead, s: seq<ListHead>, entry: ListHead, k: int)
    requires s != [] && (if 0 <= k <= |s| then entry == ([head] + s)[k] else |s| == 1 && entry !in [head] + s)
    ensures entry == head || entry in s ==> 0 <= k <= |s|
    ensures 0 < k <= |s| ==> entry == s[k - 1] && s[..k] != [] && Last(s[..k]) == entry
  {
    assert ([head] + s)[0] == head;
    assert entry in s ==> entry in [head] + s;
  }

  /** Cutting at the head leaves nothing for `list`. */
  method CutNothing(list: ListHead, head: ListHead, entry: ListHead, ghost s: seq<ListHead>, ghost k: int)
    requires IsList(head, s) && s != [] && list !in [head] + s && entry == head
    requires if 0 <= k <= |s| then entry == ([head] + s)[k] else |s| == 1 && entry !in [head] + s
    modifies list
    ensures k == 0 && IsList(list, s[..k]) && IsList(head, s[k..])
  {
    assert ([head] + s)[0] == head;
    assert s[..0] == [] && s[0..] == s;
    Init(list);
  }

  /** Moves the entries before `entry`, or all of them if `entry` is the head, to `list`. */
  method CutBefore(list: ListHead, head: ListHead, entry: ListHead, ghost s: seq<ListHead>, ghost k: nat)
    requires IsList(head, s) && list !in [head] + s
    requires k <= |s| && entry == if k == |s| then head else s[k]
    modifies list, head, s
    ensures IsList(list, s[..k]) && IsList(head, s[k..])
  {
    if s != [] { RingConcat([head], s); }
    if head.next == entry {
      assert k == 0;
      assert s[..0] == [] && s[0..] == s;
      Init(list);
      return;
    }
    assert s == s[..k] + s[k..];
    CutBeforeAt(list, head, entry, s[..k], s[k..]);
  }

  method CutBeforeAt(list: ListHead, head: ListHead, entry: ListHead, ghost a: seq<ListHead>, ghost b: seq<ListHead>)
    requires IsList(head, a + b) && a != [] && entry == (b + [head])[0] && list !in [head] + (a + b)
    modifies list, head, a, b
    ensures IsList(list, a) && IsList(head, b)
  {
    assert [head] + (a + b) == ([head] + a) + b;
    RingConcat([head], a + b);
    DistinctConcat(a, b);
    assert head in [head] && (a + b)[0] == a[0];
    assert head !in a && head !in b && list !in a && list !in b && list != head;
    if b != [] {
      ChainConcat(a, b);
      RingConcat([head] + a, b);
    } else {
      assert a + b == a;
    }
    list.next := head.next;
    list.next.prev := list;
    list.prev := entry.prev;
    list.prev.next := list;
    head.next := entry;
    entry.prev := head;
    RingConcat([list], a);
    if b != [] { RingConcat([head], b); }
  }

  /** Links the entries of `list` in between the adjacent `prev` and `next`. */
  method SpliceBetween(list: ListHead, prev: ListHead, next: ListHead, ghost l: seq<ListHead>, ghost c: seq<ListHead>)
    requires IsList(list, l) && l != [] && c != [] && Ring(c) && Apart(c, [list] + l) && prev == Last(c) && next == c[0]
    modifies l, c
    ensures Ring(c + l)
  {
    RingConcat([list], l);
    assert Apart(c, l) && prev in c && next in c && l[0] in l && Last(l) in l && list !in c && list !in l;
    var first, last := list.next, list.prev;
    first.prev := prev;
    prev.next := first;
    last.next := next;
    next.prev := last;
    RingConcat(c, l);
  }

  /** Puts the entries of `list` in front of those of `head`. */
  method Splice(list: ListHead, head: ListHead, ghost l: seq<ListHead>, ghost s: seq<ListHead>)
    requires IsList(list, l) && IsList(head, s) && Apart([head] + s, [list] + l)
    modifies l, head, s
    ensures IsList(head, l + s) && list.next == old(list.next) && list.prev == old(list.prev)
  {
    ListApartFromItself(list, l, head, s);
    var empty := IsEmpty(list, l);
    if !empty {
      RingRotate([head], s);
      if s != [] { RingConcat([head], s); RingConcat([list], l); }
      assert Apart(s + [head], [list] + l) by { assert forall x :: x in s + [head] ==> x in [head] + s; }
      SpliceBetween(list, head, head.next, l, s + [head]);
      assert s + [head] + l == s + ([head] + l) && [head] + (l + s) == ([head] + l) + s;
      RingRotate(s, [head] + l);
    } else {
      assert l + s == s;
    }
  }

  /** Puts the entries of `list` behind those of `head`. */
  method SpliceTail(list: ListHead, head: ListHead, ghost l: seq<ListHead>, ghost s: seq<ListHead>)
    requires IsList(list, l) && IsList(head, s) && Apart([head] + s, [list] + l)
    modifies l, head, s
    ensures IsList(head, s + l) && list.next == old(list.next) && list.prev == old(list.prev)
  {
    ListApartFromItself(list, l, head, s);
    var empty := IsEmpty(list, l);
    if !empty {
      if s != [] { RingConcat([list], l); }
      SpliceBetween(list, head.prev, head, l, [head] + s);
      assert [head] + (s + l) == [head] + s + l;
    } else {
      assert s + l == s;
    }
  }

  method SpliceInit(list: ListHead, head: ListHead, ghost l: seq<ListHead>, ghost s: seq<ListHead>)
    requires IsList(list, l) && IsList(head, s) && Apart([head] + s, [list] + l)
    modifies list, l, head, s
    ensures IsList(head, l + s) && IsList(list, [])
  {
    ListApartFromItself(list, l, head, s);
    Splice(list, head, l, s);
    label spliced: Init(list);
    RingFrame@spliced([head] + (l + s));
  }

  method SpliceTailInit(list: ListHead, head: ListHead, ghost l: seq<ListHead>, ghost s: seq<ListHead>)
    requires IsList(list, l) && IsList(head, s) && Apart([head] + s, [list] + l)
    modifies list, l, head, s
    ensures IsList(head, s + l) && IsList(list, [])
  {
    ListApartFromItself(list, l, head, s);
    SpliceTail(list, head, l, s);
    label spliced: Init(list);
    RingFrame@spliced([head] + (s + l));
  }

  lemma ListApartFromItself(list: ListHead, l: seq<ListHead>, head: ListHead, s: seq<ListHead>)
    requires IsList(list, l) && Apart([head] + s, [list] + l)
    ensures list !in l && list !in [head] + s
  {
    assert list in [list] + l && list in [list];
    if l != [] { RingConcat([list], l); }
  }

  lemma HeadNotListed(head: ListHead, s: seq<ListHead>)
    requires IsList(head, s)
    ensures head !in s
  {
    DistinctConcat([head], s);
    assert head in [head];
  }

  /** Following `next` from the head until it comes back visits exactly the list. */
  method ForEach(head: ListHead, ghost s: seq<ListHead>) returns (visited: seq<ListHead>)
    requires IsList(head, s)
    ensures visited == s
  {
    ghost var c := [head] + s;
    HeadNotListed(head, s);
    visited := [];
    var pos := head.next;
    assert s != [] ==> Link(c[0], c[1]);
    while pos != head
      invariant |visited| <= |s| && visited == s[..|visited|]
      invariant pos == if |visited| == |s| then head else s[|visited|]
      decreases |s| - |visited|
    {
      assert c[|visited| + 1] == pos && (|visited| + 2 < |c| ==> Link(c[|visited| + 1], c[|visited| + 2]));
      visited := visited + [pos];
      pos := pos.next;
    }
  }

  /** Following `prev` visits the same entries the other way round. */
  method ForEachPrev(head: ListHead, ghost s: seq<ListHead>) returns (visited: seq<ListHead>)
    requires IsList(head, s)
    ensures |visited| == |s| && forall i :: 0 <= i < |s| ==> visited[i] == s[|s| - 1 - i]
  {
    ghost var c := [head] + s;
    HeadNotListed(head, s);
    visited := [];
    var pos := head.prev;
    while pos != head
      invariant |visited| <= |s| && forall i :: 0 <= i < |visited| ==> visited[i] == s[|s| - 1 - i]
      invariant pos == c[|s| - |visited|]
      decreases |s| - |visited|
    {
      assert Link(c[|s| - |visited| - 1], c[|s| - |visited|]);
      visited := visited + [pos];
      pos := pos.prev;
    }
  }
}
