/** Doubly linked lists with a single-pointer head (the hlist part of src/include/list.h).

    A node's `pprev` is the address of the pointer that points to the node: the head's `first` or
    the previous node's `next`.  `Cell` names such an address. */
module HList {
  import opened Sequences

  class HlistHead {
    var first: HlistNode?

    constructor ()
      ensures first == null
    {
      first := null;
    }
  }

  class HlistNode {
    var next: HlistNode?
    var pprev: Cell

    constructor ()
      ensures next == null && pprev == Null
    {
      next, pprev := null, Null;
    }
  }

  datatype Cell = Null | First(head: HlistHead) | NextOf(node: HlistNode)

  ghost predicate Distinct(s: seq<HlistNode>) {
    forall i, j :: 0 <= i < j < |s| ==> s[i] != s[j]
  }

  function ItemAt(s: seq<HlistNode>, k: int): HlistNode? {
    if 0 <= k < |s| then s[k] else null
  }

  /** The address of the pointer to entry `k`. */
  ghost function CellAt(h: HlistHead, s: seq<HlistNode>, k: int): Cell
    requires 0 <= k <= |s|
  {
    if k == 0 then First(h) else NextOf(s[k - 1])
  }

  ghost predicate IsHlist(h: HlistHead, s: seq<HlistNode>)
    reads h, s
  {
    && Distinct(s)
    && h.first == ItemAt(s, 0)
    && forall k {:trigger s[k].next} {:trigger s[k].pprev} :: 0 <= k < |s| ==>
      s[k].next == ItemAt(s, k + 1) && s[k].pprev == CellAt(h, s, k)
  }

  /** `*c = n` */
  method Store(c: Cell, n: HlistNode?)
    requires c != Null
    modifies (if c.First? then {c.head} else {})`first, (if c.NextOf? then {c.node} else {})`next
    ensures c.First? ==> c.head.first == n
    ensures c.NextOf? ==> c.node.next == n
  {
    match c
    case First(h) => h.first := n;
    case NextOf(p) => p.next := n;
  }

  lemma WithoutIsUnique(s: seq<HlistNode>, k: int)
    requires 0 <= k < |s| && forall i, j :: 0 <= i < j < |s| ==> s[i] != s[j]
    ensures var w := Without(s, k); forall i, j :: 0 <= i < j < |w| ==> w[i] != w[j]
  {
    var w := Without(s, k);
    forall i, j | 0 <= i < j < |w| ensures w[i] != w[j] {
      assert w[i] == s[if i < k then i else i + 1] && w[j] == s[if j < k then j else j + 1];
    }
  }

  /** Unlinks `n` through its `pprev` alone. */
  method Unlink(n: HlistNode, ghost h: HlistHead, ghost s: seq<HlistNode>, ghost k: int)
    requires IsHlist(h, s) && 0 <= k < |s| && s[k] == n
    modifies h, s
    ensures IsHlist(h, Without(s, k))
    ensures n.next == old(n.next) && n.pprev == old(n.pprev)
  {
    var next, pprev := n.next, n.pprev;
    Store(pprev, next);
    if next != null {
      next.pprev := pprev;
    }
    ghost var w := Without(s, k);
    WithoutIsUnique(s, k);
    forall i | 0 <= i < |w| ensures w[i].next == ItemAt(w, i + 1) && w[i].pprev == CellAt(h, w, i) {
      assert w[i] == s[if i < k then i else i + 1];
    }
  }

  method Del(n: HlistNode, ghost h: HlistHead, ghost s: seq<HlistNode>, ghost k: int)
    requires IsHlist(h, s) && 0 <= k < |s| && s[k] == n
    modifies h, s
    ensures IsHlist(h, Without(s, k)) && n.next == null && n.pprev == Null
  {
    Unlink(n, h, s, k);
    n.next := null;
    n.pprev := Null;
  }

  /** Does nothing to a node that is on no list. */
  method DelInit(n: HlistNode, ghost h: HlistHead, ghost s: seq<HlistNode>, ghost k: int)
    requires IsHlist(h, s) && (if n.pprev == Null then n !in s else 0 <= k < |s| && s[k] == n)
    modifies h, s
    ensures old(n.pprev) == Null ==> IsHlist(h, s) && n.next == old(n.next) && n.pprev == Null
    ensures old(n.pprev) != Null ==> IsHlist(h, Without(s, k)) && n.next == null && n.pprev == Null
  {
    if n.pprev != Null {
      Unlink(n, h, s, k);
      n.next := null;
      n.pprev := Null;
    }
  }

  method AddHead(n: HlistNode, h: HlistHead, ghost s: seq<HlistNode>)
    requires IsHlist(h, s) && n !in s
    modifies n, h, s
    ensures IsHlist(h, [n] + s)
  {
    var first := h.first;
    n.next := first;
    if first != null {
      first.pprev := NextOf(n);
    }
    h.first := n;
    n.pprev := First(h);
  }

  method AddBefore(n: HlistNode, next: HlistNode, ghost h: HlistHead, ghost s: seq<HlistNode>, ghost k: int)
    requires IsHlist(h, s) && n !in s && 0 <= k < |s| && s[k] == next
    modifies n, h, s
    ensures IsHlist(h, s[..k] + [n] + s[k..])
  {
    n.pprev := next.pprev;
    n.next := next;
    next.pprev := NextOf(n);
    assert n.pprev == CellAt(h, s, k) && (k > 0 ==> s[k - 1] != next);
    Store(n.pprev, n);
    Inserted(s, n, k);
    ghost var w := s[..k] + [n] + s[k..];
    assert h.first == ItemAt(w, 0);
    forall i | 0 <= i < |w| ensures w[i].next == ItemAt(w, i + 1) && w[i].pprev == CellAt(h, w, i) {
      if i < k { assert w[i] == s[i]; } else if i > k { assert w[i] == s[i - 1]; }
    }
  }

  method AddBehind(n: HlistNode, prev: HlistNode, ghost h: HlistHead, ghost s: seq<HlistNode>, ghost k: int)
    requires IsHlist(h, s) && n !in s && 0 <= k < |s| && s[k] == prev
    modifies n, h, s
    ensures IsHlist(h, s[..k + 1] + [n] + s[k + 1..])
  {
    n.next := prev.next;
    prev.next := n;
    n.pprev := NextOf(prev);
    if n.next != null {
      n.next.pprev := NextOf(n);
    }
    Inserted(s, n, k + 1);
    ghost var w := s[..k + 1] + [n] + s[k + 1..];
    assert h.first == ItemAt(w, 0);
    forall i | 0 <= i < |w| ensures w[i].next == ItemAt(w, i + 1) && w[i].pprev == CellAt(h, w, i) {
      if i <= k { assert w[i] == s[i]; } else if i > k + 1 { assert w[i] == s[i - 1]; }
    }
  }

  lemma Inserted(s: seq<HlistNode>, n: HlistNode, k: int)
    requires Distinct(s) && n !in s && 0 <= k <= |s|
    ensures var w := s[..k] + [n] + s[k..];
      Distinct(w) && |w| == |s| + 1 && forall i :: 0 <= i < |w| ==>
        w[i] == if i < k then s[i] else if i == k then n else s[i - 1]
  {
    var w := s[..k] + [n] + s[k..];
    forall i, j | 0 <= i < j < |w| ensures w[i] != w[j] {
      assert i != k ==> w[i] == s[if i < k then i else i - 1];
      assert j != k ==> w[j] == s[if j < k then j else j - 1];
    }
  }

  /** Moves all entries to another head. */
  method MoveList(source: HlistHead, target: HlistHead, ghost s: seq<HlistNode>)
    requires IsHlist(source, s) && source != target
    modifies source, target, s
    ensures IsHlist(target, s) && IsHlist(source, [])
  {
    target.first := source.first;
    if target.first != null {
      target.first.pprev := First(target);
    }
    source.first := null;
  }

  method IsSingularNode(n: HlistNode, h: HlistHead, ghost s: seq<HlistNode>) returns (r: bool)
    requires IsHlist(h, s) && n in s
    ensures r <==> s == [n]
  {
    ghost var k :| 0 <= k < |s| && s[k] == n;
    r := n.next == null && n.pprev == First(h);
  }
}
