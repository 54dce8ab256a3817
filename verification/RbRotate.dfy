/** Rotations and recolourings of red-black trees as changes of their values
    (src/lib/libx/rbtree.c). */
module RbRotate {
  import opened RbTree
  import opened Wrappers

  function Kid(c: Cell, left: bool): RbNode? {
    if left then c.left else c.right
  }

  function WithKid(c: Cell, left: bool, kid: RbNode?): Cell {
    if left then c.(left := kid) else c.(right := kid)
  }

  /** A rotation at `p`: its child `s` takes its place, and `p` becomes the child of `s` on side
      `left`, taking over the child that `s` had there.  `s` gets the colour and height of `p`, and `p` gets
      those given. */
  datatype Turn = Turn(t: Tree, p: RbNode, s: RbNode, left: bool, pBlack: bool, pHeight: int)
  {
    ghost predicate Valid() {
      t.Shape() && t.cell.Keys == t.place.Keys && t.Has(p) && t.Has(s) && Kid(t.cell[p], !left) == s
    }

    /** The child that changes sides. */
    ghost function Mid(): RbNode?
      requires t.Has(s)
    {
      Kid(t.cell[s], left)
    }

    ghost function Above(): RbNode?
      requires t.Has(p)
    {
      t.cell[p].parent
    }

    ghost function CellAfter(n: RbNode): Cell
      requires t.Has(p) && t.Has(s) && t.Has(n)
    {
      var c := t.cell[n];
      if n == s then WithKid(c, left, p).(parent := t.cell[p].parent, black := t.cell[p].black)
      else if n == p then WithKid(c, !left, Mid()).(parent := s, black := pBlack)
      else
        var d := if n == Mid() then c.(parent := p) else c;
        if n == Above() then (if c.left == p then d.(left := s) else d.(right := s)) else d
    }

    ghost function PlaceAfter(n: RbNode): Place
      requires t.Has(p) && t.Has(s) && t.Has(n)
    {
      var a, b := t.place[p], t.place[s];
      if n == s then Place(a.lo, b.at, a.hi, a.bh)
      else if n == p then (if left then Place(a.lo, a.at, b.at, pHeight) else Place(b.at + 1, a.at, a.hi, pHeight))
      else t.place[n]
    }

    ghost function After(): (r: Tree)
      requires Valid()
      ensures r.place.Keys == r.cell.Keys == t.place.Keys && r.order == t.order
      ensures forall n :: n in t.place ==> r.cell[n] == CellAfter(n) && r.place[n] == PlaceAfter(n)
    {
      Tree(if t.root == p then s else t.root, t.order,
           map n | n in t.place :: PlaceAfter(n), map n | n in t.place :: CellAfter(n))
    }
  }

  /** The nodes around a rotation, all linked and different. */
  lemma Around(e: Turn)
    requires e.Valid()
    ensures e.t.Linked(e.p) && e.t.Linked(e.s) && e.p != e.s && e.t.cell[e.s].parent == e.p
    ensures e.Mid() != null ==>
      e.t.Has(e.Mid()) && e.t.Linked(e.Mid()) && e.t.cell[e.Mid()].parent == e.s && e.Mid() != e.p && e.Mid() != e.s
    ensures e.Above() != null ==>
      e.t.Has(e.Above()) && e.t.Linked(e.Above()) && e.Above() != e.p && e.Above() != e.s && e.Above() != e.Mid()
    ensures e.t.root == e.p <==> e.Above() == null
    ensures var a, b := e.t.place[e.p], e.t.place[e.s];
      if e.left then b.lo == a.at + 1 && b.hi == a.hi else b.lo == a.lo && b.hi == a.at
  {
    var t := e.t;
    assert t.Linked(e.p) && t.Linked(e.s);
    if e.Mid() != null { assert t.Linked(e.Mid()); }
    if e.Above() != null { assert t.Linked(e.Above()); }
  }

  lemma SpansAfter(e: Turn, n: RbNode, c: RbNode?, lo: int, hi: int)
    requires e.Valid() && n in e.t.place && n != e.p && n != e.s
    requires e.t.Spans(c, n, lo, hi) && (e.t.cell[n].left == c || e.t.cell[n].right == c)
    ensures e.After().Spans(if c == e.p then e.s else c, n, lo, hi)
  {
    Around(e);
    if c != null {
      assert e.t.Linked(c) && e.t.Linked(n);
    }
  }

  lemma OthersLinked(e: Turn, n: RbNode)
    requires e.Valid() && n in e.t.place && n != e.p && n != e.s
    ensures e.After().Linked(n)
  {
    var t := e.t;
    Around(e);
    assert t.Linked(n);
    var q, c := t.place[n], t.cell[n];
    SpansAfter(e, n, c.left, q.lo, q.at);
    SpansAfter(e, n, c.right, q.at + 1, q.hi);
    KidsDiffer(t, n);
    OwnedAfter(e, n);
  }

  lemma KidsDiffer(t: Tree, n: RbNode)
    requires t.Shape() && t.Has(n)
    ensures t.cell[n].left != null ==> t.cell[n].left != t.cell[n].right
  {
    assert t.Linked(n);
    if t.cell[n].left != null { assert t.Linked(t.cell[n].left); }
  }

  /** The node that owned `n` still does, unless `n` changes sides. */
  lemma StillOwned(e: Turn, n: RbNode, o: RbNode)
    requires e.Valid() && n in e.t.place && n != e.p && n != e.s && n != e.Mid()
    requires e.t.Has(o) && e.t.cell[n].parent == o && (e.t.cell[o].left == n || e.t.cell[o].right == n)
    ensures e.After().cell[o].left == n || e.After().cell[o].right == n
  {
    Around(e);
    KidsDiffer(e.t, o);
  }

  lemma OwnedAfter(e: Turn, n: RbNode)
    requires e.Valid() && n in e.t.place && n != e.p && n != e.s
    ensures e.After().Owned(n, e.After().place[n], e.After().cell[n].parent)
  {
    var t := e.t;
    Around(e);
    assert t.Linked(n);
    var o := t.cell[n].parent;
    if n == e.Mid() {
      assert e.After().cell[n].parent == e.p;
    } else if o != null {
      assert e.After().cell[n].parent == o;
      StillOwned(e, n, o);
    }
  }

  /** A child that stays where it is keeps its interval. */
  lemma ParentKept(e: Turn, n: RbNode)
    requires e.Valid() && n in e.t.place && n != e.p && n != e.s && n != e.Mid()
    ensures var r := e.After(); r.Has(n) && r.cell[n].parent == e.t.cell[n].parent && r.place[n] == e.t.place[n]
  {
  }

  lemma KeptSpan(e: Turn, n: RbNode, left: bool, lo: int, hi: int)
    requires e.Valid() && (if n == e.p then left == e.left else n == e.s && left != e.left)
    requires e.t.Spans(Kid(e.t.cell[n], left), n, lo, hi)
    ensures e.After().Spans(Kid(e.t.cell[n], left), n, lo, hi)
    ensures Kid(e.After().cell[n], left) == Kid(e.t.cell[n], left)
  {
    hide Turn.CellAfter, Turn.PlaceAfter, Tree.Linked;
    Around(e);
    OuterKid(e, n, left);
    var kid := Kid(e.t.cell[n], left);
    if kid != null { ParentKept(e, kid); }
  }

  lemma OuterKid(e: Turn, n: RbNode, left: bool)
    requires e.Valid() && (if n == e.p then left == e.left else n == e.s && left != e.left)
    ensures var kid := Kid(e.t.cell[n], left);
      && Kid(e.After().cell[n], left) == kid
      && (kid != null ==> kid in e.t.place && kid != e.p && kid != e.s && kid != e.Mid())
  {
    Around(e);
    var kid := Kid(e.t.cell[n], left);
    if kid != null {
      assert e.t.Linked(kid);
      KidsDiffer(e.t, n);
    }
  }

  lemma MidSpan(e: Turn, lo: int, hi: int)
    requires e.Valid() && e.t.Spans(e.Mid(), e.s, lo, hi)
    ensures e.After().Spans(e.Mid(), e.p, lo, hi)
  {
    Around(e);
  }

  lemma PLinked(e: Turn)
    requires e.Valid()
    ensures e.After().Linked(e.p)
  {
    Around(e);
    var a, b := e.t.place[e.p], e.t.place[e.s];
    if e.left {
      KeptSpan(e, e.p, true, a.lo, a.at);
      MidSpan(e, b.lo, b.at);
    } else {
      KeptSpan(e, e.p, false, a.at + 1, a.hi);
      MidSpan(e, b.at + 1, b.hi);
    }
  }

  lemma SLinked(e: Turn)
    requires e.Valid()
    ensures e.After().Linked(e.s)
  {
    Around(e);
    var b := e.t.place[e.s];
    if e.left { KeptSpan(e, e.s, false, b.at + 1, b.hi); } else { KeptSpan(e, e.s, true, b.lo, b.at); }
    SOwned(e);
  }

  lemma SOwned(e: Turn)
    requires e.Valid()
    ensures var r := e.After(); r.Owned(e.s, r.place[e.s], r.cell[e.s].parent)
  {
    Around(e);
    if e.Above() != null { KidsDiffer(e.t, e.Above()); }
  }

  /** A rotation keeps all links consistent and the in-order sequence as it is. */
  lemma TurnedShape(e: Turn)
    requires e.Valid()
    ensures e.After().Shape() && e.After().order == e.t.order
  {
    var r := e.After();
    Around(e);
    forall n {:trigger r.Linked(n)} | n in r.place ensures r.Linked(n) {
      if n == e.p { PLinked(e); } else if n == e.s { SLinked(e); } else { OthersLinked(e, n); }
    }
    forall k | 0 <= k < |r.order| ensures r.order[k] in r.place && r.place[r.order[k]].at == k {
      assert e.t.order[k] in e.t.place && e.t.place[e.t.order[k]].at == k;
    }
    if e.t.root != null && e.t.root != e.p { assert e.t.Linked(e.t.root); }
  }

  // Colours

  /** Rotations move the gap at most among the two nodes that turn. */
  predicate SameElsewhere(e: Turn, gap: Slot, gap': Slot) {
    gap == gap' ||
      ((gap.SlotOf? ==> gap.owner == e.p || gap.owner == e.s) && (gap'.SlotOf? ==>
        gap'.owner == e.p || gap'.owner == e.s))
  }

  lemma KidKept(e: Turn, n: RbNode, c: RbNode?)
    requires e.Valid() && n in e.t.place && n != e.p && n != e.s && (c == e.t.cell[n].left || c == e.t.cell[n].right)
    ensures c != e.s
    ensures c != e.p && c != null ==>
      e.t.Has(c) && e.After().cell[c].black == e.t.cell[c].black && e.After().place[c].bh == e.t.place[c].bh
  {
    Around(e);
    assert e.t.Linked(n);
    if c != null { assert e.t.Linked(c); }
  }

  /** A node that does not turn keeps its colour, height and children, but that `s` takes the place of
      `p`, with its height and colour. */
  lemma KidAfter(e: Turn, n: RbNode, left: bool)
    requires e.Valid() && n in e.t.place && n != e.p && n != e.s
    ensures var r := e.After();
      && r.Has(n) && r.cell[n].black == e.t.cell[n].black && r.place[n].bh == e.t.place[n].bh
      && Kid(r.cell[n], left) == (if Kid(e.t.cell[n], left) == e.p then e.s else Kid(e.t.cell[n], left))
      && r.cell[e.s].black == e.t.cell[e.p].black && r.place[e.s].bh == e.t.place[e.p].bh
  {
    Around(e);
    KidsDiffer(e.t, n);
    assert e.t.Linked(n);
  }

  /** In a slot of a node that does not turn, the subtree keeps its height and colour. */
  lemma SlotKept(e: Turn, n: RbNode, left: bool, missing: bool)
    requires e.Valid() && n in e.t.place && n != e.p && n != e.s && e.t.Even(n, Kid(e.t.cell[n], left), missing)
    ensures e.After().Has(n) && e.After().Even(n, Kid(e.After().cell[n], left), missing)
  {
    hide Tree.Spans, Tree.Owned, Tree.Linked, Turn.CellAfter, Turn.PlaceAfter, Kid;
    KidIs(e, n, left);
    KidKept(e, n, Kid(e.t.cell[n], left));
    KidAfter(e, n, left);
    Around(e);
  }

  lemma KidIs(e: Turn, n: RbNode, left: bool)
    requires n in e.t.cell
    ensures Kid(e.t.cell[n], left) == e.t.cell[n].left || Kid(e.t.cell[n], left) == e.t.cell[n].right
  {
  }

  lemma OthersColoured(e: Turn, n: RbNode, gap: Slot, gap': Slot)
    requires e.Valid() && e.t.Coloured(n, gap) && n in e.t.place && n != e.p && n != e.s && SameElsewhere(e, gap, gap')
    ensures e.After().Coloured(n, gap')
  {
    SlotKept(e, n, true, gap == SlotOf(n, true));
    SlotKept(e, n, false, gap == SlotOf(n, false));
  }

  /** If the colour rules hold at the two nodes that turn, they hold everywhere. */
  lemma TurnedBalanced(e: Turn, gap: Slot, gap': Slot)
    requires e.Valid() && e.t.Balanced(gap) && SameElsewhere(e, gap, gap')
    requires e.After().Coloured(e.p, gap') && e.After().Coloured(e.s, gap')
    ensures e.After().Balanced(gap')
  {
    var r := e.After();
    Around(e);
    forall n {:trigger r.Coloured(n, gap')} | n in r.place ensures r.Coloured(n, gap') {
      if n != e.p && n != e.s {
        assert e.t.Coloured(n, gap);
        OthersColoured(e, n, gap, gap');
      }
    }
    if e.t.root != e.p { assert e.t.Linked(e.t.root); }
  }

  /** A node gets another colour and height. */
  ghost function Painted(t: Tree, n: RbNode, black: bool, bh: int): (r: Tree)
    requires t.Has(n)
  {
    t.(cell := t.cell[n := t.cell[n].(black := black)], place := t.place[n := t.place[n].(bh := bh)])
  }

  lemma PaintedShape(t: Tree, n: RbNode, black: bool, bh: int)
    requires t.Shape() && t.Has(n)
    ensures Painted(t, n, black, bh).Shape()
  {
    var r := Painted(t, n, black, bh);
    forall m {:trigger r.Linked(m)} | m in r.place ensures r.Linked(m) { assert t.Linked(m); }
    forall k | 0 <= k < |r.order| ensures r.order[k] in r.place && r.place[r.order[k]].at == k {
      assert t.order[k] in t.place && t.place[t.order[k]].at == k;
    }
  }

  // Cached values

  function Look(aug: map<RbNode, int>, n: RbNode?): Option<int> {
    if n != null && n in aug then Some(aug[n]) else None
  }

  /** The cached value of `n` is the one recomputed from its children. */
  ghost predicate Fresh(t: Tree, aug: map<RbNode, int>, f: Compute, n: RbNode) {
    n in t.cell && n in aug && aug[n] == f(n.data, Look(aug, t.cell[n].left), Look(aug, t.cell[n].right))
  }

  ghost predicate AllFresh(t: Tree, aug: map<RbNode, int>, f: Compute) {
    aug.Keys == t.place.Keys && forall n {:trigger Fresh(t, aug, f, n)} :: n in t.place ==> Fresh(t, aug, f, n)
  }

  /** The value of a subtree does not depend on how it is rotated. */
  ghost predicate Associative(f: Compute) {
    forall x, y, a, b, c :: f(y, Some(f(x, a, b)), c) == f(x, a, Some(f(y, b, c)))
  }

  /** The cached values after a rotation: `s` takes over that of `p`, and that of `p` is recomputed. */
  ghost function TurnedAug(e: Turn, aug: map<RbNode, int>, f: Compute): map<RbNode, int>
    requires e.Valid() && aug.Keys == e.t.place.Keys
  {
    var a, c := aug[e.s := aug[e.p]], e.CellAfter(e.p);
    a[e.p := f(e.p.data, Look(a, c.left), Look(a, c.right))]
  }

  lemma OthersFresh(e: Turn, aug: map<RbNode, int>, f: Compute, n: RbNode)
    requires e.Valid() && AllFresh(e.t, aug, f) && n in e.t.place && n != e.p && n != e.s
    ensures Fresh(e.After(), TurnedAug(e, aug, f), f, n)
  {
    hide Turn.CellAfter, Turn.PlaceAfter, Tree.Spans, Tree.Owned;
    assert Fresh(e.t, aug, f, n);
    KidKept(e, n, e.t.cell[n].left);
    KidKept(e, n, e.t.cell[n].right);
    KidAfter(e, n, true);
    KidAfter(e, n, false);
  }

  /** The subtrees below a rotation keep their cached values. */
  lemma TurnLooks(e: Turn, aug: map<RbNode, int>, f: Compute)
    requires e.Valid() && aug.Keys == e.t.place.Keys
    ensures var r, kid, far := TurnedAug(e, aug, f), Kid(e.t.cell[e.p], e.left), Kid(e.t.cell[e.s], !e.left);
      Look(r, kid) == Look(aug, kid) && Look(r, e.Mid()) == Look(aug, e.Mid()) && Look(r, far) == Look(aug, far)
  {
    hide Tree.Spans, Tree.Owned, Tree.Linked, Turn.CellAfter;
    Around(e);
    OuterKids(e);
  }

  /** The children that stay on their sides are not among the nodes that turn. */
  lemma OuterKids(e: Turn)
    requires e.Valid()
    ensures var kid, far := Kid(e.t.cell[e.p], e.left), Kid(e.t.cell[e.s], !e.left);
      kid != e.p && kid != e.s && far != e.p && far != e.s
  {
    Around(e);
    OuterKid(e, e.p, e.left);
    OuterKid(e, e.s, !e.left);
  }

  /** The two nodes that turn, in terms of the three subtrees below them. */
  lemma TurnValues(f: Compute, x: int, y: int, k: Option<int>, m: Option<int>, r: Option<int>, left: bool)
    requires Associative(f)
    ensures left ==> f(y, Some(f(x, k, m)), r) == f(x, k, Some(f(y, m, r)))
    ensures !left ==> f(x, Some(f(y, r, m)), k) == f(y, r, Some(f(x, m, k)))
  {
  }

  lemma PFresh(e: Turn, aug: map<RbNode, int>, f: Compute)
    requires e.Valid() && AllFresh(e.t, aug, f)
    ensures Fresh(e.After(), TurnedAug(e, aug, f), f, e.p)
    ensures var r, k, m := TurnedAug(e, aug, f), Look(aug, Kid(e.t.cell[e.p], e.left)), Look(aug, e.Mid());
      r[e.p] == (if e.left then f(e.p.data, k, m) else f(e.p.data, m, k)) && r[e.s] == aug[e.p]
  {
    Around(e);
    TurnLooks(e, aug, f);
  }

  lemma SFresh(e: Turn, aug: map<RbNode, int>, f: Compute)
    requires e.Valid() && AllFresh(e.t, aug, f) && Associative(f)
    ensures Fresh(e.After(), TurnedAug(e, aug, f), f, e.s)
  {
    Around(e);
    TurnLooks(e, aug, f);
    PFresh(e, aug, f);
    var kid, far := Kid(e.t.cell[e.p], e.left), Kid(e.t.cell[e.s], !e.left);
    assert Fresh(e.t, aug, f, e.p) && Fresh(e.t, aug, f, e.s);
    TurnValues(f, e.p.data, e.s.data, Look(aug, kid), Look(aug, e.Mid()), Look(aug, far), e.left);
  }

  /** A rotation leaves every cached value right. */
  lemma TurnedFresh(e: Turn, aug: map<RbNode, int>, f: Compute)
    requires e.Valid() && AllFresh(e.t, aug, f) && Associative(f)
    ensures AllFresh(e.After(), TurnedAug(e, aug, f), f)
  {
    PFresh(e, aug, f);
    SFresh(e, aug, f);
    var r, a := e.After(), TurnedAug(e, aug, f);
    forall n {:trigger Fresh(r, a, f, n)} | n in r.place ensures Fresh(r, a, f, n) {
      if n != e.p && n != e.s { OthersFresh(e, aug, f, n); }
    }
  }

  lemma PaintedFresh(t: Tree, n: RbNode, black: bool, bh: int, aug: map<RbNode, int>, f: Compute)
    requires t.Has(n) && AllFresh(t, aug, f)
    ensures AllFresh(Painted(t, n, black, bh), aug, f)
  {
    var r := Painted(t, n, black, bh);
    forall m {:trigger Fresh(r, aug, f, m)} | m in r.place ensures Fresh(r, aug, f, m) { assert Fresh(t, aug, f, m); }
  }
}
