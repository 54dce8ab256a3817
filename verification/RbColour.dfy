/** The cases of rebalancing a red-black tree in which one slot is short of a black node, as changes
    of its value (src/lib/libx/rbtree.c). */
module RbColour {
  import opened RbTree
  import opened RbRotate

  /** A black node is missing in the slot of `p` on side `left`, under which there is no red node. */
  ghost predicate Short(t: Tree, p: RbNode, left: bool) {
    t.Shape() && t.cell.Keys == t.place.Keys && t.Has(p) && t.Balanced(SlotOf(p, left)) && t.Black(Kid(t.cell[p], left))
  }

  ghost function Sibling(t: Tree, p: RbNode, left: bool): RbNode?
    requires t.Has(p)
  {
    Kid(t.cell[p], !left)
  }

  function One(b: bool): int {
    if b then 1 else 0
  }

  /** There is a sibling, one black node taller than the short slot. */
  lemma SiblingIs(t: Tree, p: RbNode, left: bool)
    requires Short(t, p, left)
    ensures var s, n := Sibling(t, p, left), Kid(t.cell[p], left);
      && t.Has(s) && t.Linked(s) && t.Coloured(s, SlotOf(p, left)) && t.cell[s].parent == p && s != p && s != n
      && 0 <= t.Height(n) && t.place[s].bh == t.Height(n) + 1 && t.place[p].bh == t.place[s].bh + One(t.cell[p].black)
      && (!t.cell[s].black ==> t.cell[p].black)
  {
    assert t.Linked(p) && t.Coloured(p, SlotOf(p, left));
    var s := Sibling(t, p, left);
    if s != null {
      assert t.Linked(s) && t.Coloured(s, SlotOf(p, left));
      KidsDiffer(t, p);
    }
  }

  /** The children of the sibling. */
  lemma NephewIs(t: Tree, p: RbNode, left: bool, side: bool)
    requires Short(t, p, left) && t.Has(Sibling(t, p, left))
    ensures var s := Sibling(t, p, left); var c := Kid(t.cell[s], side);
      && 0 <= t.Height(c) && t.place[s].bh == t.Height(c) + One(t.cell[s].black)
      && (!t.cell[s].black ==> t.Black(c))
      && (c != null ==>
        t.Has(c) && t.Linked(c) && t.Coloured(c, SlotOf(p, left)) && t.cell[c].parent == s && c != p && c != s)
  {
    SiblingIs(t, p, left);
    var s := Sibling(t, p, left);
    var c := Kid(t.cell[s], side);
    assert t.Linked(p);
    if c != null { assert t.Linked(c) && t.Coloured(c, SlotOf(p, left)); }
  }

  // A red sibling is rotated away

  ghost function Case1(t: Tree, p: RbNode, left: bool): Turn
    requires t.Has(p) && t.Has(Sibling(t, p, left))
  {
    Turn(t, p, Sibling(t, p, left), left, false, t.place[p].bh - 1)
  }

  lemma Case1Turns(t: Tree, p: RbNode, left: bool)
    requires Short(t, p, left) && t.Has(Sibling(t, p, left)) && !t.cell[Sibling(t, p, left)].black
    ensures var e := Case1(t, p, left);
      && e.Valid() && t.cell[p].black && t.Has(e.Mid()) && t.cell[e.Mid()].black
      && e.After().Coloured(p, SlotOf(p, left)) && e.After().Coloured(e.s, SlotOf(p, left))
  {
    SiblingIs(t, p, left);
    NephewIs(t, p, left, true);
    NephewIs(t, p, left, false);
    var e := Case1(t, p, left);
    Around(e);
    assert t.Linked(p) && t.Coloured(p, SlotOf(p, left));
    KidOfP(e);
  }

  /** A subtree that does not turn keeps its height, and does not become red. */
  ghost predicate TopKept(e: Turn, c: RbNode?)
    requires e.Valid()
  {
    e.After().Height(c) == e.t.Height(c) && (e.t.Black(c) <==> e.After().Black(c))
  }

  lemma TopIsKept(e: Turn, c: RbNode?)
    requires e.Valid() && (c != null ==> e.t.Has(c) && c != e.p && c != e.s)
    ensures TopKept(e, c)
  {
    Around(e);
  }

  /** The children of the two nodes that turn, afterwards. */
  lemma KidOfP(e: Turn)
    requires e.Valid()
    ensures var r, kid, far := e.After(), Kid(e.t.cell[e.p], e.left), Kid(e.t.cell[e.s], !e.left);
      && Kid(r.cell[e.p], e.left) == kid && TopKept(e, kid)
      && Kid(r.cell[e.p], !e.left) == e.Mid() && TopKept(e, e.Mid())
      && Kid(r.cell[e.s], e.left) == e.p
      && Kid(r.cell[e.s], !e.left) == far && TopKept(e, far)
  {
    Around(e);
    KidsDiffer(e.t, e.p);
    KidsDiffer(e.t, e.s);
    var kid, far := Kid(e.t.cell[e.p], e.left), Kid(e.t.cell[e.s], !e.left);
    if kid != null { assert e.t.Linked(kid); }
    if far != null { assert e.t.Linked(far); }
    TopIsKept(e, kid);
    TopIsKept(e, e.Mid());
    TopIsKept(e, far);
  }

  lemma Case1Balanced(t: Tree, p: RbNode, left: bool)
    requires Short(t, p, left) && t.Has(Sibling(t, p, left)) && !t.cell[Sibling(t, p, left)].black
    ensures var e := Case1(t, p, left); var r := e.After();
      && e.Valid() && Short(r, p, left) && !r.cell[p].black && r.order == t.order
      && Sibling(r, p, left) == e.Mid() && t.Has(e.Mid()) && r.cell[e.Mid()].black
  {
    var e := Case1(t, p, left);
    SiblingIs(t, p, left);
    Case1Turns(t, p, left);
    TurnedShape(e);
    TurnedBalanced(e, SlotOf(p, left), SlotOf(p, left));
    KidOfP(e);
    Around(e);
  }

  // A black sibling with black children is painted red

  ghost function Case2(t: Tree, p: RbNode, left: bool): Tree
    requires t.Has(p) && t.Has(Sibling(t, p, left))
  {
    var s := Sibling(t, p, left);
    var u := Painted(t, s, false, t.place[s].bh - 1);
    if !u.Has(p) then u else Painted(u, p, true, t.place[p].bh - One(t.cell[p].black))
  }

  /** Where a black node is missing after that. */
  ghost function GapAbove(t: Tree, p: RbNode): Slot
    requires t.Has(p)
  {
    var up := t.cell[p].parent;
    if !t.cell[p].black || !t.Has(up) then NoSlot else SlotOf(up, t.cell[up].left == p)
  }

  lemma Case2Shape(t: Tree, p: RbNode, left: bool)
    requires Short(t, p, left)
    ensures t.Has(Sibling(t, p, left)) && Case2(t, p, left).Shape()
  {
    SiblingIs(t, p, left);
    var s := Sibling(t, p, left);
    PaintedShape(t, s, false, t.place[s].bh - 1);
    var u := Painted(t, s, false, t.place[s].bh - 1);
    PaintedShape(u, p, true, t.place[p].bh - One(t.cell[p].black));
  }

  lemma Case2Sides(t: Tree, p: RbNode, left: bool, side: bool)
    requires Short(t, p, left) && t.Has(Sibling(t, p, left))
    requires var s := t.cell[Sibling(t, p, left)]; s.black && t.Black(s.left) && t.Black(s.right)
    ensures var r, s, gap := Case2(t, p, left), Sibling(t, p, left), GapAbove(t, p);
      && r.Has(p) && r.Even(p, Kid(r.cell[p], side), false)
      && r.Has(s) && r.Even(s, Kid(r.cell[s], side), false)
  {
    hide Tree.Spans, Tree.Owned;
    SiblingIs(t, p, left);
    NephewIs(t, p, left, side);
    assert t.Linked(p) && t.Coloured(p, SlotOf(p, left));
    var n := Kid(t.cell[p], left);
    if n != null { assert t.Linked(n); }
  }

  /** The slot above: its subtree keeps its height and is black, or it is now the short one. */
  lemma Case2Above(t: Tree, p: RbNode, left: bool, n: RbNode, side: bool)
    requires Short(t, p, left) && t.Has(Sibling(t, p, left)) && n in t.place && n != p && n != Sibling(t, p, left)
    requires Kid(t.cell[n], side) == p
    ensures var r := Case2(t, p, left); r.Has(n) && r.Even(n, Kid(r.cell[n], side), GapAbove(t, p) == SlotOf(n, side))
  {
    SiblingIs(t, p, left);
    assert t.Linked(n) && t.Coloured(n, SlotOf(p, left)) && t.Linked(p);
    KidsDiffer(t, n);
  }

  /** Painting changes nothing about the nodes that are not painted. */
  lemma Case2Same(t: Tree, p: RbNode, left: bool, n: RbNode)
    requires t.Has(p) && t.Has(Sibling(t, p, left)) && t.Has(n) && n != p && n != Sibling(t, p, left)
    ensures var r := Case2(t, p, left); r.Has(n) && r.cell[n] == t.cell[n] && r.place[n] == t.place[n]
  {
  }

  /** A child of a node that is not painted is not painted, unless it is `p`. */
  lemma Case2Kid(t: Tree, p: RbNode, left: bool, n: RbNode, side: bool)
    requires Short(t, p, left) && t.Has(Sibling(t, p, left)) && n in t.place && n != p && n != Sibling(t, p, left)
    ensures var c := Kid(t.cell[n], side);
      && t.Coloured(n, SlotOf(p, left)) && t.Even(n, c, false) && c != Sibling(t, p, left) && (c != null ==> t.Has(c))
      && (c != p ==> GapAbove(t, p) != SlotOf(n, side))
  {
    SiblingIs(t, p, left);
    assert t.Linked(n) && t.Coloured(n, SlotOf(p, left)) && t.Linked(p);
    var c := Kid(t.cell[n], side);
    if c != null { assert t.Linked(c); }
  }

  /** Everywhere else the rules hold as before. */
  lemma Case2Others(t: Tree, p: RbNode, left: bool, n: RbNode, side: bool)
    requires Short(t, p, left) && t.Has(Sibling(t, p, left)) && n in t.place && n != p && n != Sibling(t, p, left)
    ensures var r := Case2(t, p, left); r.Has(n) && r.Even(n, Kid(r.cell[n], side), GapAbove(t, p) == SlotOf(n, side))
  {
    var c := Kid(t.cell[n], side);
    if c == p {
      Case2Above(t, p, left, n, side);
    } else {
      hide Case2, GapAbove, Tree.Spans, Tree.Owned;
      Case2Kid(t, p, left, n, side);
      Case2Same(t, p, left, n);
      if c != null { Case2Same(t, p, left, c); }
    }
  }

  lemma Case2Balanced(t: Tree, p: RbNode, left: bool)
    requires Short(t, p, left) && t.Has(Sibling(t, p, left))
    requires var s := t.cell[Sibling(t, p, left)]; s.black && t.Black(s.left) && t.Black(s.right)
    ensures var r, gap := Case2(t, p, left), GapAbove(t, p);
      && r.Shape() && r.Balanced(gap) && r.order == t.order
      && (gap.SlotOf? ==>
        Short(r, gap.owner, gap.onLeft) && Kid(r.cell[gap.owner], gap.onLeft) == p && gap.owner == t.cell[p].parent &&
          r.cell[p].parent == gap.owner)
  {
    var r, gap, s := Case2(t, p, left), GapAbove(t, p), Sibling(t, p, left);
    SiblingIs(t, p, left);
    Case2Shape(t, p, left);
    assert t.Linked(p);
    forall n {:trigger r.Coloured(n, gap)} | n in r.place ensures r.Coloured(n, gap) {
      if n == p || n == s {
        Case2Sides(t, p, left, true);
        Case2Sides(t, p, left, false);
        assert t.Linked(s);
      } else {
        Case2Others(t, p, left, n, true);
        Case2Others(t, p, left, n, false);
      }
    }
    assert t.Linked(t.root);
    if gap.SlotOf? { KidsDiffer(t, gap.owner); }
  }

  // A red near nephew is rotated over the sibling

  ghost function Case3(t: Tree, p: RbNode, left: bool): Turn
    requires t.Has(p) && t.Has(Sibling(t, p, left)) && t.Has(Kid(t.cell[Sibling(t, p, left)], left))
  {
    var s := Sibling(t, p, left);
    Turn(t, s, Kid(t.cell[s], left), !left, false, t.place[s].bh - 1)
  }

  lemma Case3Balanced(t: Tree, p: RbNode, left: bool)
    requires Short(t, p, left) && t.Has(Sibling(t, p, left)) && t.cell[Sibling(t, p, left)].black
    requires var s := t.cell[Sibling(t, p, left)];
      t.Has(Kid(s, left)) && !t.cell[Kid(s, left)].black && t.Black(Kid(s, !left))
    ensures var e := Case3(t, p, left); var r := e.After();
      && e.Valid() && Short(r, p, left) && r.order == t.order && r.cell[p].black == t.cell[p].black
      && Sibling(r, p, left) == e.s && r.cell[e.s].black && Kid(r.cell[e.s], !left) == e.p && !r.cell[e.p].black &&
        r.Has(e.p)
  {
    var e := Case3(t, p, left);
    SiblingIs(t, p, left);
    NephewIs(t, p, left, left);
    NephewIs(t, p, left, !left);
    Around(e);
    KidOfP(e);
    Case3Turns(t, p, left);
    TurnedShape(e);
    TurnedBalanced(e, SlotOf(p, left), SlotOf(p, left));
    Case3Top(t, p, left);
  }

  lemma Case3Turns(t: Tree, p: RbNode, left: bool)
    requires Short(t, p, left) && t.Has(Sibling(t, p, left)) && t.cell[Sibling(t, p, left)].black
    requires var s := t.cell[Sibling(t, p, left)];
      t.Has(Kid(s, left)) && !t.cell[Kid(s, left)].black && t.Black(Kid(s, !left))
    ensures var e := Case3(t, p, left);
      e.Valid() && e.After().Coloured(e.p, SlotOf(p, left)) && e.After().Coloured(e.s, SlotOf(p, left))
  {
    var e := Case3(t, p, left);
    SiblingIs(t, p, left);
    NephewIs(t, p, left, left);
    NephewIs(t, p, left, !left);
    Around(e);
    KidOfP(e);
  }

  lemma Case3Top(t: Tree, p: RbNode, left: bool)
    requires Short(t, p, left) && t.Has(Sibling(t, p, left)) && t.Has(Kid(t.cell[Sibling(t, p, left)], left))
    requires Case3(t, p, left).Valid()
    ensures var e := Case3(t, p, left); var r := e.After();
      r.Black(Kid(r.cell[p], left)) && Sibling(r, p, left) == e.s && r.cell[p].black == t.cell[p].black
  {
    var e := Case3(t, p, left);
    SiblingIs(t, p, left);
    Around(e);
    KidsDiffer(t, p);
    var n := Kid(t.cell[p], left);
    assert t.Linked(p);
    if n != null { assert t.Linked(n); }
    TopIsKept(e, n);
  }

  // With a red far nephew one rotation fills the gap

  ghost function Case4(t: Tree, p: RbNode, left: bool): Turn
    requires t.Has(p) && t.Has(Sibling(t, p, left))
  {
    Turn(t, p, Sibling(t, p, left), left, true, t.place[p].bh - One(t.cell[p].black))
  }

  ghost function Filled(t: Tree, p: RbNode, left: bool): Tree
    requires t.Has(p) && t.Has(Sibling(t, p, left)) && Case4(t, p, left).Valid()
    requires t.Has(Kid(t.cell[Sibling(t, p, left)], !left))
  {
    var far := Kid(t.cell[Sibling(t, p, left)], !left);
    Painted(Case4(t, p, left).After(), far, true, t.place[far].bh + 1)
  }

  lemma FarStays(t: Tree, p: RbNode, left: bool)
    requires Short(t, p, left) && t.Has(Sibling(t, p, left)) && t.cell[Sibling(t, p, left)].black
    requires var s := t.cell[Sibling(t, p, left)]; t.Has(Kid(s, !left)) && !t.cell[Kid(s, !left)].black
    ensures var e := Case4(t, p, left); var far := Kid(t.cell[e.s], !left);
      && e.Valid() && far != p && far != e.s && t.cell[far].parent == e.s && e.After().place[far] == t.place[far]
      && e.After().cell[far] == t.cell[far]
  {
    var e := Case4(t, p, left);
    SiblingIs(t, p, left);
    NephewIs(t, p, left, !left);
    Around(e);
    KidsDiffer(t, e.s);
  }

  lemma FarIs(t: Tree, p: RbNode, left: bool)
    requires Short(t, p, left) && t.Has(Sibling(t, p, left)) && t.cell[Sibling(t, p, left)].black
    requires var s := t.cell[Sibling(t, p, left)]; t.Has(Kid(s, !left)) && !t.cell[Kid(s, !left)].black
    ensures var e := Case4(t, p, left); var far := Kid(t.cell[e.s], !left);
      && e.Valid() && far != p && far != e.s && t.cell[far].parent == e.s && e.After().place[far] == t.place[far]
      && e.After().cell[far] == t.cell[far] && Filled(t, p, left).Shape()
  {
    var e := Case4(t, p, left);
    FarStays(t, p, left);
    TurnedShape(e);
    var far := Kid(t.cell[e.s], !left);
    PaintedShape(e.After(), far, true, t.place[far].bh + 1);
  }

  /** Painting a node does not matter to nodes that are neither it nor its parent. */
  lemma PaintKeeps(u: Tree, far: RbNode, black: bool, bh: int, n: RbNode, gap: Slot)
    requires u.Has(far) && u.Has(n) && u.Coloured(n, gap) && n != far && u.cell[n].left != far && u.cell[n].right != far
    ensures Painted(u, far, black, bh).Coloured(n, gap)
  {
  }

  lemma FilledAtP(t: Tree, p: RbNode, left: bool)
    requires Short(t, p, left) && t.Has(Sibling(t, p, left)) && t.cell[Sibling(t, p, left)].black
    requires var s := t.cell[Sibling(t, p, left)]; t.Has(Kid(s, !left)) && !t.cell[Kid(s, !left)].black
    ensures Case4(t, p, left).Valid() && Filled(t, p, left).Coloured(p, NoSlot)
  {
    var e := Case4(t, p, left);
    FarIs(t, p, left);
    TurnedPColoured(t, p, left);
    Around(e);
    KidsDiffer(t, e.s);
    KidOfP(e);
    var n, far := Kid(t.cell[p], left), Kid(t.cell[e.s], !left);
    assert t.Linked(p);
    if n != null { assert t.Linked(n); }
    PaintKeeps(e.After(), far, true, t.place[far].bh + 1, p, NoSlot);
  }

  lemma TurnedPColoured(t: Tree, p: RbNode, left: bool)
    requires Short(t, p, left) && t.Has(Sibling(t, p, left)) && t.cell[Sibling(t, p, left)].black &&
      Case4(t, p, left).Valid()
    ensures Case4(t, p, left).After().Coloured(p, NoSlot)
  {
    var e := Case4(t, p, left);
    SiblingIs(t, p, left);
    NephewIs(t, p, left, left);
    KidOfP(e);
  }

  lemma FilledAtS(t: Tree, p: RbNode, left: bool)
    requires Short(t, p, left) && t.Has(Sibling(t, p, left)) && t.cell[Sibling(t, p, left)].black
    requires var s := t.cell[Sibling(t, p, left)]; t.Has(Kid(s, !left)) && !t.cell[Kid(s, !left)].black
    ensures Case4(t, p, left).Valid() && Filled(t, p, left).Coloured(Sibling(t, p, left), NoSlot)
  {
    var e := Case4(t, p, left);
    FarIs(t, p, left);
    SiblingIs(t, p, left);
    NephewIs(t, p, left, !left);
    KidOfP(e);
    Around(e);
  }

  lemma FarColoured(t: Tree, p: RbNode, left: bool)
    requires Short(t, p, left) && t.Has(Sibling(t, p, left)) && t.cell[Sibling(t, p, left)].black
    requires var s := t.cell[Sibling(t, p, left)]; t.Has(Kid(s, !left)) && !t.cell[Kid(s, !left)].black
    ensures var e := Case4(t, p, left); var far := Kid(t.cell[e.s], !left);
      && e.Valid() && e.After().Coloured(far, NoSlot) && !e.After().cell[far].black
      && e.After().cell[far].left != far && e.After().cell[far].right != far && e.After().place[far] == t.place[far]
  {
    var e := Case4(t, p, left);
    FarStays(t, p, left);
    SiblingIs(t, p, left);
    NephewIs(t, p, left, !left);
    Around(e);
    var far := Kid(t.cell[e.s], !left);
    OthersColoured(e, far, SlotOf(p, left), NoSlot);
    assert e.After().Linked(far) by { TurnedShape(e); }
  }

  lemma FilledAtFar(t: Tree, p: RbNode, left: bool)
    requires Short(t, p, left) && t.Has(Sibling(t, p, left)) && t.cell[Sibling(t, p, left)].black
    requires var s := t.cell[Sibling(t, p, left)]; t.Has(Kid(s, !left)) && !t.cell[Kid(s, !left)].black
    ensures Case4(t, p, left).Valid() && Filled(t, p, left).Coloured(Kid(t.cell[Sibling(t, p, left)], !left), NoSlot)
  {
    FarColoured(t, p, left);
  }

  lemma FilledBalanced(t: Tree, p: RbNode, left: bool)
    requires Short(t, p, left) && t.Has(Sibling(t, p, left)) && t.cell[Sibling(t, p, left)].black
    requires var s := t.cell[Sibling(t, p, left)]; t.Has(Kid(s, !left)) && !t.cell[Kid(s, !left)].black
    ensures Case4(t, p, left).Valid() && Filled(t, p, left).Shape() && Filled(t, p, left).Balanced(NoSlot) &&
      Filled(t, p, left).order == t.order
  {
    var e := Case4(t, p, left);
    var far := Kid(t.cell[e.s], !left);
    FarIs(t, p, left);
    FilledAtP(t, p, left);
    FilledAtS(t, p, left);
    FilledAtFar(t, p, left);
    var u, r := e.After(), Filled(t, p, left);
    forall n {:trigger r.Coloured(n, NoSlot)} | n in r.place ensures r.Coloured(n, NoSlot) {
      if n != p && n != e.s && n != far { FilledElsewhere(t, p, left, n); }
    }
    Around(e);
    assert t.Linked(t.root);
  }

  lemma FilledElsewhere(t: Tree, p: RbNode, left: bool, n: RbNode)
    requires Short(t, p, left) && t.Has(Sibling(t, p, left)) && t.cell[Sibling(t, p, left)].black
    requires var s := t.cell[Sibling(t, p, left)];
      t.Has(Kid(s, !left)) && !t.cell[Kid(s, !left)].black && n != Kid(s, !left)
    requires n in t.place && n != p && n != Sibling(t, p, left)
    ensures Case4(t, p, left).Valid() && Filled(t, p, left).Coloured(n, NoSlot)
  {
    var e := Case4(t, p, left);
    var far := Kid(t.cell[e.s], !left);
    FarIs(t, p, left);
    assert t.Coloured(n, SlotOf(p, left));
    OthersColoured(e, n, SlotOf(p, left), NoSlot);
    TurnedShape(e);
    assert e.After().Linked(n);
    PaintKeeps(e.After(), far, true, t.place[far].bh + 1, n, NoSlot);
  }
}
