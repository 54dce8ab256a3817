/** Rebalancing after a deletion (src/lib/libx/rbtree.c) and the deletion as a whole
    (src/include/rbtree_augmented.h).  The two mirror-image halves of the rebalancing are one piece of
    code here, with the side of the short slot as a parameter. */
module RbRebalance {
  import opened RbTree
  import opened RbRotate
  import opened RbColour
  import opened RbErase
  import opened Sequences

  ghost function Augs(nodes: set<RbNode>): (m: map<RbNode, int>)
    reads nodes`aug
    ensures m.Keys == nodes
  {
    map n | n in nodes :: n.aug
  }

  /** The fields of the nodes are those of `u`, but for the parent and colour of `loose`. */
  ghost predicate Matches(u: Tree, n: RbNode, loose: set<RbNode?>)
    requires n in u.cell
    reads n`left, n`right, n`parent, n`black
  {
    n.left == u.cell[n].left && n.right == u.cell[n].right && (n !in loose ==>
      n.parent == u.cell[n].parent && n.black == u.cell[n].black)
  }

  ghost predicate AllMatch(u: Tree, nodes: set<RbNode>, loose: set<RbNode?>)
    reads nodes`left, nodes`right, nodes`parent, nodes`black
  {
    nodes == u.cell.Keys && forall n {:trigger u.cell[n]} :: n in nodes ==> Matches(u, n, loose)
  }

  /** The fields of the nodes are those of `u`. */
  ghost predicate Same(u: Tree, nodes: set<RbNode>)
    reads nodes`left, nodes`right, nodes`parent, nodes`black
  {
    nodes == u.cell.Keys && forall n {:trigger u.cell[n]} :: n in nodes ==> CellOf(n) == u.cell[n]
  }

  method SetKid(n: RbNode, left: bool, kid: RbNode?)
    modifies n`left, n`right
    ensures n.left == if left then kid else old(n.left)
    ensures n.right == if left then old(n.right) else kid
  {
    if left {
      n.left := kid;
    } else {
      n.right := kid;
    }
  }

  /** `heir` takes the parent, colour and slot of `victim`, which becomes its child and gets the given
      colour. */
  method RotateSetParents(victim: RbNode, heir: RbNode, t: RbRoot, black: bool)
    requires victim != heir && (victim.parent != null ==> victim.parent != victim && victim.parent != heir)
    modifies t`node, victim`parent, victim`black, heir`parent, heir`black
    modifies (if victim.parent == null then {} else {victim.parent})`left, (if victim.parent == null then {}
      else {victim.parent})`right
    ensures heir.parent == old(victim.parent) && heir.black == old(victim.black)
    ensures victim.parent == heir && victim.black == black
    ensures t.node == if old(victim.parent) == null then heir else old(t.node)
    ensures var up := old(victim.parent); up != null ==>
      && up.left == (if old(up.left) == victim then heir else old(up.left))
      && up.right == (if old(up.left) == victim then old(up.right) else heir)
  {
    var parent := victim.parent;
    heir.parent, heir.black := victim.parent, victim.black;
    victim.parent, victim.black := heir, black;
    ChangeChild(victim, heir, parent, t);
  }

  /** `heir` takes over the cached value of `victim`, which is recomputed. */
  method AugmentRotate(t: RbRoot, victim: RbNode, heir: RbNode, ghost nodes: set<RbNode>)
    requires victim != heir && victim in nodes && heir in nodes
    requires (victim.left != null ==> victim.left in nodes) && (victim.right != null ==> victim.right in nodes)
    modifies victim`aug, heir`aug
    ensures var a := old(Augs(nodes))[heir := old(victim.aug)];
      Augs(nodes) == a[victim := t.compute(victim.data, Look(a, victim.left), Look(a, victim.right))]
  {
    heir.aug := victim.aug;
    victim.aug := t.compute(victim.data, AugOf(victim.left), AugOf(victim.right));
  }

  /** `s`, the child of `p` on the other side, takes the place of `p`, which becomes its child on side
      `left`. */
  method Swing(t: RbRoot, p: RbNode, s: RbNode, left: bool, black: bool, ghost nodes: set<RbNode>)
    requires p in nodes && s in nodes && p != s && (p.parent != null ==>
      p.parent in nodes && p.parent != p && p.parent != s)
    modifies t`node, nodes`left, nodes`right, nodes`parent, nodes`black
    ensures t.node == if old(p.parent) == null then s else old(t.node)
    ensures CellOf(p) == WithKid(old(CellOf(p)), !left, Kid(old(CellOf(s)), left)).(parent := s, black := black)
    ensures CellOf(s) == WithKid(old(CellOf(s)), left, p).(parent := old(p.parent), black := old(p.black))
    ensures forall n :: n in nodes && n != p && n != s ==>
      && n.left == (if n == old(p.parent) && old(n.left) == p then s else old(n.left))
      && n.right == (if n == old(p.parent) && old(n.left) != p then s else old(n.right))
      && n.parent == old(n.parent) && n.black == old(n.black)
  {
    var tmp := if left then s.left else s.right;
    SetKid(p, !left, tmp);
    SetKid(s, left, p);
    RotateSetParents(p, s, t, black);
  }

  /** The links of a rotation, but for the parent of the child that changes sides. */
  method TurnLinks(t: RbRoot, ghost e: Turn, p: RbNode, s: RbNode, left: bool, black: bool, ghost nodes: set<RbNode>,
      ghost loose: set<RbNode?>)
    requires e.Valid() && e.p == p && e.s == s && e.left == left && e.pBlack == black && nodes == e.t.place.Keys
    requires AllMatch(e.t, nodes, loose + {s}) && p !in loose && s !in loose && t.node == e.t.root
    modifies t`node, nodes`left, nodes`right, nodes`parent, nodes`black
    ensures AllMatch(e.After(), nodes, loose + {e.Mid()}) && t.node == e.After().root
    ensures forall n :: n in nodes && n != p && n != s ==> n.parent == old(n.parent) && n.black == old(n.black)
  {
    Around(e);
    assert Matches(e.t, p, loose + {s}) && Matches(e.t, s, loose + {s});
    Swing(t, p, s, left, black, nodes);
    forall n | n in nodes ensures Matches(e.After(), n, loose + {e.Mid()}) {
      assert old(Matches(e.t, n, loose + {s}));
      TurnedLinks(e, n);
    }
  }

  /** What a rotation does to the links of one node. */
  lemma TurnedLinks(e: Turn, n: RbNode)
    requires e.Valid() && n in e.t.place
    ensures var c, d := e.t.cell[n], e.After().cell[n];
      && (n == e.p ==> d == WithKid(c, !e.left, e.Mid()).(parent := e.s, black := e.pBlack))
      && (n == e.s ==> d == WithKid(c, e.left, e.p).(parent := e.Above(), black := e.t.cell[e.p].black))
      && (n != e.p && n != e.s ==>
            && d.left == (if n == e.Above() && c.left == e.p then e.s else c.left)
            && d.right == (if n == e.Above() && c.left != e.p then e.s else c.right)
            && d.black == c.black && (n != e.Mid() ==> d.parent == c.parent) && (n == e.Mid() ==> d.parent == e.p))
  {
    Around(e);
  }

  lemma ViewIs(t: RbRoot, u: Tree)
    requires u.cell.Keys == u.place.Keys && AllMatch(u, u.place.Keys, {})
    requires t.node == u.root && t.order == u.order && t.place == u.place
    ensures t.View() == u
  {
    forall n | n in u.place ensures CellOf(n) == u.cell[n] { assert Matches(u, n, {}); }
  }

  lemma ViewMatches(t: RbRoot)
    ensures AllMatch(t.View(), t.place.Keys, {})
  {
  }

  /** The child that changed sides gets its parent. */
  lemma MidMatches(e: Turn, nodes: set<RbNode>, loose: set<RbNode?>)
    requires e.Valid() && nodes == e.t.place.Keys && AllMatch(e.After(), nodes, loose + {e.Mid()})
    requires e.Mid() != null ==> e.t.Has(e.Mid()) && e.Mid().parent == e.p && e.Mid().black == e.t.cell[e.Mid()].black
    ensures AllMatch(e.After(), nodes, loose)
  {
    Around(e);
    forall n | n in nodes ensures Matches(e.After(), n, loose) {
      assert Matches(e.After(), n, loose + {e.Mid()});
      TurnedLinks(e, n);
    }
  }

  /** All the links of a rotation; the child that changes sides is returned. */
  method TurnAllLinks(t: RbRoot, ghost e: Turn, p: RbNode, s: RbNode, left: bool, black: bool, blacken: bool,
      ghost nodes: set<RbNode>, ghost loose: set<RbNode?>)
      returns (tmp: RbNode?)
    requires e.Valid() && (blacken ==> e.t.Black(e.Mid())) && e.p == p && e.s == s && e.left == left &&
      e.pBlack == black
    requires nodes == e.t.place.Keys && AllMatch(e.t, nodes, loose + {s})
    requires p !in loose && s !in loose && e.Mid() !in loose && t.node == e.t.root
    modifies t`node, nodes`left, nodes`right, nodes`parent, nodes`black
    ensures AllMatch(e.After(), nodes, loose) && t.node == e.After().root && tmp == e.Mid()
  {
    MidOf(e, nodes, loose);
    tmp := if left then s.left else s.right;
    TurnLinks(t, e, p, s, left, black, nodes, loose);
    AdoptMid(e, tmp, p, blacken, nodes, loose);
  }

  lemma MidOf(e: Turn, nodes: set<RbNode>, loose: set<RbNode?>)
    requires e.Valid() && nodes == e.t.place.Keys && AllMatch(e.t, nodes, loose + {e.s}) && e.Mid() !in loose
    ensures e.Mid() == if e.left then e.s.left else e.s.right
    ensures e.Mid() != null ==>
      e.Mid() in nodes && e.Mid() != e.p && e.Mid() != e.s && e.Mid().black == e.t.cell[e.Mid()].black
  {
    Around(e);
    assert Matches(e.t, e.s, loose + {e.s});
    if e.Mid() != null { assert Matches(e.t, e.Mid(), loose + {e.s}); }
  }

  /** The child that changed sides gets its parent. */
  method AdoptMid(ghost e: Turn, tmp: RbNode?, p: RbNode, blacken: bool, ghost nodes: set<RbNode>,
      ghost loose: set<RbNode?>)
    requires e.Valid() && e.p == p && tmp == e.Mid() && nodes == e.t.place.Keys && (blacken ==> e.t.Black(tmp))
    requires AllMatch(e.After(), nodes, loose + {tmp})
    requires tmp != null ==> tmp in nodes && tmp.black == e.t.cell[tmp].black
    modifies nodes`parent, nodes`black
    ensures AllMatch(e.After(), nodes, loose)
  {
    if tmp != null {
      SetParent(tmp, p, blacken, e.After(), nodes, loose + {tmp});
    }
    MidMatches(e, nodes, loose);
  }

  /** A rotation with everything that belongs to it. */
  method TurnWhole(t: RbRoot, ghost e: Turn, p: RbNode, s: RbNode, left: bool, black: bool, blacken: bool,
      ghost nodes: set<RbNode>, ghost loose: set<RbNode?>)
      returns (tmp: RbNode?)
    requires e.Valid() && (blacken ==> e.t.Black(e.Mid())) && e.p == p && e.s == s && e.left == left &&
      e.pBlack == black
    requires nodes == e.t.place.Keys && AllMatch(e.t, nodes, loose + {s})
    requires p !in loose && s !in loose && e.Mid() !in loose && t.node == e.t.root
    requires AllFresh(e.t, Augs(nodes), t.compute) && Associative(t.compute)
    modifies t`node, nodes`left, nodes`right, nodes`parent, nodes`black, nodes`aug
    ensures AllMatch(e.After(), nodes, loose) && t.node == e.After().root && tmp == e.Mid()
    ensures AllFresh(e.After(), Augs(nodes), t.compute)
  {
    tmp := TurnAllLinks(t, e, p, s, left, black, blacken, nodes, loose);
    TurnValuesToo(t, e, p, s, nodes, loose);
  }

  method SetParent(n: RbNode, p: RbNode, blacken: bool, ghost u: Tree, ghost nodes: set<RbNode>,
      ghost loose: set<RbNode?>)
    requires AllMatch(u, nodes, loose) && n in loose
    modifies n`parent, n`black
    ensures n.parent == p && n.black == (blacken || old(n.black)) && AllMatch(u, nodes, loose)
  {
    n.parent := p;
    if blacken {
      n.black := true;
    }
    forall m | m in nodes ensures Matches(u, m, loose) { assert old(Matches(u, m, loose)); }
  }

  /** The cached values of a rotation. */
  method TurnValuesToo(t: RbRoot, ghost e: Turn, p: RbNode, s: RbNode, ghost nodes: set<RbNode>,
      ghost loose: set<RbNode?>)
    requires e.Valid() && e.p == p && e.s == s && nodes == e.t.place.Keys && AllMatch(e.After(), nodes, loose)
    requires AllFresh(e.t, Augs(nodes), t.compute) && Associative(t.compute)
    modifies nodes`aug
    ensures AllFresh(e.After(), Augs(nodes), t.compute)
  {
    ghost var aug := Augs(nodes);
    Around(e);
    assert Matches(e.After(), p, loose);
    KidsOfTurned(e);
    AugmentRotate(t, p, s, nodes);
    TurnedFresh(e, aug, t.compute);
  }

  lemma KidsOfTurned(e: Turn)
    requires e.Valid()
    ensures var c := e.After().cell[e.p];
      c == e.CellAfter(e.p) && (c.left != null ==> c.left in e.t.place) && (c.right != null ==> c.right in e.t.place)
  {
    Around(e);
    TurnedShape(e);
    assert e.After().Linked(e.p);
  }

  /** The nodes are now those of `u`. */
  method Become(t: RbRoot, ghost u: Tree)
    requires u.cell.Keys == u.place.Keys && AllMatch(u, u.place.Keys, {}) && t.node == u.root && t.order == u.order
    requires AllFresh(u, Augs(u.place.Keys), t.compute)
    modifies t`place
    ensures t.View() == u && AllFresh(t.View(), Augs(t.place.Keys), t.compute)
  {
    t.place := u.place;
    ViewIs(t, u);
  }

  /** A red sibling is rotated away; the new sibling is returned. */
  method RotateAway(t: RbRoot, p: RbNode, s: RbNode, left: bool) returns (tmp: RbNode?)
    requires Short(t.View(), p, left) && t.View().Has(s) && s == Sibling(t.View(), p, left) && !s.black
    requires AllFresh(t.View(), Augs(t.place.Keys), t.compute) && Associative(t.compute)
    modifies t`node, t`place, t.place.Keys`left, t.place.Keys`right, t.place.Keys`parent, t.place.Keys`black,
      t.place.Keys`aug
    ensures t.View() == Case1(old(t.View()), p, left).After()
    ensures AllFresh(t.View(), Augs(t.place.Keys), t.compute) && tmp == Sibling(t.View(), p, left)
  {
    hide Tree.Even, Tree.Coloured, Tree.Balanced;
    ghost var u := t.View();
    ghost var e := Case1(u, p, left);
    Case1Balanced(u, p, left);
    Case1Turns(u, p, left);
    ViewMatches(t);
    tmp := TurnWhole(t, e, p, s, left, false, true, u.place.Keys, {});
    Become(t, e.After());
  }

  /** A black sibling with black children becomes red; a red parent then becomes black. */
  method PaintSibling(t: RbRoot, p: RbNode, s: RbNode, left: bool)
    requires Short(t.View(), p, left) && t.View().Has(s) && s == Sibling(t.View(), p, left)
    requires AllFresh(t.View(), Augs(t.place.Keys), t.compute)
    modifies t`place, p`black, s`black
    ensures t.View() == Case2(old(t.View()), p, left)
    ensures AllFresh(t.View(), Augs(t.place.Keys), t.compute)
  {
    ghost var u := t.View();
    ghost var aug := Augs(u.place.Keys);
    SiblingIs(u, p, left);
    Case2Fresh(u, p, left, aug, t.compute);
    FlipColours(u, p, s, left);
    Become(t, Case2(u, p, left));
  }

  method FlipColours(ghost u: Tree, p: RbNode, s: RbNode, left: bool)
    requires Short(u, p, left) && u.Has(s) && s == Sibling(u, p, left) && p != s && Same(u, u.place.Keys)
    modifies p`black, s`black
    ensures var r := Case2(u, p, left);
      AllMatch(r, u.place.Keys, {}) && r.cell.Keys == r.place.Keys == u.place.Keys && r.root == u.root &&
        r.order == u.order
  {
    s.black := false;
    if !p.black {
      p.black := true;
    }
    Case2Matches(u, p, s, left);
  }

  lemma Case2Matches(u: Tree, p: RbNode, s: RbNode, left: bool)
    requires Short(u, p, left) && u.Has(s) && s == Sibling(u, p, left) && p != s
    requires forall n :: n in u.place.Keys ==>
      CellOf(n) == if n == s then u.cell[n].(black := false) else if n == p then u.cell[n].(black := true)
        else u.cell[n]
    ensures var r := Case2(u, p, left);
      AllMatch(r, u.place.Keys, {}) && r.cell.Keys == r.place.Keys == u.place.Keys && r.root == u.root &&
        r.order == u.order
  {
    forall n | n in u.place.Keys ensures Matches(Case2(u, p, left), n, {}) { assert CellOf(n) == CellOf(n); }
  }

  lemma Case2Fresh(u: Tree, p: RbNode, left: bool, aug: map<RbNode, int>, f: Compute)
    requires Short(u, p, left) && u.Has(Sibling(u, p, left)) && AllFresh(u, aug, f)
    ensures AllFresh(Case2(u, p, left), aug, f)
  {
    var s := Sibling(u, p, left);
    var v := Painted(u, s, false, u.place[s].bh - 1);
    PaintedFresh(u, s, false, u.place[s].bh - 1, aug, f);
    PaintedFresh(v, p, true, u.place[p].bh - One(u.cell[p].black), aug, f);
  }

  lemma FilledMatches(u: Tree, p: RbNode, s: RbNode, far: RbNode, left: bool)
    requires u.Has(p) && u.Has(Sibling(u, p, left)) && Case4(u, p, left).Valid()
    requires s == Sibling(u, p, left) && far == Kid(u.cell[s], !left) && u.Has(far) && far != p && far != s
    requires AllMatch(Case4(u, p, left).After(), u.place.Keys, {far}) && far.parent == s && far.black &&
      u.cell[far].parent == s
    ensures AllMatch(Filled(u, p, left), u.place.Keys, {})
  {
    var e, r := Case4(u, p, left), Filled(u, p, left);
    Around(e);
    forall n | n in u.place.Keys ensures Matches(r, n, {}) {
      assert Matches(e.After(), n, {far});
      TurnedLinks(e, n);
    }
  }

  /** The links and values of the rotation that fills the gap. */
  method FillLinks(t: RbRoot, ghost u: Tree, p: RbNode, s: RbNode, far: RbNode, left: bool)
    requires Short(u, p, left) && u.Has(s) && s == Sibling(u, p, left) && u.cell[s].black
    requires far == Kid(u.cell[s], !left) && u.Has(far) && !u.cell[far].black
    requires AllMatch(u, u.place.Keys, {far} + {s}) && t.node == u.root
    requires AllFresh(u, Augs(u.place.Keys), t.compute) && Associative(t.compute)
    modifies t`node, u.place.Keys`left, u.place.Keys`right, u.place.Keys`parent, u.place.Keys`black, u.place.Keys`aug
    ensures Case4(u, p, left).Valid() && AllFresh(Case4(u, p, left).After(), Augs(u.place.Keys), t.compute)
    ensures AllMatch(Case4(u, p, left).After(), u.place.Keys, {far}) && far.parent == s && far.black
    ensures t.node == Case4(u, p, left).After().root
  {
    ghost var e := Case4(u, p, left);
    FarStays(u, p, left);
    FarIsNotMid(e, far);
    var tmp2 := TurnWhole(t, e, p, s, left, true, false, u.place.Keys, {far});
    SetParentOnly(far, s, e.After(), u.place.Keys);
  }

  method SetParentOnly(far: RbNode, s: RbNode, ghost v: Tree, ghost nodes: set<RbNode>)
    requires AllMatch(v, nodes, {far})
    modifies far`parent, far`black
    ensures AllMatch(v, nodes, {far}) && far.parent == s && far.black
  {
    SetParent(far, s, true, v, nodes, {far});
  }

  /** With a red far nephew a rotation fills the gap.  The parent and colour of the sibling and of the
      nephew do not matter before. */
  method Fill(t: RbRoot, ghost u: Tree, p: RbNode, s: RbNode, far: RbNode, left: bool)
    requires Short(u, p, left) && u.Has(s) && s == Sibling(u, p, left) && u.cell[s].black
    requires far == Kid(u.cell[s], !left) && u.Has(far) && !u.cell[far].black
    requires AllMatch(u, u.place.Keys, {far} + {s}) && t.node == u.root && t.order == u.order
    requires AllFresh(u, Augs(u.place.Keys), t.compute) && Associative(t.compute)
    modifies t`node, t`place, u.place.Keys`left, u.place.Keys`right, u.place.Keys`parent, u.place.Keys`black,
      u.place.Keys`aug
    ensures Case4(u, p, left).Valid() && t.View() == Filled(u, p, left) &&
      AllFresh(t.View(), Augs(t.place.Keys), t.compute)
  {
    hide AllMatch, AllFresh;
    FillLinks(t, u, p, s, far, left);
    FarIs(u, p, left);
    FilledMatches(u, p, s, far, left);
    FilledFresh(u, p, left, Augs(u.place.Keys), t.compute);
    Become(t, Filled(u, p, left));
  }

  lemma FilledFresh(u: Tree, p: RbNode, left: bool, aug: map<RbNode, int>, f: Compute)
    requires u.Has(p) && u.Has(Sibling(u, p, left)) && Case4(u, p, left).Valid() &&
      u.Has(Kid(u.cell[Sibling(u, p, left)], !left))
    requires AllFresh(Case4(u, p, left).After(), aug, f)
    ensures AllFresh(Filled(u, p, left), aug, f) &&
      Filled(u, p, left).cell.Keys == Filled(u, p, left).place.Keys == u.place.Keys
    ensures Filled(u, p, left).root == Case4(u, p, left).After().root && Filled(u, p, left).order == u.order
  {
    var far := Kid(u.cell[Sibling(u, p, left)], !left);
    PaintedFresh(Case4(u, p, left).After(), far, true, u.place[far].bh + 1, aug, f);
  }

  lemma FarIsNotMid(e: Turn, far: RbNode)
    requires e.Valid() && far == Kid(e.t.cell[e.s], !e.left) && e.t.Has(far)
    ensures far != e.p && far != e.s && far != e.Mid()
  {
    Around(e);
    KidsDiffer(e.t, e.s);
    assert e.t.Linked(far);
  }

  /** `near` goes between `p` and `s`. */
  method Insert(p: RbNode, s: RbNode, near: RbNode, left: bool)
    requires p != s && s != near && p != near && Kid(CellOf(s), left) == near
    requires var tmp1 := Kid(CellOf(near), !left); tmp1 != null ==> tmp1 != p && tmp1 != s && tmp1 != near
    modifies p`left, p`right, s`left, s`right, near`left, near`right
    modifies (var tmp1 := Kid(CellOf(near), !left); if tmp1 == null then {} else {tmp1})`parent,
      (var tmp1 := Kid(CellOf(near), !left); if tmp1 == null then {} else {tmp1})`black
    ensures CellOf(s) == WithKid(old(CellOf(s)), left, Kid(old(CellOf(near)), !left))
    ensures CellOf(near) == WithKid(old(CellOf(near)), !left, s)
    ensures CellOf(p) == WithKid(old(CellOf(p)), !left, near)
    ensures var tmp1 := Kid(old(CellOf(near)), !left);
      tmp1 != null ==> CellOf(tmp1) == old(CellOf(tmp1)).(parent := s, black := true)
  {
    var tmp1 := if left then near.right else near.left;
    SetKid(s, left, tmp1);
    SetKid(near, !left, s);
    SetKid(p, !left, near);
    if tmp1 != null {
      tmp1.parent, tmp1.black := s, true;
    }
  }

  /** The links of the rotation of a red near nephew over the sibling; the parent and colour of the two
      are left to what follows. */
  method LinkNear(t: RbRoot, ghost e: Turn, p: RbNode, s: RbNode, near: RbNode, left: bool, ghost nodes: set<RbNode>)
    requires e.Valid() && e.p == s && e.s == near && e.left == !left && nodes == e.t.place.Keys && Same(e.t, nodes)
    requires e.t.Has(p) && e.Above() == p && Kid(e.t.cell[p], !left) == s && e.t.Black(e.Mid())
    modifies nodes`left, nodes`right, nodes`parent, nodes`black
    ensures AllMatch(e.After(), nodes, {s} + {near})
  {
    Around(e);
    assert CellOf(s) == e.t.cell[s] && CellOf(near) == e.t.cell[near] && CellOf(p) == e.t.cell[p];
    Insert(p, s, near, left);
    forall n | n in nodes ensures Matches(e.After(), n, {s} + {near}) {
      NearLinks(e, p, n);
    }
  }

  /** What `Insert` leaves in a node is what the rotation asks for. */
  lemma NearLinks(e: Turn, p: RbNode, n: RbNode)
    requires e.Valid() && e.Above() == p && e.t.Has(p) && Kid(e.t.cell[p], e.left) == e.p && n in e.t.place &&
      e.t.Black(e.Mid())
    requires var c := e.t.cell[n];
      CellOf(n) == if n == e.p then WithKid(c, !e.left, e.Mid()) else if n == e.s then WithKid(c, e.left, e.p)
                   else if n == p then WithKid(c, e.left, e.s)
                     else if n == e.Mid() then c.(parent := e.p, black := true) else c
    ensures Matches(e.After(), n, {e.p} + {e.s})
  {
    Around(e);
    KidsDiffer(e.t, p);
    TurnedLinks(e, n);
  }

  /** A red near nephew is rotated over the sibling, all but for the colours and parents of the two. */
  method RotateNear(t: RbRoot, ghost u: Tree, p: RbNode, s: RbNode, near: RbNode, left: bool)
    requires u == t.View() && Short(u, p, left) && u.Has(s) && s == Sibling(u, p, left) && u.cell[s].black
    requires near == Kid(u.cell[s], left) && u.Has(near) && !u.cell[near].black && u.Black(Kid(u.cell[s], !left))
    requires AllFresh(u, Augs(u.place.Keys), t.compute) && Associative(t.compute)
    modifies u.place.Keys`left, u.place.Keys`right, u.place.Keys`parent, u.place.Keys`black, u.place.Keys`aug
    ensures var e := Case3(u, p, left);
      && e.Valid() && AllMatch(e.After(), u.place.Keys, {s} + {near}) &&
        AllFresh(e.After(), Augs(u.place.Keys), t.compute)
      && t.node == e.After().root
  {
    hide AllFresh, Tree.Spans, Tree.Owned, Tree.Linked, Tree.Even, Tree.Coloured, Tree.Shape, Tree.Balanced;
    ghost var e := Case3(u, p, left);
    NearTurns(u, p, left);
    LinkNear(t, e, p, s, near, left, u.place.Keys);
    TurnValuesToo(t, e, s, near, u.place.Keys, {s} + {near});
  }

  lemma NearTurns(u: Tree, p: RbNode, left: bool)
    requires Short(u, p, left) && u.Has(Sibling(u, p, left)) && u.cell[Sibling(u, p, left)].black
    requires var s := u.cell[Sibling(u, p, left)];
      u.Has(Kid(s, left)) && !u.cell[Kid(s, left)].black && u.Black(Kid(s, !left))
    ensures var e := Case3(u, p, left);
      e.Valid() && e.Above() == p && u.Black(e.Mid()) && e.After().root == u.root && Sibling(u, p, left) != p
  {
    SiblingIs(u, p, left);
    NephewIs(u, p, left, left);
    var e := Case3(u, p, left);
    Around(e);
    assert u.Coloured(e.s, SlotOf(p, left));
  }

  /** The tree is a red-black tree with all cached values right. */
  ghost predicate Sound(t: RbRoot)
    reads t, t.place.Keys
  {
    t.View().Shape() && t.View().Balanced(NoSlot) && AllFresh(t.View(), Augs(t.place.Keys), t.compute)
  }

  /** Cases 3 and 4 after one another: a red near nephew fills the gap. */
  method FillFromNear(t: RbRoot, p: RbNode, s: RbNode, near: RbNode, left: bool, ghost u: Tree)
    requires u == t.View() && Short(u, p, left) && u.Has(s) && s == Sibling(u, p, left) && u.cell[s].black
    requires near == Kid(u.cell[s], left) && u.Has(near) && !u.cell[near].black && u.Black(Kid(u.cell[s], !left))
    requires AllFresh(u, Augs(u.place.Keys), t.compute) && Associative(t.compute)
    modifies t`node, t`place, u.place.Keys`left, u.place.Keys`right, u.place.Keys`parent, u.place.Keys`black,
      u.place.Keys`aug
    ensures Sound(t) && t.place.Keys == u.place.Keys && t.order == u.order
  {
    NearReady(u, p, left);
    RotateNear(t, u, p, s, near, left);
    ghost var v := Case3(u, p, left).After();
    Fill(t, v, p, near, s, left);
  }

  /** After the rotation of the near nephew, the nephew is the black sibling with a red far nephew. */
  lemma NearReady(u: Tree, p: RbNode, left: bool)
    requires Short(u, p, left) && u.Has(Sibling(u, p, left)) && u.cell[Sibling(u, p, left)].black
    requires var s := u.cell[Sibling(u, p, left)];
      u.Has(Kid(s, left)) && !u.cell[Kid(s, left)].black && u.Black(Kid(s, !left))
    ensures var s := Sibling(u, p, left); var near := Kid(u.cell[s], left);
      Case3(u, p, left).Valid() && var v := Case3(u, p, left).After();
      && Short(v, p, left) && v.Has(near) && near == Sibling(v, p, left) && v.cell[near].black
      && s == Kid(v.cell[near], !left) && v.Has(s) && !v.cell[s].black
      && v.order == u.order && v.place.Keys == u.place.Keys
      && Case4(v, p, left).Valid() && Filled(v, p, left).Shape() && Filled(v, p, left).Balanced(NoSlot)
      && Filled(v, p, left).order == u.order && Filled(v, p, left).place.Keys == u.place.Keys
  {
    Case3Balanced(u, p, left);
    FilledBalanced(Case3(u, p, left).After(), p, left);
  }

  /** Case 4: a red far nephew fills the gap. */
  method FillFromFar(t: RbRoot, p: RbNode, s: RbNode, far: RbNode, left: bool, ghost u: Tree)
    requires u == t.View() && Short(u, p, left) && u.Has(s) && s == Sibling(u, p, left) && u.cell[s].black
    requires far == Kid(u.cell[s], !left) && u.Has(far) && !u.cell[far].black
    requires AllFresh(u, Augs(u.place.Keys), t.compute) && Associative(t.compute)
    modifies t`node, t`place, u.place.Keys`left, u.place.Keys`right, u.place.Keys`parent, u.place.Keys`black,
      u.place.Keys`aug
    ensures Sound(t) && t.place.Keys == u.place.Keys && t.order == u.order
  {
    ViewMatches(t);
    LooselyMatches(u, u.place.Keys, {far} + {s});
    FilledBalanced(u, p, left);
    Fill(t, u, p, s, far, left);
  }

  lemma LooselyMatches(u: Tree, nodes: set<RbNode>, loose: set<RbNode?>)
    requires AllMatch(u, nodes, {})
    ensures AllMatch(u, nodes, loose)
  {
    forall n | n in nodes ensures Matches(u, n, loose) { assert Matches(u, n, {}); }
  }

  /** Case 2: the gap moves up to the parent's slot, and the node that owns that slot is returned; null
      if there is no gap any more. */
  method PushUp(t: RbRoot, p: RbNode, s: RbNode, left: bool, ghost u: Tree) returns (up: RbNode?)
    requires u == t.View() && Short(u, p, left) && u.Has(s) && s == Sibling(u, p, left) && u.cell[s].black
    requires u.Black(u.cell[s].left) && u.Black(u.cell[s].right)
    requires AllFresh(u, Augs(u.place.Keys), t.compute)
    modifies t`place, p`black, s`black
    ensures t.place.Keys == u.place.Keys && t.order == u.order
    ensures up == null ==> Sound(t)
    ensures up != null ==> ShortAt(t, up, p) && Wider(t.View(), u, up, p) && u.cell[p].black
  {
    hide Tree.Spans, Tree.Owned, Tree.Linked, Tree.Even, Tree.Coloured, Tree.Shape, Tree.Balanced;
    Case2Balanced(u, p, left);
    SiblingIs(u, p, left);
    var wasBlack := p.black;
    PaintSibling(t, p, s, left);
    up := if wasBlack then p.parent else null;
    UpIs(u, p, left);
  }

  /** The tree is sound but for a black node missing in the slot of `up` that holds `kid`. */
  ghost predicate ShortAt(t: RbRoot, up: RbNode, kid: RbNode?)
    reads t, t.place.Keys
  {
    var v := t.View();
    && up in v.cell && (kid == v.cell[up].left || kid == v.cell[up].right) && v.cell[up].left != v.cell[up].right
    && Short(v, up, kid == v.cell[up].left) && AllFresh(v, Augs(t.place.Keys), t.compute)
  }

  ghost predicate Wider(v: Tree, u: Tree, up: RbNode, p: RbNode) {
    && up in v.place && p in u.place && up in u.place && u.place[up].hi - u.place[up].lo > u.place[p].hi - u.place[p].lo
    && v.place[up].lo == u.place[up].lo && v.place[up].hi == u.place[up].hi
  }

  lemma UpIs(u: Tree, p: RbNode, left: bool)
    requires Short(u, p, left) && u.Has(Sibling(u, p, left))
    requires var s := u.cell[Sibling(u, p, left)]; s.black && u.Black(s.left) && u.Black(s.right)
    ensures var v, gap, up := Case2(u, p, left), GapAbove(u, p), u.cell[p].parent;
      && v.cell[p].parent == up
      && (u.cell[p].black && up != null ==>
            gap.SlotOf? && gap.owner == up && up in v.cell && (p == v.cell[up].left || p == v.cell[up].right)
            && v.cell[up].left != v.cell[up].right && gap.onLeft == (p == v.cell[up].left) && Wider(v, u, up, p))
      && (!u.cell[p].black || up == null ==> gap == NoSlot)
  {
    Case2Balanced(u, p, left);
    SiblingIs(u, p, left);
    assert u.Linked(p);
    var up := u.cell[p].parent;
    if up != null {
      assert u.Linked(up);
      KidsDiffer(u, up);
    }
  }

  /** One round at a gap: the sibling, if red, is rotated away first. */
  method Round(t: RbRoot, p: RbNode, left: bool) returns (up: RbNode?)
    requires Short(t.View(), p, left) && AllFresh(t.View(), Augs(t.place.Keys), t.compute) && Associative(t.compute)
    modifies t`node, t`place, t.place.Keys`left, t.place.Keys`right, t.place.Keys`parent, t.place.Keys`black,
      t.place.Keys`aug
    ensures t.place.Keys == old(t.place.Keys) && t.order == old(t.order)
    ensures up == null ==> Sound(t)
    ensures up != null ==> ShortAt(t, up, p) && Wider(t.View(), old(t.View()), up, p)
  {
    var sibling := if left then p.right else p.left;
    SiblingIs(t.View(), p, left);
    if !sibling.black {
      Case1Balanced(t.View(), p, left);
      sibling := RotateAway(t, p, sibling, left);
      SiblingIs(t.View(), p, left);
      up := RepairBlack(t, p, sibling, left, t.View());
    } else {
      up := RepairBlack(t, p, sibling, left, t.View());
    }
  }

  /** The cases of a black sibling. */
  method RepairBlack(t: RbRoot, p: RbNode, s: RbNode, left: bool, ghost u: Tree) returns (up: RbNode?)
    requires u == t.View() && Short(u, p, left) && u.Has(s) && s == Sibling(u, p, left) && u.cell[s].black
    requires AllFresh(u, Augs(u.place.Keys), t.compute) && Associative(t.compute)
    modifies t`node, t`place, u.place.Keys`left, u.place.Keys`right, u.place.Keys`parent, u.place.Keys`black,
      u.place.Keys`aug
    ensures t.place.Keys == u.place.Keys && t.order == u.order
    ensures up == null ==> Sound(t)
    ensures up != null ==> ShortAt(t, up, p) && Wider(t.View(), u, up, p) && u.cell[p].black
  {
    var far := if left then s.right else s.left;
    var near := if left then s.left else s.right;
    NephewIs(u, p, left, true);
    NephewIs(u, p, left, false);
    up := null;
    if far == null || far.black {
      if near == null || near.black {
        up := PushUp(t, p, s, left, u);
      } else {
        FillFromNear(t, p, s, near, left, u);
      }
    } else {
      FillFromFar(t, p, s, far, left, u);
    }
  }

  /** Rebalancing: a tree that is short of one black node at an empty slot of `parent` becomes a
      red-black tree again, with the same nodes in the same order and every cached value right. */
  method EraseColor(t: RbRoot, parent: RbNode)
    requires ShortAt(t, parent, null) && Associative(t.compute)
    modifies t`node, t`place, t.place.Keys`left, t.place.Keys`right, t.place.Keys`parent, t.place.Keys`black,
      t.place.Keys`aug
    ensures Sound(t) && t.place.Keys == old(t.place.Keys) && t.order == old(t.order)
  {
    var node: RbNode?, p: RbNode := null, parent;
    while true
      invariant t.place.Keys == old(t.place.Keys) && t.order == old(t.order)
      invariant ShortAt(t, p, node)
      decreases |t.order| - t.place[p].hi + t.place[p].lo
    {
      var left := node != p.right;
      ghost var v := t.View();
      assert v.Linked(p);
      var up := Round(t, p, left);
      if up == null {
        break;
      }
      node, p := p, up;
      assert t.View().Linked(p);
    }
  }

  lemma ValuesAre(t: RbRoot)
    ensures AllFresh(t.View(), Augs(t.place.Keys), t.compute) <== t.View().Shape() && t.AllUpToDate(t.place.Keys)
    ensures AllFresh(t.View(), Augs(t.place.Keys), t.compute) && t.View().Shape() ==> t.AllUpToDate(t.place.Keys)
  {
    var v := t.View();
    if v.Shape() {
      forall n | n in t.place ensures t.UpToDate(n) <==> Fresh(v, Augs(t.place.Keys), t.compute, n) { ValueIs(t, n); }
    }
  }

  lemma ValueIs(t: RbRoot, n: RbNode)
    requires t.View().Shape() && n in t.place
    ensures t.UpToDate(n) <==> Fresh(t.View(), Augs(t.place.Keys), t.compute, n)
  {
    assert t.View().Linked(n);
  }

  lemma GapIsShort(t: RbRoot, gap: Slot)
    requires t.View().Shape() && t.View().Balanced(gap) && gap.SlotOf? && gap.owner in t.place
    requires (if gap.onLeft then gap.owner.left else gap.owner.right) == null
    requires AllFresh(t.View(), Augs(t.place.Keys), t.compute)
    ensures ShortAt(t, gap.owner, null)
  {
    assert Short(t.View(), gap.owner, gap.onLeft);
    SiblingIs(t.View(), gap.owner, gap.onLeft);
  }

  /** The whole deletion (`rb_erase_augmented_cached`, or `rb_erase_augmented` if the leftmost node is
      not cached): a red-black tree loses exactly `node` and is a red-black tree again, with every
      cached value and the cached leftmost node right. */
  method Erase(t: RbRoot, node: RbNode, cached: bool)
    requires t.View().Shape() && t.View().Balanced(NoSlot) && node in t.place && t.AllUpToDate(t.place.Keys)
    requires Associative(t.compute) && (cached ==> t.LeftmostCached())
    modifies t`node, t`leftmost, t`order, t`place
    modifies t.place.Keys`left, t.place.Keys`right, t.place.Keys`parent, t.place.Keys`black, t.place.Keys`aug
    ensures 0 <= old(t.place)[node].at < |old(t.order)| && old(t.order)[old(t.place)[node].at] == node
    ensures t.order == Without(old(t.order), old(t.place)[node].at) && t.place.Keys == old(t.place.Keys) - {node}
    ensures t.View().Shape() && t.View().Balanced(NoSlot) && t.AllUpToDate(t.place.Keys)
    ensures if cached then t.LeftmostCached() else t.leftmost == old(t.leftmost)
  {
    ghost var gap;
    var rebalance;
    rebalance, gap := EraseAugmented(t, node, cached);
    if rebalance != null {
      ValuesAre(t);
      GapIsShort(t, gap);
      EraseColor(t, rebalance);
      ValuesAre(t);
    }
  }
}
