/** Deletion from an augmented red-black tree (src/include/rbtree_augmented.h). */
module RbErase {
  import opened RbTree
  import opened Sequences

  function Past(b: int, cut: int): int {
    if b > cut then b - 1 else b
  }

  /** Erasing `node`: `heir` takes over its place, and the heir's only child `riser`, if any, takes
      over the slot the heir leaves.  A node with at most one child is its own heir; otherwise the
      heir is the in-order successor. */
  datatype Plan = Plan(t: Tree, node: RbNode, heir: RbNode, riser: RbNode?)
  {
    ghost predicate Valid() {
      && t.Shape() && t.Has(node) && t.Has(heir)
      && (heir == node || (t.place[heir].at == t.place[node].at + 1 && t.cell[heir].left == null))
      && (t.cell[heir].left == null || t.cell[heir].right == null)
      && riser == (if t.cell[heir].left == null then t.cell[heir].right else t.cell[heir].left)
    }

    /** The node whose place `n` has afterwards. */
    ghost function Role(n: RbNode): RbNode {
      if n == heir then node else n
    }

    /** The node whose slot, colour and height `n` has afterwards. */
    ghost function Seat(n: RbNode): RbNode {
      if n == riser then heir else Role(n)
    }

    /** What is afterwards in the slot that held `c`. */
    ghost function Sub(c: RbNode?): RbNode? {
      if c == heir then riser else if c == node then heir else c
    }

    /** What afterwards owns the slots that `o` owned. */
    ghost function Owner(o: RbNode?): RbNode? {
      if o == node then heir else o
    }

    ghost predicate Moved(t': Tree, n: RbNode)
      requires Valid() && n in t.place
    {
      && t'.Has(n)
      && t.Has(Role(n)) && t.Has(Seat(n))
      && (var r, s, cut := Role(n), Seat(n), t.place[heir].at;
          && t'.place[n]
            == Place(Past(t.place[r].lo, cut), Past(t.place[r].at, cut), Past(t.place[r].hi, cut), t.place[s].bh)
          && t'.cell[n] == CellAfter(n))
    }

    ghost function CellAfter(n: RbNode): Cell
      requires t.Has(Role(n)) && t.Has(Seat(n))
    {
      var r, s := t.cell[Role(n)], t.cell[Seat(n)];
      Cell(Sub(r.left), Sub(r.right), Owner(s.parent), s.black)
    }

    /** `t'` is the tree after the erasure. */
    ghost predicate Done(t': Tree)
      requires Valid()
    {
      && t'.root == Sub(t.root)
      && 0 <= t.place[node].at < |t.order| && t'.order == Without(t.order, t.place[node].at)
      && t'.place.Keys == t.place.Keys - {node}
      && (forall n {:trigger Moved(t', n)} :: n in t.place && n != node ==> Moved(t', n))
    }

    /** Where a black node is missing afterwards. */
    ghost function Gap(): Slot
      requires t.Has(heir)
    {
      var o := t.cell[heir].parent;
      if riser == null && t.cell[heir].black && t.Has(o) then SlotOf(Owner(o), t.cell[o].left == heir) else NoSlot
    }
  }

  /** The subtree in a slot makes way for its substitute, and its interval closes up. */
  lemma SlotMoved(e: Plan, t': Tree, n: RbNode, c: RbNode?, lo: int, hi: int)
    requires e.Valid() && e.Done(t') && n in e.t.place && n != e.node
    requires e.t.Spans(c, e.Role(n), lo, hi) && 0 <= lo
    ensures var cut := e.t.place[e.heir].at; t'.Spans(e.Sub(c), n, Past(lo, cut), Past(hi, cut))
  {
    var t := e.t;
    assert t.Linked(e.heir) && t.Linked(e.node) && e.Moved(t', n);
    if c != null {
      assert t.Linked(c);
      if e.Sub(c) != null {
        assert t.Linked(e.Sub(c)) && e.Moved(t', e.Sub(c));
      }
    }
  }

  lemma OwnerMoved(e: Plan, t': Tree, n: RbNode)
    requires e.Valid() && e.Done(t') && n in e.t.place && n != e.node && t'.Has(n)
    ensures t'.Owned(n, t'.place[n], t'.cell[n].parent)
  {
    var t := e.t;
    assert t.Linked(e.heir) && t.Linked(e.node) && e.Moved(t', n);
    var s := e.Seat(n);
    assert t.Linked(s);
    var o := t.cell[s].parent;
    if o != null {
      assert t.Linked(o);
      assert o != e.heir || e.heir == e.node;
      assert e.Moved(t', e.Owner(o));
    }
  }

  lemma NodeMoved(e: Plan, t': Tree, n: RbNode)
    requires e.Valid() && e.Done(t') && n in e.t.place && n != e.node
    ensures t'.Linked(n)
  {
    hide Tree.Spans, Tree.Owned;
    var t, r := e.t, e.Role(n);
    assert t.Linked(r) && e.Moved(t', n) && t.Linked(e.heir) && t.Linked(e.node);
    var p, c := t.place[r], t.cell[r];
    SlotMoved(e, t', n, c.left, p.lo, p.at);
    SlotMoved(e, t', n, c.right, p.at + 1, p.hi);
    OwnerMoved(e, t', n);
  }

  /** Erasing keeps every link consistent and takes exactly `node` out of the in-order sequence. */
  lemma ErasedShape(e: Plan, t': Tree)
    requires e.Valid() && e.Done(t')
    ensures t'.Shape()
  {
    hide Tree.Balanced, Tree.Coloured;
    var t := e.t;
    forall n {:trigger t'.Linked(n)} | n in t'.place ensures t'.Linked(n) {
      NodeMoved(e, t', n);
    }
    assert t.Linked(e.node) && t.Linked(e.heir);
    forall k | 0 <= k < |t'.order| ensures t'.order[k] in t'.place && t'.place[t'.order[k]].at == k {
      assert t'.order[k] == t.order[if k < t.place[e.node].at then k else k + 1];
      assert t.Linked(t'.order[k]) && e.Moved(t', t'.order[k]);
    }
    if t.root != null {
      assert t.Linked(t.root);
      if t'.root != null { assert t.Linked(t'.root) && e.Moved(t', t'.root); }
    }
  }

  lemma BlackIsTall(t: Tree, c: RbNode?)
    requires t.Shape() && t.Balanced(NoSlot) && (c != null ==> t.Has(c))
    ensures c != null && t.Black(c) ==> t.Height(c) >= 1
  {
    if c != null {
      assert t.Linked(c) && t.Coloured(c, NoSlot);
      var l := t.cell[c].left;
      if l != null { assert t.Linked(l) && t.Coloured(l, NoSlot); }
    }
  }

  /** The only child of a node is a red leaf under a black node. */
  lemma RiserIsRedLeaf(e: Plan)
    requires e.Valid() && e.t.Balanced(NoSlot) && e.riser != null
    ensures e.t.Has(e.riser)
    ensures e.t.cell[e.heir].black && e.t.place[e.heir].bh == 1
    ensures !e.t.cell[e.riser].black && e.t.place[e.riser].bh == 0
    ensures e.t.cell[e.riser].left == null && e.t.cell[e.riser].right == null
  {
    var t := e.t;
    assert t.Linked(e.heir) && t.Coloured(e.heir, NoSlot);
    assert t.Linked(e.riser) && t.Coloured(e.riser, NoSlot);
    BlackIsTall(t, t.cell[e.riser].left);
    BlackIsTall(t, t.cell[e.riser].right);
  }

  /** The substitute in a slot is as tall and as black as what was there, but for the gap. */
  lemma SubstituteFits(e: Plan, t': Tree, c: RbNode?)
    requires e.Valid() && e.t.Balanced(NoSlot) && e.Done(t')
    requires c != null ==> e.t.Has(c) && c != e.riser
    ensures var missing := c == e.heir && e.riser == null && e.t.cell[e.heir].black;
      e.t.Height(c) == t'.Height(e.Sub(c)) + if missing then 1 else 0
    ensures e.t.Black(c) ==> t'.Black(e.Sub(c))
    ensures 0 <= t'.Height(e.Sub(c))
  {
    var t := e.t;
    assert t.Linked(e.heir) && t.Linked(e.node) && t.Coloured(e.heir, NoSlot);
    if e.riser != null { RiserIsRedLeaf(e); }
    if c != null {
      assert t.Linked(c) && t.Coloured(c, NoSlot) && t.Coloured(e.node, NoSlot);
      if e.Sub(c) != null { assert e.Moved(t', e.Sub(c)); }
    }
  }

  lemma SideMoved(e: Plan, t': Tree, n: RbNode, c: RbNode?)
    requires e.Valid() && e.t.Balanced(NoSlot) && e.Done(t') && n in e.t.place && n != e.node && t'.Has(n)
    requires e.t.Has(e.Role(n)) && (c == e.t.cell[e.Role(n)].left || c == e.t.cell[e.Role(n)].right)
    ensures t'.Even(n, e.Sub(c), c == e.heir && e.riser == null && e.t.cell[e.heir].black)
  {
    var t := e.t;
    assert t.Linked(e.heir) && t.Linked(e.node) && e.Moved(t', n);
    assert t.Linked(e.Role(n)) && t.Coloured(e.Role(n), NoSlot);
    if n == e.riser {
      RiserIsRedLeaf(e);
    } else if e.riser != null {
      assert t.Linked(e.riser);
    }
    SubstituteFits(e, t', c);
  }

  lemma ColourMoved(e: Plan, t': Tree, n: RbNode)
    requires e.Valid() && e.t.Balanced(NoSlot) && e.Done(t') && n in e.t.place && n != e.node
    ensures t'.Coloured(n, e.Gap())
  {
    var t, r := e.t, e.Role(n);
    assert t.Linked(r) && e.Moved(t', n) && t.Linked(e.heir) && t.Linked(e.node);
    SideMoved(e, t', n, t.cell[r].left);
    SideMoved(e, t', n, t.cell[r].right);
  }

  /** Erasing keeps the colour rules, but for one black node missing in the slot the heir left,
      and only if the heir was black and nothing took over that slot. */
  lemma ErasedBalanced(e: Plan, t': Tree)
    requires e.Valid() && e.t.Balanced(NoSlot) && e.Done(t')
    ensures t'.Balanced(e.Gap())
  {
    var t := e.t;
    forall n {:trigger t'.Coloured(n, e.Gap())} | n in t'.place ensures t'.Coloured(n, e.Gap()) {
      ColourMoved(e, t', n);
    }
    assert t.Linked(e.node) && t.Linked(e.heir) && t.Linked(t.root);
    if t'.root != null { assert t.Linked(t'.root) && e.Moved(t', t'.root); }
  }

  /** Climbing parent links from a node of `path` leads to `stop` through wider and wider
      intervals, and whoever in `nodes` has a child on the path is that child's parent. */
  ghost predicate Climbs(v: Tree, nodes: set<RbNode>, path: set<RbNode>, stop: RbNode?) {
    && path <= nodes <= v.cell.Keys && path <= v.place.Keys
    && (forall n {:trigger v.cell[n].parent} :: n in path ==> ClimbsAt(v, path, stop, n))
    && (forall n {:trigger v.cell[n].left} :: n in nodes && v.cell[n].left in path ==>
      v.cell[v.cell[n].left].parent == n)
    && (forall n {:trigger v.cell[n].right} :: n in nodes && v.cell[n].right in path ==>
      v.cell[v.cell[n].right].parent == n)
  }

  ghost predicate ClimbsAt(v: Tree, path: set<RbNode>, stop: RbNode?, n: RbNode)
    requires n in v.cell
  {
    var up := v.cell[n].parent;
    0 <= Width(v, n) <= |v.order| && (up == stop || (up in path && Width(v, n) < Width(v, up)))
  }

  ghost predicate Linking(v: Tree, nodes: set<RbNode>)
    reads nodes
  {
    forall n {:trigger v.cell[n]} :: n in nodes ==> n in v.cell && v.cell[n] == CellOf(n)
  }

  /** Recomputes cached values from `rb` upwards, stopping early at the first one that is right. */
  method Propagate(t: RbRoot, rb: RbNode?, stop: RbNode?, ghost v: Tree, ghost nodes: set<RbNode>,
      ghost path: set<RbNode>)
    requires Linking(v, nodes) && Climbs(v, nodes, path, stop)
    requires stop !in nodes && (rb == stop || rb in path)
    requires forall n {:trigger t.UpToDate(n)} :: n in nodes && n != rb ==> t.UpToDate(n)
    modifies path`aug
    ensures t.AllUpToDate(nodes)
  {
    var r := rb;
    while r != stop
      invariant r == stop || r in path
      invariant Linking(v, nodes)
      invariant forall n {:trigger t.UpToDate(n)} :: n in nodes && (r == stop || n != r) ==> t.UpToDate(n)
      decreases r != stop, |v.order| - Width(v, r)
    {
      assert v.cell[r].parent == r.parent;
      var augmented := t.compute(r.data, AugOf(r.left), AugOf(r.right));
      if r.aug == augmented {
        break;
      }
      label before: assert true;
      r.aug := augmented;
      forall n {:trigger t.UpToDate(n)} | n in nodes && n != r.parent ensures t.UpToDate(n) {
        assert v.cell[n].left == n.left && v.cell[n].right == n.right;
        assert n != r ==> old@before(t.UpToDate(n));
      }
      r := r.parent;
    }
  }

  method ChangeChild(victim: RbNode, heir: RbNode?, parent: RbNode?, t: RbRoot)
    modifies t`node, (if parent == null then {} else {parent})`left, (if parent == null then {} else {parent})`right
    ensures t.node == if parent == null then heir else old(t.node)
    ensures parent != null ==> parent.left == if old(parent.left) == victim then heir else old(parent.left)
    ensures parent != null ==> parent.right == if old(parent.left) == victim then old(parent.right) else heir
  {
    if parent != null {
      if parent.left == victim {
        parent.left := heir;
      } else {
        parent.right := heir;
      }
    } else {
      t.node := heir;
    }
  }

  /** The places after the erasure that plan `e` describes. */
  ghost function PlacesAfter(e: Plan): map<RbNode, Place>
    requires e.node in e.t.place && e.heir in e.t.place
  {
    var cut := e.t.place[e.heir].at;
    map n | n in e.t.place && n != e.node ::
      var p := e.t.place[e.Role(n)];
      Place(Past(p.lo, cut), Past(p.at, cut), Past(p.hi, cut), (if e.Seat(n) in e.t.place then e.t.place[e.Seat(n)]
        else p).bh)
  }

  /** Without a successor to promote, only the slot of the erased node and its child change. */
  lemma OneChildCell(e: Plan, n: RbNode)
    requires e.Valid() && e.heir == e.node && n in e.t.place && n != e.node
    ensures e.t.Has(e.Role(n)) && e.t.Has(e.Seat(n)) && e.t.Has(n)
    ensures var c, r, o := e.t.cell[n], e.riser, e.t.cell[e.node];
      e.CellAfter(n) == Cell(if c.left == e.node then r else c.left, if c.right == e.node then r else c.right,
                             if n == r then o.parent else c.parent, if n == r then o.black else c.black)
    ensures e.t.cell[n].left == e.node || e.t.cell[n].right == e.node <==> n == e.t.cell[e.node].parent
    ensures !(e.t.cell[n].left == e.node && e.t.cell[n].right == e.node)
  {
    assert e.t.Linked(n) && e.t.Linked(e.node);
    if e.riser != null { assert e.t.Linked(e.riser); }
  }

  /** A node with at most one child: the child, if any, moves up. */
  method UnlinkOneChild(t: RbRoot, node: RbNode, ghost e: Plan) returns (rebalance: RbNode?, tmp: RbNode?)
    requires e.t == t.View() && e.node == e.heir == node && e.Valid()
    modifies t`node, t.place.Keys`left, t.place.Keys`right, t.place.Keys`parent, t.place.Keys`black
    ensures t.node == e.Sub(e.t.root)
    ensures forall n :: n in e.t.place && n != node ==>
      && n.left == (if old(n.left) == node then e.riser else old(n.left))
      && n.right == (if old(n.right) == node then e.riser else old(n.right))
    ensures forall n :: n in e.t.place && n != node ==>
      && n.parent == (if n == e.riser then old(node.parent) else old(n.parent))
      && n.black == (if n == e.riser then old(node.black) else old(n.black))
    ensures tmp == old(node.parent)
    ensures rebalance == if e.riser == null && old(node.black) then old(node.parent) else null
  {
    assert e.t.Linked(node);
    forall n | n in e.t.place && n != node
      ensures n.left == node || n.right == node <==> n == node.parent
      ensures !(n.left == node && n.right == node)
    {
      OneChildCell(e, n);
      assert e.t.cell[n] == CellOf(n);
    }
    if e.t.root != null { assert e.t.Linked(e.t.root); }
    var child := node.right;
    tmp := node.left;
    if tmp == null {
      var pcBlack, parent := node.black, node.parent;
      ChangeChild(node, child, parent, t);
      if child != null {
        child.parent, child.black := parent, pcBlack;
        rebalance := null;
      } else {
        rebalance := if pcBlack then parent else null;
      }
      tmp := parent;
    } else {
      tmp.parent, tmp.black := node.parent, node.black;
      var parent := node.parent;
      ChangeChild(node, tmp, parent, t);
      rebalance := null;
      tmp := parent;
    }
  }

  /** Promoting the successor changes the slots of the successor and of the erased node, and the
      links to the erased node. */
  lemma TwoChildrenCell(e: Plan, n: RbNode)
    requires e.Valid() && e.heir != e.node && n in e.t.place && n != e.node
    ensures e.t.Has(e.Role(n)) && e.t.Has(e.Seat(n)) && e.t.Has(n) && e.t.Has(e.node) && e.t.Has(e.heir)
    ensures e.heir != e.riser
    ensures var c, h, o := e.t.cell[n], e.t.cell[e.heir], e.t.cell[e.node];
      e.CellAfter(n) ==
        if n == e.heir then Cell(o.left, if o.right == n then e.riser else o.right, o.parent, o.black)
        else Cell(if c.left == e.heir then e.riser else if c.left == e.node then e.heir else c.left,
                  if c.right == e.node then e.heir else c.right,
                  if n == e.riser then (if h.parent == e.node then e.heir else h.parent)
                  else if c.parent == e.node then e.heir else c.parent,
                  if n == e.riser then h.black else c.black)
    ensures n != e.heir ==>
      (e.t.cell[n].left == e.heir <==> n == e.t.cell[e.heir].parent) && e.t.cell[n].right != e.heir
    ensures n != e.heir ==>
      (e.t.cell[n].left == e.node || e.t.cell[n].right == e.node <==> n == e.t.cell[e.node].parent)
    ensures !(e.t.cell[n].left == e.node && e.t.cell[n].right == e.node)
    ensures e.t.cell[n].parent == e.node <==> n == e.t.cell[e.node].left || n == e.t.cell[e.node].right
  {
    assert e.t.Linked(n) && e.t.Linked(e.node) && e.t.Linked(e.heir);
    if e.riser != null { assert e.t.Linked(e.riser); }
    assert e.t.cell[e.heir].parent != null ==> e.t.Linked(e.t.cell[e.heir].parent);
  }

  /** Walks to the in-order successor of a node with a right child. */
  method Descend(t: RbRoot, node: RbNode) returns (parent: RbNode, successor: RbNode)
    requires t.View().Shape() && node in t.place && node.right != null
    ensures successor in t.place && t.place[successor].at == t.place[node].at + 1 && successor.left == null
    ensures if node.right.left == null then parent == successor == node.right
            else successor != node.right && parent == successor.parent && parent in t.place && parent.left == successor
  {
    ghost var v := t.View();
    assert v.Linked(node);
    successor := node.right;
    parent := successor;
    assert v.Linked(successor);
    var tmp := successor.left;
    while tmp != null
      invariant successor in t.place && v.Linked(successor) && t.place[successor].lo == t.place[node].at + 1
      invariant tmp == successor.left
      invariant successor == node.right ==> parent == successor
      invariant successor != node.right ==> parent == successor.parent && parent in t.place && parent.left == successor
      invariant successor != node.right ==> node.right.left != null
      decreases t.place[successor].hi - t.place[successor].lo
    {
      parent := successor;
      successor := tmp;
      assert v.Linked(successor);
      tmp := tmp.left;
    }
  }

  /** While the successor is out of the tree, the left spine of the right subtree leads to it. */
  lemma DetachedPathClimbs(e: Plan, v: Tree, nodes: set<RbNode>, path: set<RbNode>)
    requires e.Valid() && e.heir != e.node && v.order == e.t.order && v.place == e.t.place
    requires nodes == e.t.place.Keys - {e.node, e.heir} && v.cell.Keys == nodes
    requires path == set n | n in nodes && e.t.place[n].lo == e.t.place[e.node].at + 1
    requires e.t.cell[e.node].right != null && e.t.cell[e.node].right != e.heir
    requires forall n {:trigger v.cell[n]} :: n in nodes ==> e.t.Has(n) && v.cell[n] == PulledCell(e, n)
    ensures Climbs(v, nodes, path, e.heir)
  {
    var t := e.t;
    assert t.Linked(e.node) && t.Linked(e.heir);
    forall n {:trigger v.cell[n].parent} | n in path ensures ClimbsAt(v, path, e.heir, n)
    {
      assert t.Linked(n);
      var up := t.cell[n].parent;
      if up != null { assert t.Linked(up); }
    }
    forall n {:trigger v.cell[n].left} | n in nodes && v.cell[n].left in path
      ensures v.cell[v.cell[n].left].parent == n {
      assert t.Linked(n);
    }
    forall n {:trigger v.cell[n].right} | n in nodes && v.cell[n].right in path
      ensures v.cell[v.cell[n].right].parent == n {
      assert t.Linked(n);
    }
  }

  /** The links of `n` while the successor, out of its old slot, is not yet in its new one. */
  ghost function PulledCell(e: Plan, n: RbNode): Cell
    requires e.t.Has(n) && e.t.Has(e.node) && e.t.Has(e.heir)
  {
    var c, child := e.t.cell[n], e.t.cell[e.node].right;
    if n == e.heir then Cell(null, if child == n then e.riser else child, c.parent, c.black)
    else Cell(if c.left == e.heir then e.riser else c.left, c.right, if n == child then e.heir else c.parent, c.black)
  }

  /** Brings the cached values of the right subtree up to date after its least node has left. */
  method RefreshSpine(t: RbRoot, parent: RbNode, successor: RbNode, ghost e: Plan, ghost nodes: set<RbNode>)
    requires e.Valid() && e.heir == successor != e.node
    requires forall n :: n in nodes ==> e.t.Has(n) && CellOf(n) == PulledCell(e, n)
    requires nodes == e.t.place.Keys - {e.node, e.heir}
    requires e.t.cell[e.node].right != null && e.t.cell[e.node].right != successor &&
      parent == e.t.cell[successor].parent
    requires forall n {:trigger t.UpToDate(n)} :: n in nodes && n != parent ==> t.UpToDate(n)
    modifies nodes`aug
    ensures t.AllUpToDate(nodes)
  {
    hide RbRoot.AllUpToDate;
    ghost var v := Tree(null, e.t.order, e.t.place, map n | n in nodes :: CellOf(n));
    ghost var path := set n | n in nodes && e.t.place[n].lo == e.t.place[e.node].at + 1;
    assert e.t.Linked(e.node) && e.t.Linked(successor) && e.t.Linked(parent);
    DetachedPathClimbs(e, v, nodes, path);
    Propagate(t, parent, successor, v, nodes, path);
  }

  /** Puts the successor, already spliced out, in the place of `node`. */
  method Promote(t: RbRoot, node: RbNode, parent: RbNode, successor: RbNode, child2: RbNode?, ghost nodes: set<RbNode>)
      returns (rebalance: RbNode?)
    requires node.left in nodes && node !in nodes && successor !in nodes && node != successor
    requires node.parent == null || node.parent in nodes
    requires child2 == null || child2 in nodes
    requires child2 != node.left
    requires forall n :: n in nodes ==>
      (n.left == node || n.right == node <==> n == node.parent) && !(n.left == node && n.right == node)
    modifies t`node, successor`left, nodes`left, nodes`right, nodes`parent, nodes`black, successor`parent,
      successor`black
    ensures t.node == if node.parent == null then successor else old(t.node)
    ensures forall n :: n in nodes ==>
      && n.left == (if old(n.left) == node then successor else old(n.left))
      && n.right == (if old(n.right) == node then successor else old(n.right))
    ensures forall n :: n in nodes ==>
      && n.parent == (if n == child2 then parent else if n == node.left then successor else old(n.parent))
      && n.black == (n == child2 || old(n.black))
    ensures successor.left == node.left && successor.parent == node.parent && successor.black == node.black
    ensures rebalance == if child2 == null && old(successor.black) then parent else null
  {
    var tmp := node.left;
    successor.left := tmp;
    tmp.parent := successor;
    tmp := node.parent;
    ChangeChild(node, successor, tmp, t);
    if child2 != null {
      successor.parent, successor.black := node.parent, node.black;
      child2.parent, child2.black := parent, true;
      rebalance := null;
    } else {
      var pc2Black := successor.black;
      successor.parent, successor.black := node.parent, node.black;
      rebalance := if pc2Black then parent else null;
    }
  }

  lemma ShapeClimbs(v: Tree, nodes: set<RbNode>)
    requires v.Shape() && nodes == v.cell.Keys == v.place.Keys
    ensures Climbs(v, nodes, nodes, null)
  {
    forall n | n in nodes
      ensures ClimbsAt(v, nodes, null, n)
    {
      assert v.Linked(n);
      if v.cell[n].parent != null { assert v.Linked(v.cell[n].parent); }
    }
    forall n | n in nodes && v.cell[n].left in nodes ensures v.cell[v.cell[n].left].parent == n {
      assert v.Linked(n);
    }
    forall n | n in nodes && v.cell[n].right in nodes ensures v.cell[v.cell[n].right].parent == n {
      assert v.Linked(n);
    }
  }

  /** The links of `n` are those of plan `e`. */
  ghost predicate Relinked(e: Plan, n: RbNode)
    reads n
  {
    e.t.Has(e.Role(n)) && e.t.Has(e.Seat(n)) && e.CellAfter(n) == CellOf(n)
  }

  method RelinkOneChild(t: RbRoot, node: RbNode, ghost e: Plan) returns (rebalance: RbNode?, tmp: RbNode?)
    requires e.t == t.View() && e.node == e.heir == node && e.Valid() && t.AllUpToDate(t.place.Keys)
    modifies t`node, t.place.Keys`left, t.place.Keys`right, t.place.Keys`parent, t.place.Keys`black
    ensures t.node == e.Sub(e.t.root)
    ensures forall n :: n in t.place && n != node ==> Relinked(e, n)
    ensures rebalance == if e.Gap() == NoSlot then null else e.Gap().owner
    ensures tmp == null || (tmp in t.place && tmp != node)
    ensures forall n :: n in t.place && n != node && n != tmp ==> t.UpToDate(n)
  {
    assert e.t.Linked(node);
    if e.t.cell[node].parent != null { assert e.t.Linked(e.t.cell[node].parent); }
    rebalance, tmp := UnlinkOneChild(t, node, e);
    forall n | n in t.place && n != node
      ensures Relinked(e, n)
      ensures n != tmp ==> t.UpToDate(n)
    {
      OneChildCell(e, n);
      assert e.t.cell[n] == old(CellOf(n));
      assert old(t.UpToDate(n));
    }
  }

  /** Nobody but its parent has the successor as a child. */
  lemma OnlyParentHasSuccessor(e: Plan, nodes: set<RbNode>)
    requires e.Valid() && e.heir != e.node && nodes == e.t.place.Keys - {e.node, e.heir}
    ensures forall n :: n in nodes ==>
      e.t.Has(n) && (e.t.cell[n].left == e.heir <==> n == e.t.cell[e.heir].parent) && e.t.cell[n].right != e.heir
  {
    forall n | n in nodes
      ensures e.t.Has(n) && (e.t.cell[n].left == e.heir <==>
        n == e.t.cell[e.heir].parent) && e.t.cell[n].right != e.heir {
      TwoChildrenCell(e, n);
    }
  }

  /** The successor is the right child: it only inherits the cached value. */
  method PullNear(t: RbRoot, node: RbNode, successor: RbNode, ghost e: Plan, ghost nodes: set<RbNode>)
    requires e == Plan(t.View(), node, successor, successor.right) && e.Valid() && t.AllUpToDate(t.place.Keys)
    requires node != successor && node.right == successor && nodes == t.place.Keys - {node, successor}
    modifies successor`aug
    ensures CellOf(successor) == PulledCell(e, successor)
    ensures forall n :: n in nodes ==> e.t.Has(n) && CellOf(n) == PulledCell(e, n)
    ensures t.AllUpToDate(nodes)
    ensures successor.aug == node.aug
  {
    OnlyParentHasSuccessor(e, nodes);
    assert e.t.Linked(node) && e.t.Linked(successor);
    successor.aug := node.aug;
    forall n | n in nodes ensures t.UpToDate(n) {
      assert e.t.Linked(n) && e.t.cell[n] == old(CellOf(n));
      assert old(t.UpToDate(n));
    }
  }

  /** Unlinks the successor from below `node`'s right child and puts that child under it. */
  method SpliceOut(t: RbRoot, node: RbNode, parent: RbNode, successor: RbNode, ghost e: Plan, ghost nodes: set<RbNode>)
    requires e == Plan(t.View(), node, successor, successor.right) && e.Valid()
    requires node != successor && node.right != null && node.right != successor &&
      nodes == t.place.Keys - {node, successor}
    requires parent == successor.parent && parent in t.place && parent.left == successor
    modifies nodes`left, nodes`parent, successor`right
    ensures CellOf(successor) == PulledCell(e, successor)
    ensures forall n :: n in nodes ==> e.t.Has(n) && CellOf(n) == PulledCell(e, n)
  {
    OnlyParentHasSuccessor(e, nodes);
    assert e.t.Linked(node) && e.t.Linked(successor);
    var child, child2 := node.right, successor.right;
    parent.left := child2;
    successor.right := child;
    child.parent := successor;
  }

  /** The successor is deeper: it leaves the right subtree, whose cached values are refreshed, and
      takes over `node`'s right child. */
  method PullFar(t: RbRoot, node: RbNode, parent: RbNode, successor: RbNode, ghost e: Plan, ghost nodes: set<RbNode>)
    requires e == Plan(t.View(), node, successor, successor.right) && e.Valid() && t.AllUpToDate(t.place.Keys)
    requires node != successor && node.right != null && node.right != successor &&
      nodes == t.place.Keys - {node, successor}
    requires parent == successor.parent && parent in t.place && parent.left == successor
    modifies nodes`left, nodes`parent, nodes`aug, successor`right, successor`aug
    ensures CellOf(successor) == PulledCell(e, successor)
    ensures forall n :: n in nodes ==> e.t.Has(n) && CellOf(n) == PulledCell(e, n)
    ensures t.AllUpToDate(nodes)
    ensures successor.aug == node.aug
  {
    OnlyParentHasSuccessor(e, nodes);
    SpliceOut(t, node, parent, successor, e, nodes);
    successor.aug := node.aug;
    forall n | n in nodes && n != parent ensures t.UpToDate(n) {
      assert e.t.cell[n] == old(CellOf(n)) && n.left == old(n.left) && n.right == old(n.right);
      assert old(t.UpToDate(n));
    }
    assert e.t.Linked(node) && e.t.Linked(successor);
    RefreshSpine(t, parent, successor, e, nodes);
  }

  method Pull(t: RbRoot, node: RbNode, parent: RbNode, successor: RbNode, ghost e: Plan, ghost nodes: set<RbNode>)
    requires e == Plan(t.View(), node, successor, successor.right) && e.Valid() && t.AllUpToDate(t.place.Keys)
    requires node != successor && node.right != null && nodes == t.place.Keys - {node, successor}
    requires if node.right == successor then parent == successor
             else parent == successor.parent && parent in t.place && parent.left == successor
    modifies nodes`left, nodes`parent, nodes`aug, successor`right, successor`aug
    ensures CellOf(successor) == PulledCell(e, successor)
    ensures forall n :: n in nodes ==> e.t.Has(n) && CellOf(n) == PulledCell(e, n)
    ensures t.AllUpToDate(nodes)
    ensures successor.aug == node.aug
    ensures parent == if node.right == successor then successor else e.t.cell[successor].parent
  {
    if node.right == successor {
      PullNear(t, node, successor, e, nodes);
    } else {
      PullFar(t, node, parent, successor, e, nodes);
    }
  }

  /** Promoting the successor after pulling it out gives the links that the plan asks for. */
  lemma PulledThenPromoted(e: Plan, n: RbNode)
    requires e.Valid() && e.t.Balanced(NoSlot) && e.heir != e.node && n in e.t.place && n != e.node && n != e.heir
    ensures e.t.Has(n) && e.t.Has(e.node) && e.t.Has(e.heir) && e.t.Has(e.Role(n)) && e.t.Has(e.Seat(n))
    ensures var c, o := PulledCell(e, n), e.t.cell[e.node];
      && (c.left == e.node || c.right == e.node <==> n == o.parent) && !(c.left == e.node && c.right == e.node)
      && e.CellAfter(n) == Cell(if c.left == e.node then e.heir else c.left, if c.right == e.node then e.heir
        else c.right,
           if n == e.riser then (if o.right == e.heir then e.heir else e.t.cell[e.heir].parent)
             else if n == o.left then e.heir else c.parent,
           n == e.riser || c.black)
  {
    TwoChildrenCell(e, n);
    assert e.t.Linked(e.node) && e.t.Linked(e.heir);
    if e.riser != null { RiserIsRedLeaf(e); assert e.t.Linked(e.riser); }
  }

  lemma HeirPromoted(e: Plan)
    requires e.Valid() && e.heir != e.node && e.t.cell[e.node].left != null
    ensures e.t.Has(e.node) && e.t.Has(e.heir) && e.t.Has(e.Role(e.heir)) && e.t.Has(e.Seat(e.heir))
    ensures var o := e.t.cell[e.node];
      e.CellAfter(e.heir) == Cell(o.left, PulledCell(e, e.heir).right, o.parent, o.black)
    ensures var o := e.t.cell[e.node]; e.t.Has(o.left) && o.left != e.riser && o.left != e.heir && o.left != e.node
    ensures var p := e.t.cell[e.node].parent; p == null || (e.t.Has(p) && p != e.heir && p != e.node)
    ensures e.riser == null || (e.t.Has(e.riser) && e.riser != e.heir && e.riser != e.node)
    ensures var owner := if e.t.cell[e.node].right == e.heir then e.heir else e.t.cell[e.heir].parent;
      if e.riser == null && e.t.cell[e.heir].black then e.Gap().SlotOf? && e.Gap().owner == owner else e.Gap() == NoSlot
    ensures e.Sub(e.t.root) == if e.t.cell[e.node].parent == null then e.heir else e.t.root
  {
    TwoChildrenCell(e, e.heir);
    assert e.t.Linked(e.heir) && e.t.Linked(e.node) && e.t.Linked(e.t.cell[e.node].left) && e.t.Linked(e.t.root);
    assert e.t.Linked(e.t.cell[e.heir].parent);
    if e.riser != null { assert e.t.Linked(e.riser); }
    if e.t.cell[e.node].parent != null { assert e.t.Linked(e.t.cell[e.node].parent); }
  }

  /** Promotes the successor once it has been pulled out. */
  method PromotePulled(t: RbRoot, node: RbNode, parent: RbNode, successor: RbNode, child2: RbNode?, ghost e: Plan,
      ghost nodes: set<RbNode>)
      returns (rebalance: RbNode?)
    requires e.Valid() && e.t.Balanced(NoSlot) && e.node == node != successor == e.heir && child2 == e.riser
    requires nodes == e.t.place.Keys - {node, successor} && node.left != null && e.t.root == t.node
    requires e.t.cell[node] == CellOf(node) && CellOf(successor) == PulledCell(e, successor)
    requires forall n :: n in nodes ==> e.t.Has(n) && CellOf(n) == PulledCell(e, n)
    requires t.AllUpToDate(nodes) && successor.aug == node.aug
    requires parent == if node.right == successor then successor else e.t.cell[successor].parent
    modifies t`node, successor`left, nodes`left, nodes`right, nodes`parent, nodes`black, successor`parent,
      successor`black
    ensures t.node == e.Sub(e.t.root)
    ensures Relinked(e, successor)
    ensures forall n :: n in nodes ==> Relinked(e, n)
    ensures t.AllUpToDate(nodes)
    ensures rebalance == if e.Gap() == NoSlot then null else e.Gap().owner
  {
    HeirPromoted(e);
    forall n | n in nodes
      ensures (n.left == node || n.right == node <==> n == node.parent) && !(n.left == node && n.right == node)
    {
      PulledThenPromoted(e, n);
    }
    rebalance := Promote(t, node, parent, successor, child2, nodes);
    forall n | n in nodes ensures Relinked(e, n) {
      PulledThenPromoted(e, n);
      assert old(CellOf(n)) == PulledCell(e, n);
    }
    forall n | n in nodes ensures t.UpToDate(n) {
      assert old(CellOf(n)) == PulledCell(e, n) && old(t.UpToDate(n));
    }
  }

  /** Erasing a node with two children, up to the final propagation. */
  method RelinkTwoChildren(t: RbRoot, node: RbNode) returns (rebalance: RbNode?, tmp: RbNode, ghost e: Plan)
    requires t.View().Shape() && t.View().Balanced(NoSlot) && node in t.place && t.AllUpToDate(t.place.Keys)
    requires node.left != null && node.right != null
    modifies t`node, t.place.Keys`left, t.place.Keys`right, t.place.Keys`parent, t.place.Keys`black, t.place.Keys`aug
    ensures e.t == old(t.View()) && e.node == node && e.Valid()
    ensures t.node == e.Sub(e.t.root)
    ensures Relinked(e, tmp)
    ensures forall n :: n in t.place.Keys - {node, tmp} ==> Relinked(e, n)
    ensures rebalance == if e.Gap() == NoSlot then null else e.Gap().owner
    ensures tmp in t.place && tmp != node
    ensures t.AllUpToDate(t.place.Keys - {node, tmp})
  {
    hide Relinked, RbRoot.AllUpToDate;
    ghost var v := t.View();
    assert v.Linked(node);
    var parent, successor := Descend(t, node);
    assert v.Linked(successor);
    e := Plan(v, node, successor, successor.right);
    ghost var nodes := t.place.Keys - {node, successor};
    var child2 := successor.right;
    Pull(t, node, parent, successor, e, nodes);
    rebalance := PromotePulled(t, node, parent, successor, child2, e, nodes);
    tmp := successor;
  }

  /** The slot that is short of a black node is empty. */
  lemma GapIsVacant(e: Plan, t': Tree)
    requires e.Valid() && e.Done(t') && e.Gap() != NoSlot
    ensures var gap := e.Gap();
      t'.Has(gap.owner) && (if gap.onLeft then t'.cell[gap.owner].left else t'.cell[gap.owner].right) == null
  {
    var t, o := e.t, e.t.cell[e.heir].parent;
    assert t.Linked(e.heir) && t.Linked(o) && t.Linked(e.node);
    assert e.Moved(t', e.Owner(o));
  }

  lemma RelinkedIsDone(e: Plan, t': Tree)
    requires e.Valid() && t'.root == e.Sub(e.t.root) && e.node in e.t.place && e.heir in e.t.place
    requires 0 <= e.t.place[e.node].at < |e.t.order| && t'.order == Without(e.t.order, e.t.place[e.node].at)
    requires t'.place == PlacesAfter(e) && t'.place.Keys == t'.cell.Keys
    requires forall n {:trigger t'.cell[n]} :: n in t'.place ==>
      e.t.Has(e.Role(n)) && e.t.Has(e.Seat(n)) && t'.cell[n] == e.CellAfter(n)
    ensures e.Done(t')
  {
    forall n | n in e.t.place && n != e.node ensures e.Moved(t', n) {
      assert n in t'.place && t'.cell[n] == e.CellAfter(n);
    }
  }

  /** The case analysis: afterwards the links of all remaining nodes are those of plan `e`. */
  method RelinkAll(t: RbRoot, node: RbNode)
    returns (rebalance: RbNode?, tmp: RbNode?, ghost e: Plan, ghost settled: set<RbNode>)
    requires t.View().Shape() && t.View().Balanced(NoSlot) && node in t.place && t.AllUpToDate(t.place.Keys)
    modifies t`node
    modifies t.place.Keys`left, t.place.Keys`right, t.place.Keys`parent, t.place.Keys`black, t.place.Keys`aug
    ensures e.t == old(t.View()) && e.node == node && e.Valid() && t.node == e.Sub(e.t.root)
    ensures forall n :: n in t.place && n != node ==> Relinked(e, n)
    ensures rebalance == if e.Gap() == NoSlot then null else e.Gap().owner
    ensures tmp != null ==> tmp in t.place && tmp != node
    ensures settled == t.place.Keys - {node} - (if tmp == null then {} else {tmp}) && t.AllUpToDate(settled)
  {
    var child := node.right;
    tmp := node.left;
    assert t.View().Linked(node);
    if tmp == null || child == null {
      e := Plan(t.View(), node, node, if tmp == null then child else tmp);
      rebalance, tmp := RelinkOneChild(t, node, e);
      settled := t.place.Keys - {node} - (if tmp == null then {} else {tmp});
    } else {
      rebalance, tmp, e := RelinkTwoChildren(t, node);
      settled := t.place.Keys - {node, tmp};
    }
  }

  /** All of the deletion but the cached leftmost node and the final propagation. */
  method Relink(t: RbRoot, node: RbNode)
    returns (rebalance: RbNode?, tmp: RbNode?, ghost e: Plan, ghost settled: set<RbNode>)
    requires t.View().Shape() && t.View().Balanced(NoSlot) && node in t.place && t.AllUpToDate(t.place.Keys)
    modifies t`node, t`order, t`place
    modifies t.place.Keys`left, t.place.Keys`right, t.place.Keys`parent, t.place.Keys`black, t.place.Keys`aug
    ensures e.t == old(t.View()) && e.node == node && e.Valid() && e.Done(t.View())
    ensures rebalance == if e.Gap() == NoSlot then null else e.Gap().owner
    ensures tmp != null ==> tmp in t.place
    ensures settled == t.place.Keys - (if tmp == null then {} else {tmp}) && t.AllUpToDate(settled)
  {
    hide RbRoot.AllUpToDate, Tree.Balanced, Tree.Coloured, Tree.Even, Tree.Spans, Tree.Owned, Plan.CellAfter;
    hide Plan.Sub, Plan.Moved;
    rebalance, tmp, e, settled := RelinkAll(t, node);
    assert e.t.Linked(node);
    t.place, t.order := PlacesAfter(e), Without(t.order, t.place[node].at);
    RelinkedIsDone(e, t.View());
  }

  /** The first element after an erasure is the erased node's successor if that node was first. */
  lemma FirstAfter(t: Tree, node: RbNode)
    requires t.Shape() && t.Has(node)
    ensures var i := t.place[node].at;
      0 <= i < |t.order| &&
        ItemAt(Without(t.order, i), 0) == if node == ItemAt(t.order, 0) then ItemAt(t.order, i + 1)
          else ItemAt(t.order, 0)
  {
    assert t.Linked(node);
  }

  /** The erasure as a whole: exactly `node` leaves the in-order sequence, the links stay
      consistent, and at most one black node is missing, at an empty slot. */
  lemma ErasedTree(e: Plan, t': Tree)
    requires e.Valid() && e.t.Balanced(NoSlot) && e.Done(t')
    ensures t'.Shape() && t'.Balanced(e.Gap())
    ensures t'.order == Without(e.t.order, e.t.place[e.node].at) && e.t.order[e.t.place[e.node].at] == e.node
    ensures var gap := e.Gap(); gap != NoSlot ==>
      t'.Has(gap.owner) && (if gap.onLeft then t'.cell[gap.owner].left else t'.cell[gap.owner].right) == null
  {
    ErasedShape(e, t');
    ErasedBalanced(e, t');
    assert e.t.Linked(e.node);
    if e.Gap() != NoSlot { GapIsVacant(e, t'); }
  }

  method Settle(t: RbRoot, tmp: RbNode?, ghost settled: set<RbNode>)
    requires t.View().Shape() && (tmp != null ==> tmp in t.place)
    requires settled == t.place.Keys - (if tmp == null then {} else {tmp}) && t.AllUpToDate(settled)
    modifies t.place.Keys`aug
    ensures t.AllUpToDate(t.place.Keys)
  {
    ShapeClimbs(t.View(), t.place.Keys);
    Propagate(t, tmp, null, t.View(), t.place.Keys, t.place.Keys);
  }

  /** Deletion: the in-order sequence loses exactly `node`; the colour rules hold again, but for
      one black node missing at the vacated child of the node returned, if one is; every cached
      value is right and so is the cached leftmost node. */
  method EraseAugmented(t: RbRoot, node: RbNode, cached: bool) returns (rebalance: RbNode?, ghost gap: Slot)
    requires t.View().Shape() && t.View().Balanced(NoSlot) && node in t.place && t.AllUpToDate(t.place.Keys)
    requires cached ==> t.LeftmostCached()
    modifies t`node, t`leftmost, t`order, t`place
    modifies t.place.Keys`left, t.place.Keys`right, t.place.Keys`parent, t.place.Keys`black, t.place.Keys`aug
    ensures 0 <= old(t.place)[node].at < |old(t.order)| && old(t.order)[old(t.place)[node].at] == node
    ensures t.order == Without(old(t.order), old(t.place)[node].at) && t.place.Keys == old(t.place.Keys) - {node}
    ensures t.View().Shape() && t.View().Balanced(gap)
    ensures rebalance == null <==> gap == NoSlot
    ensures rebalance != null ==>
      rebalance in t.place && gap.owner == rebalance && (if gap.onLeft then rebalance.left else rebalance.right) == null
    ensures t.AllUpToDate(t.place.Keys)
    ensures if cached then t.LeftmostCached() else t.leftmost == old(t.leftmost)
  {
    hide RbRoot.AllUpToDate, Tree.Shape, Tree.Balanced, Plan.CellAfter, Plan.Moved, Plan.Sub, PlacesAfter;
    FirstAfter(t.View(), node);
    ghost var rest := Without(t.order, t.place[node].at);
    if cached && node == t.leftmost {
      t.leftmost := t.Next(node);
    }
    assert cached ==> t.leftmost == ItemAt(rest, 0);
    var tmp;
    ghost var e, settled;
    rebalance, tmp, e, settled := Relink(t, node);
    ErasedTree(e, t.View());
    gap := e.Gap();
    Settle(t, tmp, settled);
  }
}
