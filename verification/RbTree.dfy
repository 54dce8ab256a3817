/** Intrusive red-black trees (src/include/rbtree.h, src/lib/libx/rbtree.c).

    A tree is a set of `RbNode` objects whose fields the operations rewrite.  `RbRoot.View()` is
    the value of those fields together with the in-order sequence of the nodes.  Instead of
    following pointers recursively, `place` gives every node the half-open interval of the
    sequence that its subtree occupies, the node's own position in it and the black height of the
    subtree, so that every structural fact is about one node and its neighbours. */
module RbTree {
  import opened Wrappers

  type Compute = (int, Option<int>, Option<int>) -> int

  class RbNode {
    var parent: RbNode?
    var black: bool
    var right: RbNode?
    var left: RbNode?
    /** The cached augmented value; `data` stands for the rest of the embedding structure. */
    var aug: int
    const data: int

    constructor (data: int)
      ensures this.data == data
      ensures parent == left == right == null && !black
    {
      this.data := data;
      parent, left, right, black := null, null, null, false;
    }
  }

  function AugOf(n: RbNode?): Option<int>
    reads n
  {
    if n == null then None else Some(n.aug)
  }

  function ItemAt(s: seq<RbNode>, k: int): RbNode? {
    if 0 <= k < |s| then s[k] else null
  }

  datatype Cell = Cell(left: RbNode?, right: RbNode?, parent: RbNode?, black: bool)

  ghost function CellOf(n: RbNode): Cell
    reads n`left, n`right, n`parent, n`black
  {
    Cell(n.left, n.right, n.parent, n.black)
  }

  /** Where a node's subtree lies in the in-order sequence: it occupies [lo, hi), the node itself
      is at position `at`; `bh` counts the black nodes on a path from the node down. */
  datatype Place = Place(lo: int, at: int, hi: int, bh: int)

  /** A slot of a tree: the left or right child position of a node. */
  datatype Slot = NoSlot | SlotOf(owner: RbNode, onLeft: bool)

  datatype Tree = Tree(root: RbNode?, order: seq<RbNode>, place: map<RbNode, Place>, cell: map<RbNode, Cell>)
  {
    ghost predicate Has(n: RbNode?) {
      n != null && n in place && n in cell
    }

    /** `c` is the subtree of `owner` that occupies [lo, hi). */
    ghost predicate Spans(c: RbNode?, owner: RbNode, lo: int, hi: int) {
      if c == null then lo == hi
      else Has(c) && cell[c].parent == owner && place[c].lo == lo && place[c].hi == hi
    }

    /** Everything the links say about one node: its children point back to it and split its
        interval at its position, and its parent owns it. */
    ghost predicate Linked(n: RbNode) {
      && Has(n)
      && (var p, c := place[n], cell[n];
          && 0 <= p.lo <= p.at < p.hi <= |order| && order[p.at] == n
          && Spans(c.left, n, p.lo, p.at)
          && Spans(c.right, n, p.at + 1, p.hi)
          && Owned(n, p, c.parent))
    }

    ghost predicate Owned(n: RbNode, p: Place, parent: RbNode?) {
      if parent == null then n == root && p.lo == 0 && p.hi == |order|
      else Has(parent) && (cell[parent].left == n || cell[parent].right == n)
    }

    ghost predicate Shape() {
      && (forall k :: 0 <= k < |order| ==> order[k] in place && place[order[k]].at == k)
      && (forall n {:trigger Linked(n)} :: n in place ==> Linked(n))
      && (root == null ==> order == [])
      && (root != null ==> Has(root) && cell[root].parent == null)
    }

    ghost predicate Black(c: RbNode?) {
      c == null || (c in cell && cell[c].black)
    }

    ghost function Height(c: RbNode?): int {
      if Has(c) then place[c].bh else 0
    }

    /** The colour rules between a node and the child `c` in one of its slots; if `missing`, the
        subtree there has one black node fewer than the rules ask for. */
    ghost predicate Even(n: RbNode, c: RbNode?, missing: bool)
      requires Has(n)
    {
      && place[n].bh == Height(c) + (if cell[n].black then 1 else 0) + (if missing then 1 else 0)
      && 0 <= Height(c)
      && (!cell[n].black ==> Black(c))
    }

    /** The colour rules at one node, but for a black node missing in slot `gap`. */
    ghost predicate Coloured(n: RbNode, gap: Slot) {
      && Has(n)
      && Even(n, cell[n].left, gap == SlotOf(n, true))
      && Even(n, cell[n].right, gap == SlotOf(n, false))
    }

    ghost predicate Balanced(gap: Slot) {
      && (forall n {:trigger Coloured(n, gap)} :: n in place ==> Coloured(n, gap))
      && (root != null ==> Black(root))
    }
  }

  /** How many nodes the subtree of `n` has. */
  ghost function Width(t: Tree, n: RbNode?): int {
    if n != null && n in t.place then t.place[n].hi - t.place[n].lo else 0
  }

  class RbRoot {
    var node: RbNode?
    var leftmost: RbNode?
    /** Recomputes the cached value of a node from its own data and its children's cached values. */
    const compute: Compute
    ghost var order: seq<RbNode>
    ghost var place: map<RbNode, Place>

    ghost function View(): Tree
      reads this`node, this`order, this`place
      reads place.Keys`left, place.Keys`right, place.Keys`parent, place.Keys`black
    {
      Tree(node, order, place, map n | n in place :: CellOf(n))
    }

    /** The cached value of `n` is the one recomputed from its children. */
    ghost predicate UpToDate(n: RbNode)
      reads n, n.left, n.right
    {
      n.aug == compute(n.data, AugOf(n.left), AugOf(n.right))
    }

    ghost predicate AllUpToDate(nodes: set<RbNode>)
      reads nodes, set n | n in nodes && n.left != null :: n.left, set n | n in nodes && n.right != null :: n.right
    {
      forall n {:trigger UpToDate(n)} :: n in nodes ==> UpToDate(n)
    }

    ghost predicate LeftmostCached()
      reads this
    {
      leftmost == ItemAt(order, 0)
    }

    /** The in-order successor. */
    method Next(n: RbNode) returns (r: RbNode?)
      requires View().Shape() && n in place
      ensures r == ItemAt(order, place[n].at + 1)
    {
      ghost var t := View();
      assert t.Linked(n);
      if n.right != null {
        r := n.right;
        while r.left != null
          invariant r != null && t.Has(r) && place[r].lo == place[n].at + 1
          decreases place[r].hi - place[r].lo
        {
          assert t.Linked(r);
          r := r.left;
          assert t.Linked(r);
        }
        assert t.Linked(r);
      } else {
        var c := n;
        r := c.parent;
        while r != null && c == r.right
          invariant t.Has(c) && r == c.parent && place[c].hi == place[n].at + 1
          decreases |order| - place[c].hi + place[c].lo
        {
          assert t.Linked(c) && t.Linked(r);
          c := r;
          r := r.parent;
        }
        assert t.Linked(c) && (r != null ==> t.Linked(r));
      }
    }
  }
}
