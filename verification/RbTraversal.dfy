/** What the interval view of a red-black tree means in terms of its links alone. */
module RbTraversal {
  import opened RbTree

  /** The nodes below `n` in order, found by following child links to a depth of `fuel`. */
  ghost function Inorder(t: Tree, n: RbNode?, fuel: nat): seq<RbNode> {
    if n == null || n !in t.cell || fuel == 0 then []
    else Inorder(t, t.cell[n].left, fuel - 1) + [n] + Inorder(t, t.cell[n].right, fuel - 1)
  }

  lemma SliceAround(s: seq<RbNode>, lo: int, at: int, hi: int)
    requires 0 <= lo <= at < hi <= |s|
    ensures s[lo..hi] == s[lo..at] + [s[at]] + s[at + 1..hi]
  {}

  /** The interval of a linked node is those of its children, with the node between them. */
  lemma ChildIntervals(t: Tree, n: RbNode)
    requires t.Shape() && t.Has(n)
    ensures t.Linked(n)
    ensures var p, c := t.place[n], t.cell[n];
      && t.order[p.lo..p.hi] == t.order[p.lo..p.at] + [n] + t.order[p.at + 1..p.hi]
      && (if c.left == null then p.lo == p.at
        else t.Linked(c.left) && t.place[c.left].lo == p.lo && t.place[c.left].hi == p.at)
      && (if c.right == null then p.at + 1 == p.hi
        else t.Linked(c.right) && t.place[c.right].lo == p.at + 1 && t.place[c.right].hi == p.hi)
  {
    assert t.Linked(n);
    var p := t.place[n];
    SliceAround(t.order, p.lo, p.at, p.hi);
  }

  lemma {:induction false} InorderIsInterval(t: Tree, n: RbNode?, fuel: nat)
    requires t.Shape() && (n != null ==> t.Has(n)) && Width(t, n) <= fuel
    ensures n == null ==> Inorder(t, n, fuel) == []
    ensures n != null ==> t.Linked(n) && Inorder(t, n, fuel) == t.order[t.place[n].lo..t.place[n].hi]
  {
    if n != null {
      ChildIntervals(t, n);
      var p, l, r := t.place[n], t.cell[n].left, t.cell[n].right;
      InorderIsInterval(t, l, fuel - 1);
      InorderIsInterval(t, r, fuel - 1);
      assert l == null ==> t.order[p.lo..p.at] == [];
      assert r == null ==> t.order[p.at + 1..p.hi] == [];
    }
  }

  /** Walking the whole tree by its child links visits exactly `order`. */
  lemma InorderIsOrder(t: Tree)
    requires t.Shape()
    ensures Inorder(t, t.root, |t.order|) == t.order
    ensures forall m, n :: 0 <= m < n < |t.order| ==> t.order[m] != t.order[n]
  {
    if t.root != null { assert t.Linked(t.root); }
    InorderIsInterval(t, t.root, |t.order|);
  }

  /** The slot reached from `n` by turning left at each `true` and right at each `false`, or the
      slot of `n` itself if the path is empty. */
  ghost function EndOf(t: Tree, n: RbNode?, path: seq<bool>): RbNode? {
    if path == [] || !t.Has(n) then n
    else EndOf(t, if path[0] then t.cell[n].left else t.cell[n].right, path[1..])
  }

  ghost function Blacks(t: Tree, n: RbNode?, path: seq<bool>): int {
    if path == [] || !t.Has(n) then 0
    else (if t.cell[n].black then 1 else 0) + Blacks(t, if path[0] then t.cell[n].left else t.cell[n].right, path[1..])
  }

  /** Whether the path ends by going through slot `gap`. */
  ghost predicate EndsIn(t: Tree, n: RbNode?, path: seq<bool>, gap: Slot) {
    path != [] && t.Has(n) &&
    if |path| == 1 then gap == SlotOf(n, path[0])
    else EndsIn(t, if path[0] then t.cell[n].left else t.cell[n].right, path[1..], gap)
  }

  /** `n` heads a subtree and `path` ends at the first empty slot on its way. */
  ghost predicate Descends(t: Tree, n: RbNode?, path: seq<bool>) {
    if path == [] then n == null
    else t.Has(n) && Descends(t, if path[0] then t.cell[n].left else t.cell[n].right, path[1..])
  }

  /** Every path from a node to an empty slot passes as many black nodes as its height says, one
      fewer if it ends in the gap. */
  lemma {:induction false} PathBlacks(t: Tree, n: RbNode?, path: seq<bool>, gap: Slot)
    requires t.Shape() && t.Balanced(gap) && (n != null ==> t.Has(n)) && Descends(t, n, path)
    requires gap != NoSlot ==>
      t.Has(gap.owner) && (if gap.onLeft then t.cell[gap.owner].left else t.cell[gap.owner].right) == null
    ensures Blacks(t, n, path) == t.Height(n) - if EndsIn(t, n, path, gap) then 1 else 0
  {
    if path != [] {
      assert t.Linked(n) && t.Coloured(n, gap);
      PathBlacks(t, if path[0] then t.cell[n].left else t.cell[n].right, path[1..], gap);
    }
  }

  /** The colour rules in terms of whole paths: no two paths from the root to an empty slot pass
      different numbers of black nodes, but for the one that ends in the gap. */
  lemma EqualBlackDepth(t: Tree, p: seq<bool>, q: seq<bool>, gap: Slot)
    requires t.Shape() && t.Balanced(gap) && Descends(t, t.root, p) && Descends(t, t.root, q)
    requires gap != NoSlot ==>
      t.Has(gap.owner) && (if gap.onLeft then t.cell[gap.owner].left else t.cell[gap.owner].right) == null
    ensures !EndsIn(t, t.root, p, gap) && !EndsIn(t, t.root, q, gap) ==> Blacks(t, t.root, p) == Blacks(t, t.root, q)
    ensures !EndsIn(t, t.root, p, gap) && EndsIn(t, t.root, q, gap) ==> Blacks(t, t.root, p) == Blacks(t, t.root, q) + 1
  {
    PathBlacks(t, t.root, p, gap);
    PathBlacks(t, t.root, q, gap);
  }
}
