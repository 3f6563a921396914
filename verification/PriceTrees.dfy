/** Price nodes, and the shapes they form: trees, and paths from a subtree up to the root. */
module PriceTrees {
  import opened OrderQueues

  datatype Color = Red | Black

  /** A price level (server/include/core/RedBlackTree.h). */
  class RBNode {
    const price: int
    var totalQuantity: nat
    var orderCount: nat
    var color: Color
    var parent: RBNode?
    var left: RBNode?
    var right: RBNode?
    var queue: OrderQueue?

    constructor (p: int)
      ensures price == p && totalQuantity == 0 && orderCount == 0 && color == Red
      ensures parent == null && left == null && right == null && queue == null && fresh(this)
    {
      price, totalQuantity, orderCount, color := p, 0, 0, Red;
      parent, left, right, queue := null, null, null, null;
    }
  }

  datatype Dir = L | R {
    function Flip(): Dir { if L? then R else L }
  }

  datatype Tree = Leaf | Node(left: Tree, n: RBNode, color: Color, right: Tree) {
    ghost function Child(d: Dir): Tree
      requires Node?
    {
      if d.L? then left else right
    }

    ghost predicate IsRed() {
      Node? && color == Red
    }

    /** Colour of the root set to black; null stays null. */
    ghost function Blacken(): Tree {
      if Leaf? then Leaf else this.(color := Black)
    }

    ghost function Nodes(): set<RBNode> {
      if Leaf? then {} else left.Nodes() + {n} + right.Nodes()
    }

    ghost function Size(): nat {
      if Leaf? then 0 else left.Size() + 1 + right.Size()
    }

    ghost function Root(): RBNode? {
      if Leaf? then null else n
    }

    /** The nodes in the order of an in-order walk. */
    ghost function InOrder(): seq<RBNode> {
      if Leaf? then [] else left.InOrder() + [n] + right.InOrder()
    }

    ghost function Last(): RBNode
      requires Node?
    {
      InOrder()[|InOrder()| - 1]
    }
  }

  /** A node with one child on side d and the other child opposite. */
  ghost function Mk(d: Dir, near: Tree, n: RBNode, c: Color, far: Tree): Tree {
    if d.L? then Node(near, n, c, far) else Node(far, n, c, near)
  }

  /** The way from a subtree to the root: the subtree is the d-child of n, whose other child is sib. */
  datatype Path = Top | In(up: Path, d: Dir, n: RBNode, color: Color, sib: Tree) {
    ghost function Length(): nat {
      if Top? then 0 else 1 + up.Length()
    }

    ghost function Parent(): RBNode? {
      if Top? then null else n
    }

    ghost function Nodes(): set<RBNode> {
      if Top? then {} else {n} + sib.Nodes() + up.Nodes()
    }

    /** Nodes before and after the subtree in an in-order walk of the whole. */
    ghost function Before(): seq<RBNode> {
      if Top? then [] else if d.L? then up.Before() else up.Before() + sib.InOrder() + [n]
    }

    ghost function After(): seq<RBNode> {
      if Top? then [] else if d.R? then up.After() else [n] + sib.InOrder() + up.After()
    }
  }

  /** The whole tree around a subtree. */
  ghost function Plug(p: Path, t: Tree): Tree
    decreases p
  {
    if p.Top? then t else Plug(p.up, Mk(p.d, t, p.n, p.color, p.sib))
  }

  // ---------- search order ----------

  /** All nodes of s have prices on side d of n. */
  ghost predicate OnSide(d: Dir, s: set<RBNode>, n: RBNode) {
    forall m :: m in s ==> if d.L? then m.price < n.price else n.price < m.price
  }

  ghost predicate Ordered(t: Tree) {
    t.Node? ==>
      Ordered(t.left) && Ordered(t.right) && OnSide(L, t.left.Nodes(), t.n) && OnSide(R, t.right.Nodes(), t.n)
  }

  /** What the path demands of a subtree with nodes s for the whole to be ordered. */
  ghost predicate OrderedPath(p: Path, s: set<RBNode>)
    decreases p
  {
    p.In? ==>
      && OnSide(p.d, s, p.n) && OnSide(p.d.Flip(), p.sib.Nodes(), p.n) && Ordered(p.sib)
      && OrderedPath(p.up, s + {p.n} + p.sib.Nodes())
  }

  ghost function Elements(s: seq<RBNode>): set<RBNode> {
    set m | m in s
  }

  ghost function Reverse(s: seq<RBNode>): seq<RBNode> {
    if s == [] then [] else Reverse(s[1..]) + [s[0]]
  }

  lemma {:induction false} ReverseConcat(a: seq<RBNode>, b: seq<RBNode>)
    ensures Reverse(a + b) == Reverse(b) + Reverse(a)
  {
    if a == [] {
      assert a + b == b;
    } else {
      assert (a + b)[1..] == a[1..] + b;
      ReverseConcat(a[1..], b);
    }
  }

  lemma {:induction false} ReverseAt(s: seq<RBNode>, k: nat)
    requires k < |s|
    ensures |Reverse(s)| == |s| && Reverse(s)[k] == s[|s| - 1 - k]
  {
    if |s| > 1 {
      ReverseAt(s[1..], if k < |s| - 1 then k else 0);
    }
  }

  ghost predicate Sorted(s: seq<RBNode>) {
    forall i, j :: 0 <= i < j < |s| ==> s[i].price < s[j].price
  }

  lemma {:induction false} PlugNodes(p: Path, t: Tree)
    ensures Plug(p, t).Nodes() == p.Nodes() + t.Nodes()
    ensures Plug(p, t).Size() - t.Size() == Plug(p, Leaf).Size()
    decreases p
  {
    if p.In? {
      PlugNodes(p.up, Mk(p.d, t, p.n, p.color, p.sib));
      PlugNodes(p.up, Mk(p.d, Leaf, p.n, p.color, p.sib));
    }
  }

  lemma PathAround(p: Path, t: Tree)
    requires p.In?
    ensures p.Before() + t.InOrder() + p.After() == p.up.Before() + Mk(p.d, t, p.n, p.color, p.sib).InOrder() + p.up.After()
  {
    var s, m := t.InOrder(), p.sib.InOrder();
    if p.d.L? {
      assert p.up.Before() + s + ([p.n] + m + p.up.After()) == p.up.Before() + (s + [p.n] + m) + p.up.After();
    } else {
      assert p.up.Before() + m + [p.n] + s + p.up.After() == p.up.Before() + (m + [p.n] + s) + p.up.After();
    }
  }

  lemma {:induction false} PlugInOrder(p: Path, t: Tree)
    ensures Plug(p, t).InOrder() == p.Before() + t.InOrder() + p.After()
    decreases p
  {
    hide Tree.InOrder, Path.Before, Path.After, Mk;
    if p.In? {
      PlugInOrder(p.up, Mk(p.d, t, p.n, p.color, p.sib));
      PathAround(p, t);
    } else {
      NothingAround(p, t);
    }
  }

  lemma NothingAround(p: Path, t: Tree)
    requires p.Top?
    ensures p.Before() + t.InOrder() + p.After() == t.InOrder()
  {
  }

  lemma {:induction false} PlugOrdered(p: Path, t: Tree)
    ensures Ordered(Plug(p, t)) <==> Ordered(t) && OrderedPath(p, t.Nodes())
    decreases p
  {
    if p.In? {
      var u := Mk(p.d, t, p.n, p.color, p.sib);
      PlugOrdered(p.up, u);
      assert u.Nodes() == t.Nodes() + {p.n} + p.sib.Nodes();
    }
  }

  lemma {:induction false} PathApart(p: Path, s: set<RBNode>)
    requires OrderedPath(p, s)
    ensures s !! p.Nodes()
    ensures p.In? ==> p.n !in p.sib.Nodes() && p.n !in p.up.Nodes() && p.sib.Nodes() !! p.up.Nodes()
    decreases p
  {
    if p.In? {
      PathApart(p.up, s + {p.n} + p.sib.Nodes());
    }
  }

  lemma {:induction false} InOrderMembers(t: Tree)
    ensures Elements(t.InOrder()) == t.Nodes()
    ensures |t.InOrder()| == t.Size()
  {
    if t.Node? {
      InOrderMembers(t.left);
      InOrderMembers(t.right);
    }
  }

  lemma SortedAround(a: seq<RBNode>, n: RBNode, b: seq<RBNode>)
    ensures Sorted(a + [n] + b) <==>
      && Sorted(a) && Sorted(b)
      && OnSide(L, Elements(a), n) && OnSide(R, Elements(b), n)
  {
    var s, k := a + [n] + b, |a|;
    assert s[k] == n;
    if Sorted(s) {
      forall i | 0 <= i < k ensures a[i].price < n.price {
        assert s[i] == a[i];
      }
      forall i | 0 <= i < |b| ensures n.price < b[i].price {
        assert s[k].price < s[k + 1 + i].price;
      }
      forall i, j | 0 <= i < j < k ensures a[i].price < a[j].price {
        assert s[i].price < s[j].price;
      }
      forall i, j | 0 <= i < j < |b| ensures b[i].price < b[j].price {
        assert s[k + 1 + i].price < s[k + 1 + j].price;
      }
    }
  }

  lemma {:induction false} OrderedIffSorted(t: Tree)
    ensures Ordered(t) <==> Sorted(t.InOrder())
  {
    if t.Node? {
      OrderedIffSorted(t.left);
      OrderedIffSorted(t.right);
      InOrderMembers(t.left);
      InOrderMembers(t.right);
      SortedAround(t.left.InOrder(), t.n, t.right.InOrder());
    }
  }

  // ---------- the memory that spells out a tree ----------

  datatype Cell = Cell(left: RBNode?, right: RBNode?, parent: RBNode?, color: Color)

  ghost function MkCell(d: Dir, near: RBNode?, far: RBNode?, parent: RBNode?, c: Color): (m: Cell)
    ensures m.parent == parent && m.color == c
  {
    if d.L? then Cell(near, far, parent, c) else Cell(far, near, parent, c)
  }

  function ChildPtr(n: RBNode, d: Dir): RBNode?
    reads n`left, n`right
  {
    if d == L then n.left else n.right
  }

  /** What the fields of node n hold when t hangs below q. */
  ghost function CellOf(t: Tree, q: RBNode?, n: RBNode): Cell
    requires n in t.Nodes()
    decreases t
  {
    if n == t.n then Cell(t.left.Root(), t.right.Root(), q, t.color)
    else if n in t.left.Nodes() then CellOf(t.left, t.n, n)
    else CellOf(t.right, t.n, n)
  }

  /** The same for a node of a path, above a subtree rooted at x. */
  ghost function PathCell(p: Path, x: RBNode?, n: RBNode): Cell
    requires n in p.Nodes()
    decreases p
  {
    if n == p.n then MkCell(p.d, x, p.sib.Root(), p.up.Parent(), p.color)
    else if n in p.sib.Nodes() then CellOf(p.sib, p.n, n)
    else PathCell(p.up, p.n, n)
  }

  lemma {:induction false} PlugCell(p: Path, t: Tree, n: RBNode)
    requires Ordered(t) && OrderedPath(p, t.Nodes()) && n in t.Nodes() + p.Nodes()
    ensures n in Plug(p, t).Nodes()
    ensures CellOf(Plug(p, t), null, n)
         == if n in t.Nodes() then CellOf(t, p.Parent(), n) else PathCell(p, t.Root(), n)
    decreases p
  {
    PlugNodes(p, t);
    if p.In? {
      PathApart(p, t.Nodes());
      var u := Mk(p.d, t, p.n, p.color, p.sib);
      assert u.Nodes() == t.Nodes() + {p.n} + p.sib.Nodes();
      PlugCell(p.up, u, n);
    }
  }

  lemma {:induction false} PlugRoot(p: Path, t: Tree)
    requires p.In?
    ensures Plug(p, t).Root() == Plug(p, Leaf).Root() != null
    decreases p
  {
    if p.up.In? {
      PlugRoot(p.up, Mk(p.d, t, p.n, p.color, p.sib));
      PlugRoot(p.up, Mk(p.d, Leaf, p.n, p.color, p.sib));
    }
  }

  /** The fields of every node of t hold what the tree, hanging below q, says. */
  ghost predicate Holds(t: Tree, q: RBNode?)
    reads t.Nodes()`left, t.Nodes()`right, t.Nodes()`parent, t.Nodes()`color
  {
    forall n :: n in t.Nodes() ==> Cell(n.left, n.right, n.parent, n.color) == CellOf(t, q, n)
  }

  ghost predicate HoldsPath(p: Path, x: RBNode?)
    reads p.Nodes()`left, p.Nodes()`right, p.Nodes()`parent, p.Nodes()`color
  {
    forall n :: n in p.Nodes() ==> Cell(n.left, n.right, n.parent, n.color) == PathCell(p, x, n)
  }

  lemma PlugHolds(p: Path, t: Tree)
    requires Ordered(t) && OrderedPath(p, t.Nodes())
    ensures Holds(Plug(p, t), null) <==> Holds(t, p.Parent()) && HoldsPath(p, t.Root())
  {
    PlugNodes(p, t);
    PathApart(p, t.Nodes());
    forall n | n in t.Nodes() + p.Nodes()
      ensures CellOf(Plug(p, t), null, n) == if n in t.Nodes() then CellOf(t, p.Parent(), n) else PathCell(p, t.Root(), n)
    {
      PlugCell(p, t, n);
    }
  }

  lemma NodeHolds(t: Tree, q: RBNode?)
    requires t.Node? && Ordered(t)
    ensures Holds(t, q) <==>
      && Holds(t.left, t.n) && Holds(t.right, t.n)
      && Cell(t.n.left, t.n.right, t.n.parent, t.n.color) == Cell(t.left.Root(), t.right.Root(), q, t.color)
  {
  }
}
