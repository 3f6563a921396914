/** The price tree in memory (server/src/core/RedBlackTree.cpp). Each method is proved to leave the
    pointers spelling out the tree that RedBlackModel computes. */
module RedBlackTrees {
  import opened PriceTrees
  import opened RedBlackModel

  /** A subtree's place in the walk of the whole: what comes before its root, and what after. */
  lemma InTheWalk(p: Path, t: Tree) returns (i: nat)
    requires t.Node?
    ensures var s := Plug(p, t).InOrder();
      && i < |s| && s[i] == t.n
      && (0 < i <==> t.left.Node? || p.Before() != [])
      && (i + 1 < |s| <==> t.right.Node? || p.After() != [])
      && (t.left.Node? ==> 0 < i && s[i - 1] == t.left.Last())
      && (t.left.Leaf? && p.Before() != [] ==> 0 < i && s[i - 1] == p.Before()[|p.Before()| - 1])
      && (t.right.Node? ==> i + 1 < |s| && s[i + 1] == Least(t.right).n)
      && (t.right.Leaf? && p.After() != [] ==> i + 1 < |s| && s[i + 1] == p.After()[0])
    ensures (t.right.Root() == null <==> t.right.Leaf?) && (t.left.Root() == null <==> t.left.Leaf?)
    ensures t.right.Node? ==> t.right.n == t.right.Root() && Plug(In(p, R, t.n, t.color, t.left), t.right) == Plug(p, t)
    ensures t.left.Node? ==> t.left.n == t.left.Root() && Plug(In(p, L, t.n, t.color, t.right), t.left) == Plug(p, t)
  {
    PlugInOrder(p, t);
    assert Plug(In(p, R, t.n, t.color, t.left), t.right) == Plug(p, t) == Plug(In(p, L, t.n, t.color, t.right), t.left);
    hide Plug, Path.Before, Path.After;
    i := |p.Before()| + |t.left.InOrder()|;
    if t.right.Node? {
      LeastSplits(t.right, Top);
    }
  }

  /** A node stands once in the walk. */
  lemma SolePlace(t: Tree, i: nat)
    requires Ordered(t) && i < |t.InOrder()|
    ensures forall j :: 0 <= j < |t.InOrder()| && t.InOrder()[j] == t.InOrder()[i] ==> j == i
  {
    OrderedIffSorted(t);
  }

  /** A node and its two subtrees, in memory and in the walk. */
  lemma WalkParts(t: Tree, q: RBNode?)
    requires t.Node? && Ordered(t) && Holds(t, q)
    ensures Ordered(t.left) && Ordered(t.right) && Holds(t.left, t.n) && Holds(t.right, t.n)
    ensures t.n == t.Root() && t.n.left == t.left.Root() && t.n.right == t.right.Root()
    ensures t.Nodes() == t.left.Nodes() + {t.n} + t.right.Nodes()
    ensures t.InOrder() == t.left.InOrder() + [t.n] + t.right.InOrder()
    ensures Reverse(t.InOrder()) == Reverse(t.right.InOrder()) + [t.n] + Reverse(t.left.InOrder())
  {
    hide Holds, OnSide, Reverse;
    NodeHolds(t, q);
    ReverseAround(t.left.InOrder(), t.n, t.right.InOrder());
  }

  lemma ReverseAround(a: seq<RBNode>, n: RBNode, b: seq<RBNode>)
    ensures Reverse(a + [n] + b) == Reverse(b) + [n] + Reverse(a)
  {
    assert Reverse([n]) == [n];
    hide Reverse;
    ReverseConcat(a + [n], b);
    ReverseConcat(a, [n]);
  }

  lemma EmptyWalk(t: Tree)
    ensures t.Root() == null <==> t.Leaf?
    ensures t.Leaf? ==> t.InOrder() == [] && Reverse(t.InOrder()) == []
  {
  }

  lemma RootOfPlugged(p: Path, t: Tree)
    ensures Plug(p, t).Root() == if p.Top? then t.Root() else Plug(p, Leaf).Root()
  {
    if p.In? {
      PlugRoot(p, t);
    }
  }

  /** The node that takes a place, its left child, and the node above are three different nodes. */
  lemma PlaceApart(p: Path, l: Tree, y: RBNode, c: Color, r: Tree)
    requires Ordered(Plug(p, Node(l, y, c, r))) && l.Node?
    ensures y in Plug(p, Node(l, y, c, r)).Nodes() && l.n in l.Nodes() && l.Nodes() <= Plug(p, Node(l, y, c, r)).Nodes()
    ensures r.Nodes() + p.Nodes() <= Plug(p, Node(l, y, c, r)).Nodes()
    ensures y != l.n && y != p.Parent() && l.n != p.Parent()
    ensures y !in l.Nodes() && y !in r.Nodes() && y !in p.Nodes()
    ensures l.Nodes() !! r.Nodes() && l.Nodes() !! p.Nodes() && r.Nodes() !! p.Nodes()
  {
    var t := Node(l, y, c, r);
    PlugOrdered(p, t);
    PlugNodes(p, t);
    PathApart(p, t.Nodes());
  }

  /** One step up from a subtree. */
  lemma Upward(p: Path, t: Tree)
    requires t.Node? && Ordered(Plug(p, t))
    ensures p.Top? ==> p.Before() == p.After() == [] && p.Parent() == null
    ensures p.In? ==>
      && Plug(p.up, Mk(p.d, t, p.n, p.color, p.sib)) == Plug(p, t) && Mk(p.d, t, p.n, p.color, p.sib).Node?
      && Mk(p.d, t, p.n, p.color, p.sib).n == p.n == p.Parent() && p.up.Length() < p.Length()
      && p.n in Plug(p, t).Nodes() && CellOf(Plug(p, t), null, p.n) == MkCell(p.d, t.n, p.sib.Root(), p.up.Parent(), p.color)
      && MkCell(p.d, t.n, p.sib.Root(), p.up.Parent(), p.color)
           == (if p.d.L? then Cell(t.n, p.sib.Root(), p.up.Parent(), p.color) else Cell(p.sib.Root(), t.n, p.up.Parent(), p.color))
      && t.n != p.sib.Root()
      && (p.d.R? ==> p.up.After() == p.After() && p.Before() != [] && p.Before()[|p.Before()| - 1] == p.n)
      && (p.d.L? ==> p.up.Before() == p.Before() && p.After() != [] && p.After()[0] == p.n)
  {
    Look(p, t);
  }

  class RedBlackTree {
    var root: RBNode?
    var nodeCount: nat
    ghost var tree: Tree

    /** The pointers and colours in memory are those of t. */
    ghost predicate Spells(t: Tree)
      reads this`root
      reads t.Nodes()`left, t.Nodes()`right, t.Nodes()`parent, t.Nodes()`color
    {
      root == t.Root() && Holds(t, null)
    }

    ghost predicate Valid()
      reads this`root, this`nodeCount, this`tree
      reads tree.Nodes()`left, tree.Nodes()`right, tree.Nodes()`parent, tree.Nodes()`color
    {
      Spells(tree) && SearchTree(tree) && nodeCount == tree.Size()
    }

    constructor ()
      ensures Valid() && tree == Leaf
    {
      root, nodeCount, tree := null, 0, Leaf;
    }

    method Clear()
      modifies this`root, this`nodeCount, this`tree
      ensures Valid() && tree == Leaf
    {
      root, nodeCount, tree := null, 0, Leaf;
    }

    method RotateLeft(x: RBNode, ghost p: Path, ghost t: Tree)
      requires t.Node? && t.n == x && t.right.Node?
      requires Spells(Plug(p, t)) && Ordered(Plug(p, t))
      modifies this`root, Plug(p, t).Nodes()`left, Plug(p, t).Nodes()`right, Plug(p, t).Nodes()`parent
      ensures Spells(Plug(p, Rotate(L, t))) && Ordered(Plug(p, Rotate(L, t)))
      ensures Plug(p, Rotate(L, t)).Nodes() == Plug(p, t).Nodes()
    {
      RotatePlugged(L, p, t);
      var y := x.right;
      x.right := y.left;
      if y.left != null {
        y.left.parent := x;
      }
      y.parent := x.parent;
      if x.parent == null {
        root := y;
      } else if x == x.parent.left {
        x.parent.left := y;
      } else {
        x.parent.right := y;
      }
      y.left := x;
      x.parent := y;
      forall n | n in Plug(p, t).Nodes()
        ensures Cell(n.left, n.right, n.parent, n.color) == CellOf(Plug(p, Rotate(L, t)), null, n)
      {
        RotatePluggedCells(L, p, t, n);
      }
    }

    method RotateRight(x: RBNode, ghost p: Path, ghost t: Tree)
      requires t.Node? && t.n == x && t.left.Node?
      requires Spells(Plug(p, t)) && Ordered(Plug(p, t))
      modifies this`root, Plug(p, t).Nodes()`left, Plug(p, t).Nodes()`right, Plug(p, t).Nodes()`parent
      ensures Spells(Plug(p, Rotate(R, t))) && Ordered(Plug(p, Rotate(R, t)))
      ensures Plug(p, Rotate(R, t)).Nodes() == Plug(p, t).Nodes()
    {
      RotatePlugged(R, p, t);
      var y := x.left;
      x.left := y.right;
      if y.right != null {
        y.right.parent := x;
      }
      y.parent := x.parent;
      if x.parent == null {
        root := y;
      } else if x == x.parent.right {
        x.parent.right := y;
      } else {
        x.parent.left := y;
      }
      y.right := x;
      x.parent := y;
      forall n | n in Plug(p, t).Nodes()
        ensures Cell(n.left, n.right, n.parent, n.color) == CellOf(Plug(p, Rotate(R, t)), null, n)
      {
        RotatePluggedCells(R, p, t, n);
      }
    }

    method RotateTo(d: Dir, x: RBNode, ghost p: Path, ghost t: Tree)
      requires t.Node? && t.n == x && t.Child(d.Flip()).Node?
      requires Spells(Plug(p, t)) && Ordered(Plug(p, t))
      modifies this`root, Plug(p, t).Nodes()`left, Plug(p, t).Nodes()`right, Plug(p, t).Nodes()`parent
      ensures Spells(Plug(p, Rotate(d, t))) && Ordered(Plug(p, Rotate(d, t)))
      ensures Plug(p, Rotate(d, t)).Nodes() == Plug(p, t).Nodes()
    {
      if d == L {
        RotateLeft(x, p, t);
      } else {
        RotateRight(x, p, t);
      }
    }

    method SetColor(x: RBNode, c: Color, ghost p: Path, ghost t: Tree)
      requires t.Node? && t.n == x && Spells(Plug(p, t)) && Ordered(Plug(p, t))
      modifies x`color
      ensures Spells(Plug(p, t.(color := c))) && Ordered(Plug(p, t.(color := c)))
      ensures Plug(p, t.(color := c)).Nodes() == Plug(p, t).Nodes()
    {
      RecolorPlugged(p, t, c);
      x.color := c;
      forall n | n in Plug(p, t).Nodes()
        ensures Cell(n.left, n.right, n.parent, n.color) == CellOf(Plug(p, t.(color := c)), null, n)
      {
        RecolorCells(p, t, c, n);
      }
    }

    /** A red uncle: parent and uncle turn black, the grandparent red. */
    method RecolorUncle(parent: RBNode, y: RBNode, g: RBNode, ghost p: Path, ghost t: Tree)
      requires p.In? && p.up.In? && p.up.sib.Node?
      requires parent == p.n && y == p.up.sib.n && g == p.up.n
      requires Spells(Plug(p, t)) && Ordered(Plug(p, t))
      modifies Plug(p, t).Nodes()`color
      ensures var u := Recolored(p, t);
        Spells(Plug(p.up.up, u)) && Ordered(Plug(p.up.up, u)) && Plug(p.up.up, u).Nodes() == Plug(p, t).Nodes()
    {
      ghost var s, q := Mk(p.d, t, p.n, p.color, p.sib), p.up;
      PlugNodes(p, t);
      PlugNodes(p.up, s);
      SetColor(parent, Black, q, s);
      ghost var s' := s.(color := Black);
      ghost var across := In(q.up, q.d.Flip(), q.n, q.color, s');
      SetColor(y, Black, across, q.sib);
      SetColor(g, Red, q.up, Mk(q.d, s', q.n, q.color, q.sib.Blacken()));
    }

    /** Parent and grandparent in line: the parent turns black and rises above the red grandparent. */
    method TurnGrandparent(z: RBNode, d: Dir, ghost p: Path, ghost t: Tree)
      requires t.Node? && t.n == z && p.In? && p.up.In? && p.d == p.up.d == d
      requires Spells(Plug(p, t)) && Ordered(Plug(p, t))
      modifies this`root, Plug(p, t).Nodes()`left, Plug(p, t).Nodes()`right, Plug(p, t).Nodes()`parent, Plug(p, t).Nodes()`color
      ensures var q := Turned(p);
        Spells(Plug(q, t)) && Ordered(Plug(q, t)) && Plug(q, t).Nodes() == Plug(p, t).Nodes()
    {
      Look(p, t);
      ghost var s, q := Mk(p.d, t, p.n, p.color, p.sib), p.up;
      Look(q, s);
      var parent, g := z.parent, z.parent.parent;
      SetColor(parent, Black, q, s);
      ghost var s' := s.(color := Black);
      SetColor(g, Red, q.up, Mk(q.d, s', q.n, q.color, q.sib));
      RotateTo(d.Flip(), g, q.up, Mk(q.d, s', q.n, Red, q.sib));
    }

    /** Between rounds of the fixup: z is the root of the red subtree t, at the end of the path p. */
    ghost predicate FixupState(z: RBNode, p: Path, t: Tree)
      reads this`root
      reads Plug(p, t).Nodes()`left, Plug(p, t).Nodes()`right, Plug(p, t).Nodes()`parent, Plug(p, t).Nodes()`color
    {
      t.IsRed() && t.n == z && BlackTop(p) && Spells(Plug(p, t)) && Ordered(Plug(p, t))
    }

    /** One round of the fixup when the parent is the d-child of the grandparent. */
    method FixupRound(d: Dir, z0: RBNode, ghost p0: Path, ghost t0: Tree) returns (z: RBNode, ghost p: Path, ghost t: Tree)
      requires FixupState(z0, p0, t0) && p0.In? && p0.color == Red && p0.up.In? && p0.up.d == d
      modifies this`root
      modifies Plug(p0, t0).Nodes()`left, Plug(p0, t0).Nodes()`right, Plug(p0, t0).Nodes()`parent, Plug(p0, t0).Nodes()`color
      ensures FixupState(z, p, t) && Plug(p, t).Nodes() == Plug(p0, t0).Nodes()
      ensures InsFix(p, t) == InsFix(p0, t0) && p.Length() < p0.Length()
    {
      hide OrderedPath, OnSide, PathCell, InsFix;
      z, p, t := z0, p0, t0;
      Look(p, t);
      Look(p.up, Mk(p.d, t, p.n, p.color, p.sib));
      var y := ChildPtr(z.parent.parent, d.Flip());
      if y != null && y.color == Red {
        InsFixRecolors(p, t);
        z := z.parent.parent;
        RecolorUncle(z0.parent, y, z, p, t);
        p, t := p.up.up, Recolored(p, t);
      } else {
        InsFixTurns(p, t);
        if z == ChildPtr(z.parent, d.Flip()) {
          z := z.parent;
          OutwardRotates(p, t);
          RotateTo(d, z, p.up, Mk(p.d, t, p.n, p.color, p.sib));
          p, t := Outward(p, t).0, Outward(p, t).1;
        }
        TurnGrandparent(z, d, p, t);
        p := Turned(p);
      }
    }

    method InsertFixup(z0: RBNode, ghost p0: Path, ghost t0: Tree)
      requires FixupState(z0, p0, t0)
      modifies this`root
      modifies Plug(p0, t0).Nodes()`left, Plug(p0, t0).Nodes()`right, Plug(p0, t0).Nodes()`parent, Plug(p0, t0).Nodes()`color
      ensures Spells(InsFix(p0, t0).Blacken()) && InsFix(p0, t0).Nodes() == Plug(p0, t0).Nodes()
    {
      var z := z0;
      ghost var p, t := p0, t0;
      Look(p, t);
      while z.parent != null && z.parent.color == Red
        invariant FixupState(z, p, t) && Plug(p, t).Nodes() == Plug(p0, t0).Nodes()
        invariant z in Plug(p, t).Nodes() && z.parent == p.Parent()
        invariant p.In? ==> p.n in Plug(p, t).Nodes() && p.n.color == p.color
        invariant InsFix(p, t) == InsFix(p0, t0)
        decreases p.Length()
      {
        Look(p.up, Mk(p.d, t, p.n, p.color, p.sib));
        if z.parent.parent != null && z.parent == z.parent.parent.left {
          z, p, t := FixupRound(L, z, p, t);
        } else {
          z, p, t := FixupRound(R, z, p, t);
        }
        Look(p, t);
      }
      SetColor(root, Black, Top, Plug(p, t));
    }

    /** The node of a price, or null when the tree has none. */
    method Find(price: int) returns (x: RBNode?)
      requires Valid()
      ensures Valid() && x == Locate(tree, price, Top).1.Root()
      ensures x != null ==> x in tree.Nodes() && x.price == price
      ensures x == null ==> forall n :: n in tree.Nodes() ==> n.price != price
    {
      x := root;
      ghost var p, t := Top, tree;
      LocateFinds(tree, price);
      while x != null
        invariant Valid() && x == t.Root() && Plug(p, t) == tree && Locate(tree, price, Top) == Locate(t, price, p)
        decreases t
      {
        Look(p, t);
        if price < x.price {
          x := x.left;
          p, t := In(p, L, t.n, t.color, t.right), t.left;
        } else if price > x.price {
          x := x.right;
          p, t := In(p, R, t.n, t.color, t.left), t.right;
        } else {
          return;
        }
      }
    }

    /** Hangs a fresh red node where the walk for its price ended, below y. */
    method Hang(z: RBNode, y: RBNode?, ghost p: Path)
      requires Valid() && Locate(tree, z.price, Top) == (p, Leaf) && y == p.Parent()
      requires z !in tree.Nodes()
      modifies this`root, z`left, z`right, z`parent, z`color
      modifies tree.Nodes()`left, tree.Nodes()`right
      ensures FixupState(z, p, Node(Leaf, z, Red, Leaf))
      ensures Plug(p, Node(Leaf, z, Red, Leaf)).Nodes() == tree.Nodes() + {z}
    {
      ghost var leaf := Node(Leaf, z, Red, Leaf);
      LocateSplits(tree, z.price, Top);
      LocateSide(tree, z.price, Top);
      LocateAbsent(tree, z.price, Top, z);
      assert leaf.Nodes() == {z};
      PlugOrdered(p, leaf);
      PlugNodes(p, leaf);
      PlugNodes(p, Leaf);
      PlugColors(p, Leaf);
      if p.In? {
        LookUp(p, Leaf);
        LookUp(p, leaf);
      }
      z.parent := y;
      if y == null {
        root := z;
      } else if z.price < y.price {
        y.left := z;
      } else {
        y.right := z;
      }
      z.left := null;
      z.right := null;
      z.color := Red;
      forall n | n in Plug(p, leaf).Nodes()
        ensures Cell(n.left, n.right, n.parent, n.color) == CellOf(Plug(p, leaf), null, n)
      {
        HangCells(p, Leaf, leaf, n);
      }
    }

    /** The walk of an insertion: the node of the price, or null and the node to hang it from. */
    method Descend(price: int) returns (x: RBNode?, y: RBNode?, ghost p: Path)
      requires Valid()
      ensures Valid() && allocated(tree.Nodes())
      ensures var (q, t) := Locate(tree, price, Top); p == q && x == t.Root() && (x == null ==> y == p.Parent())
      ensures x != null ==> x in tree.Nodes() && x.price == price
    {
      y, x, p := null, root, Top;
      ghost var t := tree;
      while x != null
        invariant Valid() && x == t.Root() && y == p.Parent() && Plug(p, t) == tree
        invariant Locate(tree, price, Top) == Locate(t, price, p)
        decreases t
      {
        Look(p, t);
        y := x;
        if price < x.price {
          x := x.left;
          p, t := In(p, L, t.n, t.color, t.right), t.left;
        } else if price > x.price {
          x := x.right;
          p, t := In(p, R, t.n, t.color, t.left), t.right;
        } else {
          return;
        }
      }
    }

    method Insert(price: int) returns (z: RBNode)
      requires Valid()
      modifies this`root, this`nodeCount, this`tree
      modifies tree.Nodes()`left, tree.Nodes()`right, tree.Nodes()`parent, tree.Nodes()`color
      ensures Valid() && z in tree.Nodes() && z.price == price
      ensures (exists n :: n in old(tree).Nodes() && n.price == price) ==> tree == old(tree)
      ensures (forall n :: n in old(tree).Nodes() ==> n.price != price) ==>
        fresh(z) && z.totalQuantity == 0 && z.orderCount == 0 && z.queue == null && tree == InsertNode(old(tree), z)
    {
      LocateFinds(tree, price);
      var x, y, p := Descend(price);
      if x != null {
        return x;
      }
      z := new RBNode(price);
      Grow(z, y, p);
    }

    /** Hangs a node in the tree and restores the colours. */
    method Grow(z: RBNode, y: RBNode?, ghost p: Path)
      requires Valid() && Locate(tree, z.price, Top) == (p, Leaf) && y == p.Parent() && z !in tree.Nodes()
      modifies this`root, this`nodeCount, this`tree, z`left, z`right, z`parent, z`color
      modifies tree.Nodes()`left, tree.Nodes()`right, tree.Nodes()`parent, tree.Nodes()`color
      ensures Valid() && tree == InsertNode(old(tree), z) && z in tree.Nodes()
    {
      InsertKeeps(tree, z);
      Hang(z, y, p);
      InsertFixup(z, p, Node(Leaf, z, Red, Leaf));
      nodeCount := nodeCount + 1;
      tree := InsertNode(tree, z);
    }

    /** A red sibling turns black and rises above the parent, which turns red. */
    method RaiseRedSibling(d: Dir, x: RBNode, w: RBNode, ghost p: Path, ghost t: Tree)
      requires t.Node? && t.n == x && p.In? && p.d == d && p.sib.Node? && p.sib.n == w
      requires Spells(Plug(p, t)) && Ordered(Plug(p, t))
      modifies this`root
      modifies Plug(p, t).Nodes()`left, Plug(p, t).Nodes()`right, Plug(p, t).Nodes()`parent, Plug(p, t).Nodes()`color
      ensures var q := RaiseSibling(p);
        Spells(Plug(q, t)) && Ordered(Plug(q, t)) && Plug(q, t).Nodes() == Plug(p, t).Nodes()
    {
      Look(p, t);
      RaiseRotates(p, t);
      var parent := x.parent;
      SetColor(w, Black, Across(p, t), p.sib);
      ghost var w' := p.sib.(color := Black);
      SetColor(parent, Red, p.up, Mk(p.d, t, p.n, p.color, w'));
      RotateTo(d, parent, p.up, Mk(p.d, t, p.n, Red, w'));
    }

    /** The red near child of a sibling whose far child is black rises above the sibling. */
    method StraightenSibling(d: Dir, w: RBNode, ghost p: Path, ghost t: Tree)
      requires p.In? && p.d == d && p.sib.Node? && p.sib.n == w && p.sib.Child(d).Node? && Straighten(d, p.sib) != p.sib
      requires Spells(Plug(p, t)) && Ordered(Plug(p, t))
      modifies this`root
      modifies Plug(p, t).Nodes()`left, Plug(p, t).Nodes()`right, Plug(p, t).Nodes()`parent, Plug(p, t).Nodes()`color
      ensures var q := p.(sib := Straighten(d, p.sib));
        Spells(Plug(q, t)) && Ordered(Plug(q, t)) && Plug(q, t).Nodes() == Plug(p, t).Nodes()
    {
      ghost var s, near, far := p.sib, p.sib.Child(d), p.sib.Child(d.Flip());
      ghost var a := Across(p, t);
      Look(a, s);
      var child := ChildPtr(w, d);
      SetColor(child, Black, In(a, d, s.n, s.color, far), near);
      ghost var s1 := Mk(d, near.(color := Black), s.n, s.color, far);
      SetColor(w, Red, a, s1);
      ghost var s2 := Mk(d, near.(color := Black), s.n, Red, far);
      RotateTo(d.Flip(), w, a, s2);
    }

    /** The sibling rises above the parent and takes its colour; the parent and the far child turn black. */
    method LiftBlackSibling(d: Dir, x: RBNode, w: RBNode, ghost p: Path, ghost t: Tree)
      requires t.Node? && t.n == x && p.In? && p.d == d && p.sib.Node? && p.sib.n == w
      requires Spells(Plug(p, t)) && Ordered(Plug(p, t))
      modifies this`root
      modifies Plug(p, t).Nodes()`left, Plug(p, t).Nodes()`right, Plug(p, t).Nodes()`parent, Plug(p, t).Nodes()`color
      ensures var u := Plug(p.up, Mk(d, Mk(d, t, p.n, Black, p.sib.Child(d)), p.sib.n, p.color, p.sib.Child(d.Flip()).Blacken()));
        Spells(u) && Ordered(u) && u.Nodes() == Plug(p, t).Nodes()
    {
      Look(p, t);
      ghost var s, far := p.sib, p.sib.Child(d.Flip());
      ghost var a := Across(p, t);
      Look(a, s);
      var parent := x.parent;
      var farChild := ChildPtr(w, d.Flip());
      SetColor(w, parent.color, a, s);
      ghost var s1 := s.(color := p.color);
      SetColor(parent, Black, p.up, Mk(d, t, p.n, p.color, s1));
      ghost var b := In(p.up, d.Flip(), p.n, Black, t);
      if farChild != null {
        SetColor(farChild, Black, In(b, d.Flip(), s1.n, s1.color, s1.Child(d)), far);
      }
      RotateTo(d, parent, p.up, Mk(d, t, p.n, Black, Mk(d, s.Child(d), s.n, p.color, far.Blacken())));
    }

    /** Between rounds of the deletion fixup. */
    ghost predicate DeleteState(x: RBNode, p: Path, t: Tree)
      reads this`root
      reads Plug(p, t).Nodes()`left, Plug(p, t).Nodes()`right, Plug(p, t).Nodes()`parent, Plug(p, t).Nodes()`color
    {
      t.Node? && t.n == x && Spells(Plug(p, t)) && Ordered(Plug(p, t))
    }

    /** The part of a round after the sibling is known not to have been raised. */
    method DeleteRoundBlack(d: Dir, x0: RBNode, w0: RBNode?, ghost p0: Path, ghost t0: Tree)
      returns (x: RBNode, ghost p: Path, ghost t: Tree)
      requires DeleteState(x0, p0, t0) && p0.In? && p0.d == d && p0.sib.Root() == w0
      modifies this`root
      modifies Plug(p0, t0).Nodes()`left, Plug(p0, t0).Nodes()`right, Plug(p0, t0).Nodes()`parent, Plug(p0, t0).Nodes()`color
      ensures DeleteState(x, p, t) && Plug(p, t).Nodes() == Plug(p0, t0).Nodes()
      ensures DelFix(p, t) == DelStep(p0, t0)
      ensures p.Top? || (p == p0.up && t.color == p0.color)
    {
      Look(p0, t0);
      if w0 == null {
        return x0.parent, p0.up, Mk(d, t0, p0.n, p0.color, Leaf);
      }
      var w: RBNode := w0;
      ghost var a := Across(p0, t0);
      Look(a, p0.sib);
      var parent := x0.parent;
      var leftBlack := if w.left != null then w.left.color == Black else true;
      var rightBlack := if w.right != null then w.right.color == Black else true;
      if leftBlack && rightBlack {
        SetColor(w, Red, a, p0.sib);
        return parent, p0.up, Mk(d, t0, p0.n, p0.color, p0.sib.(color := Red));
      }
      var far := ChildPtr(w, d.Flip());
      p := p0;
      if far != null && far.color == Black {
        StraightenSibling(d, w, p, t0);
        p := p.(sib := Straighten(d, p.sib));
        Look(p, t0);
        w := ChildPtr(parent, d.Flip());
      }
      LiftBlackSibling(d, x0, w, p, t0);
      return root, Top, Plug(p0.up, LiftSibling(p0, t0));
    }

    method DeleteFixup(x0: RBNode?, ghost p0: Path, ghost t0: Tree)
      requires x0 == t0.Root() && Spells(Plug(p0, t0)) && Ordered(Plug(p0, t0))
      modifies this`root
      modifies Plug(p0, t0).Nodes()`left, Plug(p0, t0).Nodes()`right, Plug(p0, t0).Nodes()`parent, Plug(p0, t0).Nodes()`color
      ensures Spells(DelFix(p0, t0)) && DelFix(p0, t0).Nodes() == Plug(p0, t0).Nodes()
    {
      if x0 == null {
        return;
      }
      var x: RBNode := x0;
      ghost var p, t := p0, t0;
      Look(p, t);
      RootAbove(p, t);
      while x != root && x.color == Black
        invariant DeleteState(x, p, t) && Plug(p, t).Nodes() == Plug(p0, t0).Nodes()
        invariant x in Plug(p, t).Nodes() && x.color == t.color && (x == root <==> p.Top?)
        invariant DelFix(p, t) == DelFix(p0, t0)
        decreases p.Length(), if t.IsRed() then 0 else 1
      {
        Look(p, t);
        if x == x.parent.left {
          x, p, t := DeleteRound(L, x, p, t);
        } else {
          x, p, t := DeleteRound(R, x, p, t);
        }
        Look(p, t);
        RootAbove(p, t);
      }
      SetColor(x, Black, p, t);
    }

    /** One round of the deletion fixup when x is the d-child of its parent. */
    method DeleteRound(d: Dir, x0: RBNode, ghost p0: Path, ghost t0: Tree)
      returns (x: RBNode, ghost p: Path, ghost t: Tree)
      requires DeleteState(x0, p0, t0) && p0.In? && p0.d == d && t0.color == Black
      modifies this`root
      modifies Plug(p0, t0).Nodes()`left, Plug(p0, t0).Nodes()`right, Plug(p0, t0).Nodes()`parent, Plug(p0, t0).Nodes()`color
      ensures DeleteState(x, p, t) && Plug(p, t).Nodes() == Plug(p0, t0).Nodes()
      ensures DelFix(p, t) == DelFix(p0, t0)
      ensures p.Length() < p0.Length() || (p.Length() == p0.Length() && t.IsRed())
    {
      Look(p0, t0);
      p := p0;
      var w := ChildPtr(x0.parent, d.Flip());
      if w != null && w.color == Red {
        RaiseRedSibling(d, x0, w, p, t0);
        p := RaiseSibling(p);
        Look(p, t0);
        w := ChildPtr(x0.parent, d.Flip());
      }
      x, p, t := DeleteRoundBlack(d, x0, w, p, t0);
    }

    /** The pointer from above to u is turned to v, and v learns its new parent. */
    method Transplant(u: RBNode, v: RBNode?, ghost others: set<RBNode>)
      modifies this`root, (if u.parent == null then {} else {u.parent})`left, (if u.parent == null then {} else {u.parent})`right
      modifies (if v == null then {} else {v})`parent
      ensures root == if old(u.parent) == null then v else old(root)
      ensures old(u.parent) != null ==>
        old(u.parent).left == (if old(u.parent.left) == u then v else old(u.parent.left))
      ensures old(u.parent) != null ==>
        old(u.parent).right == (if old(u.parent.left) == u then old(u.parent.right) else v)
      ensures v != null ==> v.parent == old(u.parent)
      ensures forall n :: n in others && n != v && n != old(u.parent) ==>
        Cell(n.left, n.right, n.parent, n.color) == old(Cell(n.left, n.right, n.parent, n.color))
    {
      var parent := u.parent;
      if u.parent == null {
        root := v;
      } else if u == u.parent.left {
        u.parent.left := v;
      } else {
        u.parent.right := v;
      }
      if v != null {
        v.parent := parent;
      }
    }

    /** A node with at most one child is replaced by that child. */
    method SpliceChild(u: RBNode, v: RBNode?, ghost p: Path, ghost t: Tree, ghost s: Tree)
      requires t.Node? && t.n == u && v == s.Root()
      requires (t.left.Leaf? && s == t.right) || (t.right.Leaf? && s == t.left)
      requires Spells(Plug(p, t)) && Ordered(Plug(p, t)) && Ordered(Plug(p, s))
      modifies this`root, Plug(p, t).Nodes()`left, Plug(p, t).Nodes()`right, Plug(p, t).Nodes()`parent
      ensures Spells(Plug(p, s))
      ensures u.left == old(u.left) && u.right == old(u.right)
    {
      hide OrderedPath, OnSide, Plug;
      Look(p, t);
      RootOfPlugged(p, t);
      RootOfPlugged(p, s);
      if p.In? {
        LookUp(p, s);
        LookUp(p, t);
      }
      PlugNodes(p, s);
      if v != null {
        TransplantCells(p, t, s, v);
        assert v in s.Nodes() && v != p.Parent();
      }
      Transplant(u, v, Plug(p, s).Nodes());
      forall n | n in Plug(p, s).Nodes()
        ensures Cell(n.left, n.right, n.parent, n.color) == CellOf(Plug(p, s), null, n)
      {
        TransplantCells(p, t, s, n);
      }
    }

    /** The node y, already above the right subtree r, takes the place of z. */
    method TakePlace(z: RBNode, y: RBNode, ghost p: Path, ghost l: Tree, ghost c: Color, ghost r: Tree)
      requires Ordered(Plug(p, Node(l, y, c, r))) && z !in Plug(p, Node(l, y, c, r)).Nodes() && l.Node?
      requires z.parent == p.Parent() && z.left == l.Root() && z.color == c && y.right == r.Root()
      requires root == if p.Top? then z else Plug(p, Leaf).Root()
      requires Holds(l, z) && Holds(r, y) && HoldsPath(p, z)
      modifies this`root, Plug(p, Node(l, y, c, r)).Nodes()`left, Plug(p, Node(l, y, c, r)).Nodes()`right
      modifies Plug(p, Node(l, y, c, r)).Nodes()`parent, Plug(p, Node(l, y, c, r)).Nodes()`color
      ensures Spells(Plug(p, Node(l, y, c, r)))
    {
      hide OrderedPath, OnSide, Plug, CellOf, Ordered, Tree.InOrder;
      ghost var t := Node(l, y, c, r);
      if p.In? {
        LookUp(p, t);
      }
      PlaceApart(p, l, y, c, r);
      RootOfPlugged(p, t);
      Transplant(z, y, Plug(p, t).Nodes());
      y.left := z.left;
      if y.left != null {
        y.left.parent := y;
      }
      y.color := z.color;
      forall n | n in Plug(p, t).Nodes()
        ensures Cell(n.left, n.right, n.parent, n.color) == CellOf(Plug(p, t), null, n)
      {
        NodeCells(p, l, y, c, r, n);
        if n in l.Nodes() {
          CellParent(l, z, y, n);
        } else if n in p.Nodes() {
          PathCellRoot(p, z, y, n);
        }
      }
    }

    /** The leftmost node below a given one. */
    method Minimum(node: RBNode, ghost p: Path, ghost t: Tree) returns (y: RBNode)
      requires t.Node? && t.n == node && Spells(Plug(p, t)) && Ordered(Plug(p, t))
      ensures y == Least(t).n && Spells(Plug(p, t))
    {
      y := node;
      ghost var q, u := p, t;
      Look(q, u);
      while y.left != null
        invariant u.Node? && u.n == y && Plug(q, u) == Plug(p, t) && Least(u) == Least(t)
        invariant Spells(Plug(p, t)) && y in Plug(p, t).Nodes() && y.left == u.left.Root()
        decreases u
      {
        y := y.left;
        q, u := In(q, L, u.n, u.color, u.right), u.left;
        Look(q, u);
      }
    }

    /** The successor is the right child itself: it keeps its own right subtree. */
    method PromoteChild(z: RBNode, y: RBNode, ghost p: Path, ghost u: Tree)
      requires u.Node? && u.n == z && u.left.Node? && u.right.Node? && u.right.left.Leaf? && u.right.n == y
      requires Spells(Plug(p, u)) && Ordered(Plug(p, u))
      modifies this`root
      modifies Plug(p, u).Nodes()`left, Plug(p, u).Nodes()`right, Plug(p, u).Nodes()`parent, Plug(p, u).Nodes()`color
      ensures Spells(Plug(p, Node(u.left, y, u.color, u.right.right)))
    {
      TwoChildrenOrdered(p, u);
      RootAbove(p, u);
      PlugOrdered(p, u);
      PlugHolds(p, u);
      NodeHolds(u, p.Parent());
      NodeHolds(u.right, z);
      if p.In? {
        PlugRoot(p, u);
      }
      if y.right != null {
        PlugNodes(p, u);
        assert y.right in u.right.Nodes();
        y.right.parent := y;
      }
      TakePlace(z, y, p, u.left, u.color, u.right.right);
    }

    /** The successor, already taken out further down, adopts the right subtree of z and takes its place. */
    method PromoteDescendant(z: RBNode, y: RBNode, ghost p: Path, ghost l: Tree, ghost c: Color, ghost r: Tree)
      requires l.Node? && r.Node? && y !in Plug(p, Node(l, z, c, r)).Nodes()
      requires Spells(Plug(p, Node(l, z, c, r))) && Ordered(Plug(p, Node(l, z, c, r)))
      requires Ordered(Plug(p, Node(l, y, c, r))) && z !in Plug(p, Node(l, y, c, r)).Nodes()
      modifies this`root
      modifies y`left, y`right, y`parent, y`color
      modifies Plug(p, Node(l, z, c, r)).Nodes()`left, Plug(p, Node(l, z, c, r)).Nodes()`right
      modifies Plug(p, Node(l, z, c, r)).Nodes()`parent, Plug(p, Node(l, z, c, r)).Nodes()`color
      ensures Spells(Plug(p, Node(l, y, c, r)))
    {
      hide OrderedPath, OnSide;
      ghost var u := Node(l, z, c, r);
      PlaceApart(p, l, z, c, r);
      RootAbove(p, u);
      PlugOrdered(p, u);
      PlugHolds(p, u);
      NodeHolds(u, p.Parent());
      PlugNodes(p, u);
      PlugNodes(p, Node(l, y, c, r));
      PathApart(p, u.Nodes());
      if p.In? {
        PlugRoot(p, u);
      }
      assert r.n in r.Nodes();
      y.right := z.right;
      if y.right != null {
        y.right.parent := y;
      }
      forall n | n in r.Nodes() ensures Cell(n.left, n.right, n.parent, n.color) == CellOf(r, y, n) {
        CellParent(r, z, y, n);
      }
      TakePlace(z, y, p, l, c, r);
    }

    /** The rightmost node below a given one. */
    method Maximum(node: RBNode, ghost p: Path, ghost t: Tree) returns (y: RBNode)
      requires t.Node? && t.n == node && Spells(Plug(p, t)) && Ordered(Plug(p, t))
      ensures y == t.Last() && Spells(Plug(p, t))
    {
      y := node;
      ghost var q, u := p, t;
      Look(q, u);
      while y.right != null
        invariant u.Node? && u.n == y && Plug(q, u) == Plug(p, t)
        invariant u.Last() == t.Last()
        invariant Spells(Plug(p, t)) && y in Plug(p, t).Nodes() && y.right == u.right.Root()
        decreases u
      {
        y := y.right;
        q, u := In(q, R, u.n, u.color, u.left), u.right;
        Look(q, u);
      }
      assert u.InOrder() == u.left.InOrder() + [u.n];
    }

    /** Takes a node with two children out: its successor moves into its place. */
    method SpliceSuccessor(z: RBNode, ghost p: Path, ghost u: Tree) returns (x: RBNode?, c: Color)
      requires u.Node? && u.n == z && u.left.Node? && u.right.Node?
      requires Spells(Plug(p, u)) && Ordered(Plug(p, u))
      modifies this`root
      modifies Plug(p, u).Nodes()`left, Plug(p, u).Nodes()`right, Plug(p, u).Nodes()`parent, Plug(p, u).Nodes()`color
      ensures Spells(Plug(p, Node(u.left, Least(u.right).n, u.color, WithoutLeast(u.right))))
      ensures x == Least(u.right).right.Root() && c == Least(u.right).color
    {
      ghost var q := In(p, R, z, u.color, u.left);
      Look(p, u);
      var y := Minimum(z.right, q, u.right);
      ghost var yt := Least(u.right);
      LeastSplits(u.right, q);
      Look(LeastPath(u.right, q), yt);
      LeastParent(u.right, q);
      PlugOrdered(p, u);
      TwoChildrenOrdered(p, u);
      c := y.color;
      x := y.right;
      if y.parent == z {
        PromoteChild(z, y, p, u);
      } else {
        SpliceChild(y, x, LeastPath(u.right, q), yt, yt.right);
        PromoteDescendant(z, y, p, u.left, u.color, WithoutLeast(u.right));
      }
    }

    method Remove(price: int)
      requires Valid()
      modifies this`root, this`nodeCount, this`tree
      modifies tree.Nodes()`left, tree.Nodes()`right, tree.Nodes()`parent, tree.Nodes()`color
      ensures Valid()
      ensures (forall n :: n in old(tree).Nodes() ==> n.price != price) ==> tree == old(tree)
      ensures (exists n :: n in old(tree).Nodes() && n.price == price) ==>
        Locate(old(tree), price, Top).1.Node? && tree == RemoveNode(old(tree), price)
    {
      LocateFinds(tree, price);
      var z := Find(price);
      if z == null {
        return;
      }
      TakeOut(z);
    }

    /** Takes a node of the tree out of it. */
    method TakeOut(z: RBNode)
      requires Valid() && Locate(tree, z.price, Top).1.Root() == z
      modifies this`root, this`nodeCount, this`tree
      modifies tree.Nodes()`left, tree.Nodes()`right, tree.Nodes()`parent, tree.Nodes()`color
      ensures Valid() && tree == RemoveNode(old(tree), z.price)
    {
      ghost var p, u := Locate(tree, z.price, Top).0, Locate(tree, z.price, Top).1;
      LocateSplits(tree, z.price, Top);
      RemoveKeeps(tree, z.price);
      SpliceOrdered(p, u);
      var x, c := SpliceOut(z, p, u);
      if c == Black {
        DeleteFixup(x, Splice(p, u).0, Splice(p, u).1);
      }
      nodeCount := nodeCount - 1;
      tree := RemoveNode(tree, z.price);
    }

    /** Unlinks z, or the successor that takes its place; x is what was below, c the colour taken out. */
    method SpliceOut(z: RBNode, ghost p: Path, ghost u: Tree) returns (x: RBNode?, c: Color)
      requires u.Node? && u.n == z && Spells(Plug(p, u)) && Ordered(Plug(p, u))
      modifies this`root
      modifies Plug(p, u).Nodes()`left, Plug(p, u).Nodes()`right, Plug(p, u).Nodes()`parent, Plug(p, u).Nodes()`color
      ensures var (q, xt, ct) := Splice(p, u); x == xt.Root() && c == ct && Spells(Plug(q, xt))
    {
      Look(p, u);
      SpliceOrdered(p, u);
      if z.left == null {
        x, c := z.right, z.color;
        SpliceChild(z, x, p, u, u.right);
      } else if z.right == null {
        x, c := z.left, z.color;
        SpliceChild(z, x, p, u, u.left);
      } else {
        LeastSplits(u.right, In(p, R, Least(u.right).n, u.color, u.left));
        x, c := SpliceSuccessor(z, p, u);
      }
    }

    /** The best ask: the node of the least price. */
    method GetMinimum() returns (y: RBNode?)
      requires Valid()
      ensures Valid() && y == if tree.Leaf? then null else tree.InOrder()[0]
    {
      if root == null {
        return null;
      }
      LeastSplits(tree, Top);
      y := Minimum(root, Top, tree);
    }

    /** The best bid: the node of the greatest price. */
    method GetMaximum() returns (y: RBNode?)
      requires Valid()
      ensures Valid() && y == if tree.Leaf? then null else tree.Last()
    {
      if root == null {
        return null;
      }
      y := Maximum(root, Top, tree);
    }

    lemma FieldsOf(n: RBNode)
      requires Valid() && n in tree.Nodes()
      ensures Ordered(tree) && Spells(tree) && Cell(n.left, n.right, n.parent, n.color) == CellOf(tree, null, n)
    {
    }

    /** The node after a given one in price order, or null. */
    method GetSuccessor(node: RBNode) returns (y: RBNode?)
      requires Valid() && node in tree.Nodes()
      ensures var s := tree.InOrder(); forall i :: 0 <= i < |s| && s[i] == node ==>
        y == if i + 1 < |s| then s[i + 1] else null
    {
      hide *;
      ghost var p, t := FocusOn(tree, node);
      FieldsOf(node);
      Look(p, t);
      ghost var i := InTheWalk(p, t);
      SolePlace(tree, i);
      if node.right != null {
        LeastSplits(t.right, In(p, R, t.n, t.color, t.left));
        y := Minimum(node.right, In(p, R, t.n, t.color, t.left), t.right);
        return;
      }
      var x := node;
      y := node.parent;
      ghost var after := p.After();
      while y != null && x == y.right
        invariant Valid() && t.Node? && t.n == x && Plug(p, t) == tree && y == p.Parent() && p.After() == after
        decreases p.Length()
      {
        Upward(p, t);
        FieldsOf(y);
        x := y;
        p, t := p.up, Mk(p.d, t, p.n, p.color, p.sib);
        y := y.parent;
      }
      Upward(p, t);
      if y != null {
        FieldsOf(y);
      }
    }

    /** The node before a given one in price order, or null. */
    method GetPredecessor(node: RBNode) returns (y: RBNode?)
      requires Valid() && node in tree.Nodes()
      ensures var s := tree.InOrder(); forall i :: 0 <= i < |s| && s[i] == node ==>
        y == if 0 < i then s[i - 1] else null
    {
      hide *;
      ghost var p, t := FocusOn(tree, node);
      FieldsOf(node);
      Look(p, t);
      ghost var i := InTheWalk(p, t);
      SolePlace(tree, i);
      if node.left != null {
        y := Maximum(node.left, In(p, L, t.n, t.color, t.right), t.left);
        return;
      }
      var x := node;
      y := node.parent;
      ghost var before := p.Before();
      while y != null && x == y.left
        invariant Valid() && t.Node? && t.n == x && Plug(p, t) == tree && y == p.Parent() && p.Before() == before
        decreases p.Length()
      {
        Upward(p, t);
        FieldsOf(y);
        x := y;
        p, t := p.up, Mk(p.d, t, p.n, p.color, p.sib);
        y := y.parent;
      }
      Upward(p, t);
      if y != null {
        FieldsOf(y);
      }
    }

    /** Calls back on the nodes below x in price order; the calls are recorded in r. */
    method TraverseInOrder(x: RBNode?, calls: seq<RBNode>, ghost t: Tree, ghost q: RBNode?) returns (r: seq<RBNode>)
      requires x == t.Root() && Holds(t, q) && Ordered(t)
      ensures r == calls + t.InOrder()
      decreases t
    {
      hide *;
      r := calls;
      EmptyWalk(t);
      if x != null {
        WalkParts(t, q);
        assert allocated(t.left.Nodes()) && allocated(t.right.Nodes());
        r := TraverseInOrder(x.left, r, t.left, x);
        r := r + [x];
        r := TraverseInOrder(x.right, r, t.right, x);
      }
    }

    method TraverseReverseInOrder(x: RBNode?, calls: seq<RBNode>, ghost t: Tree, ghost q: RBNode?) returns (r: seq<RBNode>)
      requires x == t.Root() && Holds(t, q) && Ordered(t)
      ensures r == calls + Reverse(t.InOrder())
      decreases t
    {
      hide *;
      r := calls;
      EmptyWalk(t);
      if x != null {
        WalkParts(t, q);
        assert allocated(t.left.Nodes()) && allocated(t.right.Nodes());
        r := TraverseReverseInOrder(x.right, r, t.right, x);
        r := r + [x];
        r := TraverseReverseInOrder(x.left, r, t.left, x);
      }
    }
  }
}
