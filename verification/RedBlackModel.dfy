/** What the fixups of the price tree compute, as functions on trees, and what those functions keep. */
module RedBlackModel {
  import opened PriceTrees

  // ---------- colour invariants ----------

  ghost predicate NoRedRed(t: Tree) {
    t.Node? ==> (t.color == Red ==> !t.left.IsRed() && !t.right.IsRed()) && NoRedRed(t.left) && NoRedRed(t.right)
  }

  ghost predicate NoRedRedPath(p: Path) {
    p.In? ==>
      && (p.color == Red ==> !p.sib.IsRed() && !(p.up.In? && p.up.color == Red))
      && NoRedRed(p.sib) && NoRedRedPath(p.up)
  }

  ghost predicate BlackTop(p: Path) {
    p.In? ==> if p.up.Top? then p.color == Black else BlackTop(p.up)
  }

  ghost function BlackHeight(t: Tree): nat {
    if t.Leaf? then 0 else BlackHeight(t.left) + if t.color == Black then 1 else 0
  }

  ghost predicate Balanced(t: Tree) {
    t.Node? ==> Balanced(t.left) && Balanced(t.right) && BlackHeight(t.left) == BlackHeight(t.right)
  }

  ghost predicate BalancedPath(p: Path, h: nat)
    decreases p
  {
    p.In? ==>
      && Balanced(p.sib) && BlackHeight(p.sib) == h
      && BalancedPath(p.up, h + if p.color == Black then 1 else 0)
  }

  /** What every run of inserts and removes keeps. */
  ghost predicate SearchTree(t: Tree) {
    Ordered(t) && NoRedRed(t) && !t.IsRed()
  }

  /** The red-black invariant in full. */
  ghost predicate RedBlack(t: Tree) {
    SearchTree(t) && Balanced(t)
  }

  lemma {:induction false} PlugColors(p: Path, t: Tree)
    ensures NoRedRed(Plug(p, t)) <==>
      NoRedRed(t) && NoRedRedPath(p) && !(t.IsRed() && p.In? && p.color == Red)
    ensures !Plug(p, t).IsRed() <==> if p.Top? then !t.IsRed() else BlackTop(p)
    ensures Balanced(Plug(p, t)) <==> Balanced(t) && BalancedPath(p, BlackHeight(t))
    decreases p
  {
    if p.In? {
      PlugColors(p.up, Mk(p.d, t, p.n, p.color, p.sib));
    }
  }

  // ---------- rotation ----------

  /** The child opposite d rises and the root sinks towards d. */
  ghost function Rotate(d: Dir, t: Tree): Tree
    requires t.Node? && t.Child(d.Flip()).Node?
  {
    var y := t.Child(d.Flip());
    Mk(d, Mk(d, t.Child(d), t.n, t.color, y.Child(d)), y.n, y.color, y.Child(d.Flip()))
  }

  lemma RotateKeeps(d: Dir, t: Tree)
    requires t.Node? && t.Child(d.Flip()).Node?
    ensures Rotate(d, t).InOrder() == t.InOrder() && Rotate(d, t).Nodes() == t.Nodes()
    ensures Ordered(t) ==> Ordered(Rotate(d, t))
  {
    RotateInOrder(d, t);
    hide Rotate, Ordered, Tree.InOrder, Tree.Nodes, Tree.Child, Tree.Size, Sorted, Elements;
    OrderedIffSorted(t);
    OrderedIffSorted(Rotate(d, t));
    InOrderMembers(t);
    InOrderMembers(Rotate(d, t));
  }

  lemma RotateInOrder(d: Dir, t: Tree)
    requires t.Node? && t.Child(d.Flip()).Node?
    ensures Rotate(d, t).InOrder() == t.InOrder()
  {
  }

  /** What a rotation changes in memory within the subtree: the two nodes turned, and the parent of the
      subtree that changes sides. */
  lemma RotateCells(d: Dir, t: Tree, q: RBNode?, n: RBNode)
    requires t.Node? && t.Child(d.Flip()).Node? && Ordered(t) && n in t.Nodes()
    ensures n in Rotate(d, t).Nodes()
    ensures var x, y := t.n, t.Child(d.Flip());
      var now, was := CellOf(Rotate(d, t), q, n), CellOf(t, q, n);
      if n == x then now == MkCell(d, t.Child(d).Root(), y.Child(d).Root(), y.n, t.color)
      else if n == y.n then now == MkCell(d, x, y.Child(d.Flip()).Root(), q, y.color)
      else if n == y.Child(d).Root() then now == was.(parent := x)
      else now == was
  {
    var x, y := t.n, t.Child(d.Flip());
    var a, b, c := t.Child(d), y.Child(d), y.Child(d.Flip());
    var low := Mk(d, a, x, t.color, b);
    assert Rotate(d, t) == Mk(d, low, y.n, y.color, c);
    assert t.Nodes() == {x, y.n} + a.Nodes() + b.Nodes() + c.Nodes();
    assert low.Nodes() == {x} + a.Nodes() + b.Nodes();
    assert x != y.n && x !in a.Nodes() && x !in b.Nodes() && x !in c.Nodes();
    assert y.n !in a.Nodes() && y.n !in b.Nodes() && y.n !in c.Nodes();
    assert a.Nodes() !! b.Nodes() && b.Nodes() !! c.Nodes() && a.Nodes() !! c.Nodes();
    if n in b.Nodes() {
      assert CellOf(t, q, n) == CellOf(y, x, n) == CellOf(b, y.n, n);
      assert CellOf(Rotate(d, t), q, n) == CellOf(low, y.n, n) == CellOf(b, x, n);
    } else if n in a.Nodes() {
      assert CellOf(Rotate(d, t), q, n) == CellOf(low, y.n, n) == CellOf(a, x, n) == CellOf(t, q, n);
    } else if n in c.Nodes() {
      assert CellOf(t, q, n) == CellOf(y, x, n) == CellOf(c, y.n, n) == CellOf(Rotate(d, t), q, n);
    }
  }

  lemma RotatePlugged(d: Dir, p: Path, t: Tree)
    requires t.Node? && t.Child(d.Flip()).Node? && Ordered(Plug(p, t))
    ensures Ordered(Plug(p, Rotate(d, t))) && Plug(p, Rotate(d, t)).Nodes() == Plug(p, t).Nodes()
    ensures p.In? ==> Plug(p, Rotate(d, t)).Root() == Plug(p, t).Root()
    ensures var x, y := t.n, t.Child(d.Flip());
      var m := Plug(p, t);
      && x in m.Nodes() && CellOf(m, null, x) == MkCell(d, t.Child(d).Root(), y.n, p.Parent(), t.color)
      && y.n in m.Nodes() && CellOf(m, null, y.n) == MkCell(d, y.Child(d).Root(), y.Child(d.Flip()).Root(), x, y.color)
      && (y.Child(d).Node? ==> y.Child(d).n in m.Nodes())
      && (p.In? ==> p.n in m.Nodes() && CellOf(m, null, p.n) == PathCell(p, x, p.n) && x != p.sib.Root())
      && x != y.n && x != y.Child(d).Root() && y.n != y.Child(d).Root()
      && x != p.Parent() && y.n != p.Parent() && (y.Child(d).Node? ==> y.Child(d).n != p.Parent())
  {
    RotateKeeps(d, t);
    PlugOrdered(p, t);
    PlugOrdered(p, Rotate(d, t));
    PlugNodes(p, t);
    PlugNodes(p, Rotate(d, t));
    PathApart(p, t.Nodes());
    PlugCell(p, t, t.n);
    PlugCell(p, t, t.Child(d.Flip()).n);
    if p.In? {
      PlugCell(p, t, p.n);
      PlugRoot(p, t);
      PlugRoot(p, Rotate(d, t));
    }
  }

  /** The same within the whole tree, where one pointer from above changes too. */
  lemma RotatePluggedCells(d: Dir, p: Path, t: Tree, n: RBNode)
    requires t.Node? && t.Child(d.Flip()).Node? && Ordered(Plug(p, t)) && n in Plug(p, t).Nodes()
    ensures n in Plug(p, Rotate(d, t)).Nodes()
    ensures var x, y := t.n, t.Child(d.Flip());
      var now, was := CellOf(Plug(p, Rotate(d, t)), null, n), CellOf(Plug(p, t), null, n);
      if n == x then now == MkCell(d, t.Child(d).Root(), y.Child(d).Root(), y.n, t.color)
      else if n == y.n then now == MkCell(d, x, y.Child(d.Flip()).Root(), p.Parent(), y.color)
      else if n == y.Child(d).Root() then now == was.(parent := x)
      else if n == p.Parent() then now == MkCell(p.d, y.n, p.sib.Root(), p.up.Parent(), p.color)
      else now == was
  {
    RotatePlugged(d, p, t);
    RotateKeeps(d, t);
    PlugOrdered(p, t);
    PlugOrdered(p, Rotate(d, t));
    PlugNodes(p, t);
    PathApart(p, t.Nodes());
    PlugCell(p, t, n);
    PlugCell(p, Rotate(d, t), n);
    if n in t.Nodes() {
      RotateCells(d, t, p.Parent(), n);
    }
  }

  lemma RecolorPlugged(p: Path, t: Tree, c: Color)
    requires t.Node? && Ordered(Plug(p, t))
    ensures var u := t.(color := c);
      && Ordered(Plug(p, u)) && Plug(p, u).Nodes() == Plug(p, t).Nodes() && Plug(p, u).Root() == Plug(p, t).Root()
      && t.n in Plug(p, t).Nodes()
  {
    var u := t.(color := c);
    PlugOrdered(p, t);
    PlugOrdered(p, u);
    PlugNodes(p, t);
    PlugNodes(p, u);
    if p.In? {
      PlugRoot(p, t);
      PlugRoot(p, u);
    }
  }

  lemma RecolorCells(p: Path, t: Tree, c: Color, n: RBNode)
    requires t.Node? && Ordered(Plug(p, t)) && n in Plug(p, t).Nodes()
    ensures n in Plug(p, t.(color := c)).Nodes()
    ensures CellOf(Plug(p, t.(color := c)), null, n)
         == if n == t.n then CellOf(Plug(p, t), null, n).(color := c) else CellOf(Plug(p, t), null, n)
  {
    var u := t.(color := c);
    RecolorPlugged(p, t, c);
    PlugOrdered(p, t);
    PlugOrdered(p, u);
    PlugNodes(p, t);
    PlugCell(p, t, n);
    PlugCell(p, u, n);
  }

  /** The cells of a subtree root and of its neighbours. */
  lemma Look(p: Path, t: Tree)
    requires t.Node? && Ordered(Plug(p, t))
    ensures var m := Plug(p, t);
      && t.n in m.Nodes() && CellOf(m, null, t.n) == Cell(t.left.Root(), t.right.Root(), p.Parent(), t.color)
      && (p.In? ==> p.n in m.Nodes() && CellOf(m, null, p.n) == MkCell(p.d, t.n, p.sib.Root(), p.up.Parent(), p.color)
                    && t.n != p.sib.Root() && t.n != p.n)
      && (p.In? && p.sib.Node? ==> p.sib.n in m.Nodes() && CellOf(m, null, p.sib.n).color == p.sib.color)
      && (t.left.Node? ==> t.left.n in m.Nodes() && CellOf(m, null, t.left.n).color == t.left.color)
      && (t.right.Node? ==> t.right.n in m.Nodes() && CellOf(m, null, t.right.n).color == t.right.color)
  {
    PlugOrdered(p, t);
    PlugNodes(p, t);
    PathApart(p, t.Nodes());
    PlugCell(p, t, t.n);
    if p.In? {
      PlugCell(p, t, p.n);
      if p.sib.Node? {
        PlugCell(p, t, p.sib.n);
      }
    }
    if t.left.Node? {
      PlugCell(p, t, t.left.n);
    }
    if t.right.Node? {
      PlugCell(p, t, t.right.n);
    }
  }

  /** Hanging u instead of t in a hole changes, among the nodes above, only the pointer to the hole. */
  lemma HangCells(p: Path, t: Tree, u: Tree, n: RBNode)
    requires Ordered(Plug(p, t)) && Ordered(Plug(p, u)) && n in Plug(p, u).Nodes()
    ensures n in u.Nodes() || n in Plug(p, t).Nodes()
    ensures CellOf(Plug(p, u), null, n) ==
      if n in u.Nodes() then CellOf(u, p.Parent(), n)
      else if n == p.Parent() then MkCell(p.d, u.Root(), p.sib.Root(), p.up.Parent(), p.color)
      else CellOf(Plug(p, t), null, n)
  {
    PlugOrdered(p, t);
    PlugOrdered(p, u);
    PlugNodes(p, t);
    PlugNodes(p, u);
    PathApart(p, t.Nodes());
    PlugCell(p, u, n);
    if n !in u.Nodes() {
      PlugCell(p, t, n);
    }
  }

  lemma LookUp(p: Path, t: Tree)
    requires p.In? && Ordered(Plug(p, t))
    ensures var m := Plug(p, t);
      && p.n in m.Nodes() && p.n !in t.Nodes()
      && CellOf(m, null, p.n) == MkCell(p.d, t.Root(), p.sib.Root(), p.up.Parent(), p.color)
      && m.Root() == Plug(p, Leaf).Root() != null && (t.Node? ==> t.n != p.sib.Root())
  {
    PlugOrdered(p, t);
    PlugNodes(p, t);
    PathApart(p, t.Nodes());
    PlugCell(p, t, p.n);
    PlugRoot(p, t);
  }

  lemma RootAbove(p: Path, t: Tree)
    requires t.Node? && Ordered(Plug(p, t))
    ensures Plug(p, t).Root() == t.n <==> p.Top?
  {
    PlugOrdered(p, t);
    PathApart(p, t.Nodes());
    if p.In? {
      PlugRoot(p, t);
      PlugNodes(p, Leaf);
      assert Plug(p, Leaf).n in p.Nodes();
    }
  }

  lemma CellParent(t: Tree, q: RBNode?, q': RBNode?, n: RBNode)
    requires n in t.Nodes()
    ensures CellOf(t, q', n) == if n == t.Root() then CellOf(t, q, n).(parent := q') else CellOf(t, q, n)
  {
  }

  lemma PathCellRoot(p: Path, x: RBNode?, x': RBNode?, n: RBNode)
    requires n in p.Nodes()
    ensures PathCell(p, x', n)
         == if n == p.Parent() then MkCell(p.d, x', p.sib.Root(), p.up.Parent(), p.color) else PathCell(p, x, n)
  {
  }

  /** The cells of a tree by the parts of a subtree in it. */
  lemma NodeCells(p: Path, l: Tree, m: RBNode, c: Color, r: Tree, n: RBNode)
    requires Ordered(Plug(p, Node(l, m, c, r))) && n in Plug(p, Node(l, m, c, r)).Nodes()
    ensures n != m && n !in l.Nodes() && n !in r.Nodes() ==> n in p.Nodes()
    ensures CellOf(Plug(p, Node(l, m, c, r)), null, n) ==
      if n == m then Cell(l.Root(), r.Root(), p.Parent(), c)
      else if n in l.Nodes() then CellOf(l, m, n)
      else if n in r.Nodes() then CellOf(r, m, n)
      else PathCell(p, m, n)
  {
    var t := Node(l, m, c, r);
    PlugOrdered(p, t);
    PlugNodes(p, t);
    PlugCell(p, t, n);
  }

  /** Replacing a node by its only child moves that child's parent pointer, and the pointer from above. */
  lemma TransplantCells(p: Path, t: Tree, s: Tree, n: RBNode)
    requires t.Node? && ((t.left.Leaf? && s == t.right) || (t.right.Leaf? && s == t.left))
    requires Ordered(Plug(p, t)) && Ordered(Plug(p, s)) && n in Plug(p, s).Nodes()
    ensures n in Plug(p, t).Nodes() && n != t.n
    ensures var now, was := CellOf(Plug(p, s), null, n), CellOf(Plug(p, t), null, n);
      if n == s.Root() then now == was.(parent := p.Parent())
      else if n == p.Parent() then now == MkCell(p.d, s.Root(), p.sib.Root(), p.up.Parent(), p.color)
      else now == was
  {
    PlugOrdered(p, t);
    PlugOrdered(p, s);
    PlugNodes(p, s);
    PlugNodes(p, t);
    PathApart(p, t.Nodes());
    PlugCell(p, s, n);
    PlugCell(p, t, n);
    if n in s.Nodes() {
      CellParent(s, t.n, p.Parent(), n);
    } else {
      PathCellRoot(p, t.n, s.Root(), n);
    }
  }

  /** The split of a tree at one of its nodes. */
  lemma {:induction false} FocusAt(t: Tree, p: Path, n: RBNode) returns (q: Path, u: Tree)
    requires n in t.Nodes()
    ensures Plug(q, u) == Plug(p, t) && u.Node? && u.n == n
    decreases t
  {
    if n == t.n {
      q, u := p, t;
    } else if n in t.left.Nodes() {
      q, u := FocusAt(t.left, In(p, L, t.n, t.color, t.right), n);
    } else {
      q, u := FocusAt(t.right, In(p, R, t.n, t.color, t.left), n);
    }
  }

  lemma FocusOn(t: Tree, n: RBNode) returns (q: Path, u: Tree)
    requires n in t.Nodes()
    ensures Plug(q, u) == t && u.Node? && u.n == n
  {
    q, u := FocusAt(t, Top, n);
  }

  // ---------- insertion ----------

  /** Where a price belongs: the path to its node, or to the null where it would hang. */
  ghost function Locate(t: Tree, price: int, p: Path): (Path, Tree)
    decreases t
  {
    if t.Leaf? || price == t.n.price then (p, t)
    else if price < t.n.price then Locate(t.left, price, In(p, L, t.n, t.color, t.right))
    else Locate(t.right, price, In(p, R, t.n, t.color, t.left))
  }

  lemma {:induction false} LocateSplits(t: Tree, price: int, p: Path)
    ensures var (q, u) := Locate(t, price, p);
      && Plug(q, u) == Plug(p, t)
      && (u.Node? ==> u.n.price == price)
    decreases t
  {
    if t.Leaf? || price == t.n.price {
    } else if price < t.n.price {
      LocateSplits(t.left, price, In(p, L, t.n, t.color, t.right));
    } else {
      LocateSplits(t.right, price, In(p, R, t.n, t.color, t.left));
    }
  }

  lemma {:induction false} LocateSide(t: Tree, price: int, p: Path)
    requires p.In? ==> (price < p.n.price <==> p.d == L)
    ensures var (q, _) := Locate(t, price, p); q.In? ==> (price < q.n.price <==> q.d == L)
    decreases t
  {
    if t.Leaf? || price == t.n.price {
    } else if price < t.n.price {
      LocateSide(t.left, price, In(p, L, t.n, t.color, t.right));
    } else {
      LocateSide(t.right, price, In(p, R, t.n, t.color, t.left));
    }
  }

  /** A price the walk does not meet is nowhere in the tree, and a node of that price fits where it ends. */
  lemma {:induction false} LocateAbsent(t: Tree, price: int, p: Path, z: RBNode)
    requires z.price == price && Ordered(t) && OrderedPath(p, t.Nodes()) && OrderedPath(p, t.Nodes() + {z})
    requires Locate(t, price, p).1.Leaf?
    ensures OrderedPath(Locate(t, price, p).0, {z})
    ensures forall m :: m in t.Nodes() ==> m.price != price
    decreases t
  {
    if t.Leaf? {
      assert t.Nodes() + {z} == {z};
    } else if price < t.n.price {
      var q := In(p, L, t.n, t.color, t.right);
      assert t.left.Nodes() + {t.n} + t.right.Nodes() == t.Nodes();
      assert t.left.Nodes() + {z} + {t.n} + t.right.Nodes() == t.Nodes() + {z};
      LocateAbsent(t.left, price, q, z);
    } else {
      var q := In(p, R, t.n, t.color, t.left);
      assert t.right.Nodes() + {t.n} + t.left.Nodes() == t.Nodes();
      assert t.right.Nodes() + {z} + {t.n} + t.left.Nodes() == t.Nodes() + {z};
      LocateAbsent(t.right, price, q, z);
    }
  }

  /** Recolouring and rotating upwards from a red subtree t until no red parent is left. */
  ghost function InsFix(p: Path, t: Tree): Tree
    requires t.Node?
    decreases p
  {
    if p.Top? || p.color == Black || p.up.Top? then Plug(p, t)
    else
      var g := p.up;
      if g.sib.IsRed() then
        InsFix(g.up, Mk(g.d, Mk(p.d, t, p.n, Black, p.sib), g.n, Red, g.sib.Blacken()))
      else if p.d == g.d then
        Plug(g.up, Mk(p.d, t, p.n, Black, Mk(p.d, p.sib, g.n, Red, g.sib)))
      else
        Plug(g.up, Mk(g.d, Mk(g.d, p.sib, p.n, Red, t.Child(g.d)), t.n, Black,
                           Mk(g.d, t.Child(g.d.Flip()), g.n, Red, g.sib)))
  }

  /** A red subtree on the inner side is first turned to the outer side; the parent becomes the subtree. */
  ghost function Outward(p: Path, t: Tree): (Path, Tree)
    requires p.In? && p.up.In? && t.Node?
  {
    var d := p.up.d;
    if p.d == d then (p, t)
    else (In(p.up, d, t.n, t.color, t.Child(d.Flip())), Mk(d, p.sib, p.n, p.color, t.Child(d)))
  }

  lemma OutwardRotates(p: Path, t: Tree)
    requires p.In? && p.up.In? && t.Node? && p.d != p.up.d
    ensures var (q, u) := Outward(p, t);
      Plug(q, u) == Plug(p.up, Rotate(p.up.d, Mk(p.d, t, p.n, p.color, p.sib)))
  {
  }

  /** The path above the subtree once parent and grandparent have been turned. */
  ghost function Turned(p: Path): Path
    requires p.In? && p.up.In?
  {
    In(p.up.up, p.d, p.n, Black, Mk(p.d, p.sib, p.up.n, Red, p.up.sib))
  }

  /** The grandparent's subtree once a red uncle was recoloured. */
  ghost function Recolored(p: Path, t: Tree): Tree
    requires p.In? && p.up.In?
  {
    Mk(p.up.d, Mk(p.d, t, p.n, Black, p.sib), p.up.n, Red, p.up.sib.Blacken())
  }

  lemma InsFixRecolors(p: Path, t: Tree)
    requires t.IsRed() && p.In? && p.color == Red && p.up.In? && p.up.sib.IsRed() && BlackTop(p)
    ensures InsFix(p, t) == InsFix(p.up.up, Recolored(p, t))
    ensures BlackTop(p.up.up) && p.up.up.Length() < p.Length()
  {
    assert BlackTop(p.up);
  }

  lemma InsFixTurns(p: Path, t: Tree)
    requires t.IsRed() && p.In? && p.color == Red && p.up.In? && !p.up.sib.IsRed() && BlackTop(p)
    ensures var (q, u) := Outward(p, t);
      && InsFix(p, t) == Plug(Turned(q), u) == InsFix(Turned(q), u)
      && BlackTop(Turned(q)) && Turned(q).Length() < p.Length()
  {
    var (q, u) := Outward(p, t);
    var g := p.up;
    assert Plug(Turned(q), u) == Plug(g.up, Mk(g.d, u, q.n, Black, Mk(g.d, q.sib, g.n, Red, g.sib)));
    assert BlackTop(g) && q.up == g;
  }

  ghost function InsertNode(t: Tree, z: RBNode): Tree {
    InsFix(Locate(t, z.price, Top).0, Node(Leaf, z, Red, Leaf)).Blacken()
  }

  lemma DoubleRotationInOrder(d: Dir, s: Tree, p: RBNode, t: Tree, g: RBNode, u: Tree)
    requires t.Node?
    ensures Mk(d, Mk(d.Flip(), t, p, Red, s), g, Red, u).InOrder()
         == Mk(d, Mk(d, s, p, Red, t.Child(d)), t.n, Red, Mk(d, t.Child(d.Flip()), g, Red, u)).InOrder()
  {
    var lower := Mk(d.Flip(), t, p, Red, s);
    RotateKeeps(d, lower);
    var upper := Mk(d, Rotate(d, lower), g, Red, u);
    RotateKeeps(d.Flip(), upper);
  }

  lemma {:induction false} InsFixInOrder(p: Path, t: Tree)
    requires t.Node?
    ensures InsFix(p, t).InOrder() == Plug(p, t).InOrder()
    decreases p
  {
    if p.Top? || p.color == Black || p.up.Top? {
    } else {
      var g := p.up;
      var old1 := Mk(p.d, t, p.n, p.color, p.sib);
      var old2 := Mk(g.d, old1, g.n, g.color, g.sib);
      var new2 := GrandparentFixed(p, t);
      assert Plug(p, t) == Plug(g.up, old2);
      assert InsFix(p, t) == (if g.sib.IsRed() then InsFix(g.up, new2) else Plug(g.up, new2)) && new2.Node?;
      assert new2.InOrder() == old2.InOrder() by {
        GrandparentInOrder(p, t);
      }
      hide InsFix, Plug, Tree.InOrder, Mk, GrandparentFixed;
      PlugInOrder(g.up, old2);
      PlugInOrder(g.up, new2);
      if g.sib.IsRed() {
        InsFixInOrder(g.up, new2);
      }
    }
  }

  /** The subtree at the grandparent after one round of the insertion fixup. */
  ghost function GrandparentFixed(p: Path, t: Tree): Tree
    requires t.Node? && p.In? && p.up.In?
  {
    var g := p.up;
    if g.sib.IsRed() then Mk(g.d, Mk(p.d, t, p.n, Black, p.sib), g.n, Red, g.sib.Blacken())
    else if p.d == g.d then Mk(p.d, t, p.n, Black, Mk(p.d, p.sib, g.n, Red, g.sib))
    else Mk(g.d, Mk(g.d, p.sib, p.n, Red, t.Child(g.d)), t.n, Black, Mk(g.d, t.Child(g.d.Flip()), g.n, Red, g.sib))
  }

  lemma GrandparentInOrder(p: Path, t: Tree)
    requires t.Node? && p.In? && p.up.In?
    ensures GrandparentFixed(p, t).InOrder() == Mk(p.up.d, Mk(p.d, t, p.n, p.color, p.sib), p.up.n, p.up.color, p.up.sib).InOrder()
  {
    var g := p.up;
    if !g.sib.IsRed() && p.d != g.d {
      DoubleRotationInOrder(g.d, p.sib, p.n, t, g.n, g.sib);
    }
  }

  lemma {:induction false} InsFixColors(p: Path, t: Tree)
    requires t.IsRed() && NoRedRed(t) && NoRedRedPath(p) && BlackTop(p)
    ensures NoRedRed(InsFix(p, t).Blacken())
    ensures Balanced(Plug(p, t)) ==> Balanced(InsFix(p, t).Blacken())
    decreases p
  {
    PlugColors(p, t);
    if p.Top? || p.color == Black || p.up.Top? {
    } else {
      var g := p.up;
      if g.sib.IsRed() {
        var new2 := Mk(g.d, Mk(p.d, t, p.n, Black, p.sib), g.n, Red, g.sib.Blacken());
        PlugColors(g.up, new2);
        InsFixColors(g.up, new2);
      } else {
        InsTurnColors(p, t);
      }
    }
  }

  /** The last round of the fixup, which rotates once or twice. */
  lemma InsTurnColors(p: Path, t: Tree)
    requires t.IsRed() && NoRedRed(t) && NoRedRedPath(p) && BlackTop(p)
    requires p.In? && p.color == Red && p.up.In? && !p.up.sib.IsRed()
    ensures NoRedRed(InsFix(p, t).Blacken())
    ensures Balanced(Plug(p, t)) ==> Balanced(InsFix(p, t).Blacken())
  {
    var g := p.up;
    PlugColors(p, t);
    PlugColors(g.up, GrandparentFixed(p, t));
  }

  lemma InsertInOrder(t: Tree, z: RBNode)
    requires Locate(t, z.price, Top).1.Leaf?
    ensures var r, i := InsertNode(t, z), |Locate(t, z.price, Top).0.Before()|;
      i <= |t.InOrder()| && r.InOrder() == t.InOrder()[..i] + [z] + t.InOrder()[i..]
  {
    var (p, _) := Locate(t, z.price, Top);
    var leaf := Node(Leaf, z, Red, Leaf);
    LocateSplits(t, z.price, Top);
    PlugInOrder(p, Leaf);
    PlugInOrder(p, leaf);
    InsFixInOrder(p, leaf);
    var s, b, a := t.InOrder(), p.Before(), p.After();
    assert s == b + a && s[..|b|] == b && s[|b|..] == a;
    assert leaf.InOrder() == [z];
    assert InsertNode(t, z).InOrder() == InsFix(p, leaf).InOrder();
  }

  lemma InsertColors(t: Tree, z: RBNode)
    requires NoRedRed(t) && !t.IsRed() && Locate(t, z.price, Top).1.Leaf?
    ensures var r := InsertNode(t, z); NoRedRed(r) && !r.IsRed() && (Balanced(t) ==> Balanced(r))
  {
    var (p, _) := Locate(t, z.price, Top);
    var leaf := Node(Leaf, z, Red, Leaf);
    LocateSplits(t, z.price, Top);
    PlugColors(p, Leaf);
    PlugColors(p, leaf);
    InsFixColors(p, leaf);
  }

  /** Splitting one element into a sequence adds it and nothing else. */
  lemma InsertedElements(s: seq<RBNode>, i: nat, z: RBNode)
    requires i <= |s|
    ensures Elements(s[..i] + [z] + s[i..]) == Elements(s) + {z}
  {
    var r := s[..i] + [z] + s[i..];
    assert forall k :: 0 <= k < |s| ==> s[k] == r[if k < i then k else k + 1];
    assert r[i] == z;
  }

  lemma InsertOrdered(t: Tree, z: RBNode)
    requires Ordered(t) && Locate(t, z.price, Top).1.Leaf?
    ensures Ordered(InsertNode(t, z))
  {
    var (p, _) := Locate(t, z.price, Top);
    var leaf := Node(Leaf, z, Red, Leaf);
    LocateAbsent(t, z.price, Top, z);
    PlugOrdered(p, leaf);
    InsFixInOrder(p, leaf);
    OrderedIffSorted(Plug(p, leaf));
    OrderedIffSorted(InsFix(p, leaf));
    assert leaf.Nodes() == {z};
  }

  /** Inserting a new price puts its node in its sorted place and keeps every invariant the tree has. */
  lemma InsertKeeps(t: Tree, z: RBNode)
    requires SearchTree(t) && Locate(t, z.price, Top).1.Leaf?
    ensures var r, i := InsertNode(t, z), |Locate(t, z.price, Top).0.Before()|;
      && SearchTree(r) && (RedBlack(t) ==> RedBlack(r))
      && i <= |t.InOrder()| && r.InOrder() == t.InOrder()[..i] + [z] + t.InOrder()[i..]
      && r.Nodes() == t.Nodes() + {z} && r.Size() == t.Size() + 1
  {
    var r, i := InsertNode(t, z), |Locate(t, z.price, Top).0.Before()|;
    InsertInOrder(t, z);
    InsertColors(t, z);
    InsertOrdered(t, z);
    InOrderMembers(t);
    InOrderMembers(r);
    InsertedElements(t.InOrder(), i, z);
  }

  // ---------- removal ----------

  /** The subtree whose root is the least node of t. */
  ghost function Least(t: Tree): (u: Tree)
    requires t.Node?
    ensures u.Node? && u.left.Leaf?
  {
    if t.left.Leaf? then t else Least(t.left)
  }

  ghost function LeastPath(t: Tree, p: Path): Path
    requires t.Node?
    decreases t
  {
    if t.left.Leaf? then p else LeastPath(t.left, In(p, L, t.n, t.color, t.right))
  }

  ghost function WithoutLeast(t: Tree): Tree
    requires t.Node?
  {
    if t.left.Leaf? then t.right else Node(WithoutLeast(t.left), t.n, t.color, t.right)
  }

  lemma {:induction false} LeastSplits(t: Tree, p: Path)
    requires t.Node?
    ensures Plug(LeastPath(t, p), Least(t)) == Plug(p, t)
    ensures Plug(LeastPath(t, p), Least(t).right) == Plug(p, WithoutLeast(t))
    ensures t.InOrder() == [Least(t).n] + WithoutLeast(t).InOrder()
    ensures p.In? ==> LeastPath(t, p).In?
    decreases t
  {
    if t.left.Node? {
      LeastSplits(t.left, In(p, L, t.n, t.color, t.right));
      assert t.InOrder() == [Least(t).n] + (WithoutLeast(t.left).InOrder() + [t.n] + t.right.InOrder());
    }
  }

  /** Removing the root of u leaves a child x in a hole q; c is the colour of the node taken out. */
  ghost function Splice(p: Path, u: Tree): (Path, Tree, Color)
    requires u.Node?
  {
    if u.left.Leaf? then (p, u.right, u.color)
    else if u.right.Leaf? then (p, u.left, u.color)
    else
      var y := Least(u.right);
      (LeastPath(u.right, In(p, R, y.n, u.color, u.left)), y.right, y.color)
  }

  /** A node with at most one child gives its place to that child. One with two gives it, with its colour and its
      left subtree, to the next node in the walk. */
  lemma SuccessorTakesPlace(p: Path, u: Tree)
    requires u.Node?
    ensures var (q, x, _) := Splice(p, u);
      if u.left.Leaf? then Plug(q, x) == Plug(p, u.right)
      else if u.right.Leaf? then Plug(q, x) == Plug(p, u.left)
      else exists rest: Tree ::
        && u.right.InOrder() == [u.right.InOrder()[0]] + rest.InOrder()
        && Plug(q, x) == Plug(p, Node(u.left, u.right.InOrder()[0], u.color, rest))
  {
    if u.left.Node? && u.right.Node? {
      LeastSplits(u.right, In(p, R, Least(u.right).n, u.color, u.left));
      assert Plug(p, Node(u.left, Least(u.right).n, u.color, WithoutLeast(u.right))) == Plug(Splice(p, u).0, Splice(p, u).1);
    }
  }

  /** The loop of deleteFixup from the subtree t upwards. A null subtree is not fixed at all. */
  ghost function DelFix(p: Path, t: Tree): Tree
    decreases p.Length(), if t.IsRed() then 0 else 1, 1
  {
    if t.Leaf? then Plug(p, t)
    else if p.Top? then t.Blacken()
    else if t.IsRed() then Plug(p, t.Blacken())
    else if p.sib.IsRed() then DelStep(RaiseSibling(p), t)
    else DelStep(p, t)
  }

  /** A red sibling rises above the parent, which turns red. */
  ghost function RaiseSibling(p: Path): Path
    requires p.In? && p.sib.Node?
  {
    In(In(p.up, p.d, p.sib.n, Black, p.sib.Child(p.d.Flip())), p.d, p.n, Red, p.sib.Child(p.d))
  }

  /** The way to the sibling: the same tree, seen from the other child. */
  ghost function Across(p: Path, t: Tree): (q: Path)
    requires p.In?
    ensures Plug(q, p.sib) == Plug(p, t) == Plug(p.up, Mk(p.d, t, p.n, p.color, p.sib))
  {
    In(p.up, p.d.Flip(), p.n, p.color, t)
  }

  lemma RaiseRotates(p: Path, t: Tree)
    requires p.In? && p.sib.Node?
    ensures Plug(RaiseSibling(p), t) == Plug(p.up, Rotate(p.d, Mk(p.d, t, p.n, Red, p.sib.(color := Black))))
  {
  }

  ghost function DelStep(p: Path, t: Tree): Tree
    requires p.In?
    decreases p.up.Length(), if p.color == Red then 0 else 1, 2
  {
    var w := p.sib;
    if w.Leaf? then DelFix(p.up, Mk(p.d, t, p.n, p.color, Leaf))
    else if !w.left.IsRed() && !w.right.IsRed() then DelFix(p.up, Mk(p.d, t, p.n, p.color, w.(color := Red)))
    else Plug(p.up, LiftSibling(p, t)).Blacken()
  }

  /** The sibling after its red near child was rotated above it, if the far child is a black node. */
  ghost function Straighten(d: Dir, w: Tree): Tree
    requires w.Node?
  {
    var near, far := w.Child(d), w.Child(d.Flip());
    if far.Node? && far.color == Black && near.Node? then
      Mk(d, near.Child(d), near.n, Black, Mk(d, near.Child(d.Flip()), w.n, Red, far))
    else w
  }

  ghost function LiftSibling(p: Path, t: Tree): Tree
    requires p.In? && p.sib.Node?
  {
    var w := Straighten(p.d, p.sib);
    Mk(p.d, Mk(p.d, t, p.n, Black, w.Child(p.d)), w.n, p.color, w.Child(p.d.Flip()).Blacken())
  }

  ghost function RemoveNode(t: Tree, price: int): Tree
    requires Locate(t, price, Top).1.Node?
  {
    var (p, u) := Locate(t, price, Top);
    var (q, x, c) := Splice(p, u);
    if c == Black then DelFix(q, x) else Plug(q, x)
  }

  lemma {:induction false} DelFixInOrder(p: Path, t: Tree)
    ensures DelFix(p, t).InOrder() == Plug(p, t).InOrder()
    decreases p.Length(), if t.IsRed() then 0 else 1, 1
  {
    if t.Leaf? || p.Top? {
    } else if t.IsRed() {
      PlugInOrder(p, t);
      PlugInOrder(p, t.Blacken());
    } else if p.sib.IsRed() {
      DelStepInOrder(RaiseSibling(p), t);
      var old2 := Mk(p.d, t, p.n, p.color, p.sib);
      RotateKeeps(p.d, old2);
      PlugInOrder(p.up, old2);
      PlugInOrder(p.up, Mk(p.d, Mk(p.d, t, p.n, Red, p.sib.Child(p.d)), p.sib.n, Black, p.sib.Child(p.d.Flip())));
    } else {
      DelStepInOrder(p, t);
    }
  }

  lemma {:induction false} DelStepInOrder(p: Path, t: Tree)
    requires p.In?
    ensures DelStep(p, t).InOrder() == Plug(p, t).InOrder()
    decreases p.up.Length(), if p.color == Red then 0 else 1, 2
  {
    var w := p.sib;
    var old1 := Mk(p.d, t, p.n, p.color, w);
    PlugInOrder(p.up, old1);
    if w.Leaf? {
      DelFixInOrder(p.up, old1);
    } else if !w.left.IsRed() && !w.right.IsRed() {
      var new1 := Mk(p.d, t, p.n, p.color, w.(color := Red));
      DelFixInOrder(p.up, new1);
      PlugInOrder(p.up, new1);
    } else {
      LiftInOrder(p, t);
      PlugInOrder(p.up, LiftSibling(p, t));
    }
  }

  lemma LiftInOrder(p: Path, t: Tree)
    requires p.In? && p.sib.Node?
    ensures LiftSibling(p, t).InOrder() == Mk(p.d, t, p.n, p.color, p.sib).InOrder()
  {
    var w := Straighten(p.d, p.sib);
    if w != p.sib {
      RotateKeeps(p.d.Flip(), p.sib);
    }
    assert w.InOrder() == p.sib.InOrder();
    RotateKeeps(p.d, Mk(p.d, t, p.n, p.color, w));
  }

  lemma {:induction false} DelFixColors(p: Path, t: Tree)
    requires t.Node? && NoRedRed(t.Blacken()) && NoRedRedPath(p) && BlackTop(p)
    ensures NoRedRed(DelFix(p, t)) && !DelFix(p, t).IsRed()
    decreases p.Length(), if t.IsRed() then 0 else 1, 1
  {
    if p.Top? {
    } else if t.IsRed() {
      PlugColors(p, t.Blacken());
    } else if p.sib.IsRed() {
      DelStepColors(RaiseSibling(p), t);
    } else {
      DelStepColors(p, t);
    }
  }

  lemma {:induction false} DelStepColors(p: Path, t: Tree)
    requires p.In? && !p.sib.IsRed() && t.Node? && t.color == Black && NoRedRed(t) && NoRedRedPath(p) && BlackTop(p)
    ensures NoRedRed(DelStep(p, t)) && !DelStep(p, t).IsRed()
    decreases p.up.Length(), if p.color == Red then 0 else 1, 2
  {
    var w := p.sib;
    if w.Leaf? {
      DelFixColors(p.up, Mk(p.d, t, p.n, p.color, Leaf));
    } else if !w.left.IsRed() && !w.right.IsRed() {
      DelFixColors(p.up, Mk(p.d, t, p.n, p.color, w.(color := Red)));
    } else {
      LiftColors(p, t);
      PlugColors(p.up, LiftSibling(p, t));
    }
  }

  lemma LiftColors(p: Path, t: Tree)
    requires p.In? && p.sib.Node? && p.sib.color == Black && (p.sib.left.IsRed() || p.sib.right.IsRed())
    requires NoRedRed(t) && !t.IsRed() && NoRedRed(p.sib)
    ensures NoRedRed(LiftSibling(p, t)) && (LiftSibling(p, t).IsRed() <==> p.color == Red)
  {
    var w := Straighten(p.d, p.sib);
    assert NoRedRed(w.Child(p.d)) && NoRedRed(w.Child(p.d.Flip()).Blacken());
    assert p.color == Red ==> !w.Child(p.d.Flip()).Blacken().IsRed();
    assert NoRedRed(Mk(p.d, t, p.n, Black, w.Child(p.d)));
  }

  /** A subtree in a hole that expects one more black node than it has, all else being red-black. */
  ghost predicate Short(p: Path, t: Tree) {
    && NoRedRed(t.Blacken()) && NoRedRedPath(p) && BlackTop(p)
    && Balanced(t) && BalancedPath(p, BlackHeight(t) + 1)
  }

  /** The loop gives its subtree the one black node it lacks, and takes none from any other: black heights come out
      equal exactly when that one was all that was missing. */
  lemma {:induction false} DelFixBalance(p: Path, t: Tree)
    requires t.Node? && NoRedRed(t.Blacken()) && NoRedRedPath(p) && BlackTop(p)
    ensures Balanced(DelFix(p, t)) <==> Balanced(t) && BalancedPath(p, BlackHeight(t) + 1)
    decreases p.Length(), if t.IsRed() then 0 else 1, 1
  {
    if p.Top? {
    } else if t.IsRed() {
      PlugColors(p, t.Blacken());
    } else if p.sib.IsRed() {
      DelStepBalance(RaiseSibling(p), t);
    } else {
      DelStepBalance(p, t);
    }
  }

  lemma {:induction false} DelStepBalance(p: Path, t: Tree)
    requires p.In? && !p.sib.IsRed() && t.Node? && t.color == Black && NoRedRed(t) && NoRedRedPath(p) && BlackTop(p)
    ensures Balanced(DelStep(p, t)) <==> Balanced(t) && BalancedPath(p, BlackHeight(t) + 1)
    decreases p.up.Length(), if p.color == Red then 0 else 1, 2
  {
    var w := p.sib;
    if w.Leaf? {
      DelFixBalance(p.up, Mk(p.d, t, p.n, p.color, Leaf));
    } else if !w.left.IsRed() && !w.right.IsRed() {
      DelFixBalance(p.up, Mk(p.d, t, p.n, p.color, w.(color := Red)));
    } else {
      LiftBalance(p, t);
      PlugColors(p.up, LiftSibling(p, t));
    }
  }

  lemma LiftBalance(p: Path, t: Tree)
    requires p.In? && p.sib.Node? && p.sib.color == Black && (p.sib.left.IsRed() || p.sib.right.IsRed())
    requires t.Node? && t.color == Black && NoRedRed(p.sib)
    ensures var u := LiftSibling(p, t);
      && (Balanced(u) <==> Balanced(t) && Balanced(p.sib) && BlackHeight(p.sib) == BlackHeight(t) + 1)
      && (Balanced(u) ==> BlackHeight(u) == BlackHeight(t) + 1 + if p.color == Black then 1 else 0)
  {
    var near, far := p.sib.Child(p.d), p.sib.Child(p.d.Flip());
    assert 0 < BlackHeight(t) && (near.IsRed() || far.IsRed());
    hide Balanced, NoRedRed, BlackHeight;
    MkBalance(p.d, near, p.sib.n, Black, far);
    if far.Node? && far.color == Black {
      LiftStraightened(p, t);
    } else {
      var high := Mk(p.d, t, p.n, Black, near);
      assert LiftSibling(p, t) == Mk(p.d, high, p.sib.n, p.color, far.Blacken());
      BlackenedHeight(far);
      MkBalance(p.d, t, p.n, Black, near);
      MkBalance(p.d, high, p.sib.n, p.color, far.Blacken());
    }
  }

  lemma LiftStraightened(p: Path, t: Tree)
    requires p.In? && p.sib.Node? && p.sib.color == Black
    requires var near, far := p.sib.Child(p.d), p.sib.Child(p.d.Flip()); near.IsRed() && far.Node? && far.color == Black
    ensures var u := LiftSibling(p, t);
      && (Balanced(u) <==> Balanced(t) && Balanced(p.sib) && BlackHeight(p.sib) == BlackHeight(t) + 1)
      && (Balanced(u) ==> BlackHeight(u) == BlackHeight(t) + 1 + if p.color == Black then 1 else 0)
  {
    hide Balanced, BlackHeight;
    var near, far := p.sib.Child(p.d), p.sib.Child(p.d.Flip());
    var a, b := near.Child(p.d), near.Child(p.d.Flip());
    var low, high := Mk(p.d, b, p.sib.n, Red, far), Mk(p.d, t, p.n, Black, a);
    assert LiftSibling(p, t) == Mk(p.d, high, near.n, p.color, low.Blacken());
    MkBalance(p.d, near, p.sib.n, Black, far);
    MkBalance(p.d, a, near.n, Red, b);
    MkBalance(p.d, b, p.sib.n, Black, far);
    MkBalance(p.d, t, p.n, Black, a);
    MkBalance(p.d, high, near.n, p.color, low.Blacken());
  }

  lemma BlackenedHeight(t: Tree)
    ensures Balanced(t.Blacken()) <==> Balanced(t)
    ensures BlackHeight(t.Blacken()) == BlackHeight(t) + if t.IsRed() then 1 else 0
    ensures t.Leaf? ==> BlackHeight(t) == 0
  {
  }

  lemma MkBalance(d: Dir, near: Tree, n: RBNode, c: Color, far: Tree)
    ensures Balanced(Mk(d, near, n, c, far)) <==> Balanced(near) && Balanced(far) && BlackHeight(near) == BlackHeight(far)
    ensures Balanced(Mk(d, near, n, c, far)) ==>
      BlackHeight(Mk(d, near, n, c, far)) == BlackHeight(near) + if c == Black then 1 else 0
  {
  }

  /** Handed a subtree that lacks one black node in an otherwise red-black tree, the loop restores the invariant in
      full and moves no node in the in-order walk. */
  lemma DelFixMends(p: Path, t: Tree)
    requires t.Node? && Short(p, t) && Ordered(Plug(p, t))
    ensures RedBlack(DelFix(p, t)) && DelFix(p, t).InOrder() == Plug(p, t).InOrder()
  {
    DelFixBalance(p, t);
    DelFixColors(p, t);
    DelFixInOrder(p, t);
    OrderedIffSorted(Plug(p, t));
    OrderedIffSorted(DelFix(p, t));
  }

  /** Rank of the located node in the in-order walk. */
  ghost function Rank(t: Tree, price: int): nat
    requires Locate(t, price, Top).1.Node?
  {
    var (p, u) := Locate(t, price, Top);
    |p.Before()| + |u.left.InOrder()|
  }

  lemma SpliceInOrder(p: Path, u: Tree)
    requires u.Node?
    ensures var (q, x, _) := Splice(p, u);
      Plug(q, x).InOrder() == p.Before() + u.left.InOrder() + u.right.InOrder() + p.After()
  {
    if u.left.Leaf? {
      PlugInOrder(p, u.right);
    } else if u.right.Leaf? {
      PlugInOrder(p, u.left);
    } else {
      SpliceLeast(p, u);
    }
  }

  lemma SpliceLeast(p: Path, u: Tree)
    requires u.Node? && u.right.Node?
    ensures var y := Least(u.right);
      Plug(LeastPath(u.right, In(p, R, y.n, u.color, u.left)), y.right).InOrder()
        == p.Before() + u.left.InOrder() + u.right.InOrder() + p.After()
  {
    hide *;
    var y, rest := Least(u.right), WithoutLeast(u.right);
    LeastSplits(u.right, In(p, R, y.n, u.color, u.left));
    PlugRight(p, u.left, y.n, u.color, rest);
    PlugInOrder(p, Node(u.left, y.n, u.color, rest));
    assert p.Before() + (u.left.InOrder() + [y.n] + rest.InOrder()) + p.After()
        == p.Before() + u.left.InOrder() + ([y.n] + rest.InOrder()) + p.After();
  }

  lemma PlugRight(p: Path, l: Tree, n: RBNode, c: Color, r: Tree)
    ensures Plug(In(p, R, n, c, l), r) == Plug(p, Node(l, n, c, r))
    ensures Node(l, n, c, r).InOrder() == l.InOrder() + [n] + r.InOrder()
  {
  }

  lemma DropMiddle(b: seq<RBNode>, l: seq<RBNode>, m: RBNode, r: seq<RBNode>, a: seq<RBNode>)
    ensures var s, i := b + (l + [m] + r) + a, |b| + |l|;
      i < |s| && s[i] == m && s[..i] + s[i + 1..] == b + l + r + a
  {
    var s, i := b + (l + [m] + r) + a, |b| + |l|;
    assert s[..i] == b + l && s[i + 1..] == r + a;
  }

  lemma SpliceDrops(p: Path, u: Tree)
    requires u.Node?
    ensures var s, i, (q, x, _) := Plug(p, u).InOrder(), |p.Before()| + |u.left.InOrder()|, Splice(p, u);
      i < |s| && s[i] == u.n && Plug(q, x).InOrder() == s[..i] + s[i + 1..]
  {
    SpliceInOrder(p, u);
    PlugInOrder(p, u);
    DropMiddle(p.Before(), u.left.InOrder(), u.n, u.right.InOrder(), p.After());
  }

  lemma DroppedTree(t: Tree, r: Tree, i: nat)
    requires Ordered(t) && i < |t.InOrder()| && r.InOrder() == t.InOrder()[..i] + t.InOrder()[i + 1..]
    ensures Ordered(r) && t.InOrder()[i] in t.Nodes() && r.Nodes() == t.Nodes() - {t.InOrder()[i]}
    ensures r.Size() == t.Size() - 1
  {
    OrderedIffSorted(t);
    OrderedIffSorted(r);
    InOrderMembers(t);
    InOrderMembers(r);
    DroppedElements(t.InOrder(), i);
    assert t.InOrder()[i] in Elements(t.InOrder());
  }

  lemma SpliceOrdered(p: Path, u: Tree)
    requires u.Node? && Ordered(Plug(p, u))
    ensures var (q, x, _) := Splice(p, u);
      Ordered(Plug(q, x)) && Plug(q, x).Nodes() == Plug(p, u).Nodes() - {u.n} && u.n in Plug(p, u).Nodes()
  {
    hide *;
    var (q, x, _) := Splice(p, u);
    SpliceDrops(p, u);
    DroppedTree(Plug(p, u), Plug(q, x), |p.Before()| + |u.left.InOrder()|);
  }

  /** The two stages of removing a node with two children: its successor taken out, then put in its place. */
  lemma TwoChildrenOrdered(p: Path, u: Tree)
    requires u.Node? && u.left.Node? && u.right.Node? && Ordered(Plug(p, u))
    ensures var y, r := Least(u.right), WithoutLeast(u.right);
      var t1, t2 := Plug(p, Node(u.left, u.n, u.color, r)), Plug(p, Node(u.left, y.n, u.color, r));
      && Ordered(t1) && t1.Nodes() == Plug(p, u).Nodes() - {y.n}
      && Ordered(t2) && t2.Nodes() == Plug(p, u).Nodes() - {u.n}
      && y.n in Plug(p, u).Nodes() && u.n in Plug(p, u).Nodes() && y.n in u.right.Nodes()
  {
    var y, r := Least(u.right), WithoutLeast(u.right);
    var q := In(p, R, u.n, u.color, u.left);
    LeastSplits(u.right, q);
    SpliceOrdered(LeastPath(u.right, q), y);
    LeastSplits(u.right, In(p, R, y.n, u.color, u.left));
    SpliceOrdered(p, u);
    PlugNodes(LeastPath(u.right, Top), y);
    LeastSplits(u.right, Top);
  }

  lemma {:induction false} LeastParent(t: Tree, p: Path)
    requires t.Node?
    ensures LeastPath(t, p).Parent() == if t.left.Leaf? then p.Parent() else LeastPath(t, Top).Parent()
    ensures t.left.Node? ==> LeastPath(t, Top).In? && LeastPath(t, Top).n in t.Nodes()
    decreases t
  {
    if t.left.Node? {
      LeastParent(t.left, In(p, L, t.n, t.color, t.right));
      LeastParent(t.left, In(Top, L, t.n, t.color, t.right));
    }
  }

  lemma RemoveInOrder(t: Tree, price: int)
    requires Locate(t, price, Top).1.Node?
    ensures var s, i := t.InOrder(), Rank(t, price);
      i < |s| && s[i].price == price && RemoveNode(t, price).InOrder() == s[..i] + s[i + 1..]
  {
    var (p, u) := Locate(t, price, Top);
    LocateSplits(t, price, Top);
    SpliceDrops(p, u);
    var (q, x, c) := Splice(p, u);
    DelFixInOrder(q, x);
    assert RemoveNode(t, price).InOrder() == Plug(q, x).InOrder();
  }

  /** The hole a splice leaves: filled with a c-coloured node over x, it has the colours of the original. */
  lemma SpliceColors(p: Path, u: Tree, m: RBNode)
    requires u.Node?
    ensures var (q, x, c) := Splice(p, u);
      && (NoRedRed(Plug(p, u)) <==> NoRedRed(Plug(q, Node(Leaf, m, c, x))))
      && (Balanced(Plug(p, u)) <==> Balanced(Plug(q, Node(Leaf, m, c, x))))
      && (Plug(p, u).IsRed() <==> Plug(q, Node(Leaf, m, c, x)).IsRed())
  {
    var (q, x, c) := Splice(p, u);
    PlugColors(p, u);
    PlugColors(q, Node(Leaf, m, c, x));
    if u.left.Node? && u.right.Node? {
      var y := Least(u.right);
      var swapped := In(p, R, y.n, u.color, u.left);
      LeastSplits(u.right, swapped);
      PlugColors(p, Node(u.left, y.n, u.color, u.right));
      PlugColors(q, y);
    }
  }

  lemma RemoveColors(t: Tree, price: int)
    requires NoRedRed(t) && !t.IsRed() && Locate(t, price, Top).1.Node?
    ensures NoRedRed(RemoveNode(t, price)) && !RemoveNode(t, price).IsRed()
  {
    var (p, u) := Locate(t, price, Top);
    LocateSplits(t, price, Top);
    SpliceColors(p, u, u.n);
    var (q, x, c) := Splice(p, u);
    PlugColors(q, Node(Leaf, u.n, c, x));
    PlugColors(q, x);
    if c == Black && x.Node? {
      DelFixColors(q, x);
    }
  }

  /** Dropping one element of a sorted sequence leaves a sorted sequence of the others. */
  lemma DroppedElements(s: seq<RBNode>, i: nat)
    requires i < |s| && Sorted(s)
    ensures var r := s[..i] + s[i + 1..];
      Sorted(r) && Elements(r) == Elements(s) - {s[i]}
  {
    var r := s[..i] + s[i + 1..];
    assert forall k :: 0 <= k < |r| ==> r[k] == s[if k < i then k else k + 1];
    forall k | 0 <= k < |s| && k != i ensures s[k] in Elements(r) && s[k] != s[i] {
      assert r[if k < i then k else k - 1] == s[k];
      assert s[k].price != s[i].price;
    }
  }

  /** Removal takes out exactly the node of the price and keeps search order, colours and a black root,
      whether or not the tree is balanced. */
  lemma RemoveKeeps(t: Tree, price: int)
    requires SearchTree(t) && Locate(t, price, Top).1.Node?
    ensures var r, s, i := RemoveNode(t, price), t.InOrder(), Rank(t, price);
      && SearchTree(r)
      && i < |s| && s[i].price == price && r.InOrder() == s[..i] + s[i + 1..]
      && r.Nodes() == t.Nodes() - {s[i]} && r.Size() == t.Size() - 1
  {
    RemoveInOrder(t, price);
    RemoveColors(t, price);
    DroppedTree(t, RemoveNode(t, price), Rank(t, price));
  }

  /** Removing this price takes out a black node that has no child and is not the root. */
  ghost predicate TakesOutBlackLeaf(t: Tree, price: int) {
    var (p, u) := Locate(t, price, Top);
    u.Node? && var (q, x, c) := Splice(p, u); c == Black && x.Leaf? && q.In?
  }

  /** Equal black heights survive a removal exactly when no black leaf below the root is taken out:
      deleteFixup is handed a null pointer there, and does nothing. */
  lemma RemoveBalance(t: Tree, price: int)
    requires RedBlack(t) && Locate(t, price, Top).1.Node?
    ensures RedBlack(RemoveNode(t, price)) <==> !TakesOutBlackLeaf(t, price)
  {
    var (p, u) := Locate(t, price, Top);
    LocateSplits(t, price, Top);
    SpliceColors(p, u, u.n);
    var (q, x, c) := Splice(p, u);
    PlugColors(q, Node(Leaf, u.n, c, x));
    PlugColors(q, x);
    PlugColors(q, x.Blacken());
    assert BlackHeight(x) == 0;
    RemoveKeeps(t, price);
  }

  /** Apart from the node a removal takes out, black heights are equal, and where the loop runs, its subtree lacks
      just that node. */
  ghost predicate LacksOnlyTheRemoved(t: Tree, price: int) {
    var (p, u) := Locate(t, price, Top);
    u.Node? &&
    var (q, x, c) := Splice(p, u);
    Balanced(x) && BalancedPath(q, BlackHeight(x) + if c == Black && x.Node? then 1 else 0)
  }

  /** The same told of every tree a run can reach, balanced or not: a removal leaves, or restores, equal black
      heights exactly when nothing but the removed node was amiss. */
  lemma RemoveRestores(t: Tree, price: int)
    requires SearchTree(t) && Locate(t, price, Top).1.Node?
    ensures RedBlack(RemoveNode(t, price)) <==> LacksOnlyTheRemoved(t, price)
  {
    var (p, u) := Locate(t, price, Top);
    LocateSplits(t, price, Top);
    SpliceColors(p, u, u.n);
    var (q, x, c) := Splice(p, u);
    PlugColors(q, Node(Leaf, u.n, c, x));
    PlugColors(q, x);
    RemoveKeeps(t, price);
    if c == Black && x.Node? {
      DelFixBalance(q, x);
    }
  }

  lemma NodeParts(l: Tree, n: RBNode, c: Color, r: Tree)
    ensures var t := Node(l, n, c, r);
      && t.Nodes() == l.Nodes() + {n} + r.Nodes()
      && (Ordered(t) <==> Ordered(l) && Ordered(r) && OnSide(L, l.Nodes(), n) && OnSide(R, r.Nodes(), n))
      && (NoRedRed(t) <==> (c == Red ==> !l.IsRed() && !r.IsRed()) && NoRedRed(l) && NoRedRed(r))
      && Leaf.Nodes() == {} && Ordered(Leaf) && NoRedRed(Leaf)
  {
  }

  /** In a tree that is not balanced, the loop meets a red sibling with no child towards it: it raises the sibling,
      finds a null in its place, climbs past it and stops at the parent, which it turns black. */
  lemma NullSiblingClimbs(n1: RBNode, n2: RBNode, n6: RBNode, n8: RBNode)
    requires n1.price == 1 && n2.price == 2 && n6.price == 6 && n8.price == 8
    ensures var one := Node(Leaf, n1, Black, Leaf);
      var t := Node(Node(one, n2, Black, Leaf), n6, Black, Node(Leaf, n8, Red, Leaf));
      SearchTree(t) && Locate(t, 2, Top).1.Node? && RemoveNode(t, 2) == Node(Node(one, n6, Black, Leaf), n8, Black, Leaf)
  {
    var one, eight := Node(Leaf, n1, Black, Leaf), Node(Leaf, n8, Red, Leaf);
    var two := Node(one, n2, Black, Leaf);
    NodeParts(Leaf, n1, Black, Leaf);
    NodeParts(Leaf, n8, Red, Leaf);
    NodeParts(one, n2, Black, Leaf);
    NodeParts(two, n6, Black, eight);
    var t, q := Node(two, n6, Black, eight), In(Top, L, n6, Black, eight);
    assert SearchTree(t);
    assert Locate(t, 2, Top) == Locate(two, 2, q) == (q, two) && Splice(q, two) == (q, one, Black);
    var up, low := In(Top, L, n8, Black, Leaf), Node(one, n6, Red, Leaf);
    assert RaiseSibling(q) == In(up, L, n6, Red, Leaf);
    assert DelFix(q, one) == DelStep(RaiseSibling(q), one) == DelFix(up, low);
    assert DelFix(up, low) == Plug(up, low.Blacken()) == Plug(Top, Node(low.Blacken(), n8, Black, Leaf));
  }

  /** And a black sibling whose far child is null: it is not straightened, and once lifted has nothing beyond it. */
  lemma NullFarChild(n1: RBNode, n2: RBNode, n5: RBNode, n6: RBNode, n9: RBNode)
    requires n1.price == 1 && n2.price == 2 && n5.price == 5 && n6.price == 6 && n9.price == 9
    ensures var one, six := Node(Leaf, n1, Black, Leaf), Node(Leaf, n6, Red, Leaf);
      var t := Node(Node(one, n2, Black, Leaf), n5, Black, Node(six, n9, Black, Leaf));
      SearchTree(t) && Locate(t, 2, Top).1.Node? && RemoveNode(t, 2) == Node(Node(one, n5, Black, six), n9, Black, Leaf)
  {
    var one, six := Node(Leaf, n1, Black, Leaf), Node(Leaf, n6, Red, Leaf);
    var two, nine := Node(one, n2, Black, Leaf), Node(six, n9, Black, Leaf);
    NodeParts(Leaf, n1, Black, Leaf);
    NodeParts(Leaf, n6, Red, Leaf);
    NodeParts(one, n2, Black, Leaf);
    NodeParts(six, n9, Black, Leaf);
    NodeParts(two, n5, Black, nine);
    var t, q := Node(two, n5, Black, nine), In(Top, L, n5, Black, nine);
    assert SearchTree(t);
    assert Locate(t, 2, Top) == Locate(two, 2, q) == (q, two) && Splice(q, two) == (q, one, Black);
    assert DelFix(q, one) == DelStep(q, one) == Plug(Top, LiftSibling(q, one)).Blacken();
  }

  // ---------- height ----------

  ghost function Height(t: Tree): nat {
    if t.Leaf? then 0 else 1 + if Height(t.left) > Height(t.right) then Height(t.left) else Height(t.right)
  }

  ghost function Pow2(n: nat): nat {
    if n == 0 then 1 else 2 * Pow2(n - 1)
  }

  lemma {:induction false} Pow2Monotone(m: nat, n: nat)
    requires m <= n
    ensures 0 < Pow2(m) <= Pow2(n)
    decreases n
  {
    if m < n {
      Pow2Monotone(m, n - 1);
    } else if 0 < n {
      Pow2Monotone(m - 1, n - 1);
    }
  }

  lemma {:induction false} HeightBounds(t: Tree)
    requires NoRedRed(t) && Balanced(t)
    ensures Height(t) <= 2 * BlackHeight(t) + (if t.IsRed() then 1 else 0)
    ensures Pow2(BlackHeight(t)) <= t.Size() + 1
  {
    if t.Node? {
      HeightBounds(t.left);
      HeightBounds(t.right);
    }
  }

  /** The height of a red-black tree is logarithmic in its size. */
  lemma RedBlackHeight(t: Tree)
    requires RedBlack(t)
    ensures Pow2(Height(t) / 2) <= t.Size() + 1
  {
    HeightBounds(t);
    Pow2Monotone(Height(t) / 2, BlackHeight(t));
  }

  // ---------- whole runs ----------

  datatype Op = Insert(z: RBNode) | Remove(price: int)

  ghost function Step(t: Tree, op: Op): Tree {
    match op
    case Insert(z) => if Locate(t, z.price, Top).1.Node? then t else InsertNode(t, z)
    case Remove(price) => if Locate(t, price, Top).1.Node? then RemoveNode(t, price) else t
  }

  ghost function Run(t: Tree, ops: seq<Op>): Tree
    decreases |ops|
  {
    if ops == [] then t else Run(Step(t, ops[0]), ops[1..])
  }

  ghost function Prices(t: Tree): set<int> {
    set m | m in t.Nodes() :: m.price
  }

  /** The run on plain sets of prices. */
  ghost function RunSet(s: set<int>, ops: seq<Op>): set<int>
    decreases |ops|
  {
    if ops == [] then s
    else RunSet(match ops[0] { case Insert(z) => s + {z.price} case Remove(price) => s - {price} }, ops[1..])
  }

  lemma LocateFinds(t: Tree, price: int)
    requires Ordered(t)
    ensures price in Prices(t) <==> Locate(t, price, Top).1.Node?
  {
    var (p, u) := Locate(t, price, Top);
    LocateSplits(t, price, Top);
    if u.Node? {
      PlugNodes(p, u);
      assert u.n in t.Nodes() && u.n.price == price;
    } else if m: RBNode :| m in t.Nodes() && m.price == price {
      LocateAbsent(t, price, Top, m);
    }
  }

  lemma StepKeeps(t: Tree, op: Op)
    requires SearchTree(t)
    ensures SearchTree(Step(t, op))
    ensures Prices(Step(t, op)) == RunSet(Prices(t), [op])
    ensures op.Insert? && RedBlack(t) ==> RedBlack(Step(t, op))
  {
    var r := Step(t, op);
    assert RunSet(Prices(t), [op]) == match op { case Insert(z) => Prices(t) + {z.price} case Remove(k) => Prices(t) - {k} };
    match op {
      case Insert(z) =>
        LocateFinds(t, z.price);
        if Locate(t, z.price, Top).1.Leaf? {
          InsertKeeps(t, z);
        }
      case Remove(k) =>
        LocateFinds(t, k);
        if Locate(t, k, Top).1.Node? {
          RemoveKeeps(t, k);
          RemovePrices(t, k);
        }
    }
  }

  ghost predicate Avoids(s: set<RBNode>, price: int) {
    forall m :: m in s ==> m.price != price
  }

  lemma OthersAvoid(s: seq<RBNode>, i: nat)
    requires i < |s| && Sorted(s)
    ensures Avoids(Elements(s) - {s[i]}, s[i].price)
  {
    forall k | 0 <= k < |s| && s[k] != s[i] ensures s[k].price != s[i].price {
    }
  }

  lemma RemovePrices(t: Tree, price: int)
    requires SearchTree(t) && Locate(t, price, Top).1.Node?
    ensures Prices(RemoveNode(t, price)) == Prices(t) - {price}
  {
    hide *;
    RemoveKeeps(t, price);
    SearchOrder(t);
    OrderedIffSorted(t);
    InOrderMembers(t);
    OthersAvoid(t.InOrder(), Rank(t, price));
    PricesLess(t, RemoveNode(t, price), t.InOrder()[Rank(t, price)]);
  }

  lemma SearchOrder(t: Tree)
    requires SearchTree(t)
    ensures Ordered(t)
  {
  }

  lemma PricesLess(t: Tree, r: Tree, m: RBNode)
    requires r.Nodes() == t.Nodes() - {m} && Avoids(t.Nodes() - {m}, m.price)
    ensures Prices(r) == Prices(t) - {m.price}
  {
    hide Tree.Nodes;
  }

  /** Over any mix of inserts and removes, from the empty tree: the prices held are those of the same
      operations on a set, and search order, no-red-red and black root always hold. With inserts alone
      the tree is red-black throughout, hence of logarithmic height. */
  lemma {:induction false} RunKeeps(t: Tree, ops: seq<Op>)
    requires SearchTree(t)
    ensures SearchTree(Run(t, ops)) && Prices(Run(t, ops)) == RunSet(Prices(t), ops)
    ensures RedBlack(t) && (forall op :: op in ops ==> op.Insert?) ==>
      RedBlack(Run(t, ops)) && Pow2(Height(Run(t, ops)) / 2) <= Run(t, ops).Size() + 1
    decreases |ops|
  {
    if ops != [] {
      StepKeeps(t, ops[0]);
      RunKeeps(Step(t, ops[0]), ops[1..]);
    } else if RedBlack(t) {
      RedBlackHeight(t);
    }
  }

  /** Four inserts and two removes after which black heights differ. */
  lemma UnbalancedRun(a: RBNode, b: RBNode, c: RBNode, d: RBNode)
    requires a.price == 1 && b.price == 2 && c.price == 3 && d.price == 4
    ensures !Balanced(Run(Leaf, [Insert(a), Insert(b), Insert(c), Insert(d), Remove(4), Remove(1)]))
  {
    var la, lb, lc, ld := Node(Leaf, a, Black, Leaf), Node(Leaf, b, Red, Leaf), Node(Leaf, c, Red, Leaf), Node(Leaf, d, Red, Leaf);
    var t2 := Node(Leaf, a, Black, lb);
    var t3 := Node(Node(Leaf, a, Red, Leaf), b, Black, lc);
    var t4 := Node(la, b, Black, Node(Leaf, c, Black, ld));
    var t5 := Node(la, b, Black, Node(Leaf, c, Black, Leaf));
    assert Step(Leaf, Insert(a)) == la;
    var q2 := In(Top, R, a, Black, Leaf);
    assert Locate(la, 2, Top) == Locate(Leaf, 2, q2) && InsFix(q2, lb) == Plug(q2, lb) == t2;
    var q3 := In(q2, R, b, Red, Leaf);
    assert Locate(t2, 3, Top) == Locate(lb, 3, q2) == Locate(Leaf, 3, q3) && InsFix(q3, lc) == t3;
    var q4 := In(Top, R, b, Black, t3.left);
    var q4c := In(q4, R, c, Red, Leaf);
    assert Locate(t3, 4, Top) == Locate(lc, 4, q4) == Locate(Leaf, 4, q4c) && InsFix(q4c, ld).Blacken() == t4;
    var q5 := In(Top, R, b, Black, la);
    var q5c := In(q5, R, c, Black, Leaf);
    assert Locate(t4, 4, Top) == Locate(t4.right, 4, q5) == Locate(ld, 4, q5c) == (q5c, ld);
    assert Splice(q5c, ld) == (q5c, Leaf, Red) && Plug(q5c, Leaf) == Plug(q5, t5.right) == t5;
    assert RemoveNode(t4, 4) == t5;
    var q6 := In(Top, L, b, Black, t5.right);
    assert Locate(t5, 1, Top) == Locate(la, 1, q6) == (q6, la) && Splice(q6, la) == (q6, Leaf, Black);
    assert DelFix(q6, Leaf) == Plug(q6, Leaf) == Plug(Top, Node(Leaf, b, Black, t5.right));
    assert RemoveNode(t5, 1) == Node(Leaf, b, Black, t5.right);
    var ops := [Insert(a), Insert(b), Insert(c), Insert(d), Remove(4), Remove(1)];
    forall i | 0 <= i < 6 ensures ops[i..][0] == ops[i] && ops[i..][1..] == ops[i + 1..] {
    }
    assert Run(t5, ops[5..]) == Run(Step(t5, ops[5]), ops[6..]);
    assert Run(t4, ops[4..]) == Run(t5, ops[5..]);
    assert Run(t3, ops[3..]) == Run(t4, ops[4..]);
    assert Run(t2, ops[2..]) == Run(t3, ops[3..]);
    assert Run(la, ops[1..]) == Run(t2, ops[2..]);
    assert Run(Leaf, ops) == Run(la, ops[1..]);
  }
}
