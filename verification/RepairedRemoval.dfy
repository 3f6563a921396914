/** Removal from the price tree with one reading repaired: a null child counts as a black node. The fixup then
    runs from a null pointer too, and turns a sibling whose far child is null; all else is as in the code. */
module RepairedRemoval {
  import opened PriceTrees
  import opened RedBlackModel

  /** The repaired loop, from a subtree t that is one black node short. */
  ghost function Mend(p: Path, t: Tree): Tree
    decreases p.Length(), if t.IsRed() then 0 else 1, 1
  {
    if t.IsRed() then Plug(p, t.Blacken())
    else if p.Top? then t
    else if p.sib.IsRed() then MendStep(RaiseSibling(p), t)
    else MendStep(p, t)
  }

  ghost function MendStep(p: Path, t: Tree): Tree
    requires p.In?
    decreases p.up.Length(), if p.color == Red then 0 else 1, 2
  {
    var w := p.sib;
    if w.Leaf? then Mend(p.up, Mk(p.d, t, p.n, p.color, Leaf))
    else if !w.left.IsRed() && !w.right.IsRed() then Mend(p.up, Mk(p.d, t, p.n, p.color, w.(color := Red)))
    else Plug(p.up, Lift(p, t)).Blacken()
  }

  /** The sibling after its red near child was rotated above it, unless the far child is red. */
  ghost function Straight(d: Dir, w: Tree): Tree
    requires w.Node?
  {
    var near, far := w.Child(d), w.Child(d.Flip());
    if !far.IsRed() && near.Node? then Mk(d, near.Child(d), near.n, Black, Mk(d, near.Child(d.Flip()), w.n, Red, far))
    else w
  }

  ghost function Lift(p: Path, t: Tree): Tree
    requires p.In? && p.sib.Node?
  {
    var w := Straight(p.d, p.sib);
    Mk(p.d, Mk(p.d, t, p.n, Black, w.Child(p.d)), w.n, p.color, w.Child(p.d.Flip()).Blacken())
  }

  ghost function RemoveMended(t: Tree, price: int): Tree
    requires Locate(t, price, Top).1.Node?
  {
    var (p, u) := Locate(t, price, Top);
    var (q, x, c) := Splice(p, u);
    if c == Black then Mend(q, x) else Plug(q, x)
  }

  // ---------- the walk stays as it is ----------

  lemma {:induction false} MendInOrder(p: Path, t: Tree)
    ensures Mend(p, t).InOrder() == Plug(p, t).InOrder()
    decreases p.Length(), if t.IsRed() then 0 else 1, 1
  {
    if t.IsRed() {
      PlugInOrder(p, t);
      PlugInOrder(p, t.Blacken());
    } else if p.Top? {
    } else if p.sib.IsRed() {
      MendStepInOrder(RaiseSibling(p), t);
      var below := Mk(p.d, t, p.n, Red, p.sib.(color := Black));
      RaiseRotates(p, t);
      RotateKeeps(p.d, below);
      PlugInOrder(p.up, Mk(p.d, t, p.n, p.color, p.sib));
      PlugInOrder(p.up, Rotate(p.d, below));
    } else {
      MendStepInOrder(p, t);
    }
  }

  lemma {:induction false} MendStepInOrder(p: Path, t: Tree)
    requires p.In?
    ensures MendStep(p, t).InOrder() == Plug(p, t).InOrder()
    decreases p.up.Length(), if p.color == Red then 0 else 1, 2
  {
    var w := p.sib;
    var was := Mk(p.d, t, p.n, p.color, w);
    PlugInOrder(p.up, was);
    if w.Leaf? {
      MendInOrder(p.up, was);
    } else if !w.left.IsRed() && !w.right.IsRed() {
      var now := Mk(p.d, t, p.n, p.color, w.(color := Red));
      MendInOrder(p.up, now);
      PlugInOrder(p.up, now);
    } else {
      LiftKeepsOrder(p, t);
      PlugInOrder(p.up, Lift(p, t));
    }
  }

  lemma LiftKeepsOrder(p: Path, t: Tree)
    requires p.In? && p.sib.Node?
    ensures Lift(p, t).InOrder() == Mk(p.d, t, p.n, p.color, p.sib).InOrder()
  {
    var w := Straight(p.d, p.sib);
    if w != p.sib {
      RotateKeeps(p.d.Flip(), p.sib);
    }
    assert w.InOrder() == p.sib.InOrder();
    RotateKeeps(p.d, Mk(p.d, t, p.n, p.color, w));
  }

  // ---------- colours and black heights ----------

  ghost predicate Mended(t: Tree) {
    NoRedRed(t) && !t.IsRed() && Balanced(t)
  }

  lemma {:induction false} MendMends(p: Path, t: Tree)
    requires Short(p, t)
    ensures Mended(Mend(p, t))
    decreases p.Length(), if t.IsRed() then 0 else 1, 1
  {
    if t.IsRed() {
      PlugColors(p, t.Blacken());
    } else if p.Top? {
    } else if p.sib.IsRed() {
      MendStepMends(RaiseSibling(p), t);
    } else {
      MendStepMends(p, t);
    }
  }

  lemma {:induction false} MendStepMends(p: Path, t: Tree)
    requires p.In? && !p.sib.IsRed() && !t.IsRed() && Short(p, t)
    ensures Mended(MendStep(p, t))
    decreases p.up.Length(), if p.color == Red then 0 else 1, 2
  {
    var w := p.sib;
    if !w.left.IsRed() && !w.right.IsRed() {
      MendMends(p.up, Mk(p.d, t, p.n, p.color, w.(color := Red)));
    } else {
      LiftMends(p, t);
      PlugColors(p.up, Lift(p, t));
    }
  }

  /** Lifting the sibling gives the subtree the black node it lacked. */
  lemma LiftMends(p: Path, t: Tree)
    requires p.In? && p.sib.Node? && p.sib.color == Black && (p.sib.left.IsRed() || p.sib.right.IsRed())
    requires NoRedRed(t) && !t.IsRed() && NoRedRed(p.sib)
    requires Balanced(t) && Balanced(p.sib) && BlackHeight(p.sib) == BlackHeight(t) + 1
    ensures NoRedRed(Lift(p, t)) && (Lift(p, t).IsRed() <==> p.color == Red)
    ensures Balanced(Lift(p, t)) && BlackHeight(Lift(p, t)) == BlackHeight(t) + 1 + if p.color == Black then 1 else 0
  {
    var w := Straight(p.d, p.sib);
    var near, far := w.Child(p.d), w.Child(p.d.Flip());
    assert NoRedRed(near) && NoRedRed(far.Blacken()) && far.IsRed();
    assert Balanced(near) && Balanced(far) && BlackHeight(near) == BlackHeight(t) == BlackHeight(far);
    assert NoRedRed(Mk(p.d, t, p.n, Black, near));
  }

  lemma RemoveMendedInOrder(t: Tree, price: int)
    requires Locate(t, price, Top).1.Node?
    ensures var s, i := t.InOrder(), Rank(t, price);
      i < |s| && s[i].price == price && RemoveMended(t, price).InOrder() == s[..i] + s[i + 1..]
  {
    var (p, u) := Locate(t, price, Top);
    LocateSplits(t, price, Top);
    SpliceDrops(p, u);
    var (q, x, c) := Splice(p, u);
    MendInOrder(q, x);
  }

  lemma RemoveMends(t: Tree, price: int)
    requires RedBlack(t) && Locate(t, price, Top).1.Node?
    ensures Mended(RemoveMended(t, price))
    ensures !TakesOutBlackLeaf(t, price) ==> RemoveMended(t, price) == RemoveNode(t, price)
  {
    var (p, u) := Locate(t, price, Top);
    LocateSplits(t, price, Top);
    SpliceColors(p, u, u.n);
    var (q, x, c) := Splice(p, u);
    PlugColors(q, Node(Leaf, u.n, c, x));
    PlugColors(q, x);
    assert BlackHeight(x) == 0;
    if c == Black {
      MendMends(q, x);
    }
  }

  /** The repaired removal takes out exactly the node of the price and keeps the red-black invariant in full, for
      every tree and price; where the code keeps equal black heights, it does just what the code does. */
  lemma RemoveMendedKeeps(t: Tree, price: int)
    requires RedBlack(t) && Locate(t, price, Top).1.Node?
    ensures var r, s, i := RemoveMended(t, price), t.InOrder(), Rank(t, price);
      && RedBlack(r)
      && i < |s| && s[i].price == price && r.InOrder() == s[..i] + s[i + 1..]
      && r.Nodes() == t.Nodes() - {s[i]} && r.Size() == t.Size() - 1
    ensures RemoveMended(t, price) == RemoveNode(t, price) <==> RedBlack(RemoveNode(t, price))
  {
    RemoveMendedInOrder(t, price);
    RemoveMends(t, price);
    DroppedTree(t, RemoveMended(t, price), Rank(t, price));
    RemoveBalance(t, price);
  }

  // ---------- whole runs ----------

  ghost function StepMended(t: Tree, op: Op): Tree {
    match op
    case Insert(z) => Step(t, op)
    case Remove(price) => if Locate(t, price, Top).1.Node? then RemoveMended(t, price) else t
  }

  ghost function RunMended(t: Tree, ops: seq<Op>): Tree
    decreases |ops|
  {
    if ops == [] then t else RunMended(StepMended(t, ops[0]), ops[1..])
  }

  lemma StepMendedKeeps(t: Tree, op: Op)
    requires RedBlack(t)
    ensures RedBlack(StepMended(t, op)) && Prices(StepMended(t, op)) == RunSet(Prices(t), [op])
  {
    StepKeeps(t, op);
    if op.Remove? && Locate(t, op.price, Top).1.Node? {
      RemoveMendedKeeps(t, op.price);
      RemoveKeeps(t, op.price);
      assert RemoveMended(t, op.price).Nodes() == RemoveNode(t, op.price).Nodes();
    }
  }

  /** With the repair, every run of insertions and removals keeps the red-black invariant in full, and with it a
      height logarithmic in the number of prices. */
  lemma {:induction false} RunMendedKeeps(t: Tree, ops: seq<Op>)
    requires RedBlack(t)
    ensures RedBlack(RunMended(t, ops)) && Prices(RunMended(t, ops)) == RunSet(Prices(t), ops)
    ensures Pow2(Height(RunMended(t, ops)) / 2) <= RunMended(t, ops).Size() + 1
    decreases |ops|
  {
    if ops != [] {
      StepMendedKeeps(t, ops[0]);
      RunMendedKeeps(StepMended(t, ops[0]), ops[1..]);
    } else {
      RedBlackHeight(t);
    }
  }
}
