/** One side of the book in memory: what OrderBook.cpp does to one price tree and its queues. */
module BookSides {
  import opened Orders
  import opened OrderQueues
  import opened PriceTrees
  import opened RedBlackModel
  import opened RedBlackTrees
  import opened Matching
  import opened Shelves

  lemma SamePrice(t: Tree, a: RBNode, b: RBNode)
    requires Ordered(t) && a in t.Nodes() && b in t.Nodes() && a.price == b.price
    ensures a == b
  {
    OrderedIffSorted(t);
    InOrderMembers(t);
    var s := t.InOrder();
    assert a in Elements(s) && b in Elements(s);
    var i :| 0 <= i < |s| && s[i] == a;
    var j :| 0 <= j < |s| && s[j] == b;
    assert i < j || j < i || i == j;
  }

  /** Each shelf's node is in the tree, and found under its price. */
  lemma NodeOfShelf(tree: RedBlackTree, side: Side, shelves: seq<Shelf>, k: nat)
    requires TreeOf(tree, side, shelves) && k < |shelves|
    ensures shelves[k].n in tree.tree.Nodes() && Locate(tree.tree, shelves[k].n.price, Top).1.Node?
    ensures forall n :: n in tree.tree.Nodes() && n.price == shelves[k].n.price ==> n == shelves[k].n
  {
    var s := tree.tree.InOrder();
    InOrderMembers(tree.tree);
    ReverseLength(s);
    BestFirstAt(side, s, k);
    assert shelves[k].n in Elements(s);
    LocateFinds(tree.tree, shelves[k].n.price);
    forall n | n in tree.tree.Nodes() && n.price == shelves[k].n.price ensures n == shelves[k].n {
      SamePrice(tree.tree, n, shelves[k].n);
    }
  }

  lemma SameIndex(side: Side, b: seq<RBNode>, j: nat, k: nat)
    requires j < |b| && k < |b| && b[j].price == b[k].price
    requires forall x, y :: 0 <= x < y < |b| ==> Better(side, b[x].price, b[y].price)
    ensures j == k
  {
  }

  /** The ladder nodes after the node of shelf k was removed from the tree. */
  lemma NodesWithout(t: Tree, side: Side, shelves: seq<Shelf>, k: nat)
    requires SearchTree(t) && NodesOf(shelves) == BestFirst(side, t.InOrder()) && k < |shelves|
    requires Locate(t, shelves[k].n.price, Top).1.Node?
    ensures NodesOf(shelves)[..k] + NodesOf(shelves)[k + 1..] == BestFirst(side, RemoveNode(t, shelves[k].n.price).InOrder())
  {
    hide NodesOf, BestFirst, Better, Ordered, Sorted, Tree.InOrder, RemoveNode, Locate, Rank;
    var s, i := t.InOrder(), Rank(t, shelves[k].n.price);
    RemoveKeeps(t, shelves[k].n.price);
    SearchSorted(t);
    BestFirstDrop(side, s, i);
    BestFirstSorted(side, s);
    SameIndex(side, BestFirst(side, s), if side.Sell? then i else |s| - 1 - i, k);
  }

  /** The node of a shelf leaves the tree. */
  method RemoveNodeOf(tree: RedBlackTree, node: RBNode, ghost side: Side, ghost shelves: seq<Shelf>, ghost k: nat)
    requires k < |shelves| && shelves[k].n == node && TreeOf(tree, side, shelves)
    modifies tree`root, tree`nodeCount, tree`tree
    modifies tree.tree.Nodes()`left, tree.tree.Nodes()`right, tree.tree.Nodes()`parent, tree.tree.Nodes()`color
    ensures tree.Valid() && NodesOf(shelves)[..k] + NodesOf(shelves)[k + 1..] == BestFirst(side, tree.tree.InOrder())
  {
    NodeOfShelf(tree, side, shelves, k);
    NodesWithout(tree.tree, side, shelves, k);
    tree.Remove(node.price);
  }

  /** The shelves without shelf k, if that is empty. */
  ghost function Kept(shelves: seq<Shelf>, k: nat): seq<Shelf>
    requires k < |shelves|
  {
    if shelves[k].orders == [] then shelves[..k] + shelves[k + 1..] else shelves
  }

  /** An emptied level leaves the tree. */
  method DropLevel(tree: RedBlackTree, node: RBNode, ghost side: Side, ghost shelves: seq<Shelf>, ghost k: nat)
    requires k < |shelves| && shelves[k].n == node && TreeOf(tree, side, shelves) && ShelvesBut(side, shelves, k)
    modifies tree`root, tree`nodeCount, tree`tree, node`queue
    modifies tree.tree.Nodes()`left, tree.tree.Nodes()`right, tree.tree.Nodes()`parent, tree.tree.Nodes()`color
    ensures var s' := shelves[..k] + shelves[k + 1..];
      && TreeOf(tree, side, s') && ShelvesOK(side, s')
      && LadderOf(s') == old(LadderOf(shelves))[..k] + old(LadderOf(shelves))[k + 1..]
  {
    hide *;
    ShelvesDrop(side, shelves, k);
    NodesDrop(shelves, k);
    LadderDrop(shelves, k);
    ghost var s' := shelves[..k] + shelves[k + 1..];
    assert ShelvesOK(side, s') && node !in ShelfNodes(s');
    node.queue := null;
    assert allocated(ShelfNodes(s')) && allocated(ShelfQueues(s')) && allocated(ShelfOrders(s'));
    RemoveNodeOf(tree, node, side, shelves, k);
    TreeAgain(tree, side, s');
  }

  lemma TreeAgain(tree: RedBlackTree, side: Side, shelves: seq<Shelf>)
    requires tree.Valid() && NodesOf(shelves) == BestFirst(side, tree.tree.InOrder())
    ensures TreeOf(tree, side, shelves)
  {
  }

  /** Shelf k is that of the price, or there is none and k is past the last. */
  ghost predicate ShelfAt(side: Side, shelves: seq<Shelf>, price: int, k: nat)
    reads ShelfNodes(shelves), ShelfQueues(shelves), ShelfOrders(shelves)
  {
    if k < |shelves| then shelves[k].n.price == price && ShelvesBut(side, shelves, k)
    else k == |shelves| && ShelvesOK(side, shelves) && forall n :: n in ShelfNodes(shelves) ==> n.price != price
  }

  lemma ShelfAtIs(side: Side, shelves: seq<Shelf>, price: int, k: nat)
    ensures k < |shelves| && shelves[k].n.price == price && ShelvesBut(side, shelves, k) ==> ShelfAt(side, shelves, price, k)
    ensures ShelfAt(side, shelves, price, k) && k < |shelves| ==> shelves[k].n.price == price && ShelvesBut(side, shelves, k)
    ensures ShelfAt(side, shelves, price, k) && k >= |shelves| ==>
      k == |shelves| && ShelvesOK(side, shelves) && forall n :: n in ShelfNodes(shelves) ==> n.price != price
  {
    hide ShelvesBut, ShelvesOK, ShelfNodes;
  }

  method FindShelf(tree: RedBlackTree, price: int, ghost side: Side, ghost shelves: seq<Shelf>, ghost k: nat)
    returns (node: RBNode?)
    requires TreeOf(tree, side, shelves) && ShelfAt(side, shelves, price, k)
    ensures TreeOf(tree, side, shelves) && ShelfAt(side, shelves, price, k)
    ensures if k < |shelves| then node == shelves[k].n else node == null
    ensures LadderOf(shelves) == old(LadderOf(shelves))
  {
    hide *;
    ShelfAtIs(side, shelves, price, k);
    if k < |shelves| {
      NodeOfShelf(tree, side, shelves, k);
    }
    TreeValid(tree, side, shelves);
    TreeNodes(tree, side, shelves);
    RootOfLeaf(Locate(tree.tree, price, Top).1);
    assert allocated(tree.tree.Nodes());
    assert allocated(ShelfNodes(shelves)) && allocated(ShelfQueues(shelves)) && allocated(ShelfOrders(shelves));
    node := tree.Find(price);
  }

  method ChangeCounters(node: RBNode, quantityDelta: int, orderCountDelta: int,
                        ghost tree: RedBlackTree, ghost side: Side, ghost shelves: seq<Shelf>, ghost k: nat)
    requires k < |shelves| && shelves[k].n == node && TreeOf(tree, side, shelves) && ShelvesBut(side, shelves, k)
    modifies node`totalQuantity, node`orderCount
    ensures TreeOf(tree, side, shelves) && ShelvesBut(side, shelves, k)
    ensures LadderOf(shelves) == old(LadderOf(shelves))[k := UpdateLevel(old(LevelOf(shelves[k])), quantityDelta, orderCountDelta)]
    ensures node.orderCount == UpdateLevel(old(LevelOf(shelves[k])), quantityDelta, orderCountDelta).count
    ensures node.orderCount == (old(node.orderCount) + orderCountDelta) % TWO_32
  {
    hide LadderOf, States, TreeOf, ShelvesBut, ShelfOK;
    ShelvesApart(side, shelves, k);
    node.totalQuantity := Wrap64(node.totalQuantity + quantityDelta);
    node.orderCount := (node.orderCount + orderCountDelta) % TWO_32;
  }

  /** The counters of the level of a price change, and an emptied level disappears; where the price has no level,
      nothing happens. */
  method UpdatePriceLevel(tree: RedBlackTree, price: int, quantityDelta: int, orderCountDelta: int,
                          ghost side: Side, ghost shelves: seq<Shelf>, ghost k: nat)
    requires TreeOf(tree, side, shelves) && ShelfAt(side, shelves, price, k)
    requires k < |shelves| ==> ((shelves[k].n.orderCount + orderCountDelta) % TWO_32 == 0 <==> shelves[k].orders == [])
    modifies tree`root, tree`nodeCount, tree`tree
    modifies tree.tree.Nodes()`left, tree.tree.Nodes()`right, tree.tree.Nodes()`parent, tree.tree.Nodes()`color
    modifies (if k < |shelves| then {shelves[k].n} else {})`totalQuantity, (if k < |shelves| then {shelves[k].n} else {})`orderCount
    modifies (if k < |shelves| then {shelves[k].n} else {})`queue
    ensures k < |shelves| ==>
      var s' := Kept(shelves, k);
      && TreeOf(tree, side, s') && ShelvesOK(side, s')
      && LadderOf(s') == SetLevel(old(LadderOf(shelves)), k, UpdateLevel(old(LevelOf(shelves[k])), quantityDelta, orderCountDelta))
    ensures k == |shelves| ==>
      tree.tree == old(tree.tree) && TreeOf(tree, side, shelves) && ShelvesOK(side, shelves) && LadderOf(shelves) == old(LadderOf(shelves))
  {
    hide TreeOf, ShelvesOK, ShelvesBut, ShelfAt, LadderOf, LevelOf, NodesOf, UpdateLevel;
    ShelfAtIs(side, shelves, price, k);
    var node := FindShelf(tree, price, side, shelves, k);
    ShelfAtIs(side, shelves, price, k);
    if node == null {
      return;
    }
    ChangeCounters(node, quantityDelta, orderCountDelta, tree, side, shelves, k);
    if node.orderCount == 0 {
      DropLevel(tree, node, side, shelves, k);
    } else {
      ShelvesFull(side, shelves, k);
    }
  }

  // ---------- one level in focus ----------

  /** All shelves but shelf k. */
  ghost function Others(shelves: seq<Shelf>, k: nat): (r: seq<Shelf>)
    requires k < |shelves|
    ensures |r| == |shelves| - 1
  {
    shelves[..k] + shelves[k + 1..]
  }

  /** Everything about the shelves but what shelf k holds. */
  ghost predicate Elsewhere(tree: RedBlackTree, side: Side, shelves: seq<Shelf>, k: nat)
    requires k < |shelves|
    reads tree`root, tree`nodeCount, tree`tree
    reads tree.tree.Nodes()`left, tree.tree.Nodes()`right, tree.tree.Nodes()`parent, tree.tree.Nodes()`color
    reads ShelfNodes(Others(shelves, k))`queue, ShelfQueues(Others(shelves, k))`contents, ShelfQueues(Others(shelves, k))`head,
          ShelfQueues(Others(shelves, k))`tail, ShelfQueues(Others(shelves, k))`orderCount, ShelfQueues(Others(shelves, k))`orderMap
    reads ShelfOrders(Others(shelves, k))`prev, ShelfOrders(Others(shelves, k))`next, ShelfOrders(Others(shelves, k))`orderId,
          ShelfOrders(Others(shelves, k))`side, ShelfOrders(Others(shelves, k))`price
  {
    && TreeOf(tree, side, shelves) && ShelvesOK(side, Others(shelves, k))
    && shelves[k].n !in ShelfNodes(Others(shelves, k)) && shelves[k].q !in ShelfQueues(Others(shelves, k))
  }

  lemma OrdersApart(tree: RedBlackTree, side: Side, shelves: seq<Shelf>, k: nat)
    requires k < |shelves| && TreeOf(tree, side, shelves) && ShelvesBut(side, shelves, k)
    ensures OrdersOn(shelves[k]) !! ShelfOrders(Others(shelves, k))
  {
    OrderedIffSorted(tree.tree);
    BestFirstSorted(side, tree.tree.InOrder());
    forall o | o in OrdersOn(shelves[k]) && o in ShelfOrders(Others(shelves, k)) ensures false {
      var s :| s in Others(shelves, k) && o in s.orders;
      var j :| 0 <= j < |shelves| && j != k && shelves[j] == s;
      assert ShelfOK(side, shelves[j]) && ShelfOK(side, shelves[k]);
      assert shelves[j].n.price == shelves[k].n.price;
      SameIndex(side, NodesOf(shelves), j, k);
    }
  }

  /** Nothing of shelf k is shared with the other shelves. */
  lemma Focus(tree: RedBlackTree, side: Side, shelves: seq<Shelf>, k: nat)
    requires k < |shelves| && TreeOf(tree, side, shelves) && ShelvesBut(side, shelves, k)
    ensures var r, s := Others(shelves, k), shelves[k];
      && Elsewhere(tree, side, shelves, k) && ShelfOK(side, s) && OrdersOn(s) !! ShelfOrders(r)
      && LadderOf(r) == LadderOf(shelves)[..k] + LadderOf(shelves)[k + 1..]
      && LevelOf(s) == LadderOf(shelves)[k]
  {
    hide LadderOf, LevelOf, NodesOf, ShelfOK, ShelvesOK;
    ShelvesDrop(side, shelves, k);
    LadderDrop(shelves, k);
    ShelvesApart(side, shelves, k);
    OrdersApart(tree, side, shelves, k);
  }

  lemma UnfocusShelves(side: Side, shelves: seq<Shelf>, k: nat, s: Shelf)
    requires k < |shelves| && s.n == shelves[k].n && s.q == shelves[k].q
    requires ShelvesOK(side, Others(shelves, k)) && ShelfOK(side, s)
    requires s.n !in ShelfNodes(Others(shelves, k)) && s.q !in ShelfQueues(Others(shelves, k))
    ensures ShelvesBut(side, shelves[k := s], k)
  {
    hide ShelfOK;
    var r, x := Others(shelves, k), shelves[k := s];
    forall i | 0 <= i < |x| && i != k
      ensures ShelfOK(side, x[i]) && x[i].orders != [] && x[i].q != s.q && x[i].n != s.n
    {
      assert x[i] == r[if i < k then i else i - 1];
    }
    forall i, j | 0 <= i < j < |x| ensures x[i].q != x[j].q && x[i].n != x[j].n {
      if i != k && j != k {
        assert x[i] == r[if i < k then i else i - 1] && x[j] == r[if j < k then j else j - 1];
      }
    }
  }

  lemma UnfocusLadder(shelves: seq<Shelf>, k: nat, s: Shelf)
    requires k < |shelves| && s.n == shelves[k].n
    ensures NodesOf(shelves[k := s]) == NodesOf(shelves)
    ensures var l := LadderOf(Others(shelves, k)); LadderOf(shelves[k := s]) == l[..k] + [LevelOf(s)] + l[k..]
  {
    hide LevelOf, LadderOf, NodesOf;
    var r, x, a, b := Others(shelves, k), shelves[k := s], shelves[..k], shelves[k + 1..];
    assert x == a + [s] + b;
    LadderConcat(a + [s], b);
    LadderConcat(a, [s]);
    assert LadderOf([s]) == [LevelOf(s)];
    LadderConcat(a, b);
    assert LadderOf(r)[..k] == LadderOf(a) && LadderOf(r)[k..] == LadderOf(b);
  }

  /** A changed shelf k is put back among the others. */
  lemma Unfocus(tree: RedBlackTree, side: Side, shelves: seq<Shelf>, k: nat, s: Shelf)
    requires k < |shelves| && s.n == shelves[k].n && s.q == shelves[k].q
    requires Elsewhere(tree, side, shelves, k) && ShelfOK(side, s)
    ensures ShelvesBut(side, shelves[k := s], k) && TreeOf(tree, side, shelves[k := s])
    ensures var l := LadderOf(Others(shelves, k)); LadderOf(shelves[k := s]) == l[..k] + [LevelOf(s)] + l[k..]
  {
    hide ShelvesBut, ShelvesOK, ShelfOK, LadderOf, LevelOf, NodesOf, BestFirst;
    UnfocusShelves(side, shelves, k, s);
    UnfocusLadder(shelves, k, s);
  }

  // ---------- the first order of the best level ----------

  /** What one round needs: a best level, whose first order is the given one. */
  ghost predicate AtFront(tree: RedBlackTree, side: Side, shelves: seq<Shelf>, order: Order)
    reads tree`root, tree`nodeCount, tree`tree
    reads tree.tree.Nodes()`left, tree.tree.Nodes()`right, tree.tree.Nodes()`parent, tree.tree.Nodes()`color
    reads ShelfNodes(shelves)`queue, ShelfQueues(shelves)`contents, ShelfQueues(shelves)`head, ShelfQueues(shelves)`tail,
          ShelfQueues(shelves)`orderCount, ShelfQueues(shelves)`orderMap
    reads ShelfOrders(shelves)`prev, ShelfOrders(shelves)`next, ShelfOrders(shelves)`orderId,
          ShelfOrders(shelves)`side, ShelfOrders(shelves)`price
  {
    && TreeOf(tree, side, shelves) && ShelvesOK(side, shelves)
    && shelves != [] && shelves[0].orders != [] && shelves[0].orders[0] == order
  }

  lemma FrontFocus(tree: RedBlackTree, side: Side, shelves: seq<Shelf>, order: Order)
    requires AtFront(tree, side, shelves, order)
    ensures TreeOf(tree, side, shelves) && ShelvesOK(side, shelves) && shelves != []
    ensures var r, s := Others(shelves, 0), shelves[0];
      && order in OrdersOn(s) && OrdersOn(s) !! ShelfOrders(r)
      && s.orders != [] && s.orders[0] == order && Distinct(s.orders)
      && LadderOf(shelves) == [LevelOf(s)] + LadderOf(r)
  {
    hide LadderOf, LevelOf, NodesOf;
    Focus(tree, side, shelves, 0);
  }

  /** The sets of a side, split at shelf k. */
  lemma SetsAfter(shelves: seq<Shelf>, k: nat, s: Shelf)
    requires k < |shelves|
    ensures ShelfOrders(shelves[k := s]) == ShelfOrders(Others(shelves, k)) + OrdersOn(s)
    ensures ShelfNodes(shelves[k := s]) == ShelfNodes(Others(shelves, k)) + {s.n}
    ensures ShelfQueues(shelves[k := s]) == ShelfQueues(Others(shelves, k)) + {s.q}
  {
    var r, x := Others(shelves, k), shelves[k := s];
    assert forall i :: 0 <= i < |x| && i != k ==> x[i] == r[if i < k then i else i - 1];
    assert x[k] == s;
    forall i | 0 <= i < |r| ensures r[i] in x {
      assert r[i] == x[if i < k then i else i + 1];
    }
  }

  lemma PoppedLevel(s: Shelf)
    requires s.orders != []
    ensures States(s.orders) != []
    ensures Popped(LevelOf(s)) == Level(s.n.price, States(s.orders[1..]), s.n.totalQuantity, s.n.orderCount,
                                        Wrap64(s.q.totalQty - s.orders[0].State().Remaining()))
  {
    StatesSplit(s.orders, 0);
    hide States, Wrap64, Order.State;
    assert s.orders[..0] + s.orders[0 + 1..] == s.orders[1..];
    var t := States(s.orders);
    assert t[..0] + t[0 + 1..] == t[1..];
  }

  lemma PopReady(side: Side, s: Shelf)
    requires ShelfOK(side, s) && s.orders != []
    ensures s.q.Valid() && s.q.contents == s.orders && s.n.queue == s.q && Homed(side, s.n.price, s.orders[1..])
    ensures s.orders[0] !in s.orders[1..]
  {
    hide Indexes;
    assert Distinct(s.orders);
  }

  lemma Untouched(tree: RedBlackTree, side: Side, shelves: seq<Shelf>, k: nat)
    requires k < |shelves| && Elsewhere(tree, side, shelves, k)
    requires OrdersOn(shelves[k]) !! ShelfOrders(Others(shelves, k))
    ensures shelves[k].q !in ShelfQueues(Others(shelves, k))
    ensures forall o :: o in ShelfOrders(Others(shelves, k)) ==> o !in shelves[k].orders
  {
    hide TreeOf, ShelvesOK;
    forall o | o in ShelfOrders(Others(shelves, k)) ensures o !in shelves[k].orders {
      assert o !in OrdersOn(shelves[k]);
    }
  }

  lemma ShelfAgain(side: Side, s: Shelf)
    requires s.n.queue == s.q && s.q.contents == s.orders && s.q.Valid() && Homed(side, s.n.price, s.orders)
    ensures ShelfOK(side, s)
    ensures LevelOf(s) == Level(s.n.price, States(s.orders), s.n.totalQuantity, s.n.orderCount, s.q.totalQty)
  {
  }

  /** Pops the queue of shelf k. */
  method PopShelf(queue: OrderQueue, ghost tree: RedBlackTree, ghost side: Side, ghost shelves: seq<Shelf>, ghost k: nat)
    returns (order: Order)
    requires k < |shelves| && Elsewhere(tree, side, shelves, k) && ShelfOK(side, shelves[k])
    requires OrdersOn(shelves[k]) !! ShelfOrders(Others(shelves, k))
    requires shelves[k].q == queue && shelves[k].orders != []
    modifies queue, shelves[k].orders`prev, shelves[k].orders`next
    ensures var s := Shelf(shelves[k].n, queue, shelves[k].orders[1..]);
      && Elsewhere(tree, side, shelves, k) && ShelfOK(side, s)
      && LadderOf(Others(shelves, k)) == old(LadderOf(Others(shelves, k)))
      && LevelOf(s) == Popped(old(LevelOf(shelves[k])))
      && order == shelves[k].orders[0] && order !in s.orders && order.orderId !in queue.orderMap
  {
    hide *;
    ghost var s, r := shelves[k], Others(shelves, k);
    ghost var s' := Shelf(s.n, queue, s.orders[1..]);
    PopReady(side, s);
    PoppedLevel(s);
    Untouched(tree, side, shelves, k);
    assert allocated(tree.tree.Nodes());
    assert allocated(ShelfNodes(r)) && allocated(ShelfQueues(r)) && allocated(ShelfOrders(r));
    order := queue.PopFirst();
    assert Elsewhere(tree, side, shelves, k) && LadderOf(r) == old(LadderOf(r));
    ShelfAgain(side, s');
    assert States(s'.orders) == old(States(s'.orders));
    assert order.State() == old(order.State());
  }

  lemma PushedLevel(s: Shelf, o: Order)
    ensures Pushed(LevelOf(s), o.State()) == Level(s.n.price, States(s.orders + [o]), s.n.totalQuantity, s.n.orderCount,
                                                   Wrap64(s.q.totalQty + o.State().Remaining()))
  {
    StatesJoin(s.orders, o);
    hide States, Wrap64, Order.State;
  }

  lemma PushReady(side: Side, s: Shelf, o: Order)
    requires ShelfOK(side, s) && o.side == side && o.price == s.n.price
    ensures s.q.Valid() && s.q.contents == s.orders && s.n.queue == s.q && Homed(side, s.n.price, s.orders + [o])
  {
  }

  /** Appends an order to the queue of shelf k. */
  method PushShelf(queue: OrderQueue, order: Order, ghost tree: RedBlackTree, ghost side: Side, ghost shelves: seq<Shelf>, ghost k: nat)
    requires k < |shelves| && Elsewhere(tree, side, shelves, k) && ShelfOK(side, shelves[k]) && shelves[k].q == queue
    requires OrdersOn(shelves[k]) !! ShelfOrders(Others(shelves, k))
    requires order !in shelves[k].orders && order !in ShelfOrders(Others(shelves, k))
    requires order.side == side && order.price == shelves[k].n.price && order.orderId !in queue.orderMap
    modifies queue, order`prev, order`next, shelves[k].orders`next
    ensures var s := Shelf(shelves[k].n, queue, shelves[k].orders + [order]);
      && Elsewhere(tree, side, shelves, k) && ShelfOK(side, s)
      && LadderOf(Others(shelves, k)) == old(LadderOf(Others(shelves, k)))
      && LevelOf(s) == Pushed(old(LevelOf(shelves[k])), order.State())
  {
    hide *;
    ghost var s, r := shelves[k], Others(shelves, k);
    ghost var s' := Shelf(s.n, queue, s.orders + [order]);
    PushReady(side, s, order);
    PushedLevel(s, order);
    Untouched(tree, side, shelves, k);
    assert allocated(tree.tree.Nodes());
    assert allocated(ShelfNodes(r)) && allocated(ShelfQueues(r)) && allocated(ShelfOrders(r));
    queue.PushBack(order);
    assert Elsewhere(tree, side, shelves, k) && LadderOf(r) == old(LadderOf(r));
    ShelfAgain(side, s');
    assert States(s'.orders) == old(States(s'.orders));
    assert order.State() == old(order.State());
  }

  // ---------- what a round of matching does to the best level ----------

  /** A best level, its queue, and a true order count. */
  ghost predicate BestReady(tree: RedBlackTree, queue: OrderQueue, price: int, side: Side, shelves: seq<Shelf>)
    reads tree`root, tree`nodeCount, tree`tree
    reads tree.tree.Nodes()`left, tree.tree.Nodes()`right, tree.tree.Nodes()`parent, tree.tree.Nodes()`color
    reads ShelfNodes(shelves)`queue, ShelfNodes(shelves)`orderCount
    reads ShelfQueues(shelves)`contents, ShelfQueues(shelves)`head, ShelfQueues(shelves)`tail,
          ShelfQueues(shelves)`orderCount, ShelfQueues(shelves)`orderMap
    reads ShelfOrders(shelves)`prev, ShelfOrders(shelves)`next, ShelfOrders(shelves)`orderId,
          ShelfOrders(shelves)`side, ShelfOrders(shelves)`price
  {
    && TreeOf(tree, side, shelves) && ShelvesOK(side, shelves)
    && shelves != [] && shelves[0].q == queue && shelves[0].n.price == price
    && (assert shelves[0] in shelves; 0 < shelves[0].n.orderCount == |shelves[0].orders| < TWO_32)
  }

  lemma BestFocus(tree: RedBlackTree, queue: OrderQueue, price: int, side: Side, shelves: seq<Shelf>)
    requires BestReady(tree, queue, price, side, shelves)
    ensures shelves != [] && shelves[0].q == queue && shelves[0].n.price == price
    ensures ShelfOK(side, shelves[0]) && shelves[0].orders != [] && Elsewhere(tree, side, shelves, 0)
    ensures OrdersOn(shelves[0]) !! ShelfOrders(Others(shelves, 0))
    ensures LadderOf(Others(shelves, 0)) == LadderOf(shelves)[1..]
    ensures LadderOf(shelves) != [] && LevelOf(shelves[0]) == LadderOf(shelves)[0]
  {
    hide LadderOf, LevelOf, NodesOf, ShelfOK, Elsewhere;
    Focus(tree, side, shelves, 0);
  }

  lemma BestUnfocus(tree: RedBlackTree, side: Side, shelves: seq<Shelf>, s: Shelf)
    requires shelves != [] && s.n == shelves[0].n && s.q == shelves[0].q
    requires Elsewhere(tree, side, shelves, 0) && ShelfOK(side, s)
    ensures ShelvesBut(side, shelves[0 := s], 0) && TreeOf(tree, side, shelves[0 := s])
    ensures LadderOf(shelves[0 := s]) == [LevelOf(s)] + LadderOf(Others(shelves, 0))
  {
    hide *;
    Unfocus(tree, side, shelves, 0, s);
    var l := LadderOf(Others(shelves, 0));
    assert l[..0] + [LevelOf(s)] + l[0..] == [LevelOf(s)] + l;
  }

  /** The shelves after the best one lost its first order. */
  ghost function AfterDrop(shelves: seq<Shelf>): seq<Shelf>
    requires shelves != [] && shelves[0].orders != []
  {
    Kept(shelves[0 := shelves[0].(orders := shelves[0].orders[1..])], 0)
  }

  /** What the counters of the best level say when its first order leaves. */
  lemma CountDown(tree: RedBlackTree, queue: OrderQueue, price: int, side: Side, shelves: seq<Shelf>)
    requires BestReady(tree, queue, price, side, shelves) && shelves[0].orders != []
    ensures (shelves[0].n.orderCount + -1) % TWO_32 == 0 <==> shelves[0].orders[1..] == []
    ensures var s := Shelf(shelves[0].n, queue, shelves[0].orders[1..]); AfterDrop(shelves) == Kept(shelves[0 := s], 0)
  {
    hide TreeOf, ShelvesOK;
  }

  /** Updating level 0 of a ladder whose best level was just changed. */
  lemma SetChanged(ladder: seq<Level>, changed: seq<Level>, l: Level, x: Level)
    requires ladder != [] && changed == [l] + ladder[1..]
    ensures SetLevel(changed, 0, x) == SetBest(ladder, x)
  {
    var tail := ladder[1..];
    assert changed[..0] == [] && changed[1..] == tail;
    if x.count == 0 {
    } else {
      assert changed[0 := x] == [x] + tail;
    }
  }

  /** The first order leaves, and an emptied level with it. */
  method DropFront(tree: RedBlackTree, queue: OrderQueue, price: int, qty: nat, ghost side: Side, ghost shelves: seq<Shelf>)
    returns (order: Order)
    requires BestReady(tree, queue, price, side, shelves) && shelves != [] && shelves[0].orders != []
    modifies tree`root, tree`nodeCount, tree`tree
    modifies tree.tree.Nodes()`left, tree.tree.Nodes()`right, tree.tree.Nodes()`parent, tree.tree.Nodes()`color
    modifies shelves[0].n`totalQuantity, shelves[0].n`orderCount, shelves[0].n`queue
    modifies queue, shelves[0].orders`prev, shelves[0].orders`next
    ensures order == shelves[0].orders[0]
    ensures TreeOf(tree, side, AfterDrop(shelves)) && ShelvesOK(side, AfterDrop(shelves))
    ensures LadderOf(AfterDrop(shelves)) ==
      SetBest(old(LadderOf(shelves)), UpdateLevel(Popped(old(LadderOf(shelves))[0]), -(qty as int), -1))
  {
    hide *;
    BestFocus(tree, queue, price, side, shelves);
    ghost var s := Shelf(shelves[0].n, queue, shelves[0].orders[1..]);
    CountDown(tree, queue, price, side, shelves);
    order := PopShelf(queue, tree, side, shelves, 0);
    BestUnfocus(tree, side, shelves, s);
    SetChanged(old(LadderOf(shelves)), LadderOf(shelves[0 := s]), LevelOf(s), UpdateLevel(LevelOf(s), -(qty as int), -1));
    ShelfAtIs(side, shelves[0 := s], price, 0);
    UpdatePriceLevel(tree, price, -(qty as int), -1, side, shelves[0 := s], 0);
  }

  /** The first order takes its next peak. */
  method ReplenishFront(order: Order, ghost tree: RedBlackTree, ghost side: Side, ghost shelves: seq<Shelf>)
    requires AtFront(tree, side, shelves, order)
    modifies order`filledQuantity, order`visibleQuantity, order`hiddenQuantity, order`visibleFilledQuantity
    ensures AtFront(tree, side, shelves, order) && order.State() == old(order.State()).Replenished()
    ensures LadderOf(shelves) == [WithFront(old(LadderOf(shelves))[0], order.State())] + old(LadderOf(shelves))[1..]
  {
    hide TreeOf, ShelvesOK, Order.State, LadderOf, ShelfOrders, ShelfQueues, ShelfNodes, States;
    ghost var s, r := shelves[0], Others(shelves, 0);
    FrontFocus(tree, side, shelves, order);
    assert allocated(tree.tree.Nodes());
    assert allocated(ShelfNodes(shelves)) && allocated(ShelfQueues(shelves)) && allocated(ShelfOrders(shelves));
    assert allocated(ShelfNodes(r)) && allocated(ShelfQueues(r)) && allocated(ShelfOrders(r));
    var _ := order.ReplenishPeak();
    FrontFocus(tree, side, shelves, order);
    assert LadderOf(r) == old(LadderOf(r));
    assert States(s.orders) == [order.State()] + old(States(s.orders))[1..];
  }

  /** The shelves after the first order of the best one went to its back. */
  ghost function AfterRequeue(shelves: seq<Shelf>): seq<Shelf>
    requires shelves != [] && shelves[0].orders != []
  {
    shelves[0 := shelves[0].(orders := shelves[0].orders[1..] + [shelves[0].orders[0]])]
  }

  lemma FrontIsHome(tree: RedBlackTree, queue: OrderQueue, price: int, side: Side, shelves: seq<Shelf>)
    requires BestReady(tree, queue, price, side, shelves) && shelves[0].orders != []
    ensures var o := shelves[0].orders[0]; o.side == side && o.price == shelves[0].n.price && o !in ShelfOrders(Others(shelves, 0))
    ensures Others(shelves, 0) == shelves[1..]
    ensures var s := Shelf(shelves[0].n, queue, shelves[0].orders[1..]);
      && Others(shelves[0 := s], 0) == shelves[1..]
      && AfterRequeue(shelves) == shelves[0 := s][0 := Shelf(shelves[0].n, queue, shelves[0].orders[1..] + [shelves[0].orders[0]])]
  {
    hide TreeOf, ShelvesOK, Elsewhere;
    BestFocus(tree, queue, price, side, shelves);
    assert shelves[0].orders[0] in OrdersOn(shelves[0]);
  }

  lemma FirstState(s: Shelf)
    requires s.orders != []
    ensures LevelOf(s).orders != [] && LevelOf(s).orders[0] == s.orders[0].State()
  {
  }

  /** The first order goes to the back of the best level. */
  method CycleFront(tree: RedBlackTree, queue: OrderQueue, price: int, ghost side: Side, ghost shelves: seq<Shelf>)
    requires BestReady(tree, queue, price, side, shelves) && shelves != [] && shelves[0].orders != []
    modifies queue, shelves[0].orders`prev, shelves[0].orders`next
    ensures TreeOf(tree, side, AfterRequeue(shelves)) && ShelvesBut(side, AfterRequeue(shelves), 0)
    ensures LadderOf(AfterRequeue(shelves)) ==
      [Pushed(Popped(old(LadderOf(shelves))[0]), old(LadderOf(shelves))[0].orders[0])] + old(LadderOf(shelves))[1..]
  {
    hide *;
    BestFocus(tree, queue, price, side, shelves);
    FrontIsHome(tree, queue, price, side, shelves);
    FirstState(shelves[0]);
    ghost var s := Shelf(shelves[0].n, queue, shelves[0].orders[1..]);
    var order := PopShelf(queue, tree, side, shelves, 0);
    BestUnfocus(tree, side, shelves, s);
    ghost var mid := shelves[0 := s];
    Focus(tree, side, mid, 0);
    PushShelf(queue, order, tree, side, mid, 0);
    assert order.State() == old(order.State());
    BestUnfocus(tree, side, mid, Shelf(s.n, queue, s.orders + [order]));
  }

  lemma KeptFull(shelves: seq<Shelf>, k: nat)
    requires k < |shelves| && shelves[k].orders != []
    ensures Kept(shelves, k) == shelves
  {
  }

  lemma KeptBest(shelves: seq<Shelf>)
    requires shelves != [] && shelves[0].orders != []
    ensures Kept(shelves, 0) == shelves && Kept(AfterRequeue(shelves), 0) == AfterRequeue(shelves)
    ensures AfterRequeue(shelves)[0].n == shelves[0].n && AfterRequeue(shelves)[0].orders != []
  {
  }

  /** The three ways a round can end for the best level, as Settle has them. */
  lemma SettleCases(l: Level, m: OrderState, q: nat)
    requires l.orders != [] && l.orders[0] == m
    ensures m.IsTotallyFilled() ==> Settle(l, m, q) == UpdateLevel(Popped(l), -(q as int), -1)
    ensures m.iceberg && m.IsVisiblePeakFilled() && !m.IsTotallyFilled() ==>
      var r := m.Replenished();
      Settle(l, m, q) == UpdateLevel(Pushed(Popped(WithFront(l, r)), r), r.Remaining() - m.visible, 0)
    ensures !m.IsTotallyFilled() && !(m.iceberg && m.IsVisiblePeakFilled()) ==> Settle(l, m, q) == UpdateLevel(l, -(q as int), 0)
  {
    assert [m] + l.orders[1..] == l.orders;
  }

  /** Nothing but the counters of the best level changes. */
  method KeepFront(tree: RedBlackTree, queue: OrderQueue, price: int, delta: int, ghost side: Side, ghost shelves: seq<Shelf>)
    requires BestReady(tree, queue, price, side, shelves) && shelves != [] && shelves[0].orders != []
    modifies tree`root, tree`nodeCount, tree`tree
    modifies tree.tree.Nodes()`left, tree.tree.Nodes()`right, tree.tree.Nodes()`parent, tree.tree.Nodes()`color
    modifies shelves[0].n`totalQuantity, shelves[0].n`orderCount, shelves[0].n`queue
    ensures TreeOf(tree, side, shelves) && ShelvesOK(side, shelves)
    ensures LadderOf(shelves) == SetBest(old(LadderOf(shelves)), UpdateLevel(old(LadderOf(shelves))[0], delta, 0))
  {
    hide *;
    BestFocus(tree, queue, price, side, shelves);
    KeptBest(shelves);
    CountKept(tree, queue, price, side, shelves);
    assert LadderOf(shelves) == [LadderOf(shelves)[0]] + LadderOf(shelves)[1..];
    SetChanged(LadderOf(shelves), LadderOf(shelves), LadderOf(shelves)[0], UpdateLevel(LadderOf(shelves)[0], delta, 0));
    ShelfAtIs(side, shelves, price, 0);
    UpdatePriceLevel(tree, price, delta, 0, side, shelves, 0);
  }

  lemma CountKept(tree: RedBlackTree, queue: OrderQueue, price: int, side: Side, shelves: seq<Shelf>)
    requires BestReady(tree, queue, price, side, shelves)
    ensures (shelves[0].n.orderCount + 0) % TWO_32 != 0 && ShelvesBut(side, shelves, 0) && TreeOf(tree, side, shelves)
    ensures shelves[0].orders != [] ==> AtFront(tree, side, shelves, shelves[0].orders[0])
  {
    hide TreeOf, ShelfOK;
  }

  /** The first order, filled and out of shown quantity, takes its next peak and goes to the back. */
  method RequeueFront(tree: RedBlackTree, queue: OrderQueue, price: int, order: Order, ghost side: Side, ghost shelves: seq<Shelf>)
    requires BestReady(tree, queue, price, side, shelves) && AtFront(tree, side, shelves, order)
    modifies tree`root, tree`nodeCount, tree`tree
    modifies tree.tree.Nodes()`left, tree.tree.Nodes()`right, tree.tree.Nodes()`parent, tree.tree.Nodes()`color
    modifies shelves[0].n`totalQuantity, shelves[0].n`orderCount, shelves[0].n`queue
    modifies queue, shelves[0].orders`prev, shelves[0].orders`next
    modifies order`filledQuantity, order`visibleQuantity, order`hiddenQuantity, order`visibleFilledQuantity
    ensures TreeOf(tree, side, AfterRequeue(shelves)) && ShelvesOK(side, AfterRequeue(shelves))
    ensures order.State() == old(order.State()).Replenished()
    ensures var l, m, r := old(LadderOf(shelves)), old(order.State()), old(order.State()).Replenished();
      LadderOf(AfterRequeue(shelves)) == SetBest(l, UpdateLevel(Pushed(Popped(WithFront(l[0], r)), r), r.Remaining() - m.visible, 0))
  {
    hide *;
    var oldVisible := order.visibleQuantity;
    OrderFields(order);
    BestFocus(tree, queue, price, side, shelves);
    FrontFocus(tree, side, shelves, order);
    CountKept(tree, queue, price, side, shelves);
    KeptBest(shelves);
    assert allocated(tree.tree.Nodes());
    assert allocated(ShelfNodes(shelves)) && allocated(ShelfQueues(shelves)) && allocated(ShelfOrders(shelves));
    ReplenishFront(order, tree, side, shelves);
    assert BestReady(tree, queue, price, side, shelves);
    BestFocus(tree, queue, price, side, shelves);
    FirstState(shelves[0]);
    CycleFront(tree, queue, price, side, shelves);
    assert order.State() == old(order.State()).Replenished();
    ghost var l := LadderOf(AfterRequeue(shelves));
    SetChanged(old(LadderOf(shelves)), l, l[0], UpdateLevel(l[0], order.State().Remaining() - oldVisible, 0));
    ShelfAtIs(side, AfterRequeue(shelves), price, 0);
    UpdatePriceLevel(tree, price, order.State().Remaining() - oldVisible, 0, side, AfterRequeue(shelves), 0);
  }

  /** The shelves after a round: the first order of the best level left, or went to the back, or stayed. */
  ghost function AfterRound(shelves: seq<Shelf>, m: OrderState): seq<Shelf>
    requires shelves != [] && shelves[0].orders != []
  {
    if m.IsTotallyFilled() then AfterDrop(shelves)
    else if m.iceberg && m.IsVisiblePeakFilled() then AfterRequeue(shelves)
    else shelves
  }

  /** What a round does after the trade: the branches on the filled resting order. */
  method SettleFront(tree: RedBlackTree, queue: OrderQueue, price: int, order: Order, qty: nat, ghost side: Side, ghost shelves: seq<Shelf>)
    returns (gone: bool)
    requires BestReady(tree, queue, price, side, shelves) && AtFront(tree, side, shelves, order)
    modifies tree`root, tree`nodeCount, tree`tree
    modifies tree.tree.Nodes()`left, tree.tree.Nodes()`right, tree.tree.Nodes()`parent, tree.tree.Nodes()`color
    modifies shelves[0].n`totalQuantity, shelves[0].n`orderCount, shelves[0].n`queue
    modifies queue, shelves[0].orders`prev, shelves[0].orders`next
    modifies order`filledQuantity, order`visibleQuantity, order`hiddenQuantity, order`visibleFilledQuantity, order`status, order`retired
    ensures shelves != [] && shelves[0].orders != []
    ensures var m, l := old(order.State()), old(LadderOf(shelves));
      && gone == m.IsTotallyFilled()
      && TreeOf(tree, side, AfterRound(shelves, m)) && ShelvesOK(side, AfterRound(shelves, m))
      && LadderOf(AfterRound(shelves, m)) == SetBest(l, Settle(l[0], m, qty))
      && (gone ==> order.State() == m && order.retired && order.status == old(order.status))
      && (!gone ==> order.retired == old(order.retired) && order.status == PartialFilled)
  {
    hide *;
    BestFocus(tree, queue, price, side, shelves);
    FrontFocus(tree, side, shelves, order);
    FirstState(shelves[0]);
    RoundCases(shelves, order.State());
    SettleCases(LadderOf(shelves)[0], order.State(), qty);
    OrderFields(order);
    if order.isIceberg && order.State().IsVisiblePeakFilled() {
      if order.State().IsTotallyFilled() {
        var _ := DropFront(tree, queue, price, qty, side, shelves);
        order.retired := true;
        gone := true;
      } else {
        RequeueFront(tree, queue, price, order, side, shelves);
        order.status := PartialFilled;
        gone := false;
      }
    } else if order.State().IsTotallyFilled() {
      var _ := DropFront(tree, queue, price, qty, side, shelves);
      order.retired := true;
      gone := true;
    } else {
      order.status := PartialFilled;
      KeepFront(tree, queue, price, -(qty as int), side, shelves);
      gone := false;
    }
  }

  lemma RoundCases(shelves: seq<Shelf>, m: OrderState)
    requires shelves != [] && shelves[0].orders != []
    ensures m.IsTotallyFilled() ==> AfterRound(shelves, m) == AfterDrop(shelves)
    ensures !m.IsTotallyFilled() && m.iceberg && m.IsVisiblePeakFilled() ==> AfterRound(shelves, m) == AfterRequeue(shelves)
    ensures !m.IsTotallyFilled() && !(m.iceberg && m.IsVisiblePeakFilled()) ==> AfterRound(shelves, m) == shelves
  {
  }

  lemma OrderFields(order: Order)
    ensures order.State().iceberg == order.isIceberg && order.State().visible == order.visibleQuantity
    ensures order.State().id == order.orderId && order.State().side == order.side && order.State().price == order.price
  {
  }

  // ---------- resting an order ----------

  /** Where a new node stands in the ladder. */
  lemma PlaceOf(t: Tree, side: Side, shelves: seq<Shelf>, z: RBNode) returns (k: nat)
    requires SearchTree(t) && NodesOf(shelves) == BestFirst(side, t.InOrder()) && Locate(t, z.price, Top).1.Leaf?
    ensures k <= |shelves|
    ensures NodesOf(shelves)[..k] + [z] + NodesOf(shelves)[k..] == BestFirst(side, InsertNode(t, z).InOrder())
    ensures forall i :: 0 <= i < k ==> Better(side, shelves[i].n.price, z.price)
    ensures k < |shelves| ==> Better(side, z.price, shelves[k].n.price)
  {
    hide NodesOf, BestFirst, Better, SearchTree, Ordered, Sorted, Tree.InOrder, InsertNode, Locate;
    InsertKeeps(t, z);
    var r, i := InsertNode(t, z), |Locate(t, z.price, Top).0.Before()|;
    BestFirstInsert(side, t.InOrder(), i, z);
    k := if side.Sell? then i else |t.InOrder()| - i;
    SearchSorted(r);
    BestFirstSorted(side, r.InOrder());
    var b := BestFirst(side, r.InOrder());
    assert b[k] == z;
    forall j | 0 <= j < k ensures Better(side, shelves[j].n.price, z.price) {
      assert b[j] == shelves[j].n;
    }
    if k < |shelves| {
      assert b[k + 1] == shelves[k].n;
    }
  }

  lemma SearchSorted(t: Tree)
    requires SearchTree(t)
    ensures Sorted(t.InOrder()) && Ordered(t)
  {
    OrderedIffSorted(t);
  }

  lemma OthersInsert(shelves: seq<Shelf>, k: nat, s: Shelf)
    requires k <= |shelves|
    ensures var r := shelves[..k] + [s] + shelves[k..]; r[k] == s && Others(r, k) == shelves && r[k := s] == r
  {
    var r := shelves[..k] + [s] + shelves[k..];
    assert r[..k] == shelves[..k] && r[k + 1..] == shelves[k..];
  }

  lemma NodesInsert(shelves: seq<Shelf>, k: nat, s: Shelf)
    requires k <= |shelves|
    ensures NodesOf(shelves[..k] + [s] + shelves[k..]) == NodesOf(shelves)[..k] + [s.n] + NodesOf(shelves)[k..]
  {
    hide NodesOf;
    var a, b := shelves[..k], shelves[k..];
    NodesConcat(a, b);
    NodesConcat(a, [s]);
    NodesConcat(a + [s], b);
    calc {
      NodesOf(a + [s] + b);
      NodesOf(a) + NodesOf([s]) + NodesOf(b);
      { assert NodesOf([s]) == [s.n]; }
      NodesOf(a) + [s.n] + NodesOf(b);
      { assert a + b == shelves; assert NodesOf(shelves)[..k] == NodesOf(a); assert NodesOf(shelves)[k..] == NodesOf(b); }
      NodesOf(shelves)[..k] + [s.n] + NodesOf(shelves)[k..];
    }
  }

  lemma TreeFacts(tree: RedBlackTree, side: Side, shelves: seq<Shelf>, price: int)
    requires TreeOf(tree, side, shelves) && Locate(tree.tree, price, Top).1.Leaf?
    ensures tree.Valid() && SearchTree(tree.tree) && NodesOf(shelves) == BestFirst(side, tree.tree.InOrder())
    ensures forall n :: n in tree.tree.Nodes() ==> n.price != price
  {
    LocateFinds(tree.tree, price);
  }

  lemma NewShelf(tree: RedBlackTree, side: Side, shelves: seq<Shelf>, k: nat, s: Shelf)
    requires k <= |shelves| && tree.Valid() && ShelvesOK(side, shelves)
    requires NodesOf(shelves)[..k] + [s.n] + NodesOf(shelves)[k..] == BestFirst(side, tree.tree.InOrder())
    requires s.n.queue == s.q && s.q.Valid() && s.q.contents == s.orders == []
    requires s.n !in ShelfNodes(shelves) && s.q !in ShelfQueues(shelves)
    ensures var r := shelves[..k] + [s] + shelves[k..]; Elsewhere(tree, side, r, k) && ShelfOK(side, s) && Others(r, k) == shelves
    ensures LevelOf(s) == Level(s.n.price, [], s.n.totalQuantity, s.n.orderCount, s.q.totalQty)
  {
    hide ShelvesOK, NodesOf, BestFirst;
    NodesInsert(shelves, k, s);
    OthersInsert(shelves, k, s);
  }

  /** A new price gets a node and an empty queue. */
  method HangQueue(node: RBNode) returns (queue: OrderQueue)
    modifies node`queue
    ensures node.queue == queue && fresh(queue)
    ensures queue.Valid() && queue.contents == [] && queue.totalQty == 0 && queue.orderMap == map[]
  {
    queue := new OrderQueue();
    node.queue := queue;
  }

  method OpenLevel(tree: RedBlackTree, price: int, ghost side: Side, ghost shelves: seq<Shelf>)
    returns (queue: OrderQueue, ghost k: nat, ghost s: Shelf)
    requires TreeOf(tree, side, shelves) && ShelvesOK(side, shelves)
    requires Locate(tree.tree, price, Top).1.Leaf?
    modifies tree`root, tree`nodeCount, tree`tree
    modifies tree.tree.Nodes()`left, tree.tree.Nodes()`right, tree.tree.Nodes()`parent, tree.tree.Nodes()`color
    ensures k <= |shelves| && s.q == queue && s.n.price == price && s.orders == [] && fresh(s.n) && fresh(queue)
    ensures forall i :: 0 <= i < k ==> Better(side, shelves[i].n.price, price)
    ensures k < |shelves| ==> Better(side, price, shelves[k].n.price)
    ensures ShelfOK(side, s) && LevelOf(s) == Level(price, [], 0, 0, 0) && queue.orderMap == map[]
    ensures var r := shelves[..k] + [s] + shelves[k..]; Elsewhere(tree, side, r, k)
    ensures LadderOf(shelves) == old(LadderOf(shelves))
  {
    hide *;
    TreeFacts(tree, side, shelves, price);
    assert allocated(ShelfNodes(shelves)) && allocated(ShelfQueues(shelves)) && allocated(ShelfOrders(shelves));
    var node := tree.Insert(price);
    assert allocated(tree.tree.Nodes());
    queue := HangQueue(node);
    s := Shelf(node, queue, []);
    k := PlaceOf(old(tree.tree), side, shelves, node);
    NewShelf(tree, side, shelves, k, s);
  }

  /** The level of a price and its queue, opened if need be. */
  ghost predicate Opened(shelves: seq<Shelf>, after: seq<Shelf>, k: nat, price: int, side: Side) {
    && k < |after| && after[k].n.price == price
    && if |after| == |shelves| then after == shelves
       else
         && k <= |shelves| && after == shelves[..k] + [after[k]] + shelves[k..] && after[k].orders == []
         && (forall i :: 0 <= i < k ==> Better(side, shelves[i].n.price, price))
         && (k < |shelves| ==> Better(side, price, shelves[k].n.price))
  }

  lemma OpenedFresh(shelves: seq<Shelf>, k: nat, s: Shelf, side: Side)
    requires k <= |shelves| && s.orders == []
    requires forall i :: 0 <= i < k ==> Better(side, shelves[i].n.price, s.n.price)
    requires k < |shelves| ==> Better(side, s.n.price, shelves[k].n.price)
    ensures var r := shelves[..k] + [s] + shelves[k..];
      && Opened(shelves, r, k, s.n.price, side) && r[k] == s && OrdersOn(s) == {} && Others(r, k) == shelves
  {
  }

  /** A node of the tree is the node of some shelf. */
  lemma ShelfOfNode(tree: RedBlackTree, side: Side, shelves: seq<Shelf>, n: RBNode) returns (k: nat)
    requires TreeOf(tree, side, shelves) && n in tree.tree.Nodes()
    ensures k < |shelves| && shelves[k].n == n
  {
    var s := tree.tree.InOrder();
    InOrderMembers(tree.tree);
    ReverseLength(s);
    assert n in Elements(s);
    var i :| 0 <= i < |s| && s[i] == n;
    k := if side.Sell? then i else |s| - 1 - i;
    BestFirstAt(side, s, k);
  }

  lemma FullFocus(tree: RedBlackTree, side: Side, shelves: seq<Shelf>, k: nat)
    requires k < |shelves| && TreeOf(tree, side, shelves) && ShelvesOK(side, shelves)
    ensures Elsewhere(tree, side, shelves, k) && ShelfOK(side, shelves[k]) && shelves[k].n.queue == shelves[k].q
    ensures ShelvesBut(side, shelves, k)
    ensures OrdersOn(shelves[k]) !! ShelfOrders(Others(shelves, k)) && Opened(shelves, shelves, k, shelves[k].n.price, side)
    ensures var l := LadderOf(shelves); k < |l| && LevelOf(shelves[k]) == l[k] && LadderOf(Others(shelves, k)) == l[..k] + l[k + 1..]
  {
    hide TreeOf;
    assert ShelvesBut(side, shelves, k);
    Focus(tree, side, shelves, k);
  }

  method GetOrCreateQueue(tree: RedBlackTree, price: int, ghost side: Side, ghost shelves: seq<Shelf>)
    returns (queue: OrderQueue, ghost k: nat, ghost after: seq<Shelf>)
    requires TreeOf(tree, side, shelves) && ShelvesOK(side, shelves)
    modifies tree`root, tree`nodeCount, tree`tree
    modifies tree.tree.Nodes()`left, tree.tree.Nodes()`right, tree.tree.Nodes()`parent, tree.tree.Nodes()`color
    ensures Opened(shelves, after, k, price, side) && k < |after| && after[k].q == queue
    ensures Elsewhere(tree, side, after, k) && ShelfOK(side, after[k])
    ensures OrdersOn(after[k]) !! ShelfOrders(Others(after, k))
    ensures |after| == |shelves| ==>
      var l := old(LadderOf(shelves)); k < |l| && LevelOf(after[k]) == l[k] && LadderOf(Others(after, k)) == l[..k] + l[k + 1..]
    ensures |after| != |shelves| ==>
      && fresh(after[k].n) && fresh(after[k].q) && queue.orderMap == map[]
      && LevelOf(after[k]) == Level(price, [], 0, 0, 0) && LadderOf(Others(after, k)) == old(LadderOf(shelves))
  {
    hide *;
    TreeValid(tree, side, shelves);
    assert allocated(tree.tree.Nodes());
    assert allocated(ShelfNodes(shelves)) && allocated(ShelfQueues(shelves)) && allocated(ShelfOrders(shelves));
    var node := tree.Find(price);
    if node == null {
      RootOfLeaf(Locate(tree.tree, price, Top).1);
      ghost var s;
      queue, k, s := OpenLevel(tree, price, side, shelves);
      OpenedFresh(shelves, k, s, side);
      after := shelves[..k] + [s] + shelves[k..];
    } else {
      k := ShelfOfNode(tree, side, shelves, node);
      FullFocus(tree, side, shelves, k);
      after := shelves;
      queue := node.queue;
    }
  }

  lemma TreeValid(tree: RedBlackTree, side: Side, shelves: seq<Shelf>)
    requires TreeOf(tree, side, shelves)
    ensures tree.Valid()
  {
  }

  lemma RootOfLeaf(t: Tree)
    ensures t.Root() == null <==> t.Leaf?
  {
  }

  /** AddToLadder by position: the order joins level k or opens a level before it. */
  lemma {:induction false} AddAt(side: Side, ladder: seq<Level>, k: nat, o: OrderState)
    requires k <= |ladder| && (forall i :: 0 <= i < k ==> Better(side, ladder[i].price, o.price))
    requires k < |ladder| ==> ladder[k].price == o.price || Better(side, o.price, ladder[k].price)
    ensures AddToLadder(side, ladder, o) ==
      if k < |ladder| && ladder[k].price == o.price then ladder[k := Join(ladder[k], o)]
      else ladder[..k] + [NewLevel(o)] + ladder[k..]
  {
    hide Join, NewLevel;
    if k == 0 {
      if ladder != [] && ladder[0].price == o.price {
        assert ladder[0 := Join(ladder[0], o)] == [Join(ladder[0], o)] + ladder[1..];
      } else {
        assert ladder[..0] + [NewLevel(o)] + ladder[0..] == [NewLevel(o)] + ladder;
      }
    } else {
      var tail := ladder[1..];
      AddAt(side, tail, k - 1, o);
      if k < |ladder| && ladder[k].price == o.price {
        assert [ladder[0]] + tail[k - 1 := Join(ladder[k], o)] == ladder[k := Join(ladder[k], o)];
      } else {
        assert [ladder[0]] + (tail[..k - 1] + [NewLevel(o)] + tail[k - 1..]) == ladder[..k] + [NewLevel(o)] + ladder[k..];
      }
    }
  }

  /** The ladder after pushing onto level k and counting it, in both ways a level can have been found. */
  lemma AddOpened(side: Side, shelves: seq<Shelf>, after: seq<Shelf>, k: nat, was: seq<Level>, others: seq<Level>, l: Level, o: OrderState)
    requires Opened(shelves, after, k, o.price, side) && |was| == |shelves|
    requires forall i :: 0 <= i < |was| ==> was[i].price == shelves[i].n.price
    requires forall i, j :: 0 <= i < j < |shelves| ==> Better(side, shelves[i].n.price, shelves[j].n.price)
    requires |after| == |shelves| ==> l == was[k] && others == was[..k] + was[k + 1..]
    requires |after| != |shelves| ==> l == Level(o.price, [], 0, 0, 0) && others == was
    ensures |others| + 1 == |after| && k <= |others|
    ensures others[..k] + [UpdateLevel(Pushed(l, o), o.Remaining(), 1)] + others[k..] == AddToLadder(side, was, o)
  {
    hide UpdateLevel, Wrap64, AddToLadder, Weigh;
    AddAt(side, was, k, o);
    var x := UpdateLevel(Pushed(l, o), o.Remaining(), 1);
    if |after| == |shelves| {
      assert was[k := x] == others[..k] + [x] + others[k..];
      assert x == Join(was[k], o);
    } else {
      assert [] + [o] == [o];
      assert x == NewLevel(o);
    }
  }

  lemma SpliceUpdate(others: seq<Level>, k: nat, l: Level, x: Level)
    requires k <= |others| && x.count != 0
    ensures SetLevel(others[..k] + [l] + others[k..], k, x) == others[..k] + [x] + others[k..]
  {
  }

  /** Shelves stand in price order, and their levels carry their prices. */
  lemma ShelvesSorted(tree: RedBlackTree, side: Side, shelves: seq<Shelf>)
    requires TreeOf(tree, side, shelves)
    ensures forall i, j :: 0 <= i < j < |shelves| ==> Better(side, shelves[i].n.price, shelves[j].n.price)
    ensures |LadderOf(shelves)| == |shelves|
    ensures forall i :: 0 <= i < |shelves| ==> LadderOf(shelves)[i].price == shelves[i].n.price
  {
    hide BestFirst, Better;
    OrderedIffSorted(tree.tree);
    BestFirstSorted(side, tree.tree.InOrder());
  }

  /** No order has this id. */
  ghost predicate IdFree(id: nat, orders: set<Order>)
    reads orders`orderId
  {
    forall o :: o in orders ==> o.orderId != id
  }

  /** An order unknown to the side is unknown to the queue it is to join. */
  lemma Unknown(side: Side, shelves: seq<Shelf>, after: seq<Shelf>, k: nat, order: Order)
    requires Opened(shelves, after, k, order.price, side) && ShelfOK(side, after[k])
    requires order !in ShelfOrders(shelves) && IdFree(order.orderId, ShelfOrders(shelves))
    requires |after| != |shelves| ==> after[k].q.orderMap == map[]
    ensures order !in after[k].orders && order.orderId !in after[k].q.orderMap && order !in ShelfOrders(Others(after, k))
  {
    if |after| == |shelves| {
      assert after[k] in shelves;
      forall o | o in after[k].orders ensures o in ShelfOrders(shelves) {}
    }
    forall o | o in ShelfOrders(Others(after, k)) ensures o in ShelfOrders(shelves) {
      var s :| s in Others(after, k) && o in s.orders;
      assert s in shelves;
    }
  }

  lemma OpenedParts(side: Side, shelves: seq<Shelf>, after: seq<Shelf>, k: nat, price: int)
    requires Opened(shelves, after, k, price, side)
    ensures k < |after| && after[k].n.price == price && (|after| != |shelves| ==> after[k].orders == [])
    ensures |after| == |shelves| ==> after == shelves && after[k].n in ShelfNodes(shelves) && after[k].q in ShelfQueues(shelves)
    ensures |after| == |shelves| ==> forall o :: o in after[k].orders ==> o in ShelfOrders(shelves)
  {
    if |after| == |shelves| {
      assert after[k] in shelves;
    }
  }

  /** The nodes of a tree are the nodes of its shelves. */
  lemma TreeNodes(tree: RedBlackTree, side: Side, shelves: seq<Shelf>)
    requires TreeOf(tree, side, shelves)
    ensures tree.tree.Nodes() == ShelfNodes(shelves)
  {
    forall n | n in tree.tree.Nodes() ensures n in ShelfNodes(shelves) {
      var k := ShelfOfNode(tree, side, shelves, n);
      assert shelves[k] in shelves;
    }
    forall k | 0 <= k < |shelves| ensures shelves[k].n in tree.tree.Nodes() {
      NodeOfShelf(tree, side, shelves, k);
    }
  }

  /** Counting the order that joined leaves its level in the book. */
  lemma CountUp(s: Shelf, o: Order)
    requires LevelOf(s).count + 1 < TWO_32
    ensures (s.n.orderCount + 1) % TWO_32 != 0
    ensures forall q: int :: UpdateLevel(Pushed(LevelOf(s), o.State()), q, 1).count != 0
  {
  }

  /** What joining changes about the sets of a side. */
  lemma JoinedSets(side: Side, shelves: seq<Shelf>, after: seq<Shelf>, k: nat, order: Order)
    requires Opened(shelves, after, k, order.price, side)
    ensures var r := after[k := Shelf(after[k].n, after[k].q, after[k].orders + [order])];
      && ShelfOrders(r) == ShelfOrders(shelves) + {order}
      && ShelfNodes(r) == ShelfNodes(shelves) + {after[k].n} && ShelfQueues(r) == ShelfQueues(shelves) + {after[k].q}
      && ShelfNodes(after) == ShelfNodes(r)
  {
    hide ShelfOrders, ShelfNodes, ShelfQueues;
    var s := Shelf(after[k].n, after[k].q, after[k].orders + [order]);
    SetsAfter(after, k, s);
    SetsAfter(after, k, after[k]);
    assert after[k := after[k]] == after;
    assert OrdersOn(s) == OrdersOn(after[k]) + {order};
    if |after| == |shelves| {
      SetsAfter(shelves, k, shelves[k]);
      assert shelves[k := shelves[k]] == shelves;
    } else {
      assert Others(after, k) == shelves;
    }
  }

  /** An order joins the queue of shelf k and is counted. */
  method JoinLevel(tree: RedBlackTree, queue: OrderQueue, order: Order, ghost side: Side, ghost shelves: seq<Shelf>, ghost k: nat)
    requires k < |shelves| && Elsewhere(tree, side, shelves, k) && ShelfOK(side, shelves[k]) && shelves[k].q == queue
    requires OrdersOn(shelves[k]) !! ShelfOrders(Others(shelves, k))
    requires order !in shelves[k].orders && order !in ShelfOrders(Others(shelves, k))
    requires order.side == side && order.price == shelves[k].n.price && order.orderId !in queue.orderMap
    requires LevelOf(shelves[k]).count + 1 < TWO_32
    modifies tree`root, tree`nodeCount, tree`tree
    modifies tree.tree.Nodes()`left, tree.tree.Nodes()`right, tree.tree.Nodes()`parent, tree.tree.Nodes()`color
    modifies shelves[k].n`totalQuantity, shelves[k].n`orderCount, shelves[k].n`queue
    modifies queue, order`prev, order`next, shelves[k].orders`next
    ensures var s := Shelf(shelves[k].n, queue, shelves[k].orders + [order]);
      && TreeOf(tree, side, shelves[k := s]) && ShelvesOK(side, shelves[k := s])
      && LadderOf(shelves[k := s]) ==
           var r, l, o := old(LadderOf(Others(shelves, k))), old(LevelOf(shelves[k])), old(order.State());
           r[..k] + [UpdateLevel(Pushed(l, o), o.Remaining(), 1)] + r[k..]
  {
    hide *;
    CountUp(shelves[k], order);
    PushShelf(queue, order, tree, side, shelves, k);
    assert order.State() == old(order.State());
    ghost var s := Shelf(shelves[k].n, queue, shelves[k].orders + [order]);
    Unfocus(tree, side, shelves, k, s);
    var o := order.State();
    SpliceUpdate(LadderOf(Others(shelves, k)), k, LevelOf(s), UpdateLevel(LevelOf(s), o.Remaining(), 1));
    KeptFull(shelves[k := s], k);
    ShelfAtIs(side, shelves[k := s], order.price, k);
    UpdatePriceLevel(tree, order.price, o.Remaining(), 1, side, shelves[k := s], k);
  }

  /** addOrderToBook, for one side: the order joins the queue of its price, which is opened if need be. */
  method RestOrder(tree: RedBlackTree, order: Order, ghost side: Side, ghost shelves: seq<Shelf>)
    returns (ghost after: seq<Shelf>)
    requires TreeOf(tree, side, shelves) && ShelvesOK(side, shelves) && order.side == side
    requires order !in ShelfOrders(shelves) && IdFree(order.orderId, ShelfOrders(shelves))
    requires forall l :: l in LadderOf(shelves) ==> l.count + 1 < TWO_32
    modifies tree`root, tree`nodeCount, tree`tree
    modifies tree.tree.Nodes()`left, tree.tree.Nodes()`right, tree.tree.Nodes()`parent, tree.tree.Nodes()`color
    modifies ShelfNodes(shelves)`totalQuantity, ShelfNodes(shelves)`orderCount, ShelfNodes(shelves)`queue
    modifies ShelfQueues(shelves), order`prev, order`next, ShelfOrders(shelves)`next
    ensures TreeOf(tree, side, after) && ShelvesOK(side, after)
    ensures LadderOf(after) == AddToLadder(side, old(LadderOf(shelves)), old(order.State()))
    ensures ShelfOrders(after) == ShelfOrders(shelves) + {order}
    ensures fresh(ShelfNodes(after) - ShelfNodes(shelves)) && fresh(ShelfQueues(after) - ShelfQueues(shelves))
    ensures order.State() == old(order.State())
  {
    hide *;
    ghost var was, o := LadderOf(shelves), order.State();
    ShelvesSorted(tree, side, shelves);
    TreeNodes(tree, side, shelves);
    OrderFields(order);
    assert allocated(ShelfOrders(shelves)) && allocated(ShelfNodes(shelves)) && allocated(ShelfQueues(shelves));
    var queue, k, mid := GetOrCreateQueue(tree, order.price, side, shelves);
    Unknown(side, shelves, mid, k, order);
    JoinedSets(side, shelves, mid, k, order);
    OpenedParts(side, shelves, mid, k, order.price);
    ghost var l, others := LevelOf(mid[k]), LadderOf(Others(mid, k));
    assert |mid| == |shelves| ==> was[k] in was;
    AddOpened(side, shelves, mid, k, was, others, l, o);
    ZeroCounts();
    ElsewhereTree(tree, side, mid, k);
    TreeNodes(tree, side, mid);
    JoinLevel(tree, queue, order, side, mid, k);
    after := mid[k := Shelf(mid[k].n, queue, mid[k].orders + [order])];
    TreeNodes(tree, side, after);
  }

  lemma ElsewhereTree(tree: RedBlackTree, side: Side, shelves: seq<Shelf>, k: nat)
    requires k < |shelves| && Elsewhere(tree, side, shelves, k)
    ensures TreeOf(tree, side, shelves)
  {
  }

  lemma ZeroCounts()
    ensures 0 + 1 < TWO_32
  {
  }

  // ---------- cancelling an order ----------

  /** A level whose queue lost the order at position i. */
  function Lacking(l: Level, i: nat): Level
    requires i < |l.orders|
  {
    l.(orders := l.orders[..i] + l.orders[i + 1..], queueQuantity := Wrap64(l.queueQuantity - l.orders[i].Remaining()))
  }

  /** RemoveFromLadder by position. */
  lemma {:induction false} RemoveAt(ladder: seq<Level>, k: nat, id: nat)
    requires k < |ladder| && (forall i :: 0 <= i < k ==> ladder[i].price != ladder[k].price)
    requires IndexOf(ladder[k].orders, id) < |ladder[k].orders|
    ensures RemoveFromLadder(ladder, ladder[k].price, id) == SetLevel(ladder, k, Leave(ladder[k], IndexOf(ladder[k].orders, id)))
  {
    var x := Leave(ladder[k], IndexOf(ladder[k].orders, id));
    if k == 0 {
      hide Leave, IndexOf;
      assert ladder[..0] + ladder[0 + 1..] == ladder[1..];
      assert ladder[0 := x] == [x] + ladder[1..];
    } else {
      assert RemoveFromLadder(ladder, ladder[k].price, id) == [ladder[0]] + RemoveFromLadder(ladder[1..], ladder[k].price, id);
      hide Leave, IndexOf, RemoveFromLadder, SetLevel;
      RemoveAt(ladder[1..], k - 1, id);
      SetBehind(ladder, k, x);
    }
  }

  lemma SetBehind(ladder: seq<Level>, k: nat, x: Level)
    requires 0 < k < |ladder|
    ensures SetLevel(ladder, k, x) == [ladder[0]] + SetLevel(ladder[1..], k - 1, x)
  {
    var tail := ladder[1..];
    assert [ladder[0]] + (tail[..k - 1] + tail[k..]) == ladder[..k] + ladder[k + 1..];
    assert [ladder[0]] + tail[k - 1 := x] == ladder[k := x];
  }

  lemma {:induction false} FirstIndex(orders: seq<OrderState>, id: nat, at: nat)
    requires at < |orders| && orders[at].id == id && forall j :: 0 <= j < at ==> orders[j].id != id
    ensures IndexOf(orders, id) == at
  {
    var i := IndexOf(orders, id);
    assert i <= at;
  }

  /** In a queue an id stands for one order. */
  lemma OneId(side: Side, s: Shelf, at: nat)
    requires ShelfOK(side, s) && at < |s.orders|
    ensures s.orders[at].orderId in s.q.orderMap
    ensures forall j :: 0 <= j < |s.orders| && s.orders[j].orderId == s.orders[at].orderId ==> j == at
    ensures s.q.Valid() && s.q.contents == s.orders && s.n.queue == s.q
    ensures Homed(side, s.n.price, s.orders[..at] + s.orders[at + 1..])
  {
    assert Indexes(s.q.orderMap, s.orders) && Distinct(s.orders);
    assert forall j :: 0 <= j < |s.orders| ==> s.orders[j] in s.orders;
  }

  /** Where the queue of a shelf keeps an order is where its level does. */
  lemma SamePlace(side: Side, s: Shelf, at: nat)
    requires ShelfOK(side, s) && at < |s.orders|
    ensures at < |LevelOf(s).orders| && IndexOf(LevelOf(s).orders, s.orders[at].orderId) == at
    ensures LevelOf(s).orders[at] == s.orders[at].State()
  {
    OneId(side, s, at);
    hide ShelfOK, States, IndexOf;
    FirstIndex(States(s.orders), s.orders[at].orderId, at);
  }

  lemma LackingLevel(s: Shelf, at: nat)
    requires at < |s.orders|
    ensures at < |LevelOf(s).orders|
    ensures Lacking(LevelOf(s), at) == Level(s.n.price, States(s.orders[..at] + s.orders[at + 1..]), s.n.totalQuantity,
                                             s.n.orderCount, Wrap64(s.q.totalQty - s.orders[at].State().Remaining()))
  {
    hide States, Wrap64, Order.State;
    StatesSplit(s.orders, at);
  }

  /** The order of an id leaves the queue of shelf k. */
  method RemoveFromShelf(queue: OrderQueue, order: Order, ghost tree: RedBlackTree, ghost side: Side, ghost shelves: seq<Shelf>,
                         ghost k: nat, ghost at: nat)
    requires k < |shelves| && Elsewhere(tree, side, shelves, k) && ShelfOK(side, shelves[k])
    requires OrdersOn(shelves[k]) !! ShelfOrders(Others(shelves, k))
    requires shelves[k].q == queue && at < |shelves[k].orders| && shelves[k].orders[at] == order
    modifies queue, shelves[k].orders`prev, shelves[k].orders`next
    ensures var s := Shelf(shelves[k].n, queue, shelves[k].orders[..at] + shelves[k].orders[at + 1..]);
      && Elsewhere(tree, side, shelves, k) && ShelfOK(side, s)
      && LadderOf(Others(shelves, k)) == old(LadderOf(Others(shelves, k)))
      && var l := old(LevelOf(shelves[k]));
         at < |l.orders| && at == IndexOf(l.orders, order.orderId) && l.orders[at] == order.State() && LevelOf(s) == Lacking(l, at)
  {
    hide *;
    ghost var s, r := shelves[k], Others(shelves, k);
    OneId(side, s, at);
    SamePlace(side, s, at);
    LackingLevel(s, at);
    Untouched(tree, side, shelves, k);
    assert allocated(tree.tree.Nodes());
    assert allocated(ShelfNodes(r)) && allocated(ShelfQueues(r)) && allocated(ShelfOrders(r));
    ghost var s' := Shelf(s.n, queue, s.orders[..at] + s.orders[at + 1..]);
    var found, where := queue.Remove(order.orderId);
    assert found && where == at;
    assert Elsewhere(tree, side, shelves, k) && LadderOf(r) == old(LadderOf(r));
    ShelfAgain(side, s');
    assert States(s'.orders) == old(States(s'.orders));
    assert order.State() == old(order.State());
  }

  /** An order of a side is on exactly one shelf, the one of its price. */
  lemma ShelfOfOrder(tree: RedBlackTree, side: Side, shelves: seq<Shelf>, order: Order) returns (k: nat)
    requires TreeOf(tree, side, shelves) && ShelvesOK(side, shelves) && order in ShelfOrders(shelves)
    ensures k < |shelves| && order in shelves[k].orders && order.price == shelves[k].n.price && order.side == side
  {
    hide TreeOf;
    var s :| s in shelves && order in s.orders;
    k :| 0 <= k < |shelves| && shelves[k] == s;
    assert ShelfOK(side, shelves[k]);
  }

  /** What the counters of shelf k say when it loses an order. */
  lemma CountLeft(s: Shelf, at: nat)
    requires at < |s.orders| && LevelOf(s).count == |LevelOf(s).orders| < TWO_32
    ensures (s.n.orderCount + -1) % TWO_32 == 0 <==> s.orders[..at] + s.orders[at + 1..] == []
    ensures at < |LevelOf(s).orders|
    ensures UpdateLevel(Lacking(LevelOf(s), at), -LevelOf(s).orders[at].Remaining(), -1) == Leave(LevelOf(s), at)
  {
    hide States, Wrap64, Order.State;
  }

  lemma SetSpliced(ladder: seq<Level>, k: nat, r: seq<Level>, l: Level, x: Level)
    requires k < |ladder| && r == ladder[..k] + ladder[k + 1..]
    ensures SetLevel(r[..k] + [l] + r[k..], k, x) == SetLevel(ladder, k, x)
  {
    var m := r[..k] + [l] + r[k..];
    assert m[..k] == ladder[..k] && m[k + 1..] == ladder[k + 1..];
    assert m[k := x] == ladder[k := x];
  }

  lemma DifferentPrices(tree: RedBlackTree, side: Side, shelves: seq<Shelf>, k: nat)
    requires TreeOf(tree, side, shelves) && k < |shelves|
    ensures |LadderOf(shelves)| == |shelves| && LadderOf(shelves)[k].price == shelves[k].n.price
    ensures forall i :: 0 <= i < k ==> LadderOf(shelves)[i].price != LadderOf(shelves)[k].price
  {
    hide TreeOf, LadderOf;
    ShelvesSorted(tree, side, shelves);
    assert forall i :: 0 <= i < k ==> Better(side, shelves[i].n.price, shelves[k].n.price);
  }

  lemma WithoutOne(side: Side, s: Shelf, at: nat)
    requires ShelfOK(side, s) && at < |s.orders|
    ensures OrdersOn(s.(orders := s.orders[..at] + s.orders[at + 1..])) == OrdersOn(s) - {s.orders[at]}
    ensures s.orders[at] in OrdersOn(s)
  {
    assert Distinct(s.orders);
    var r := s.orders[..at] + s.orders[at + 1..];
    forall o | o in s.orders && o != s.orders[at] ensures o in r {
      var i :| 0 <= i < |s.orders| && s.orders[i] == o;
      assert r[if i < at then i else i - 1] == o;
    }
  }

  lemma KeptSets(shelves: seq<Shelf>, k: nat, s: Shelf)
    requires k < |shelves| && s.n == shelves[k].n && s.q == shelves[k].q
    ensures var r := Kept(shelves[k := s], k);
      && ShelfOrders(r) == ShelfOrders(Others(shelves, k)) + OrdersOn(s)
      && ShelfNodes(r) <= ShelfNodes(shelves) && ShelfQueues(r) <= ShelfQueues(shelves)
    ensures ShelfOrders(shelves) == ShelfOrders(Others(shelves, k)) + OrdersOn(shelves[k])
  {
    hide ShelfOrders, ShelfNodes, ShelfQueues;
    SetsAfter(shelves, k, s);
    SetsAfter(shelves, k, shelves[k]);
    assert shelves[k := shelves[k]] == shelves;
    assert Others(shelves[k := s], k) == Others(shelves, k);
  }

  lemma LeftSets(tree: RedBlackTree, side: Side, shelves: seq<Shelf>, k: nat, at: nat)
    requires TreeOf(tree, side, shelves) && ShelvesOK(side, shelves) && k < |shelves| && at < |shelves[k].orders|
    ensures var s := shelves[k]; var r := Kept(shelves[k := s.(orders := s.orders[..at] + s.orders[at + 1..])], k);
      && ShelfOrders(r) == ShelfOrders(shelves) - {s.orders[at]}
      && ShelfNodes(r) <= ShelfNodes(shelves) && ShelfQueues(r) <= ShelfQueues(shelves)
  {
    hide *;
    FullFocus(tree, side, shelves, k);
    var s := shelves[k];
    WithoutOne(side, s, at);
    KeptSets(shelves, k, s.(orders := s.orders[..at] + s.orders[at + 1..]));
  }

  lemma LeftSetsAll(tree: RedBlackTree, side: Side, shelves: seq<Shelf>, k: nat)
    requires TreeOf(tree, side, shelves) && ShelvesOK(side, shelves) && k < |shelves|
    ensures shelves[k].n in ShelfNodes(shelves) && shelves[k].q in ShelfQueues(shelves)
    ensures forall o :: o in shelves[k].orders ==> o in ShelfOrders(shelves)
    ensures forall at :: 0 <= at < |shelves[k].orders| ==>
      var s := shelves[k]; var r := Kept(shelves[k := Shelf(s.n, s.q, s.orders[..at] + s.orders[at + 1..])], k);
      && ShelfOrders(r) == ShelfOrders(shelves) - {s.orders[at]}
      && ShelfNodes(r) <= ShelfNodes(shelves) && ShelfQueues(r) <= ShelfQueues(shelves)
  {
    assert shelves[k] in shelves;
    hide *;
    forall at | 0 <= at < |shelves[k].orders|
      ensures var s := shelves[k]; var r := Kept(shelves[k := Shelf(s.n, s.q, s.orders[..at] + s.orders[at + 1..])], k);
        && ShelfOrders(r) == ShelfOrders(shelves) - {s.orders[at]}
        && ShelfNodes(r) <= ShelfNodes(shelves) && ShelfQueues(r) <= ShelfQueues(shelves)
    {
      LeftSets(tree, side, shelves, k, at);
    }
  }

  /** An order leaves the queue of shelf k and is no longer counted. */
  method LeaveLevel(tree: RedBlackTree, queue: OrderQueue, order: Order, ghost side: Side, ghost shelves: seq<Shelf>, ghost k: nat)
    returns (ghost at: nat)
    requires TreeOf(tree, side, shelves) && ShelvesOK(side, shelves) && k < |shelves|
    requires shelves[k].q == queue && order in shelves[k].orders && order.price == shelves[k].n.price
    requires LevelOf(shelves[k]).count == |LevelOf(shelves[k]).orders| < TWO_32
    modifies tree`root, tree`nodeCount, tree`tree
    modifies tree.tree.Nodes()`left, tree.tree.Nodes()`right, tree.tree.Nodes()`parent, tree.tree.Nodes()`color
    modifies shelves[k].n`totalQuantity, shelves[k].n`orderCount, shelves[k].n`queue
    modifies queue, shelves[k].orders`prev, shelves[k].orders`next
    ensures at < |shelves[k].orders| && shelves[k].orders[at] == order
    ensures var s := Shelf(shelves[k].n, queue, shelves[k].orders[..at] + shelves[k].orders[at + 1..]);
      && TreeOf(tree, side, Kept(shelves[k := s], k)) && ShelvesOK(side, Kept(shelves[k := s], k))
      && LadderOf(Kept(shelves[k := s], k)) == RemoveFromLadder(old(LadderOf(shelves)), order.price, order.orderId)
  {
    hide *;
    FullFocus(tree, side, shelves, k);
    DifferentPrices(tree, side, shelves, k);
    ghost var was, l := LadderOf(shelves), LevelOf(shelves[k]);
    at :| 0 <= at < |shelves[k].orders| && shelves[k].orders[at] == order;
    CountLeft(shelves[k], at);
    SamePlace(side, shelves[k], at);
    RemoveFromShelf(queue, order, tree, side, shelves, k, at);
    assert l.orders[at] == order.State();
    ghost var s := Shelf(shelves[k].n, queue, shelves[k].orders[..at] + shelves[k].orders[at + 1..]);
    Unfocus(tree, side, shelves, k, s);
    RemoveAt(was, k, order.orderId);
    SetSpliced(was, k, LadderOf(Others(shelves, k)), LevelOf(s), Leave(l, at));
    ShelfAtIs(side, shelves[k := s], order.price, k);
    UpdatePriceLevel(tree, order.price, -order.State().Remaining(), -1, side, shelves[k := s], k);
  }

  /** cancelOrder, for one side: the order leaves its queue, and an emptied level leaves the tree. */
  method Withdraw(tree: RedBlackTree, order: Order, ghost side: Side, ghost shelves: seq<Shelf>)
    returns (ghost after: seq<Shelf>)
    requires TreeOf(tree, side, shelves) && ShelvesOK(side, shelves) && order in ShelfOrders(shelves)
    requires forall l :: l in LadderOf(shelves) ==> l.count == |l.orders| < TWO_32
    modifies tree`root, tree`nodeCount, tree`tree
    modifies tree.tree.Nodes()`left, tree.tree.Nodes()`right, tree.tree.Nodes()`parent, tree.tree.Nodes()`color
    modifies ShelfNodes(shelves)`totalQuantity, ShelfNodes(shelves)`orderCount, ShelfNodes(shelves)`queue
    modifies ShelfQueues(shelves), ShelfOrders(shelves)`prev, ShelfOrders(shelves)`next
    ensures TreeOf(tree, side, after) && ShelvesOK(side, after)
    ensures LadderOf(after) == RemoveFromLadder(old(LadderOf(shelves)), order.price, order.orderId)
    ensures ShelfOrders(after) == ShelfOrders(shelves) - {order}
    ensures ShelfNodes(after) <= ShelfNodes(shelves) && ShelfQueues(after) <= ShelfQueues(shelves)
    ensures order.State() == old(order.State())
  {
    hide *;
    ghost var was, o := LadderOf(shelves), order.State();
    ghost var k := ShelfOfOrder(tree, side, shelves, order);
    FullFocus(tree, side, shelves, k);
    SetsAfter(shelves, k, shelves[k]);
    assert shelves[k := shelves[k]] == shelves && was[k] in was;
    ShelfAtIs(side, shelves, order.price, k);
    var node := FindShelf(tree, order.price, side, shelves, k);
    ShelfAtIs(side, shelves, order.price, k);
    var queue := node.queue;
    TreeNodes(tree, side, shelves);
    ShelvesFull(side, shelves, k);
    LeftSetsAll(tree, side, shelves, k);
    ghost var at := LeaveLevel(tree, queue, order, side, shelves, k);
    ghost var s := Shelf(shelves[k].n, queue, shelves[k].orders[..at] + shelves[k].orders[at + 1..]);
    after := Kept(shelves[k := s], k);
  }

  // ---------- what a round changes about the sets of a side, and the best level ----------

  lemma RequeuedSets(shelves: seq<Shelf>)
    requires shelves != [] && shelves[0].orders != []
    ensures var r := AfterRequeue(shelves);
      ShelfOrders(r) == ShelfOrders(shelves) && ShelfNodes(r) == ShelfNodes(shelves) && ShelfQueues(r) == ShelfQueues(shelves)
  {
    hide ShelfOrders, ShelfNodes, ShelfQueues;
    var s := shelves[0].(orders := shelves[0].orders[1..] + [shelves[0].orders[0]]);
    SetsAfter(shelves, 0, s);
    SetsAfter(shelves, 0, shelves[0]);
    assert shelves[0 := shelves[0]] == shelves;
    forall o | o in shelves[0].orders ensures o in s.orders {
      var i :| 0 <= i < |shelves[0].orders| && shelves[0].orders[i] == o;
      assert s.orders[if i == 0 then |s.orders| - 1 else i - 1] == o;
    }
    assert OrdersOn(s) == OrdersOn(shelves[0]);
  }

  lemma RoundSets(tree: RedBlackTree, side: Side, shelves: seq<Shelf>, order: Order, m: OrderState)
    requires AtFront(tree, side, shelves, order)
    ensures shelves != [] && shelves[0].orders != []
    ensures var r := AfterRound(shelves, m);
      && ShelfOrders(r) == (if m.IsTotallyFilled() then ShelfOrders(shelves) - {order} else ShelfOrders(shelves))
      && ShelfNodes(r) <= ShelfNodes(shelves) && ShelfQueues(r) <= ShelfQueues(shelves)
  {
    hide TreeOf, ShelvesOK, ShelfOrders, ShelfNodes, ShelfQueues;
    RequeuedSets(shelves);
    LeftSets(tree, side, shelves, 0, 0);
    var s := shelves[0];
    assert s.orders[..0] + s.orders[0 + 1..] == s.orders[1..];
  }

  lemma BestIs(tree: RedBlackTree, side: Side, shelves: seq<Shelf>)
    requires TreeOf(tree, side, shelves)
    ensures tree.Valid() && (shelves == [] <==> tree.tree.Leaf?)
    ensures shelves != [] ==> tree.tree.InOrder() != []
    ensures shelves != [] ==> shelves[0].n == if side == Sell then tree.tree.InOrder()[0] else tree.tree.Last()
  {
    var s := tree.tree.InOrder();
    ReverseLength(s);
    InOrderMembers(tree.tree);
    if s != [] {
      BestFirstAt(side, s, 0);
    }
  }

  lemma BestQueue(side: Side, shelves: seq<Shelf>)
    requires ShelvesOK(side, shelves) && shelves != []
    ensures shelves[0].n.queue == shelves[0].q && shelves[0].n in ShelfNodes(shelves)
  {
    assert shelves[0] in shelves;
    assert ShelfOK(side, shelves[0]);
  }

  /** The best node of a side, or null. */
  method BestNode(tree: RedBlackTree, side: Side, ghost shelves: seq<Shelf>) returns (n: RBNode?)
    requires TreeOf(tree, side, shelves) && ShelvesOK(side, shelves)
    ensures n == if shelves == [] then null else shelves[0].n
    ensures TreeOf(tree, side, shelves) && ShelvesOK(side, shelves) && LadderOf(shelves) == old(LadderOf(shelves))
    ensures n != null ==> n.queue == shelves[0].q && n.queue != null
  {
    hide *;
    BestIs(tree, side, shelves);
    assert allocated(tree.tree.Nodes());
    assert allocated(ShelfNodes(shelves)) && allocated(ShelfQueues(shelves)) && allocated(ShelfOrders(shelves));
    if side == Sell {
      n := tree.GetMinimum();
    } else {
      n := tree.GetMaximum();
    }
    if n != null {
      BestQueue(side, shelves);
    }
  }

  /** The nodes of a side, best price first, as a traversal calls back on them. */
  method WalkSide(tree: RedBlackTree, reverse: bool, ghost shelves: seq<Shelf>) returns (calls: seq<RBNode>)
    requires TreeOf(tree, if reverse then Buy else Sell, shelves)
    ensures calls == NodesOf(shelves)
  {
    if reverse {
      calls := tree.TraverseReverseInOrder(tree.root, [], tree.tree, null);
    } else {
      calls := tree.TraverseInOrder(tree.root, [], tree.tree, null);
    }
  }

  lemma LevelFields(shelves: seq<Shelf>)
    ensures |LadderOf(shelves)| == |shelves|
    ensures forall i :: 0 <= i < |shelves| ==>
      var l, n := LadderOf(shelves)[i], NodesOf(shelves)[i];
      l.price == n.price && l.quantity == n.totalQuantity && l.count == n.orderCount && l.queueQuantity == shelves[i].q.totalQty
  {
    hide LadderOf;
  }

  /** What the loop reads off the best level. */
  lemma BestParts(tree: RedBlackTree, side: Side, shelves: seq<Shelf>)
    requires TreeOf(tree, side, shelves) && ShelvesOK(side, shelves) && shelves != []
    requires LevelOK(side, LadderOf(shelves)[0])
    ensures var s := shelves[0];
      && s.n.queue == s.q && s.orders != [] && s.q.head == s.orders[0]
      && BestReady(tree, s.q, s.n.price, side, shelves) && AtFront(tree, side, shelves, s.orders[0])
      && LadderOf(shelves)[0].price == s.n.price && LadderOf(shelves)[0].orders != []
      && LadderOf(shelves)[0].orders[0] == s.orders[0].State()
      && s.q in ShelfQueues(shelves) && s.n in ShelfNodes(shelves) && forall o :: o in s.orders ==> o in ShelfOrders(shelves)
  {
    hide TreeOf, LadderOf;
    assert ShelfOK(side, shelves[0]) && shelves[0] in shelves;
    assert LadderOf(shelves)[0] == LevelOf(shelves[0]);
  }
}
