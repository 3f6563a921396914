/** The price levels of one side of the book in memory, seen as the ladder of Matching. */
module Shelves {
  import opened Orders
  import opened OrderQueues
  import opened PriceTrees
  import opened RedBlackTrees
  import opened Matching

  /** A tree node, the queue it points to, and the orders the queue threads. */
  datatype Shelf = Shelf(n: RBNode, q: OrderQueue, orders: seq<Order>)

  ghost function States(orders: seq<Order>): (r: seq<OrderState>)
    reads orders`orderId, orders`side, orders`price, orders`quantity, orders`filledQuantity,
          orders`isIceberg, orders`peakQuantity, orders`visibleQuantity, orders`hiddenQuantity, orders`visibleFilledQuantity
    ensures |r| == |orders| && forall i :: 0 <= i < |r| ==> r[i] == orders[i].State()
  {
    if orders == [] then [] else [orders[0].State()] + States(orders[1..])
  }

  lemma StatesConcat(a: seq<Order>, b: seq<Order>)
    ensures States(a + b) == States(a) + States(b)
  {
    hide States, Order.State;
  }

  lemma StatesSplit(orders: seq<Order>, at: nat)
    requires at < |orders|
    ensures States(orders)[at] == orders[at].State()
    ensures States(orders[..at] + orders[at + 1..]) == States(orders)[..at] + States(orders)[at + 1..]
  {
    hide States, Order.State;
    var a, b := orders[..at], orders[at + 1..];
    StatesConcat(a, b);
    assert States(a) == States(orders)[..at];
    assert States(b) == States(orders)[at + 1..];
  }

  lemma StatesJoin(orders: seq<Order>, o: Order)
    ensures States(orders + [o]) == States(orders) + [o.State()]
  {
    hide States, Order.State;
  }

  ghost function LevelOf(s: Shelf): Level
    reads s.n`totalQuantity, s.n`orderCount, s.q`totalQty
    reads s.orders`orderId, s.orders`side, s.orders`price, s.orders`quantity, s.orders`filledQuantity,
          s.orders`isIceberg, s.orders`peakQuantity, s.orders`visibleQuantity, s.orders`hiddenQuantity, s.orders`visibleFilledQuantity
  {
    Level(s.n.price, States(s.orders), s.n.totalQuantity, s.n.orderCount, s.q.totalQty)
  }

  ghost function ShelfNodes(shelves: seq<Shelf>): set<RBNode> {
    set s | s in shelves :: s.n
  }

  ghost function ShelfQueues(shelves: seq<Shelf>): set<OrderQueue> {
    set s | s in shelves :: s.q
  }

  ghost function OrdersOn(s: Shelf): set<Order> {
    set o | o in s.orders
  }

  ghost function ShelfOrders(shelves: seq<Shelf>): set<Order> {
    set s, o | s in shelves && o in s.orders :: o
  }

  ghost function LadderOf(shelves: seq<Shelf>): (r: seq<Level>)
    reads ShelfNodes(shelves)`totalQuantity, ShelfNodes(shelves)`orderCount, ShelfQueues(shelves)`totalQty
    reads ShelfOrders(shelves)`orderId, ShelfOrders(shelves)`side, ShelfOrders(shelves)`price, ShelfOrders(shelves)`quantity, ShelfOrders(shelves)`filledQuantity,
          ShelfOrders(shelves)`isIceberg, ShelfOrders(shelves)`peakQuantity, ShelfOrders(shelves)`visibleQuantity, ShelfOrders(shelves)`hiddenQuantity, ShelfOrders(shelves)`visibleFilledQuantity
    ensures |r| == |shelves| && forall i :: 0 <= i < |r| ==> r[i] == LevelOf(shelves[i])
  {
    if shelves == [] then []
    else
      assert shelves[0] in shelves && forall o :: o in shelves[0].orders ==> o in ShelfOrders(shelves);
      [LevelOf(shelves[0])] + LadderOf(shelves[1..])
  }

  ghost function NodesOf(shelves: seq<Shelf>): (r: seq<RBNode>)
    ensures |r| == |shelves| && forall i :: 0 <= i < |r| ==> r[i] == shelves[i].n
  {
    if shelves == [] then [] else [shelves[0].n] + NodesOf(shelves[1..])
  }

  /** Orders that stand on the given side at the given price. */
  ghost predicate Homed(side: Side, price: int, orders: seq<Order>)
    reads orders`side, orders`price
  {
    forall o :: o in orders ==> o.side == side && o.price == price
  }

  /** A node with its queue: linked, and all its orders of the node's price and side. */
  ghost predicate ShelfOK(side: Side, s: Shelf)
    reads s.n`queue, s.q`contents, s.q`head, s.q`tail, s.q`orderCount, s.q`orderMap
    reads s.orders`prev, s.orders`next, s.orders`orderId, s.orders`side, s.orders`price
  {
    s.n.queue == s.q && s.q.contents == s.orders && s.q.Valid() && Homed(side, s.n.price, s.orders)
  }

  /** The nodes of a tree, best price first. */
  ghost function BestFirst(side: Side, s: seq<RBNode>): seq<RBNode> {
    if side.Sell? then s else Reverse(s)
  }

  /** Shelves in order, none empty but perhaps shelf k, and no queue on two of them. */
  ghost predicate ShelvesBut(side: Side, shelves: seq<Shelf>, k: int)
    reads ShelfNodes(shelves)`queue, ShelfQueues(shelves)`contents, ShelfQueues(shelves)`head, ShelfQueues(shelves)`tail,
          ShelfQueues(shelves)`orderCount, ShelfQueues(shelves)`orderMap
    reads ShelfOrders(shelves)`prev, ShelfOrders(shelves)`next, ShelfOrders(shelves)`orderId,
          ShelfOrders(shelves)`side, ShelfOrders(shelves)`price
  {
    && (forall i :: 0 <= i < |shelves| ==>
         (assert shelves[i] in shelves && forall o :: o in shelves[i].orders ==> o in ShelfOrders(shelves);
          ShelfOK(side, shelves[i]) && (i != k ==> shelves[i].orders != [])))
    && (forall i, j :: 0 <= i < j < |shelves| ==> shelves[i].q != shelves[j].q && shelves[i].n != shelves[j].n)
  }

  ghost predicate ShelvesOK(side: Side, shelves: seq<Shelf>)
    reads ShelfNodes(shelves)`queue, ShelfQueues(shelves)`contents, ShelfQueues(shelves)`head, ShelfQueues(shelves)`tail,
          ShelfQueues(shelves)`orderCount, ShelfQueues(shelves)`orderMap
    reads ShelfOrders(shelves)`prev, ShelfOrders(shelves)`next, ShelfOrders(shelves)`orderId,
          ShelfOrders(shelves)`side, ShelfOrders(shelves)`price
  {
    ShelvesBut(side, shelves, -1)
  }

  /** The tree holds exactly the nodes of the shelves, and the shelves stand in its order. */
  ghost predicate TreeOf(tree: RedBlackTree, side: Side, shelves: seq<Shelf>)
    reads tree`root, tree`nodeCount, tree`tree
    reads tree.tree.Nodes()`left, tree.tree.Nodes()`right, tree.tree.Nodes()`parent, tree.tree.Nodes()`color
  {
    tree.Valid() && NodesOf(shelves) == BestFirst(side, tree.tree.InOrder())
  }

  lemma ShelvesDrop(side: Side, shelves: seq<Shelf>, k: nat)
    requires k < |shelves| && ShelvesBut(side, shelves, k)
    ensures ShelvesOK(side, shelves[..k] + shelves[k + 1..])
    ensures shelves[k].n !in ShelfNodes(shelves[..k] + shelves[k + 1..])
  {
    hide ShelfOK;
    var r := shelves[..k] + shelves[k + 1..];
    assert forall i :: 0 <= i < |r| ==> r[i] == shelves[if i < k then i else i + 1];
  }

  lemma ShelvesFull(side: Side, shelves: seq<Shelf>, k: nat)
    requires k < |shelves| && ShelvesBut(side, shelves, k) && shelves[k].orders != []
    ensures ShelvesOK(side, shelves)
  {
    hide ShelfOK;
  }

  lemma ShelvesApart(side: Side, shelves: seq<Shelf>, k: nat)
    requires k < |shelves| && ShelvesBut(side, shelves, k)
    ensures forall i :: 0 <= i < |shelves| && i != k ==> shelves[i].n != shelves[k].n && shelves[i].q != shelves[k].q
    ensures ShelfOK(side, shelves[k])
  {
    hide ShelfOK;
  }

  lemma NodesConcat(a: seq<Shelf>, b: seq<Shelf>)
    ensures NodesOf(a + b) == NodesOf(a) + NodesOf(b)
  {
    hide NodesOf;
  }

  lemma NodesDrop(shelves: seq<Shelf>, k: nat)
    requires k < |shelves|
    ensures NodesOf(shelves[..k] + shelves[k + 1..]) == NodesOf(shelves)[..k] + NodesOf(shelves)[k + 1..]
  {
    hide NodesOf;
    var a, b := shelves[..k], shelves[k + 1..];
    NodesConcat(a, b);
    assert NodesOf(a) == NodesOf(shelves)[..k];
    assert NodesOf(b) == NodesOf(shelves)[k + 1..];
  }

  lemma LadderConcat(a: seq<Shelf>, b: seq<Shelf>)
    ensures LadderOf(a + b) == LadderOf(a) + LadderOf(b)
  {
    hide LevelOf, LadderOf;
  }

  lemma LadderDrop(shelves: seq<Shelf>, k: nat)
    requires k < |shelves|
    ensures LadderOf(shelves[..k] + shelves[k + 1..]) == LadderOf(shelves)[..k] + LadderOf(shelves)[k + 1..]
  {
    hide LevelOf, LadderOf;
    var a, b := shelves[..k], shelves[k + 1..];
    LadderConcat(a, b);
    assert LadderOf(a) == LadderOf(shelves)[..k];
    assert LadderOf(b) == LadderOf(shelves)[k + 1..];
  }

  // ---------- best-first order and the tree ----------

  lemma BestFirstAt(side: Side, s: seq<RBNode>, k: nat)
    requires k < |s|
    ensures |BestFirst(side, s)| == |s|
    ensures BestFirst(side, s)[k] == if side.Sell? then s[k] else s[|s| - 1 - k]
  {
    ReverseAt(s, k);
  }

  lemma ReverseLength(s: seq<RBNode>)
    ensures |Reverse(s)| == |s|
  {
    if s != [] {
      ReverseAt(s, 0);
    }
  }

  /** Dropping a node from the tree order drops it from the ladder order. */
  lemma BestFirstDrop(side: Side, s: seq<RBNode>, i: nat)
    requires i < |s|
    ensures var k := if side.Sell? then i else |s| - 1 - i; var b := BestFirst(side, s);
      |b| == |s| && b[k] == s[i] && BestFirst(side, s[..i] + s[i + 1..]) == b[..k] + b[k + 1..]
  {
    BestFirstAt(side, s, if side.Sell? then i else |s| - 1 - i);
    if side.Buy? {
      assert s == s[..i] + ([s[i]] + s[i + 1..]);
      ReverseConcat(s[..i], [s[i]] + s[i + 1..]);
      ReverseConcat([s[i]], s[i + 1..]);
      ReverseConcat(s[..i], s[i + 1..]);
      ReverseLength(s[i + 1..]);
      ReverseLength(s[..i]);
    }
  }

  /** The same for a node put in. */
  lemma BestFirstInsert(side: Side, s: seq<RBNode>, i: nat, z: RBNode)
    requires i <= |s|
    ensures var k := if side.Sell? then i else |s| - i; var b := BestFirst(side, s);
      |b| == |s| && BestFirst(side, s[..i] + [z] + s[i..]) == b[..k] + [z] + b[k..]
  {
    if side.Buy? {
      assert s == s[..i] + s[i..] && s[..i] + [z] + s[i..] == s[..i] + ([z] + s[i..]);
      ReverseConcat(s[..i], s[i..]);
      ReverseConcat(s[..i], [z] + s[i..]);
      ReverseConcat([z], s[i..]);
      ReverseLength(s[i..]);
      ReverseLength(s[..i]);
    }
  }

  /** Ladder order is price order of the side. */
  lemma BestFirstSorted(side: Side, s: seq<RBNode>)
    requires Sorted(s)
    ensures var b := BestFirst(side, s); |b| == |s| && forall i, j :: 0 <= i < j < |b| ==> Better(side, b[i].price, b[j].price)
  {
    var b := BestFirst(side, s);
    ReverseLength(s);
    forall i, j | 0 <= i < j < |b| ensures Better(side, b[i].price, b[j].price) {
      BestFirstAt(side, s, i);
      BestFirstAt(side, s, j);
    }
  }
}
