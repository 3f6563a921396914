/** The order book in memory (server/src/core/OrderBook.cpp), proved to do what Books says. */
module OrderBooks {
  import opened Orders
  import opened OrderQueues
  import opened PriceTrees
  import opened RedBlackTrees
  import opened Matching
  import opened Shelves
  import opened BookSides
  import opened MatchingLaws
  import opened PriorityQueues
  import opened Cancelling
  import opened Books

  /** The id maps hold exactly the given orders, with their sides. */
  ghost predicate Indexed(index: map<nat, Order>, sides: map<nat, Side>, orders: set<Order>)
    reads orders`orderId, orders`side
  {
    && index.Keys == sides.Keys
    && (forall o :: o in orders ==> o.orderId in index && index[o.orderId] == o)
    && (forall id :: id in index ==> index[id] in orders && index[id].orderId == id && index[id].side == sides[id])
  }

  /** Every entry of m is one of n. */
  ghost predicate Within<T>(m: map<nat, T>, n: map<nat, T>) {
    forall id :: id in m ==> id in n && m[id] == n[id]
  }

  lemma WithinLaws<T>(m: map<nat, T>, n: map<nat, T>, k: map<nat, T>, id: nat)
    ensures Within(m, m) && Within(m - {id}, m)
    ensures Within(m, n) && Within(n, k) ==> Within(m, k)
    ensures Within(m, n) && id !in n ==> id !in m
    ensures Within(m, n) ==> Within(m - {id}, n)
  {
  }

  /** What an order says of itself. */
  datatype Note = Note(state: OrderState, status: Status, retired: bool)

  ghost function Notes(orders: set<Order>): (r: map<Order, Note>)
    reads orders`orderId, orders`side, orders`price, orders`quantity, orders`filledQuantity, orders`isIceberg
    reads orders`peakQuantity, orders`visibleQuantity, orders`hiddenQuantity, orders`visibleFilledQuantity
    reads orders`status, orders`retired
    ensures r.Keys == orders
  {
    map o | o in orders :: Note(o.State(), o.status, o.retired)
  }

  /** From was to now: an order that stayed is as it was, or partially filled and no more retired than it was; one that
      left is retired. */
  ghost predicate Noted(was: map<Order, Note>, now: map<Order, Note>, stay: set<Order>) {
    was.Keys == now.Keys && forall o :: o in was ==>
      && (now[o].status == was[o].status || now[o].status == PartialFilled)
      && if o in stay then now[o].retired == was[o].retired && (now[o] == was[o] || now[o].status == PartialFilled)
         else now[o].retired
  }

  lemma NotesSplit(all: set<Order>, part: set<Order>)
    requires part <= all
    ensures Notes(all) == Notes(part) + Notes(all - part)
    ensures Notes(part).Keys == part && Notes(all - part).Keys == all - part
  {
  }

  ghost function Only(notes: map<Order, Note>, orders: set<Order>): map<Order, Note> {
    map o | o in orders && o in notes :: notes[o]
  }

  lemma StateFields(o: Order)
    ensures o.State() == OrderState(o.orderId, o.side, o.price, o.quantity, o.filledQuantity, o.isIceberg,
                                    o.peakQuantity, o.visibleQuantity, o.hiddenQuantity, o.visibleFilledQuantity)
  {
  }

  lemma NotesOnly(all: set<Order>, part: set<Order>)
    requires part <= all
    ensures Notes(part) == Only(Notes(all), part)
  {
  }

  lemma NotesUnion(a: set<Order>, b: set<Order>)
    requires a !! b
    ensures Notes(a + b) == Notes(a) + Notes(b)
  {
  }

  lemma NotesButOne(all: set<Order>, o: Order)
    requires o in all
    ensures Notes(all) == map[o := Note(o.State(), o.status, o.retired)] + Notes(all - {o})
    ensures o !in Notes(all - {o})
  {
  }

  lemma NotedLaws(was: map<Order, Note>, stay: set<Order>)
    ensures was.Keys <= stay ==> Noted(was, was, stay)
  {
  }

  /** One more order that was still there trades, and stays or leaves. */
  lemma NotedNext(was: map<Order, Note>, o: Order, before: Note, now: Note, rest: map<Order, Note>, stay: set<Order>, stay': set<Order>)
    requires Noted(was, map[o := before] + rest, stay) && o !in rest && o in stay && stay - {o} <= stay' <= stay
    requires now.status == before.status || now.status == PartialFilled
    requires if o in stay' then now.retired == before.retired && now.status == PartialFilled else now.retired
    ensures Noted(was, map[o := now] + rest, stay')
  {
  }

  lemma NotedMore(was: map<Order, Note>, now: map<Order, Note>, stay: set<Order>, o: Order)
    requires Noted(was, now, stay) && o !in was
    ensures Noted(was, now, stay + {o})
  {
  }

  /** And some that nothing happened to. */
  lemma NotedBeside(was: map<Order, Note>, now: map<Order, Note>, rest: map<Order, Note>, stay: set<Order>, kept: set<Order>)
    requires Noted(was, now, stay) && rest.Keys <= kept && was.Keys !! kept
    ensures Noted(was + rest, now + rest, stay + kept)
  {
  }

  lemma WithinOne<T>(m: map<nat, T>, n: map<nat, T>, id: nat, x: T)
    requires Within(m, n)
    ensures Within(m - {id}, n) && Within(m[id := x] - {id}, n)
  {
  }

  lemma IndexedWithout(index: map<nat, Order>, sides: map<nat, Side>, orders: set<Order>, o: Order)
    requires Indexed(index, sides, orders) && o in orders
    ensures Indexed(index - {o.orderId}, sides - {o.orderId}, orders - {o})
  {
  }

  lemma IndexedWith(index: map<nat, Order>, sides: map<nat, Side>, orders: set<Order>, o: Order)
    requires Indexed(index, sides, orders) && o.orderId !in index
    ensures Indexed(index[o.orderId := o], sides[o.orderId := o.side], orders + {o})
  {
  }

  lemma FrontOf(shelves: seq<Shelf>, front: Order, order: Order)
    requires shelves != [] && front in OrdersOn(shelves[0]) && order !in ShelfOrders(shelves)
    ensures order !in shelves[0].orders && order !in ShelfOrders(Others(shelves, 0))
  {
    assert shelves[0] in shelves;
    forall s | s in Others(shelves, 0) ensures s in shelves {}
  }

  /** The first order of a shelf stands neither behind itself nor elsewhere. */
  lemma FrontApart(s: Shelf, r: seq<Shelf>, front: Order)
    requires s.orders != [] && s.orders[0] == front && Distinct(s.orders) && OrdersOn(s) !! ShelfOrders(r)
    ensures front !in s.orders[1..] && front !in ShelfOrders(r)
  {
    assert front in OrdersOn(s);
  }

  lemma FrontLevel(s: Shelf, front: Order)
    requires s.orders != [] && s.orders[0] == front
    ensures LevelOf(s).orders == [front.State()] + States(s.orders[1..])
    ensures forall m :: WithFront(LevelOf(s), m) == LevelOf(s).(orders := [m] + States(s.orders[1..]))
    ensures LevelOf(s).price == s.n.price && LevelOf(s).quantity == s.n.totalQuantity
    ensures LevelOf(s).count == s.n.orderCount && LevelOf(s).queueQuantity == s.q.totalQty
    ensures LevelOf(s) == WithFront(LevelOf(s), front.State())
  {
    hide Order.State;
    assert ([front.State()] + States(s.orders[1..]))[1..] == States(s.orders[1..]);
  }

  lemma ExecuteIs(id: nat, taker: OrderState, maker: OrderState, price: int, q: nat)
    ensures Execute(id, taker, maker, price, q) ==
      if taker.side == Buy then Trade(id, taker.id, maker.id, price, q, taker.iceberg, maker.iceberg)
      else Trade(id, maker.id, taker.id, price, q, maker.iceberg, taker.iceberg)
  {
  }

  lemma FillKeepsSide(o: OrderState, q: nat)
    ensures o.Fill(q).side == o.side
  {
  }

  /** One round of the pure loop, taken apart as the code takes it. */
  lemma BestLevel(s: Match)
    requires s.Valid() && s.Enabled()
    ensures s.ladder != [] && LevelOK(s.RestingSide(), s.ladder[0])
  {
    assert s.ladder[0] in s.ladder;
  }

  lemma StepParts(s: Match)
    requires s.Valid() && s.Enabled()
    ensures s.ladder != [] && s.ladder[0].orders != [] && LevelOK(s.RestingSide(), s.ladder[0])
    ensures var l, q, s' := s.ladder[0], s.TradeQuantity(), Step(s);
      var m := l.orders[0].Fill(q);
      && s'.taker == s.taker.Fill(q) && s'.nextId == s.nextId + 1
      && s'.trades == s.trades + [Execute(s.nextId + 1, s'.taker, m, l.price, q)]
      && s'.done == (if m.IsTotallyFilled() then s.done + [m] else s.done)
      && s'.ladder == SetBest([WithFront(l, m)] + s.ladder[1..], Settle(WithFront(l, m), m, q))
  {
    var l, q := s.ladder[0], s.TradeQuantity();
    assert l in s.ladder;
    var m := l.orders[0].Fill(q);
    SettleSame(l, m, q);
    assert ([WithFront(l, m)] + s.ladder[1..])[1..] == s.ladder[1..];
  }

  lemma SettleSame(l: Level, m: OrderState, q: nat)
    requires l.orders != []
    ensures Settle(WithFront(l, m), m, q) == Settle(l, m, q)
  {
    hide Wrap64, UpdateLevel;
    assert WithFront(l, m).orders[1..] == l.orders[1..];
  }

  lemma TradeQuantityIs(s: Match, order: Order, front: Order)
    requires s.Valid() && s.Enabled() && s.taker == order.State() && s.ladder[0].orders[0] == front.State()
    ensures s.TradeQuantity() ==
      if order.State().Remaining() <= front.State().Remaining() then order.State().Remaining() else front.State().Remaining()
  {
  }

  /** A round of the pure loop, and what is left for the rest of it. */
  lemma StepOn(s: Match)
    requires s.Valid() && s.Enabled() && Live(s)
    ensures Step(s).Valid() && Live(Step(s)) && MatchAll(Step(s)) == MatchAll(s)
    ensures Step(s).RestingSide() == s.RestingSide() && Step(s).taker.price == s.taker.price
    ensures Step(s).taker.TotalRemaining() <= s.taker.TotalRemaining()
    ensures Step(s).taker.TotalRemaining() == s.taker.TotalRemaining() ==>
      0 <= Sum(Exhausted, Flat(Step(s).ladder)) < Sum(Exhausted, Flat(s.ladder))
    ensures 0 < s.taker.TotalRemaining() && 0 <= Step(s).taker.TotalRemaining()
    ensures s.trades <= Step(s).trades && s.done <= Step(s).done
  {
    StepKeeps(s);
    StepLive(s);
    CountNonnegative(Exhausted, Flat(Step(s).ladder));
    assert s.taker.Valid() && Step(s).taker.Valid();
  }

  lemma Stops(s: Match)
    requires s.Valid() && Live(s) && !s.Enabled()
    ensures MatchAll(s) == s
  {
  }

  /** The guards of the code are the guards of the pure loop. */
  lemma Guards(tree: RedBlackTree, side: Side, shelves: seq<Shelf>, s: Match, order: Order)
    requires TreeOf(tree, side, shelves) && ShelvesOK(side, shelves) && s.Valid() && s.RestingSide() == side
    requires s.ladder == LadderOf(shelves) && s.taker == order.State()
    ensures tree.root == null <==> shelves == []
    ensures shelves == [] ==> !s.Enabled()
    ensures shelves != [] ==>
      var n := shelves[0].n;
      && n.queue != null && n.queue.head != null && n in ShelfNodes(shelves) && n.queue in ShelfQueues(shelves)
      && (s.Enabled() <==> !order.State().IsTotallyFilled() && !Better(side, order.price, n.price))
    ensures order.State().IsTotallyFilled() ==> !s.Enabled()
  {
    hide TreeOf, ShelvesOK, LadderOf, LadderOK;
    EmptyTree(tree, side, shelves);
    if shelves != [] {
      BestOf(side, s);
      BestParts(tree, side, shelves);
    }
  }

  lemma BestOf(side: Side, s: Match)
    requires s.Valid() && s.RestingSide() == side && s.ladder != []
    ensures LevelOK(side, s.ladder[0])
  {
    assert s.ladder[0] in s.ladder;
  }

  lemma EmptyTree(tree: RedBlackTree, side: Side, shelves: seq<Shelf>)
    requires TreeOf(tree, side, shelves)
    ensures tree.root == null <==> shelves == []
  {
    InOrderMembers(tree.tree);
    ReverseLength(tree.tree.InOrder());
  }

  lemma Extended<T>(base: seq<T>, a: seq<T>, b: seq<T>)
    requires a <= b
    ensures base + a + b[|a|..] == base + b
  {
  }

  /** One side of the book in memory. */
  ghost predicate SideOK(tree: RedBlackTree, side: Side, shelves: seq<Shelf>)
    reads tree, ShelfNodes(shelves), ShelfQueues(shelves), ShelfOrders(shelves)
  {
    tree.tree.Nodes() == ShelfNodes(shelves) && TreeOf(tree, side, shelves) && ShelvesOK(side, shelves)
  }

  lemma SideParts(tree: RedBlackTree, side: Side, shelves: seq<Shelf>)
    ensures SideOK(tree, side, shelves) <==> TreeOf(tree, side, shelves) && ShelvesOK(side, shelves)
    ensures SideOK(tree, side, shelves) ==> tree.tree.Nodes() == ShelfNodes(shelves)
  {
    hide TreeOf, ShelvesOK;
    if TreeOf(tree, side, shelves) {
      TreeNodes(tree, side, shelves);
    }
  }

  lemma IncomingParts(b: Book, o: OrderState)
    ensures var s, side := Incoming(b, o), o.side.Opposite();
      && s.RestingSide() == side && s.trades == [] && s.done == [] && s.taker == o && s.nextId == b.lastTrade
      && s.ladder == b.Ladder(side)
  {
  }

  /** A book that differs from another in one ladder and the trade counter only. */
  lemma MatchedLadder(b: Book, v: Book, side: Side)
    requires v.Ladder(side.Opposite()) == b.Ladder(side.Opposite()) && v.sequence == b.sequence
    ensures v == b.With(side, v.Ladder(side)).(lastTrade := v.lastTrade)
  {
  }

  lemma Gone(a: set<Order>, b: set<Order>, o: Order)
    requires a !! b && o in a
    ensures a + b - {o} == (a - {o}) + b && a - {o} !! b
  {
  }

  lemma Come(a: set<Order>, b: set<Order>, o: Order)
    requires a !! b && o !in a + b
    ensures a + b + {o} == (a + {o}) + b && a + {o} !! b
  {
  }

  lemma Either(a: set<Order>, b: set<Order>)
    ensures a + b == b + a
  {
  }

  lemma LeftOver(a: set<Order>, a': set<Order>, b: set<Order>, left: set<Order>)
    requires a' <= a && a !! b && left == (a + b) - (a - a')
    ensures left == a' + b && left == b + a' && a' !! b && left <= a + b
  {
  }

  lemma {:induction false} RoomCounts(side: Side, ladder: seq<Level>, l: Level)
    requires LadderOK(side, ladder) && l in ladder
    ensures l.count == |l.orders| <= |Flat(ladder)|
  {
    if l != ladder[0] {
      assert l in ladder[1..];
      RoomCounts(side, ladder[1..], l);
    }
    assert ladder[0] in ladder;
  }

  /** Orders with other ids are other orders. */
  lemma StrangeId(index: map<nat, Order>, sides: map<nat, Side>, all: set<Order>, part: set<Order>, order: Order)
    requires Indexed(index, sides, all) && part <= all && order.orderId !in index
    ensures IdFree(order.orderId, part) && order !in all
  {
  }

  lemma {:induction false} LevelInFlat(ladder: seq<Level>, l: Level, o: OrderState)
    requires l in ladder && o in l.orders
    ensures o in Flat(ladder)
  {
    if l != ladder[0] {
      LevelInFlat(ladder[1..], l, o);
    }
  }

  /** An order in memory is an order of the ladder. */
  lemma InLadder(shelves: seq<Shelf>, o: Order)
    requires o in ShelfOrders(shelves)
    ensures o.State() in Flat(LadderOf(shelves))
  {
    hide LadderOf, Flat, Order.State;
    var s :| s in shelves && o in s.orders;
    var i :| 0 <= i < |shelves| && shelves[i] == s;
    var j :| 0 <= j < |s.orders| && s.orders[j] == o;
    assert LadderOf(shelves)[i] == LevelOf(s) && States(s.orders)[j] == o.State();
    LevelInFlat(LadderOf(shelves), LevelOf(s), o.State());
  }

  lemma {:induction false} LevelOfFlat(ladder: seq<Level>, o: OrderState) returns (l: Level)
    requires o in Flat(ladder)
    ensures l in ladder && o in l.orders
  {
    if o in ladder[0].orders {
      l := ladder[0];
    } else {
      l := LevelOfFlat(ladder[1..], o);
    }
  }

  /** An order of the ladder is an order in memory. */
  lemma FromLadder(shelves: seq<Shelf>, x: OrderState) returns (o: Order)
    requires x in Flat(LadderOf(shelves))
    ensures o in ShelfOrders(shelves) && o.State() == x
  {
    hide LadderOf, Flat, Order.State;
    var l := LevelOfFlat(LadderOf(shelves), x);
    var i :| 0 <= i < |shelves| && LadderOf(shelves)[i] == l;
    assert l == LevelOf(shelves[i]) && shelves[i] in shelves;
    var j :| 0 <= j < |l.orders| && l.orders[j] == x;
    o := shelves[i].orders[j];
    assert o in shelves[i].orders && States(shelves[i].orders)[j] == o.State();
  }

  /** A resting order is what its id finds. */
  lemma SoleId(h: History, o: OrderState)
    requires h.Sound() && o in Flat(h.book.Ladder(o.side))
    ensures var i := IndexOf(h.book.Orders(), o.id); i < |h.book.Orders()| && h.book.Orders()[i] == o
  {
    var queue, w := h.book.Orders(), CopiesOf(o.id);
    assert o in queue;
    IndexOfAbsent(queue, o.id);
    assert Sum(w, queue) <= 1;
    CopiesUnique(queue, o.id);
    SameId(queue, o, queue[IndexOf(queue, o.id)]);
  }

  /** cancelOrder as a value, for an order that rests. */
  lemma CancelParts(h: History, o: OrderState)
    requires h.Sound() && o in Flat(h.book.Ladder(o.side))
    ensures var b := h.book;
      var left := b.With(o.side, RemoveFromLadder(b.Ladder(o.side), o.price, o.id));
      Apply(h, Cancel(o.id)) == History(left.(sequence := left.sequence + 1), h.retired + [o], h.trades, h.submitted)
  {
    SoleId(h, o);
  }

  lemma ClearParts(h: History)
    ensures Apply(h, Books.Clear) == History(EMPTY, h.retired + h.book.Orders(), h.trades, h.submitted)
  {
  }

  lemma AbsentCancel(h: History, id: nat)
    requires IndexOf(h.book.Orders(), id) == |h.book.Orders()|
    ensures Apply(h, Cancel(id)) == h
  {
  }

  /** addOrder as a value, taken apart as the code takes it. */
  lemma AddParts(h: History, o: OrderState, rejected: bool)
    requires Allowed(h, Submit(o, rejected))
    ensures Incoming(h.book, o).Valid() && Live(Incoming(h.book, o)) && Absent(o.id, h.book.Orders())
    ensures var b := h.book; var r := MatchAll(Incoming(b, o));
      var matched := b.With(o.side.Opposite(), r.ladder).(lastTrade := r.nextId);
      && r.taker.side == o.side && r.taker.id == o.id && r.taker == Remainder(b, o)
      && matched.Ladder(o.side) == b.Ladder(o.side)
      && (forall l :: l in b.Ladder(o.side) ==> l.count + 1 < TWO_32)
      && (!r.taker.IsTotallyFilled() && !rejected ==>
           var rested := matched.With(o.side, AddToLadder(o.side, matched.Ladder(o.side), r.taker));
           Apply(h, Submit(o, rejected)) ==
             History(rested.(sequence := rested.sequence + 1), h.retired + r.done, h.trades + r.trades, h.submitted + [o.id]))
      && (r.taker.IsTotallyFilled() || rejected ==>
           Apply(h, Submit(o, rejected)) ==
             History(matched.(sequence := matched.sequence + 1), h.retired + r.done + [r.taker], h.trades + r.trades, h.submitted + [o.id]))
  {
    var b, s := h.book, Incoming(h.book, o);
    IncomingValid(b, o);
    FillCompleteness(s);
    var r := MatchAll(s);
    assert h.retired + r.done + [r.taker] == h.retired + (r.done + [r.taker]);
    forall l | l in b.Ladder(o.side) ensures l.count + 1 < TWO_32 {
      RoomCounts(o.side, b.Ladder(o.side), l);
    }
  }

  lemma IndexedIff(index: map<nat, Order>, sides: map<nat, Side>, orders: set<Order>, id: nat)
    requires Indexed(index, sides, orders)
    ensures id in index <==> id in sides
    ensures id in index <==> exists o :: o in orders && o.orderId == id
  {
  }

  lemma QueueKnows(side: Side, s: Shelf, o: Order)
    requires ShelfOK(side, s) && o in s.orders
    ensures o.orderId in s.q.orderMap && s.q.orderMap[o.orderId] == o
  {
    assert Indexes(s.q.orderMap, s.orders);
  }

  lemma OneShelf(shelves: seq<Shelf>, k: nat, o: Order)
    requires k < |shelves| && o in shelves[k].orders && OrdersOn(shelves[k]) !! ShelfOrders(Others(shelves, k))
    ensures forall j :: 0 <= j < |shelves| && o in shelves[j].orders ==> j == k
  {
    assert o in OrdersOn(shelves[k]);
    forall j | 0 <= j < |shelves| && j != k ensures o !in shelves[j].orders {
      var r := Others(shelves, k);
      assert shelves[j] == r[if j < k then j else j - 1];
      assert shelves[j] in r;
    }
  }

  lemma IndexedAll(index: map<nat, Order>, sides: map<nat, Side>, orders: set<Order>)
    requires Indexed(index, sides, orders)
    ensures forall o :: o in orders ==> o.orderId in index
  {
  }

  lemma IndexedAt(index: map<nat, Order>, sides: map<nat, Side>, orders: set<Order>, id: nat)
    requires Indexed(index, sides, orders) && id in index
    ensures index[id] in orders && index[id].orderId == id
    ensures forall o :: o in orders && o.orderId == id ==> o == index[id]
  {
  }

  lemma IndexedValues(index: map<nat, Order>, sides: map<nat, Side>, orders: set<Order>)
    requires Indexed(index, sides, orders)
    ensures index.Values == orders
  {
    forall o | o in orders ensures o in index.Values {
      assert index[o.orderId] == o;
    }
  }

  lemma SameEntries<T>(m: map<nat, T>, n: map<nat, T>)
    requires m.Keys == n.Keys && Within(n, m)
    ensures n == m
  {
  }

  lemma {:induction false} Inserted(side: Side, queue: seq<OrderState>, o: OrderState)
    ensures o in InsertBehind(side, queue, o)
  {
    if queue != [] && !Better(side, o.price, queue[0].price) {
      Inserted(side, queue[1..], o);
    }
  }

  /** An order that crosses nothing rests as it is, and where it rests its id finds it. */
  lemma RestsWhole(h: History, o: OrderState)
    requires h.Sound() && Allowed(h, Submit(o, false)) && !Incoming(h.book, o).Enabled() && !o.IsTotallyFilled()
    ensures Incoming(h.book, o).Valid() && Live(Incoming(h.book, o)) && Remainder(h.book, o) == o
    ensures var h1 := Apply(h, Submit(o, false));
      && h1.Sound() && h1.book == AddOrder(h.book, o, false).book && o in Flat(h1.book.Ladder(o.side))
  {
    SubmitKeepsSound(h, o, false);
    AddedLadders(h.book, o, false);
    AddInserts(o.side, h.book.Ladder(o.side), o);
    Inserted(o.side, Flat(h.book.Ladder(o.side)), o);
  }

  /** Cancelled at once, it leaves the book as it was. */
  lemma BackAgain(h: History, o: OrderState)
    requires h.Sound() && Allowed(h, Submit(o, false)) && !Incoming(h.book, o).Enabled() && !o.IsTotallyFilled()
    requires CountersFit(h.book.Ladder(o.side))
    ensures var h2 := Apply(Apply(h, Submit(o, false)), Cancel(o.id));
      && h2.book == h.book.(sequence := h.book.sequence + 2) && h2.book.Orders() == h.book.Orders()
  {
    hide *;
    RestsWhole(h, o);
    CancelledBook(Apply(h, Submit(o, false)), o);
    SubmitParts(h, o);
    OnOneSide(h.book, o.side, o.id);
    Books.AddThenCancel(h.book, o);
    SameOrders(h.book);
  }

  lemma CancelledBook(h: History, o: OrderState)
    requires h.Sound() && o in Flat(h.book.Ladder(o.side))
    ensures Apply(h, Cancel(o.id)).book == CancelOrder(h.book, o).book
  {
    SoleId(h, o);
    hide CancelOrder, Book.Orders, History.Sound;
  }

  lemma SubmitParts(h: History, o: OrderState)
    requires Allowed(h, Submit(o, false))
    ensures CanAdd(h.book, o) && Absent(o.id, h.book.Orders())
  {
    hide CanAdd, Absent;
  }

  lemma SameOrders(b: Book)
    ensures forall n :: b.(sequence := n).Orders() == b.Orders()
  {
  }

  lemma FilledWithId(o: OrderState, id: nat)
    ensures o.(id := id).IsTotallyFilled() == o.IsTotallyFilled()
  {
  }

  lemma OnOneSide(b: Book, side: Side, id: nat)
    requires Absent(id, b.Orders())
    ensures Absent(id, Flat(b.Ladder(side)))
  {
    forall o | o in Flat(b.Ladder(side)) ensures o in b.Orders() {}
  }

  lemma EmptySide(tree: RedBlackTree, side: Side)
    requires tree.Valid() && tree.tree == Leaf
    ensures SideOK(tree, side, []) && LadderOf([]) == []
    ensures ShelfNodes([]) == {} && ShelfQueues([]) == {} && ShelfOrders([]) == {}
    ensures Indexed(map[], map[], {}) && EMPTY == Book([], [], 0, 0)
  {
    assert NodesOf([]) == BestFirst(side, tree.tree.InOrder());
  }

  /** One line of a snapshot. */
  datatype PriceLevel = PriceLevel(price: int, quantity: nat, orderCount: nat)

  /** The best levels of a ladder, as a snapshot shows them. */
  function Depth(ladder: seq<Level>, depth: nat): (r: seq<PriceLevel>)
    ensures |r| == if depth <= |ladder| then depth else |ladder|
    ensures forall i :: 0 <= i < |r| ==> r[i] == PriceLevel(ladder[i].price, ladder[i].quantity, ladder[i].count)
  {
    if depth == 0 || ladder == [] then []
    else [PriceLevel(ladder[0].price, ladder[0].quantity, ladder[0].count)] + Depth(ladder[1..], depth - 1)
  }

  /** What one side of the book is made of. */
  ghost function Holdings(tree: RedBlackTree, shelves: seq<Shelf>): set<object> {
    {tree} + ShelfNodes(shelves) + ShelfQueues(shelves) + ShelfOrders(shelves)
  }

  lemma HoldingsShrink(tree: RedBlackTree, shelves: seq<Shelf>, after: seq<Shelf>)
    ensures tree in Holdings(tree, shelves) && ShelfNodes(shelves) <= Holdings(tree, shelves)
    ensures ShelfQueues(shelves) <= Holdings(tree, shelves) && ShelfOrders(shelves) <= Holdings(tree, shelves)
    ensures ShelfNodes(after) <= ShelfNodes(shelves) && ShelfQueues(after) <= ShelfQueues(shelves) && ShelfOrders(after) <= ShelfOrders(shelves)
      ==> Holdings(tree, after) <= Holdings(tree, shelves)
  {
  }

  lemma HoldingsGrow(tree: RedBlackTree, shelves: seq<Shelf>, after: seq<Shelf>)
    ensures forall x :: x in Holdings(tree, after) && x !in Holdings(tree, shelves) ==>
      || x in ShelfNodes(after) - ShelfNodes(shelves) || x in ShelfQueues(after) - ShelfQueues(shelves)
      || x in ShelfOrders(after) - ShelfOrders(shelves)
  {
  }

  /** A book that differs from another in one ladder only. */
  lemma OneLadder(b: Book, v: Book, side: Side)
    requires v.Ladder(side.Opposite()) == b.Ladder(side.Opposite()) && v.sequence == b.sequence && v.lastTrade == b.lastTrade
    ensures v == b.With(side, v.Ladder(side))
  {
  }

  class OrderBook {
    const bidTree: RedBlackTree
    const askTree: RedBlackTree
    var orderMap: map<nat, Order>
    var orderSideMap: map<nat, Side>
    var sequenceNumber: nat
    var tradeIdCounter: nat
    ghost var bids: seq<Shelf>
    ghost var asks: seq<Shelf>
    /** What the trade callback was told, and the states in which orders were retired. */
    ghost var trades: seq<Trade>
    ghost var retired: seq<OrderState>
    ghost var submitted: seq<nat>

    /** The book as a value. */
    ghost function Value(): Book
      reads this`bids, this`asks, this`sequenceNumber, this`tradeIdCounter, Footprint()
    {
      Book(LadderOf(bids), LadderOf(asks), sequenceNumber, tradeIdCounter)
    }

    ghost function AllOrders(): set<Order>
      reads this`bids, this`asks
    {
      ShelfOrders(bids) + ShelfOrders(asks)
    }

    ghost function Footprint(): set<object>
      reads this`bids, this`asks
    {
      {bidTree, askTree} + ShelfNodes(bids) + ShelfQueues(bids) + ShelfOrders(bids)
      + ShelfNodes(asks) + ShelfQueues(asks) + ShelfOrders(asks)
    }

    /** Both sides are in order and share nothing, and the id maps hold exactly the resting orders. */
    ghost predicate Shaped()
      reads this`bids, this`asks, this`orderMap, this`orderSideMap, Footprint()
    {
      && bidTree != askTree && SideOK(bidTree, Buy, bids) && SideOK(askTree, Sell, asks)
      && ShelfNodes(bids) !! ShelfNodes(asks) && ShelfQueues(bids) !! ShelfQueues(asks) && ShelfOrders(bids) !! ShelfOrders(asks)
      && Indexed(orderMap, orderSideMap, AllOrders())
    }

    constructor ()
      ensures Valid() && Log() == History(EMPTY, [], [], []) && orderMap == map[] && fresh(Footprint())
    {
      bidTree := new RedBlackTree();
      askTree := new RedBlackTree();
      orderMap, orderSideMap, sequenceNumber, tradeIdCounter := map[], map[], 0, 0;
      bids, asks, trades, retired, submitted := [], [], [], [], [];
      new;
      hide *;
      EmptySide(bidTree, Buy);
      EmptySide(askTree, Sell);
      ShapeParts();
      assert AllOrders() == {} && Footprint() == {bidTree, askTree};
      EmptySound();
      LogParts();
    }

    /** Fills both orders, numbers the trade and reports it. */
    method ExecuteTrade(buy: Order, sell: Order, price: int, qty: nat)
      requires buy != sell
      modifies buy`filledQuantity, buy`visibleFilledQuantity, sell`filledQuantity, sell`visibleFilledQuantity
      modifies this`tradeIdCounter, this`trades
      ensures buy.State() == old(buy.State()).Fill(qty) && sell.State() == old(sell.State()).Fill(qty)
      ensures tradeIdCounter == old(tradeIdCounter) + 1
      ensures trades == old(trades) +
        [Trade(tradeIdCounter, buy.State().id, sell.State().id, price, qty, buy.State().iceberg, sell.State().iceberg)]
    {
      buy.FillVisible(qty);
      sell.FillVisible(qty);
      tradeIdCounter := tradeIdCounter + 1;
      trades := trades + [Trade(tradeIdCounter, buy.orderId, sell.orderId, price, qty, buy.isIceberg, sell.isIceberg)];
    }

    /** The trade of one round, seen from the incoming order. */
    method TradeAtFront(order: Order, front: Order, price: int, qty: nat,
                        ghost tree: RedBlackTree, ghost queue: OrderQueue, ghost side: Side, ghost shelves: seq<Shelf>)
      requires AtFront(tree, side, shelves, front) && BestReady(tree, queue, price, side, shelves)
      requires order !in ShelfOrders(shelves) && order != front
      modifies order`filledQuantity, order`visibleFilledQuantity, front`filledQuantity, front`visibleFilledQuantity
      modifies this`tradeIdCounter, this`trades
      ensures AtFront(tree, side, shelves, front) && BestReady(tree, queue, price, side, shelves)
      ensures order.State() == old(order.State()).Fill(qty) && front.State() == old(front.State()).Fill(qty)
      ensures LadderOf(shelves) == [WithFront(old(LadderOf(shelves))[0], front.State())] + old(LadderOf(shelves))[1..]
      ensures tradeIdCounter == old(tradeIdCounter) + 1
      ensures trades == old(trades) + [Execute(tradeIdCounter, order.State(), front.State(), price, qty)]
    {
      hide *;
      FrontFocus(tree, side, shelves, front);
      ghost var s, r := shelves[0], Others(shelves, 0);
      FrontOf(shelves, front, order);
      FrontApart(s, r, front);
      OrderFields(order);
      FrontLevel(s, front);
      ghost var tail := s.orders[1..];
      assert allocated(tree.tree.Nodes());
      assert allocated(ShelfNodes(shelves)) && allocated(ShelfQueues(shelves)) && allocated(ShelfOrders(shelves));
      assert allocated(ShelfNodes(r)) && allocated(ShelfQueues(r)) && allocated(ShelfOrders(r));
      if order.side == Buy {
        ExecuteTrade(order, front, price, qty);
      } else {
        ExecuteTrade(front, order, price, qty);
      }
      assert AtFront(tree, side, shelves, front) && BestReady(tree, queue, price, side, shelves);
      FrontFocus(tree, side, shelves, front);
      FrontLevel(s, front);
      assert LadderOf(r) == old(LadderOf(r)) && States(tail) == old(States(tail));
      FillKeepsSide(old(order.State()), qty);
      ExecuteIs(tradeIdCounter, order.State(), front.State(), price, qty);
    }

    /** Enters an order in both id maps. */
    method Enlist(order: Order, ghost all: set<Order>)
      requires Indexed(orderMap, orderSideMap, all) && order.orderId !in orderMap
      modifies this`orderMap, this`orderSideMap
      ensures Indexed(orderMap, orderSideMap, all + {order})
      ensures orderMap == old(orderMap)[order.orderId := order] && orderSideMap == old(orderSideMap)[order.orderId := order.side]
    {
      hide *;
      IndexedWith(orderMap, orderSideMap, all, order);
      orderMap := orderMap[order.orderId := order];
      orderSideMap := orderSideMap[order.orderId := order.side];
    }

    /** Takes an order out of both id maps. */
    method Unlist(order: Order, ghost all: set<Order>)
      requires Indexed(orderMap, orderSideMap, all) && order in all
      modifies this`orderMap, this`orderSideMap
      ensures Indexed(orderMap, orderSideMap, all - {order})
      ensures orderMap == old(orderMap) - {order.orderId} && orderSideMap == old(orderSideMap) - {order.orderId}
    {
      hide *;
      IndexedWithout(orderMap, orderSideMap, all, order);
      orderMap := orderMap - {order.orderId};
      orderSideMap := orderSideMap - {order.orderId};
    }

    /** The rest of a round: the best level is settled, and an order that left it leaves the id maps. */
    method SettleRound(tree: RedBlackTree, queue: OrderQueue, price: int, front: Order, qty: nat,
                       ghost side: Side, ghost shelves: seq<Shelf>, ghost all: set<Order>)
      requires BestReady(tree, queue, price, side, shelves) && AtFront(tree, side, shelves, front) && shelves != []
      requires Indexed(orderMap, orderSideMap, all) && front in all
      modifies this`orderMap, this`orderSideMap, this`retired
      modifies tree`root, tree`nodeCount, tree`tree
      modifies tree.tree.Nodes()`left, tree.tree.Nodes()`right, tree.tree.Nodes()`parent, tree.tree.Nodes()`color
      modifies shelves[0].n`totalQuantity, shelves[0].n`orderCount, shelves[0].n`queue
      modifies queue, shelves[0].orders`prev, shelves[0].orders`next
      modifies front`filledQuantity, front`visibleQuantity, front`hiddenQuantity, front`visibleFilledQuantity, front`status, front`retired
      ensures shelves[0].orders != []
      ensures var m, l := old(front.State()), old(LadderOf(shelves)); var after := AfterRound(shelves, m);
        && TreeOf(tree, side, after) && ShelvesOK(side, after) && Indexed(orderMap, orderSideMap, if m.IsTotallyFilled() then all - {front} else all)
        && LadderOf(after) == SetBest(l, Settle(l[0], m, qty))
        && retired == (if m.IsTotallyFilled() then old(retired) + [m] else old(retired))
        && (if m.IsTotallyFilled() then front.State() == m && front.retired && front.status == old(front.status)
            else front.retired == old(front.retired) && front.status == PartialFilled)
      ensures Within(orderMap, old(orderMap)) && Within(orderSideMap, old(orderSideMap))
    {
      hide *;
      WithinLaws(orderMap, orderMap, orderMap, front.orderId);
      WithinLaws(orderSideMap, orderSideMap, orderSideMap, front.orderId);
      assert allocated(all);
      FrontFocus(tree, side, shelves, front);
      var gone := SettleFront(tree, queue, price, front, qty, side, shelves);
      assert Indexed(orderMap, orderSideMap, all);
      if gone {
        ghost var after := AfterRound(shelves, old(front.State()));
        assert allocated(tree.tree.Nodes()) && allocated(all);
        assert allocated(ShelfNodes(after)) && allocated(ShelfQueues(after)) && allocated(ShelfOrders(after));
        Unlist(front, all);
        retired := retired + [front.State()];
      }
    }

    /** The body of the matching loop, once its guards have passed: a trade with the first order of the best
        level, and what follows from it for that level and the id maps. */
    method TradeRound(tree: RedBlackTree, order: Order, best: RBNode, front: Order,
                      ghost side: Side, ghost shelves: seq<Shelf>, ghost all: set<Order>, ghost s: Match)
      returns (ghost after: seq<Shelf>, ghost left: set<Order>)
      requires TreeOf(tree, side, shelves) && ShelvesOK(side, shelves) && shelves != [] && best == shelves[0].n
      requires order !in ShelfOrders(shelves) && AtFront(tree, side, shelves, front) && front in ShelfOrders(shelves)
      requires best.queue != null && best.queue.head == front && shelves[0].orders != [] && shelves[0].orders[0] == front
      requires Indexed(orderMap, orderSideMap, all) && ShelfOrders(shelves) <= all
      requires s.Valid() && s.Enabled() && s.RestingSide() == side
      requires s.ladder == LadderOf(shelves) && s.taker == order.State() && s.nextId == tradeIdCounter
      modifies this`orderMap, this`orderSideMap, this`tradeIdCounter, this`trades, this`retired
      modifies tree`root, tree`nodeCount, tree`tree
      modifies tree.tree.Nodes()`left, tree.tree.Nodes()`right, tree.tree.Nodes()`parent, tree.tree.Nodes()`color
      modifies ShelfNodes(shelves)`totalQuantity, ShelfNodes(shelves)`orderCount, ShelfNodes(shelves)`queue
      modifies ShelfQueues(shelves), ShelfOrders(shelves)`prev, ShelfOrders(shelves)`next
      modifies front`filledQuantity, front`visibleQuantity, front`hiddenQuantity
      modifies front`visibleFilledQuantity, front`status, front`retired
      modifies order`filledQuantity, order`visibleFilledQuantity
      ensures TreeOf(tree, side, after) && ShelvesOK(side, after)
      ensures ShelfOrders(after) <= ShelfOrders(shelves)
      ensures ShelfNodes(after) <= ShelfNodes(shelves) && ShelfQueues(after) <= ShelfQueues(shelves)
      ensures Indexed(orderMap, orderSideMap, left) && left == all - (ShelfOrders(shelves) - ShelfOrders(after))
      ensures LadderOf(after) == Step(s).ladder && order.State() == Step(s).taker && tradeIdCounter == Step(s).nextId
      ensures trades == old(trades) + Step(s).trades[|s.trades|..] && retired == old(retired) + Step(s).done[|s.done|..]
      ensures Within(orderMap, old(orderMap)) && Within(orderSideMap, old(orderSideMap))
      ensures ShelfOrders(shelves) - {front} <= ShelfOrders(after)
      ensures if front in ShelfOrders(after) then front.retired == old(front.retired) && front.status == PartialFilled
              else front.retired && front.status == old(front.status)
    {
      hide *;
      StepParts(s);
      BestParts(tree, side, shelves);
      var queue := best.queue;
      TradeQuantityIs(s, order, front);
      var qty := if order.State().Remaining() <= front.State().Remaining() then order.State().Remaining() else front.State().Remaining();
      assert allocated(all);
      TradeAtFront(order, front, best.price, qty, tree, queue, side, shelves);
      ghost var m := front.State();
      assert m == s.ladder[0].orders[0].Fill(qty);
      after := AfterRound(shelves, m);
      RoundSets(tree, side, shelves, front, m);
      FrontFocus(tree, side, shelves, front);
      assert allocated(all);
      left := if m.IsTotallyFilled() then all - {front} else all;
      SettleRound(tree, queue, best.price, front, qty, side, shelves, all);
    }

    /** The same, noted for each order that was there when matching began. */
    method MatchRound(tree: RedBlackTree, order: Order, best: RBNode,
                      ghost side: Side, ghost shelves: seq<Shelf>, ghost all: set<Order>, ghost s: Match, ghost whole: set<Order>, ghost was: map<Order, Note>)
      returns (ghost after: seq<Shelf>, ghost left: set<Order>)
      requires TreeOf(tree, side, shelves) && ShelvesOK(side, shelves) && shelves != [] && best == shelves[0].n
      requires order !in ShelfOrders(shelves)
      requires Indexed(orderMap, orderSideMap, all) && ShelfOrders(shelves) <= all
      requires s.Valid() && s.Enabled() && s.RestingSide() == side
      requires s.ladder == LadderOf(shelves) && s.taker == order.State() && s.nextId == tradeIdCounter
      requires ShelfOrders(shelves) <= whole && order !in whole && Noted(was, Notes(whole), ShelfOrders(shelves))
      modifies this`orderMap, this`orderSideMap, this`tradeIdCounter, this`trades, this`retired
      modifies tree`root, tree`nodeCount, tree`tree
      modifies tree.tree.Nodes()`left, tree.tree.Nodes()`right, tree.tree.Nodes()`parent, tree.tree.Nodes()`color
      modifies ShelfNodes(shelves)`totalQuantity, ShelfNodes(shelves)`orderCount, ShelfNodes(shelves)`queue
      modifies ShelfQueues(shelves), ShelfOrders(shelves)`prev, ShelfOrders(shelves)`next
      modifies ShelfOrders(shelves)`filledQuantity, ShelfOrders(shelves)`visibleQuantity, ShelfOrders(shelves)`hiddenQuantity
      modifies ShelfOrders(shelves)`visibleFilledQuantity, ShelfOrders(shelves)`status, ShelfOrders(shelves)`retired
      modifies order`filledQuantity, order`visibleFilledQuantity
      ensures TreeOf(tree, side, after) && ShelvesOK(side, after)
      ensures ShelfOrders(after) <= ShelfOrders(shelves)
      ensures ShelfNodes(after) <= ShelfNodes(shelves) && ShelfQueues(after) <= ShelfQueues(shelves)
      ensures Indexed(orderMap, orderSideMap, left) && left == all - (ShelfOrders(shelves) - ShelfOrders(after))
      ensures LadderOf(after) == Step(s).ladder && order.State() == Step(s).taker && tradeIdCounter == Step(s).nextId
      ensures trades == old(trades) + Step(s).trades[|s.trades|..] && retired == old(retired) + Step(s).done[|s.done|..]
      ensures Within(orderMap, old(orderMap)) && Within(orderSideMap, old(orderSideMap))
      ensures Noted(was, Notes(whole), ShelfOrders(after))
    {
      hide *;
      BestLevel(s);
      BestParts(tree, side, shelves);
      var front := best.queue.head;
      ghost var note, rest := Note(front.State(), front.status, front.retired), Notes(whole - {front});
      NotesButOne(whole, front);
      after, left := TradeRound(tree, order, best, front, side, shelves, all, s);
      assert Notes(whole - {front}) == rest;
      NotesButOne(whole, front);
      NotedNext(was, front, note, Note(front.State(), front.status, front.retired), rest, ShelfOrders(shelves), ShelfOrders(after));
    }

    /** The matching loop of an incoming order against one side of the book. */
    method MatchAgainst(tree: RedBlackTree, side: Side, order: Order, ghost shelves: seq<Shelf>, ghost all: set<Order>, ghost s: Match)
      returns (ghost after: seq<Shelf>, ghost left: set<Order>)
      requires TreeOf(tree, side, shelves) && ShelvesOK(side, shelves) && order !in ShelfOrders(shelves)
      requires Indexed(orderMap, orderSideMap, all) && ShelfOrders(shelves) <= all
      requires s.Valid() && Live(s) && s.RestingSide() == side && s.trades == [] && s.done == []
      requires s.ladder == LadderOf(shelves) && s.taker == order.State() && s.nextId == tradeIdCounter
      modifies this`orderMap, this`orderSideMap, this`tradeIdCounter, this`trades, this`retired
      modifies tree`root, tree`nodeCount, tree`tree
      modifies tree.tree.Nodes()`left, tree.tree.Nodes()`right, tree.tree.Nodes()`parent, tree.tree.Nodes()`color
      modifies ShelfNodes(shelves)`totalQuantity, ShelfNodes(shelves)`orderCount, ShelfNodes(shelves)`queue
      modifies ShelfQueues(shelves), ShelfOrders(shelves)`prev, ShelfOrders(shelves)`next
      modifies ShelfOrders(shelves)`filledQuantity, ShelfOrders(shelves)`visibleQuantity, ShelfOrders(shelves)`hiddenQuantity
      modifies ShelfOrders(shelves)`visibleFilledQuantity, ShelfOrders(shelves)`status, ShelfOrders(shelves)`retired
      modifies order`filledQuantity, order`visibleFilledQuantity
      ensures TreeOf(tree, side, after) && ShelvesOK(side, after)
      ensures ShelfOrders(after) <= ShelfOrders(shelves)
      ensures ShelfNodes(after) <= ShelfNodes(shelves) && ShelfQueues(after) <= ShelfQueues(shelves)
      ensures Indexed(orderMap, orderSideMap, left) && left == all - (ShelfOrders(shelves) - ShelfOrders(after))
      ensures var r := MatchAll(s);
        && LadderOf(after) == r.ladder && order.State() == r.taker && tradeIdCounter == r.nextId
        && trades == old(trades) + r.trades && retired == old(retired) + r.done
      ensures Within(orderMap, old(orderMap)) && Within(orderSideMap, old(orderSideMap))
      ensures Noted(old(Notes(ShelfOrders(shelves))), Notes(ShelfOrders(shelves)), ShelfOrders(after))
    {
      hide *;
      after, left := shelves, all;
      WithinLaws(orderMap, orderMap, orderMap, 0);
      WithinLaws(orderSideMap, orderSideMap, orderSideMap, 0);
      ghost var whole := ShelfOrders(shelves);
      ghost var was := Notes(whole);
      NotesSplit(whole, whole);
      NotedLaws(was, whole);
      ghost var now := s;
      ghost var nodes := tree.tree.Nodes();
      TreeNodes(tree, side, after);
      Guards(tree, side, after, now, order);
      while !order.State().IsTotallyFilled() && tree.root != null
        invariant TreeOf(tree, side, after) && ShelvesOK(side, after) && order !in ShelfOrders(after)
        invariant ShelfOrders(after) <= ShelfOrders(shelves)
        invariant ShelfNodes(after) <= ShelfNodes(shelves) && ShelfQueues(after) <= ShelfQueues(shelves)
        invariant Indexed(orderMap, orderSideMap, left) && ShelfOrders(after) <= left
        invariant left == all - (ShelfOrders(shelves) - ShelfOrders(after))
        invariant now.Valid() && Live(now) && now.RestingSide() == side && MatchAll(now) == MatchAll(s)
        invariant now.ladder == LadderOf(after) && now.taker == order.State() && now.nextId == tradeIdCounter
        invariant trades == old(trades) + now.trades && retired == old(retired) + now.done
        invariant Within(orderMap, old(orderMap)) && Within(orderSideMap, old(orderSideMap))
        invariant Noted(was, Notes(whole), ShelfOrders(after))
        decreases now.taker.TotalRemaining(), Sum(Exhausted, Flat(now.ladder))
      {
        assert allocated(left);
        var best := BestNode(tree, side, after);
        Guards(tree, side, after, now, order);
        if best == null || Better(side, order.price, best.price) {
          break;
        }
        if best.queue == null || best.queue.head == null {
          break;
        }
        TreeNodes(tree, side, after);
        StepOn(now);
        Extended(old(trades), now.trades, Step(now).trades);
        Extended(old(retired), now.done, Step(now).done);
        ghost var index, sides := orderMap, orderSideMap;
        after, left := MatchRound(tree, order, best, side, after, left, now, whole, was);
        WithinLaws(orderMap, index, old(orderMap), 0);
        WithinLaws(orderSideMap, sides, old(orderSideMap), 0);
        now := Step(now);
      }
      Guards(tree, side, after, now, order);
      Stops(now);
    }

    /** Shaped, opened up. */
    lemma ShapeParts()
      ensures Shaped() <==>
        && bidTree != askTree && SideOK(bidTree, Buy, bids) && SideOK(askTree, Sell, asks)
        && ShelfNodes(bids) !! ShelfNodes(asks) && ShelfQueues(bids) !! ShelfQueues(asks) && ShelfOrders(bids) !! ShelfOrders(asks)
        && Indexed(orderMap, orderSideMap, AllOrders())
      ensures AllOrders() == ShelfOrders(bids) + ShelfOrders(asks)
      ensures Value() == Book(LadderOf(bids), LadderOf(asks), sequenceNumber, tradeIdCounter)
      ensures Footprint() == {bidTree, askTree} + ShelfNodes(bids) + ShelfQueues(bids) + ShelfOrders(bids)
        + ShelfNodes(asks) + ShelfQueues(asks) + ShelfOrders(asks)
    {
      hide SideOK, Indexed, LadderOf, ShelfNodes, ShelfQueues, ShelfOrders;
    }

    function TreeFor(side: Side): RedBlackTree {
      if side == Buy then bidTree else askTree
    }

    ghost function ShelvesFor(side: Side): seq<Shelf>
      reads this`bids, this`asks
    {
      if side == Buy then bids else asks
    }

    /** Shaped, seen from one side. */
    lemma ShapeFrom(side: Side)
      requires Shaped()
      ensures var tree, other, shelves, kept := TreeFor(side), TreeFor(side.Opposite()), ShelvesFor(side), ShelvesFor(side.Opposite());
        && tree != other && SideOK(tree, side, shelves) && SideOK(other, side.Opposite(), kept)
        && ShelfNodes(shelves) !! ShelfNodes(kept) && ShelfQueues(shelves) !! ShelfQueues(kept) && ShelfOrders(shelves) !! ShelfOrders(kept)
        && AllOrders() == ShelfOrders(shelves) + ShelfOrders(kept) && Indexed(orderMap, orderSideMap, AllOrders())
        && Value().Ladder(side) == LadderOf(shelves)
        && bidTree != askTree && Value().Ladder(side.Opposite()) == LadderOf(kept)
        && Footprint() == Holdings(tree, shelves) + Holdings(other, kept)
    {
      hide SideOK, Indexed, LadderOf, ShelfNodes, ShelfQueues, ShelfOrders;
    }

    /** Puts a changed side back. */
    ghost method Replace(side: Side, after: seq<Shelf>)
      requires bidTree != askTree && SideOK(TreeFor(side), side, after) && SideOK(TreeFor(side.Opposite()), side.Opposite(), ShelvesFor(side.Opposite()))
      requires ShelfNodes(after) !! ShelfNodes(ShelvesFor(side.Opposite())) && ShelfQueues(after) !! ShelfQueues(ShelvesFor(side.Opposite()))
      requires ShelfOrders(after) !! ShelfOrders(ShelvesFor(side.Opposite()))
      requires Indexed(orderMap, orderSideMap, ShelfOrders(after) + ShelfOrders(ShelvesFor(side.Opposite())))
      modifies this`bids, this`asks
      ensures Shaped() && ShelvesFor(side) == after && ShelvesFor(side.Opposite()) == old(ShelvesFor(side.Opposite()))
      ensures Value().Ladder(side) == LadderOf(after) && Value().Ladder(side.Opposite()) == LadderOf(ShelvesFor(side.Opposite()))
      ensures Footprint() == Holdings(TreeFor(side), after) + Holdings(TreeFor(side.Opposite()), ShelvesFor(side.Opposite()))
      ensures AllOrders() == ShelfOrders(after) + ShelfOrders(ShelvesFor(side.Opposite()))
    {
      hide SideOK, Indexed, LadderOf, ShelfNodes, ShelfQueues, ShelfOrders;
      Either(ShelfOrders(after), ShelfOrders(ShelvesFor(side.Opposite())));
      if side == Buy {
        bids := after;
      } else {
        asks := after;
      }
    }

    /** The loop against one side, with the other side looking on. */
    method MatchBeside(tree: RedBlackTree, side: Side, order: Order, ghost shelves: seq<Shelf>, ghost s: Match,
                       ghost other: RedBlackTree, ghost kept: seq<Shelf>, ghost all: set<Order>)
      returns (ghost after: seq<Shelf>)
      requires SideOK(tree, side, shelves) && SideOK(other, side.Opposite(), kept) && tree != other
      requires ShelfNodes(shelves) !! ShelfNodes(kept) && ShelfQueues(shelves) !! ShelfQueues(kept) && ShelfOrders(shelves) !! ShelfOrders(kept)
      requires Indexed(orderMap, orderSideMap, all) && all == ShelfOrders(shelves) + ShelfOrders(kept) && order !in all
      requires s.Valid() && Live(s) && s.RestingSide() == side && s.trades == [] && s.done == []
      requires s.ladder == LadderOf(shelves) && s.taker == order.State() && s.nextId == tradeIdCounter
      modifies this`orderMap, this`orderSideMap, this`tradeIdCounter, this`trades, this`retired
      modifies tree, ShelfNodes(shelves), ShelfQueues(shelves), ShelfOrders(shelves), order`filledQuantity, order`visibleFilledQuantity
      ensures SideOK(tree, side, after) && SideOK(other, side.Opposite(), kept) && LadderOf(kept) == old(LadderOf(kept))
      ensures ShelfOrders(after) <= ShelfOrders(shelves)
      ensures ShelfNodes(after) <= ShelfNodes(shelves) && ShelfQueues(after) <= ShelfQueues(shelves)
      ensures Indexed(orderMap, orderSideMap, ShelfOrders(after) + ShelfOrders(kept))
      ensures Within(orderMap, old(orderMap)) && Within(orderSideMap, old(orderSideMap))
      ensures var r := MatchAll(s);
        && LadderOf(after) == r.ladder && order.State() == r.taker && tradeIdCounter == r.nextId
        && trades == old(trades) + r.trades && retired == old(retired) + r.done
      ensures Noted(old(Notes(ShelfOrders(shelves))), Notes(ShelfOrders(shelves)), ShelfOrders(after))
      ensures Notes(ShelfOrders(kept)) == old(Notes(ShelfOrders(kept)))
    {
      hide *;
      SideParts(tree, side, shelves);
      assert allocated(all) && allocated(ShelfNodes(kept)) && allocated(ShelfQueues(kept)) && allocated(ShelfOrders(kept));
      ghost var left;
      after, left := MatchAgainst(tree, side, order, shelves, all, s);
      assert Indexed(old(orderMap), old(orderSideMap), all);
      LeftOver(ShelfOrders(shelves), ShelfOrders(after), ShelfOrders(kept), left);
      SideParts(tree, side, after);
    }

    /** Matching against one side, with both sides put back. */
    method MatchSide(tree: RedBlackTree, side: Side, order: Order)
      requires Shaped() && order !in AllOrders() && side == order.side.Opposite() && tree == TreeFor(side)
      requires Incoming(Value(), order.State()).Valid() && Live(Incoming(Value(), order.State()))
      modifies this`orderMap, this`orderSideMap, this`tradeIdCounter, this`trades, this`retired, this`bids, this`asks
      modifies Footprint(), order`filledQuantity, order`visibleFilledQuantity
      ensures Shaped() && order !in AllOrders() && AllOrders() <= old(AllOrders())
      ensures Within(orderMap, old(orderMap)) && Within(orderSideMap, old(orderSideMap))
      ensures Footprint() <= old(Footprint())
      ensures var b, o := old(Value()), old(order.State()); var r := MatchAll(Incoming(b, o));
        && Value() == b.With(o.side.Opposite(), r.ladder).(lastTrade := r.nextId)
        && order.State() == r.taker && trades == old(trades) + r.trades && retired == old(retired) + r.done
      ensures Noted(old(Notes(AllOrders())), Notes(old(AllOrders())), AllOrders())
    {
      hide *;
      ShapeFrom(side);
      Counters();
      OrderFields(order);
      IncomingParts(Value(), order.State());
      ghost var shelves, kept := ShelvesFor(side), ShelvesFor(side.Opposite());
      ghost var s := Incoming(Value(), order.State());
      HoldingsShrink(tree, shelves, shelves);
      ghost var was, rest := Notes(ShelfOrders(shelves)), Notes(ShelfOrders(kept));
      NotesUnion(ShelfOrders(shelves), ShelfOrders(kept));
      ghost var after := MatchBeside(tree, side, order, shelves, s, TreeFor(side.Opposite()), kept, AllOrders());
      NotesUnion(ShelfOrders(shelves), ShelfOrders(kept));
      NotedBeside(was, Notes(ShelfOrders(shelves)), rest, ShelfOrders(after), ShelfOrders(kept));
      Replace(side, after);
      HoldingsShrink(tree, shelves, after);
      Counters();
      MatchedLadder(old(Value()), Value(), side);
    }

    /** A buy order takes from the asks. */
    method MatchBuyOrder(order: Order)
      requires Shaped() && order !in AllOrders() && order.side == Buy
      requires Incoming(Value(), order.State()).Valid() && Live(Incoming(Value(), order.State()))
      modifies this`orderMap, this`orderSideMap, this`tradeIdCounter, this`trades, this`retired, this`bids, this`asks
      modifies Footprint(), order`filledQuantity, order`visibleFilledQuantity
      ensures Shaped() && order !in AllOrders() && AllOrders() <= old(AllOrders())
      ensures Within(orderMap, old(orderMap)) && Within(orderSideMap, old(orderSideMap))
      ensures Footprint() <= old(Footprint())
      ensures var b, o := old(Value()), old(order.State()); var r := MatchAll(Incoming(b, o));
        && Value() == b.With(o.side.Opposite(), r.ladder).(lastTrade := r.nextId)
        && order.State() == r.taker && trades == old(trades) + r.trades && retired == old(retired) + r.done
      ensures Noted(old(Notes(AllOrders())), Notes(old(AllOrders())), AllOrders())
    {
      hide *;
      SidesOfBook();
      MatchSide(askTree, Sell, order);
    }

    /** A sell order takes from the bids. */
    method MatchSellOrder(order: Order)
      requires Shaped() && order !in AllOrders() && order.side == Sell
      requires Incoming(Value(), order.State()).Valid() && Live(Incoming(Value(), order.State()))
      modifies this`orderMap, this`orderSideMap, this`tradeIdCounter, this`trades, this`retired, this`bids, this`asks
      modifies Footprint(), order`filledQuantity, order`visibleFilledQuantity
      ensures Shaped() && order !in AllOrders() && AllOrders() <= old(AllOrders())
      ensures Within(orderMap, old(orderMap)) && Within(orderSideMap, old(orderSideMap))
      ensures Footprint() <= old(Footprint())
      ensures var b, o := old(Value()), old(order.State()); var r := MatchAll(Incoming(b, o));
        && Value() == b.With(o.side.Opposite(), r.ladder).(lastTrade := r.nextId)
        && order.State() == r.taker && trades == old(trades) + r.trades && retired == old(retired) + r.done
      ensures Noted(old(Notes(AllOrders())), Notes(old(AllOrders())), AllOrders())
    {
      hide *;
      SidesOfBook();
      MatchSide(bidTree, Buy, order);
    }

    lemma SidesOfBook()
      ensures TreeFor(Buy) == bidTree && TreeFor(Sell) == askTree && Buy.Opposite() == Sell && Sell.Opposite() == Buy
    {
    }

    /** Matches an order against the side it is not on. */
    method MatchOrder(order: Order)
      requires Shaped() && order !in AllOrders()
      requires Incoming(Value(), order.State()).Valid() && Live(Incoming(Value(), order.State()))
      modifies this`orderMap, this`orderSideMap, this`tradeIdCounter, this`trades, this`retired, this`bids, this`asks
      modifies Footprint(), order`filledQuantity, order`visibleFilledQuantity
      ensures Shaped() && order !in AllOrders() && AllOrders() <= old(AllOrders())
      ensures Within(orderMap, old(orderMap)) && Within(orderSideMap, old(orderSideMap))
      ensures Footprint() <= old(Footprint())
      ensures var b, o := old(Value()), old(order.State()); var r := MatchAll(Incoming(b, o));
        && Value() == b.With(o.side.Opposite(), r.ladder).(lastTrade := r.nextId)
        && order.State() == r.taker && trades == old(trades) + r.trades && retired == old(retired) + r.done
      ensures Noted(old(Notes(AllOrders())), Notes(old(AllOrders())), AllOrders())
    {
      hide *;
      if order.side == Buy {
        MatchBuyOrder(order);
      } else {
        MatchSellOrder(order);
      }
    }

    /** Resting an order on one side, with the other side and the id maps looking on. */
    method RestAside(tree: RedBlackTree, order: Order, ghost side: Side, ghost shelves: seq<Shelf>,
                     ghost other: RedBlackTree, ghost kept: seq<Shelf>, ghost all: set<Order>)
      returns (ghost after: seq<Shelf>)
      requires SideOK(tree, side, shelves) && SideOK(other, side.Opposite(), kept) && tree != other
      requires ShelfNodes(shelves) !! ShelfNodes(kept) && ShelfQueues(shelves) !! ShelfQueues(kept) && ShelfOrders(shelves) !! ShelfOrders(kept)
      requires Indexed(orderMap, orderSideMap, all) && all == ShelfOrders(shelves) + ShelfOrders(kept)
      requires order.side == side && order.orderId !in orderMap && forall l :: l in LadderOf(shelves) ==> l.count + 1 < TWO_32
      modifies order`prev, order`next, tree, ShelfNodes(shelves), ShelfQueues(shelves), ShelfOrders(shelves)`next
      ensures SideOK(tree, side, after) && SideOK(other, side.Opposite(), kept) && LadderOf(kept) == old(LadderOf(kept))
      ensures fresh(ShelfNodes(after) - ShelfNodes(shelves)) && fresh(ShelfQueues(after) - ShelfQueues(shelves))
      ensures ShelfOrders(after) == ShelfOrders(shelves) + {order} && order !in all
      ensures LadderOf(after) == AddToLadder(side, old(LadderOf(shelves)), old(order.State()))
      ensures order.State() == old(order.State())
      ensures Notes(all) == old(Notes(all))
    {
      hide *;
      SideParts(tree, side, shelves);
      StrangeId(orderMap, orderSideMap, all, ShelfOrders(shelves), order);
      assert allocated(all) && allocated(ShelfNodes(kept)) && allocated(ShelfQueues(kept)) && allocated(ShelfOrders(kept));
      after := RestOrder(tree, order, side, shelves);
      SideParts(tree, side, after);
    }

    /** Resting an order on one side, with the other side looking on. */
    method RestBeside(tree: RedBlackTree, order: Order, ghost side: Side, ghost shelves: seq<Shelf>,
                      ghost other: RedBlackTree, ghost kept: seq<Shelf>, ghost all: set<Order>)
      returns (ghost after: seq<Shelf>)
      requires SideOK(tree, side, shelves) && SideOK(other, side.Opposite(), kept) && tree != other
      requires ShelfNodes(shelves) !! ShelfNodes(kept) && ShelfQueues(shelves) !! ShelfQueues(kept) && ShelfOrders(shelves) !! ShelfOrders(kept)
      requires Indexed(orderMap, orderSideMap, all) && all == ShelfOrders(shelves) + ShelfOrders(kept)
      requires order.side == side && order.orderId !in orderMap && forall l :: l in LadderOf(shelves) ==> l.count + 1 < TWO_32
      modifies this`orderMap, this`orderSideMap, order`prev, order`next
      modifies tree, ShelfNodes(shelves), ShelfQueues(shelves), ShelfOrders(shelves)`next
      ensures SideOK(tree, side, after) && SideOK(other, side.Opposite(), kept) && LadderOf(kept) == old(LadderOf(kept))
      ensures ShelfNodes(after) !! ShelfNodes(kept) && ShelfQueues(after) !! ShelfQueues(kept) && ShelfOrders(after) !! ShelfOrders(kept)
      ensures fresh(ShelfNodes(after) - ShelfNodes(shelves)) && fresh(ShelfQueues(after) - ShelfQueues(shelves))
      ensures ShelfOrders(after) == ShelfOrders(shelves) + {order}
      ensures Indexed(orderMap, orderSideMap, ShelfOrders(after) + ShelfOrders(kept))
      ensures LadderOf(after) == AddToLadder(side, old(LadderOf(shelves)), old(order.State()))
      ensures order.State() == old(order.State()) && order.orderId == old(order.orderId)
      ensures orderMap == old(orderMap)[order.orderId := order] && orderSideMap == old(orderSideMap)[order.orderId := side]
      ensures Notes(all) == old(Notes(all))
    {
      hide *;
      assert allocated(all) && allocated(ShelfNodes(kept)) && allocated(ShelfQueues(kept)) && allocated(ShelfOrders(kept));
      after := RestAside(tree, order, side, shelves, other, kept, all);
      assert Indexed(orderMap, orderSideMap, all);
      OrderFields(order);
      Come(ShelfOrders(shelves), ShelfOrders(kept), order);
      assert allocated(all) && allocated(ShelfNodes(after)) && allocated(ShelfQueues(after)) && allocated(ShelfOrders(after));
      Enlist(order, all);
    }

    /** Rests an order on its side of the book and enters it in the id maps. */
    method AddOrderToBook(order: Order)
      requires Shaped() && order.orderId !in orderMap
      requires forall l :: l in Value().Ladder(order.side) ==> l.count + 1 < TWO_32
      modifies this`orderMap, this`orderSideMap, this`bids, this`asks, Footprint(), order`prev, order`next
      ensures Shaped() && order.State() == old(order.State()) && AllOrders() == old(AllOrders()) + {order}
      ensures orderMap == old(orderMap)[order.orderId := order] && orderSideMap == old(orderSideMap)[order.orderId := order.side]
      ensures forall x :: x in Footprint() && x !in old(Footprint()) && x != order ==> fresh(x)
      ensures var b, o := old(Value()), old(order.State()); Value() == b.With(o.side, AddToLadder(o.side, b.Ladder(o.side), o))
      ensures Notes(old(AllOrders())) == old(Notes(AllOrders()))
    {
      hide *;
      ghost var side := order.side;
      ShapeFrom(side);
      Counters();
      OrderFields(order);
      ghost var shelves, kept := ShelvesFor(side), ShelvesFor(side.Opposite());
      HoldingsShrink(TreeFor(side), shelves, shelves);
      ghost var after := RestBeside(TreeFor(order.side), order, side, shelves, TreeFor(side.Opposite()), kept, AllOrders());
      OrderFields(order);
      Replace(side, after);
      HoldingsGrow(TreeFor(side), shelves, after);
      Counters();
      OneLadder(old(Value()), Value(), side);
    }

    /** The book with all that happened to it since it was created. */
    ghost function Log(): History
      reads this`bids, this`asks, this`sequenceNumber, this`tradeIdCounter, this`retired, this`trades, this`submitted, Footprint()
    {
      History(Value(), retired, trades, submitted)
    }

    /** The invariant between operations: memory in order, and a sound history. */
    ghost predicate Valid()
      reads this, Footprint()
    {
      Shaped() && Log().Sound()
    }

    /** The id of no resting order is no id of the maps. */
    lemma FreshId(id: nat)
      requires Shaped() && Absent(id, Value().Orders())
      ensures id !in orderMap
    {
      if id in orderMap {
        var o := orderMap[id];
        ShapeParts();
        assert o in AllOrders() && o.State().id == id;
        if o in ShelfOrders(bids) {
          InLadder(bids, o);
        } else {
          InLadder(asks, o);
        }
      }
    }

    /** The footprint holds the resting orders and no other, and not the book itself. */
    lemma Outside(order: Order)
      ensures order in AllOrders() <==> order in Footprint()
      ensures this !in Footprint()
    {
    }

    lemma AllOutside(orders: set<Order>)
      requires orders !! AllOrders()
      ensures orders !! Footprint()
    {
      forall o | o in orders ensures o !in Footprint() {
        Outside(o);
      }
    }

    /** A submitted order takes the client's id for its own. */
    method AssignId(order: Order)
      requires Shaped() && order !in AllOrders()
      modifies order`orderId
      ensures order.State() == old(order.State()).(id := order.clientOrderId) && order.orderId == order.clientOrderId
      ensures Shaped() && Value() == old(Value()) && AllOrders() == old(AllOrders())
    {
      hide *;
      Outside(order);
      StateFields(order);
      order.orderId := order.clientOrderId;
      StateFields(order);
    }

    /** The status and the retired mark of an order are no part of the book. */
    method Mark(order: Order, status: Status, retired: bool)
      requires Shaped()
      modifies order`status, order`retired
      ensures Shaped() && Value() == old(Value()) && order.State() == old(order.State()) && AllOrders() == old(AllOrders())
      ensures order.status == status && order.retired == retired
    {
      hide *;
      ShapeParts();
      SideParts(bidTree, Buy, bids);
      SideParts(askTree, Sell, asks);
      order.status := status;
      order.retired := retired;
      SideParts(bidTree, Buy, bids);
      SideParts(askTree, Sell, asks);
      ShapeParts();
    }

    /** The order rests, or is done with. */
    method RestOrRetire(order: Order)
      requires Shaped() && order !in AllOrders() && order.orderId !in orderMap
      requires forall l :: l in Value().Ladder(order.side) ==> l.count + 1 < TWO_32
      modifies this`orderMap, this`orderSideMap, this`bids, this`asks, this`retired
      modifies Footprint(), order`prev, order`next, order`status, order`retired
      ensures Shaped() && order.State() == old(order.State())
      ensures forall x :: x in Footprint() && x !in old(Footprint()) && x != order ==> fresh(x)
      ensures var b, t := old(Value()), order.State();
        if !t.IsTotallyFilled() && old(order.status) != Rejected then
             var r := b.With(t.side, AddToLadder(t.side, b.Ladder(t.side), t));
             && Value() == r && retired == old(retired)
             && order.status == Active && order.retired == old(order.retired) && AllOrders() == old(AllOrders()) + {order}
             && orderMap == old(orderMap)[order.orderId := order] && orderSideMap == old(orderSideMap)[order.orderId := order.side]
           else
             && Value() == b && retired == old(retired) + [t]
             && order.status == (if t.IsTotallyFilled() then Filled else Rejected) && order.retired
             && orderMap == old(orderMap) && orderSideMap == old(orderSideMap) && AllOrders() == old(AllOrders())
      ensures Notes(old(AllOrders())) == old(Notes(AllOrders()))
    {
      hide *;
      OrderFields(order);
      Outside(order);
      ghost var all, was := AllOrders(), Notes(AllOrders());
      assert allocated(all);
      if !order.State().IsTotallyFilled() && order.status != Rejected {
        AddOrderToBook(order);
        assert Notes(all) == was;
        Mark(order, Active, order.retired);
      } else if order.State().IsTotallyFilled() {
        Mark(order, Filled, true);
        retired := retired + [order.State()];
      } else {
        Mark(order, order.status, true);
        retired := retired + [order.State()];
      }
      assert Notes(all) == was;
    }

    /** What addOrder does once matching is over: the order rests, or is done with. */
    method Conclude(order: Order)
      requires Shaped() && order !in AllOrders() && order.orderId !in orderMap
      requires forall l :: l in Value().Ladder(order.side) ==> l.count + 1 < TWO_32
      modifies this`orderMap, this`orderSideMap, this`bids, this`asks, this`sequenceNumber, this`retired, this`submitted
      modifies Footprint(), order`prev, order`next, order`status, order`retired
      ensures Shaped() && order.State() == old(order.State())
      ensures forall x :: x in Footprint() && x !in old(Footprint()) && x != order ==> fresh(x)
      ensures var b, t := old(Value()), order.State();
        && submitted == old(submitted) + [t.id]
        && if !t.IsTotallyFilled() && old(order.status) != Rejected then
             var r := b.With(t.side, AddToLadder(t.side, b.Ladder(t.side), t));
             && Value() == r.(sequence := r.sequence + 1) && retired == old(retired)
             && order.status == Active && order.retired == old(order.retired) && AllOrders() == old(AllOrders()) + {order}
             && orderMap == old(orderMap)[order.orderId := order] && orderSideMap == old(orderSideMap)[order.orderId := order.side]
           else
             && Value() == b.(sequence := b.sequence + 1) && retired == old(retired) + [t]
             && order.status == (if t.IsTotallyFilled() then Filled else Rejected) && order.retired
             && orderMap == old(orderMap) && orderSideMap == old(orderSideMap) && AllOrders() == old(AllOrders())
      ensures Notes(old(AllOrders())) == old(Notes(AllOrders()))
    {
      hide *;
      OrderFields(order);
      Outside(order);
      ghost var all := AllOrders();
      assert allocated(all);
      RestOrRetire(order);
      OrderFields(order);
      Number();
      Outside(order);
      submitted := submitted + [order.orderId];
    }

    /** Numbers an operation. */
    method Number()
      requires Shaped()
      modifies this`sequenceNumber
      ensures Shaped() && Value() == old(Value()).(sequence := old(Value()).sequence + 1) && AllOrders() == old(AllOrders())
    {
      hide *;
      ShapeParts();
      sequenceNumber := sequenceNumber + 1;
      ShapeParts();
    }

    /** The first half of addOrder: the client's id, and matching. */
    method MatchSubmitted(order: Order)
      requires Shaped() && order !in AllOrders() && order.clientOrderId !in orderMap
      requires var o := order.State().(id := order.clientOrderId); Incoming(Value(), o).Valid() && Live(Incoming(Value(), o))
      modifies this`orderMap, this`orderSideMap, this`tradeIdCounter, this`trades, this`retired, this`bids, this`asks
      modifies Footprint(), order`orderId, order`filledQuantity, order`visibleFilledQuantity
      ensures Shaped() && order !in AllOrders() && AllOrders() <= old(AllOrders())
      ensures Within(orderMap, old(orderMap)) && Within(orderSideMap, old(orderSideMap))
      ensures Footprint() <= old(Footprint()) && order.orderId == old(order.clientOrderId) && order.orderId !in orderMap
      ensures var b, o := old(Value()), old(order.State().(id := order.clientOrderId)); var r := MatchAll(Incoming(b, o));
        && Value() == b.With(o.side.Opposite(), r.ladder).(lastTrade := r.nextId)
        && order.State() == r.taker && trades == old(trades) + r.trades && retired == old(retired) + r.done
      ensures Noted(old(Notes(AllOrders())), Notes(old(AllOrders())), AllOrders())
    {
      hide *;
      Outside(order);
      ghost var all, was := AllOrders(), Notes(AllOrders());
      assert allocated(all);
      AssignId(order);
      assert Notes(all) == was;
      MatchOrder(order);
      OrderFields(order);
      WithinLaws(orderMap, old(orderMap), old(orderMap), order.orderId);
    }

    /** The order is matched against the other side; what is left of it rests, unless it was rejected. In memory this
        is the submission that Books describes. */
    method AddOrder(order: Order)
      requires Valid() && order !in AllOrders()
      requires Allowed(Log(), Submit(order.State().(id := order.clientOrderId), order.status == Rejected))
      modifies this, Footprint(), order
      ensures Valid() && forall x :: x in Footprint() && x !in old(Footprint()) && x != order ==> fresh(x)
      ensures Log() == Apply(old(Log()), Submit(old(order.State().(id := order.clientOrderId)), old(order.status == Rejected)))
      ensures order.State().IsTotallyFilled() || old(order.status) == Rejected ==>
        order.retired && order.status == if order.State().IsTotallyFilled() then Filled else Rejected
      ensures order.State() == Remainder(old(Log()).book, old(order.State().(id := order.clientOrderId)))
      ensures AllOrders() <= old(AllOrders()) + {order} && order.orderId == old(order.clientOrderId)
      ensures Within(orderMap - {order.orderId}, old(orderMap)) && Within(orderSideMap - {order.orderId}, old(orderSideMap))
      ensures if order.State().IsTotallyFilled() || old(order.status) == Rejected then order !in AllOrders()
              else order.status == Active && order.retired == old(order.retired) && order in AllOrders()
                   && order.orderId in orderMap && orderMap[order.orderId] == order && order.orderId in orderSideMap
      ensures Noted(old(Notes(AllOrders())), Notes(old(AllOrders())), AllOrders())
    {
      hide *;
      ghost var o, rejected := order.State().(id := order.clientOrderId), order.status == Rejected;
      ghost var h := Log();
      ghost var all, was := AllOrders(), Notes(AllOrders());
      assert allocated(all);
      LogParts();
      AddParts(h, o, rejected);
      FreshId(order.clientOrderId);
      OrderFields(order);
      Outside(order);
      MatchSubmitted(order);
      OrderFields(order);
      ghost var index, sides := orderMap, orderSideMap;
      ghost var mid := Footprint();
      ghost var left := AllOrders();
      ghost var rest := Notes(all - left);
      NotesSplit(all, left);
      AllOutside(all - left);
      label L:
      Conclude(order);
      assert Noted(was, Notes(all), AllOrders()) by {
        assert Notes(all - left) == rest;
        NotesSplit(all, left);
        NotedMore(was, Notes(all), left, order);
      }
      forall x | x in Footprint() && x !in old(Footprint()) && x != order ensures fresh(x) {
        assert x !in mid && fresh@L(x);
      }
      assert Within(orderMap - {order.orderId}, old(orderMap)) && Within(orderSideMap - {order.orderId}, old(orderSideMap)) by {
        WithinOne(index, old(orderMap), order.orderId, order);
        WithinOne(sides, old(orderSideMap), order.orderId, order.side);
      }
      LogParts();
      assert Log().Sound() by {
        SubmitKeepsSound(h, o, rejected);
      }
    }

    /** The ids of the maps are those of the resting orders, and the orders of the map are the resting orders. */
    lemma MapsRest()
      requires Shaped()
      ensures orderMap.Keys == orderSideMap.Keys && orderMap.Values == AllOrders()
      ensures forall id :: id in orderMap <==> !Absent(id, Value().Orders())
    {
      hide *;
      MapsAgree();
      ShapeParts();
      IndexedValues(orderMap, orderSideMap, AllOrders());
      forall id ensures id in orderMap <==> !Absent(id, Value().Orders()) {
        IndexOfAbsent(Value().Orders(), id);
        if id !in orderMap {
          AbsentId(id);
        } else if Absent(id, Value().Orders()) {
          FreshId(id);
        }
      }
    }

    lemma MapsAgree()
      requires Shaped()
      ensures orderMap.Keys == orderSideMap.Keys
    {
      hide SideOK;
    }

    lemma LogParts()
      ensures Valid() <==> Shaped() && Log().Sound()
      ensures Log() == History(Value(), retired, trades, submitted)
    {
      hide Shaped, History.Sound;
    }

    /** Taking an order off one side, with the other side and the id maps looking on. */
    method WithdrawAside(tree: RedBlackTree, order: Order, ghost side: Side, ghost shelves: seq<Shelf>,
                         ghost other: RedBlackTree, ghost kept: seq<Shelf>, ghost all: set<Order>)
      returns (ghost after: seq<Shelf>)
      requires SideOK(tree, side, shelves) && SideOK(other, side.Opposite(), kept) && tree != other
      requires ShelfNodes(shelves) !! ShelfNodes(kept) && ShelfQueues(shelves) !! ShelfQueues(kept) && ShelfOrders(shelves) !! ShelfOrders(kept)
      requires all == ShelfOrders(shelves) + ShelfOrders(kept)
      requires order in ShelfOrders(shelves) && forall l :: l in LadderOf(shelves) ==> l.count == |l.orders| < TWO_32
      modifies tree, ShelfNodes(shelves), ShelfQueues(shelves), ShelfOrders(shelves)`prev, ShelfOrders(shelves)`next
      ensures SideOK(tree, side, after) && SideOK(other, side.Opposite(), kept) && LadderOf(kept) == old(LadderOf(kept))
      ensures ShelfOrders(after) == ShelfOrders(shelves) - {order}
      ensures ShelfNodes(after) <= ShelfNodes(shelves) && ShelfQueues(after) <= ShelfQueues(shelves)
      ensures LadderOf(after) == RemoveFromLadder(old(LadderOf(shelves)), old(order.price), old(order.orderId))
      ensures order.State() == old(order.State())
      ensures Notes(all) == old(Notes(all))
    {
      hide *;
      SideParts(tree, side, shelves);
      assert allocated(all) && allocated(ShelfNodes(kept)) && allocated(ShelfQueues(kept)) && allocated(ShelfOrders(kept));
      after := Withdraw(tree, order, side, shelves);
      SideParts(tree, side, after);
    }

    /** Taking an order off one side, with the other side looking on. */
    method WithdrawBeside(tree: RedBlackTree, order: Order, ghost side: Side, ghost shelves: seq<Shelf>,
                          ghost other: RedBlackTree, ghost kept: seq<Shelf>, ghost all: set<Order>)
      returns (ghost after: seq<Shelf>)
      requires SideOK(tree, side, shelves) && SideOK(other, side.Opposite(), kept) && tree != other
      requires ShelfNodes(shelves) !! ShelfNodes(kept) && ShelfQueues(shelves) !! ShelfQueues(kept) && ShelfOrders(shelves) !! ShelfOrders(kept)
      requires Indexed(orderMap, orderSideMap, all) && all == ShelfOrders(shelves) + ShelfOrders(kept)
      requires order in ShelfOrders(shelves) && forall l :: l in LadderOf(shelves) ==> l.count == |l.orders| < TWO_32
      modifies this`orderMap, this`orderSideMap
      modifies tree, ShelfNodes(shelves), ShelfQueues(shelves), ShelfOrders(shelves)`prev, ShelfOrders(shelves)`next
      ensures SideOK(tree, side, after) && SideOK(other, side.Opposite(), kept) && LadderOf(kept) == old(LadderOf(kept))
      ensures ShelfOrders(after) == ShelfOrders(shelves) - {order}
      ensures ShelfNodes(after) <= ShelfNodes(shelves) && ShelfQueues(after) <= ShelfQueues(shelves)
      ensures Indexed(orderMap, orderSideMap, ShelfOrders(after) + ShelfOrders(kept))
      ensures LadderOf(after) == RemoveFromLadder(old(LadderOf(shelves)), old(order.price), old(order.orderId))
      ensures order.State() == old(order.State()) && old(order.orderId) !in orderMap
      ensures orderMap == old(orderMap) - {old(order.orderId)} && orderSideMap == old(orderSideMap) - {old(order.orderId)}
      ensures Notes(all) == old(Notes(all))
    {
      hide *;
      assert allocated(all) && allocated(ShelfNodes(kept)) && allocated(ShelfQueues(kept)) && allocated(ShelfOrders(kept));
      after := WithdrawAside(tree, order, side, shelves, other, kept, all);
      assert Indexed(orderMap, orderSideMap, all);
      OrderFields(order);
      Gone(ShelfOrders(shelves), ShelfOrders(kept), order);
      assert allocated(all) && allocated(ShelfNodes(after)) && allocated(ShelfQueues(after)) && allocated(ShelfOrders(after));
      Unlist(order, all);
    }

    /** An id the maps do not know is no resting order's. */
    lemma AbsentId(id: nat)
      requires Shaped() && id !in orderMap
      ensures IndexOf(Value().Orders(), id) == |Value().Orders()|
    {
      ShapeParts();
      var queue := Value().Orders();
      assert queue == Flat(LadderOf(bids)) + Flat(LadderOf(asks));
      hide Shaped, SideOK, Value, LadderOf, Flat, ShelfOrders, Book.Orders;
      IndexOfAbsent(queue, id);
      forall x | x in queue ensures x.id != id {
        var o: Order;
        if x in Flat(LadderOf(bids)) {
          o := FromLadder(bids, x);
        } else {
          o := FromLadder(asks, x);
        }
        OrderFields(o);
      }
    }

    /** An id the maps know is the id of an order of its side. */
    lemma KnownId(id: nat)
      requires Valid() && id in orderMap
      ensures var o, b := orderMap[id], Value();
        && id in orderSideMap && o.orderId == id && o.side == orderSideMap[id] && o.State().side == o.side && o.State().price == o.price && o.State().id == id
        && o in AllOrders() && o in ShelfOrders(ShelvesFor(o.side))
        && o.State() in Flat(b.Ladder(o.side))
        && forall l :: l in b.Ladder(o.side) ==> l.count == |l.orders| < TWO_32
    {
      ShapeParts();
      var o := orderMap[id];
      assert Value().Valid();
      hide Shaped, Valid, LadderOf, Flat, ShelfOrders, ShelfNodes, ShelfQueues, History.Sound;
      OrderFields(o);
      SideParts(bidTree, Buy, bids);
      SideParts(askTree, Sell, asks);
      if o in ShelfOrders(bids) {
        var k := ShelfOfOrder(bidTree, Buy, bids, o);
        InLadder(bids, o);
      } else {
        var k := ShelfOfOrder(askTree, Sell, asks, o);
        InLadder(asks, o);
      }
    }

    /** Every level of a side holds its node, its queue and at least one order, and both counters are the number of
        its orders. */
    lemma LevelsAgree(side: Side, k: nat)
      requires Valid() && k < |ShelvesFor(side)|
      ensures var s := ShelvesFor(side)[k];
        && s.n.queue == s.q && s.q.Valid() && s.q.contents == s.orders && s.orders != []
        && s.n.orderCount == s.q.orderCount == |s.orders|
        && forall o :: o in s.orders ==> o.side == side && o.price == s.n.price
    {
      var shelves := ShelvesFor(side);
      LogParts();
      ShapeFrom(side);
      SideParts(TreeFor(side), side, shelves);
      assert Value().Valid();
      hide Shaped, Valid, SideOK, Elsewhere, TreeOf, ShelvesOK, LadderOf;
      FullFocus(TreeFor(side), side, shelves, k);
      assert LadderOf(shelves)[k] in LadderOf(shelves) && LevelOK(side, LadderOf(shelves)[k]);
    }

    /** The id maps, the trees and the queues tell the same: an id is known exactly if it is that of an order in a
        queue, and then of one order in one queue, on the side and at the price the maps say. */
    lemma IndexAgreement(id: nat)
      requires Valid()
      ensures id in orderMap <==> id in orderSideMap
      ensures id in orderMap <==> exists o :: o in AllOrders() && o.orderId == id
      ensures id in orderMap ==>
        var o, shelves := orderMap[id], ShelvesFor(orderSideMap[id]);
        exists k :: 0 <= k < |shelves| && o in shelves[k].orders && shelves[k].n.price == o.price
          && id in shelves[k].q.orderMap && shelves[k].q.orderMap[id] == o
          && forall j :: 0 <= j < |shelves| && o in shelves[j].orders ==> j == k
    {
      hide *;
      LogParts();
      ShapeParts();
      IndexedIff(orderMap, orderSideMap, AllOrders(), id);
      if id in orderMap {
        KnownId(id);
        var o := orderMap[id];
        var side := orderSideMap[id];
        var shelves := ShelvesFor(side);
        ShapeFrom(side);
        SideParts(TreeFor(side), side, shelves);
        var k := ShelfOfOrder(TreeFor(side), side, shelves, o);
        FullFocus(TreeFor(side), side, shelves, k);
        QueueKnows(side, shelves[k], o);
        OneShelf(shelves, k, o);
      }
    }

    /** A resting order leaves the book and the id maps. */
    method TakeOff(order: Order, side: Side)
      requires Shaped() && order in ShelfOrders(ShelvesFor(side)) && order.State().side == side
      requires forall l :: l in Value().Ladder(side) ==> l.count == |l.orders| < TWO_32
      modifies this`orderMap, this`orderSideMap, this`bids, this`asks, Footprint()
      ensures Shaped() && Footprint() <= old(Footprint()) && AllOrders() == old(AllOrders()) - {order}
      ensures orderMap == old(orderMap) - {old(order.orderId)} && orderSideMap == old(orderSideMap) - {old(order.orderId)}
      ensures var b, o := old(Value()), order.State(); Value() == b.With(side, RemoveFromLadder(b.Ladder(side), o.price, o.id))
      ensures order.State() == old(order.State())
      ensures Notes(old(AllOrders())) == old(Notes(AllOrders()))
    {
      hide *;
      ShapeFrom(side);
      Counters();
      OrderFields(order);
      ghost var shelves, kept := ShelvesFor(side), ShelvesFor(side.Opposite());
      HoldingsShrink(TreeFor(side), shelves, shelves);
      ghost var after := WithdrawBeside(TreeFor(side), order, side, shelves, TreeFor(side.Opposite()), kept, AllOrders());
      Replace(side, after);
      HoldingsShrink(TreeFor(side), shelves, after);
      Counters();
      OneLadder(old(Value()), Value(), side);
    }

    lemma Counters()
      ensures Value().sequence == sequenceNumber && Value().lastTrade == tradeIdCounter
    {
    }

    /** A resting order is withdrawn; in memory this is the cancellation that Books describes. */
    method CancelOrder(orderId: nat) returns (done: bool)
      requires Valid()
      modifies this, Footprint()
      ensures Valid() && Footprint() <= old(Footprint())
      ensures done <==> orderId in old(orderMap)
      ensures orderMap == old(orderMap) - {orderId} && orderSideMap == old(orderSideMap) - {orderId}
      ensures AllOrders() == if done then old(AllOrders()) - {old(orderMap[orderId])} else old(AllOrders())
      ensures Log() == Apply(old(Log()), Cancel(orderId))
      ensures done ==> old(orderMap[orderId]).status == Cancelled && old(orderMap[orderId]).retired && orderId !in orderMap
      ensures Notes(AllOrders()) == Only(old(Notes(AllOrders())), AllOrders())
    {
      hide *;
      LogParts();
      NotesOnly(AllOrders(), AllOrders());
      if orderId !in orderMap {
        AbsentId(orderId);
        MapsAgree();
        AbsentCancel(Log(), orderId);
        return false;
      }
      KnownId(orderId);
      var order, side := orderMap[orderId], orderSideMap[orderId];
      ghost var h, o := Log(), order.State();
      Outside(order);
      CancelParts(h, o);
      ghost var all := AllOrders();
      assert allocated(all);
      TakeOff(order, side);
      NotesOnly(all, AllOrders());
      ghost var left := AllOrders();
      assert allocated(left);
      Mark(order, Cancelled, true);
      Number();
      Outside(order);
      retired := retired + [order.State()];
      CancelKeepsSound(h, orderId);
      LogParts();
      return true;
    }

    /** Walks a tree from the best price on and keeps the first levels. */
    method CollectPriceLevels(tree: RedBlackTree, depth: nat, reverse: bool, ghost shelves: seq<Shelf>) returns (levels: seq<PriceLevel>)
      requires SideOK(tree, if reverse then Buy else Sell, shelves)
      ensures levels == Depth(old(LadderOf(shelves)), depth)
    {
      hide *;
      SideParts(tree, if reverse then Buy else Sell, shelves);
      LevelFields(shelves);
      ghost var ladder := LadderOf(shelves);
      var calls := WalkSide(tree, reverse, shelves);
      levels := [];
      var count := 0;
      for i := 0 to |calls|
        invariant count == (if i <= depth then i else depth) == |levels|
        invariant forall j :: 0 <= j < count ==> levels[j] == PriceLevel(ladder[j].price, ladder[j].quantity, ladder[j].count)
      {
        if count < depth {
          levels := levels + [PriceLevel(calls[i].price, calls[i].totalQuantity, calls[i].orderCount)];
          count := count + 1;
        }
      }
    }

    /** The best levels of both sides, as the counters of their nodes have them. */
    method GetSnapshot(depth: nat) returns (bidLevels: seq<PriceLevel>, askLevels: seq<PriceLevel>, sequence: nat)
      requires Valid()
      ensures bidLevels == Depth(Value().bids, depth) && askLevels == Depth(Value().asks, depth)
      ensures sequence == Value().sequence
    {
      hide *;
      LogParts();
      ShapeParts();
      assert allocated(ShelfNodes(bids)) && allocated(ShelfQueues(bids)) && allocated(ShelfOrders(bids));
      assert allocated(ShelfNodes(asks)) && allocated(ShelfQueues(asks)) && allocated(ShelfOrders(asks));
      bidLevels := CollectPriceLevels(bidTree, depth, true, bids);
      askLevels := CollectPriceLevels(askTree, depth, false, asks);
      sequence := sequenceNumber;
    }

    method GetBestBid() returns (price: int)
      requires Valid()
      ensures price == if Value().bids == [] then 0 else Value().bids[0].price
    {
      hide *;
      LogParts();
      ShapeParts();
      SideParts(bidTree, Buy, bids);
      LevelFields(bids);
      assert allocated(ShelfNodes(bids)) && allocated(ShelfQueues(bids)) && allocated(ShelfOrders(bids));
      assert allocated(ShelfNodes(asks)) && allocated(ShelfQueues(asks)) && allocated(ShelfOrders(asks));
      var n := BestNode(bidTree, Buy, bids);
      price := if n != null then n.price else 0;
    }

    method GetBestAsk() returns (price: int)
      requires Valid()
      ensures price == if Value().asks == [] then 0 else Value().asks[0].price
    {
      hide *;
      LogParts();
      ShapeParts();
      SideParts(askTree, Sell, asks);
      LevelFields(asks);
      assert allocated(ShelfNodes(bids)) && allocated(ShelfQueues(bids)) && allocated(ShelfOrders(bids));
      assert allocated(ShelfNodes(asks)) && allocated(ShelfQueues(asks)) && allocated(ShelfOrders(asks));
      var n := BestNode(askTree, Sell, asks);
      price := if n != null then n.price else 0;
    }

    method GetBestBidQuantity() returns (quantity: nat)
      requires Valid()
      ensures quantity == if Value().bids == [] then 0 else Value().bids[0].queueQuantity
    {
      hide *;
      LogParts();
      ShapeParts();
      SideParts(bidTree, Buy, bids);
      LevelFields(bids);
      assert allocated(ShelfNodes(bids)) && allocated(ShelfQueues(bids)) && allocated(ShelfOrders(bids));
      assert allocated(ShelfNodes(asks)) && allocated(ShelfQueues(asks)) && allocated(ShelfOrders(asks));
      var n := BestNode(bidTree, Buy, bids);
      quantity := if n != null && n.queue != null then n.queue.totalQty else 0;
    }

    method GetBestAskQuantity() returns (quantity: nat)
      requires Valid()
      ensures quantity == if Value().asks == [] then 0 else Value().asks[0].queueQuantity
    {
      hide *;
      LogParts();
      ShapeParts();
      SideParts(askTree, Sell, asks);
      LevelFields(asks);
      assert allocated(ShelfNodes(bids)) && allocated(ShelfQueues(bids)) && allocated(ShelfOrders(bids));
      assert allocated(ShelfNodes(asks)) && allocated(ShelfQueues(asks)) && allocated(ShelfOrders(asks));
      var n := BestNode(askTree, Sell, asks);
      quantity := if n != null && n.queue != null then n.queue.totalQty else 0;
    }

    /** The resting order of an id, or null when no order of that id rests. */
    method FindOrder(orderId: nat) returns (order: Order?)
      requires Valid()
      ensures order == null <==> IndexOf(Value().Orders(), orderId) == |Value().Orders()|
      ensures order != null <==> orderId in orderMap
      ensures order != null ==> order == orderMap[orderId] && order.State() == Value().Orders()[IndexOf(Value().Orders(), orderId)]
    {
      hide *;
      LogParts();
      if orderId in orderMap {
        KnownId(orderId);
        SoleId(Log(), orderMap[orderId].State());
        return orderMap[orderId];
      }
      AbsentId(orderId);
      return null;
    }

    /** Marks every resting order as retired. */
    method RetireAll()
      requires Shaped()
      modifies AllOrders()`retired, AllOrders()`status
      ensures Shaped() && Value() == old(Value()) && AllOrders() == old(AllOrders())
      ensures forall o :: o in AllOrders() ==> o.retired
    {
      hide *;
      ShapeParts();
      var ids := orderMap.Keys;
      ghost var all := AllOrders();
      IndexedAll(orderMap, orderSideMap, all);
      while ids != {}
        invariant Shaped() && Value() == old(Value()) && ids <= orderMap.Keys && AllOrders() == all
        invariant forall o :: o in all ==> o.retired || o.orderId in ids
      {
        var id :| id in ids;
        assert allocated(all);
        ShapeParts();
        IndexedAt(orderMap, orderSideMap, all, id);
        Mark(orderMap[id], orderMap[id].status, true);
        ids := ids - {id};
      }
    }

    /** Empties the maps and the trees and starts the counters again. */
    method Reset()
      requires Shaped()
      modifies this`orderMap, this`orderSideMap, this`bids, this`asks, this`sequenceNumber, this`tradeIdCounter
      modifies bidTree, askTree
      ensures Shaped() && Value() == EMPTY && AllOrders() == {}
    {
      hide *;
      ShapeParts();
      orderMap, orderSideMap := map[], map[];
      bidTree.Clear();
      EmptySide(bidTree, Buy);
      assert allocated(bidTree.tree.Nodes());
      askTree.Clear();
      EmptySide(askTree, Sell);
      bids, asks := [], [];
      sequenceNumber, tradeIdCounter := 0, 0;
      EmptySide(bidTree, Buy);
      assert ShelfOrders(bids) + ShelfOrders(asks) == {};
      ShapeParts();
    }

    /** Every resting order is retired, and the book starts again. */
    method Clear()
      requires Valid()
      modifies this, Footprint()
      ensures Valid() && AllOrders() == {} && forall o :: o in old(AllOrders()) ==> o.retired
      ensures Log() == Apply(old(Log()), Books.Clear)
    {
      hide *;
      LogParts();
      ShapeParts();
      ghost var h := Log();
      ClearParts(h);
      FootprintParts();
      RetireAll();
      ghost var all := AllOrders();
      assert allocated(all);
      retired := retired + Value().Orders();
      Reset();
      ClearKeepsSound(h);
      LogParts();
    }

    lemma FootprintParts()
      ensures this !in Footprint() && bidTree in Footprint() && askTree in Footprint()
      ensures forall o :: o in AllOrders() ==> o in Footprint()
    {
    }
  }

  /** An order that crosses nothing, added and cancelled in memory: both id maps, the orders that rest and the book as a
      value are as they were, but for two sequence numbers. */
  method AddThenCancel(book: OrderBook, order: Order)
    requires book.Valid() && order !in book.AllOrders() && order.status != Rejected
    requires Allowed(book.Log(), Submit(order.State().(id := order.clientOrderId), false))
    requires !Incoming(book.Value(), order.State().(id := order.clientOrderId)).Enabled() && !order.State().IsTotallyFilled()
    requires CountersFit(book.Value().Ladder(order.side))
    modifies book, book.Footprint(), order
    ensures book.Valid() && book.Value() == old(book.Value()).(sequence := old(book.Value()).sequence + 2)
    ensures book.orderMap == old(book.orderMap) && book.orderSideMap == old(book.orderSideMap)
    ensures book.AllOrders() == old(book.AllOrders())
  {
    hide *;
    ghost var h, o := book.Log(), order.State().(id := order.clientOrderId);
    ghost var index, sides := book.orderMap, book.orderSideMap;
    OrderFields(order);
    book.LogParts();
    book.MapsRest();
    FilledWithId(order.State(), order.clientOrderId);
    RestsWhole(h, o);
    BackAgain(h, o);
    book.AddOrder(order);
    book.LogParts();
    var done := book.CancelOrder(order.orderId);
    book.LogParts();
    book.MapsRest();
    SameEntries(index, book.orderMap);
    SameEntries(sides, book.orderSideMap);
  }
}
