/** The whole book as a value, its operations, and what every run of them keeps. */
module Books {
  import opened Orders
  import opened Matching
  import opened MatchingLaws
  import opened PriorityQueues
  import opened Cancelling

  datatype Book = Book(bids: seq<Level>, asks: seq<Level>, sequence: nat, lastTrade: nat) {
    function Ladder(side: Side): seq<Level> {
      if side.Buy? then bids else asks
    }

    function With(side: Side, ladder: seq<Level>): Book {
      if side.Buy? then this.(bids := ladder) else this.(asks := ladder)
    }

    /** Ladders are well-formed and the best bid is strictly below the best ask. */
    ghost predicate Valid() {
      && LadderOK(Buy, bids) && LadderOK(Sell, asks)
      && (bids != [] && asks != [] ==> bids[0].price < asks[0].price)
    }

    /** All resting orders. */
    function Orders(): seq<OrderState> {
      Flat(bids) + Flat(asks)
    }
  }

  /** The loop addOrder runs for an incoming order. */
  function Incoming(b: Book, o: OrderState): Match {
    Match(b.Ladder(o.side.Opposite()), o, [], [], b.lastTrade)
  }

  /** What addOrder needs: an order that can exist, whose matching ends, and a level that can still count. */
  ghost predicate CanAdd(b: Book, o: OrderState) {
    b.Valid() && o.Valid() && Live(Incoming(b, o)) && Room(b.Ladder(o.side))
  }

  /** The book, the order and the trades after addOrder; retired lists the orders that leave. */
  datatype Outcome = Outcome(book: Book, trades: seq<Trade>, retired: seq<OrderState>)

  /** What addOrder does once matching has ended: the order rests, or leaves with those matching retired. */
  function Conclude(b: Book, o: OrderState, r: Match, rejected: bool): Outcome {
    var matched := b.With(o.side.Opposite(), r.ladder).(sequence := b.sequence + 1, lastTrade := r.nextId);
    if !r.taker.IsTotallyFilled() && !rejected then
      Outcome(matched.With(o.side, AddToLadder(o.side, b.Ladder(o.side), r.taker)), r.trades, r.done)
    else
      Outcome(matched, r.trades, r.done + [r.taker])
  }

  function AddOrder(b: Book, o: OrderState, rejected: bool): Outcome
    requires CanAdd(b, o)
  {
    IncomingValid(b, o);
    Conclude(b, o, MatchAll(Incoming(b, o)), rejected)
  }

  /** What is left of an order once matching has ended. */
  function Remainder(b: Book, o: OrderState): OrderState
    requires CanAdd(b, o)
  {
    IncomingValid(b, o);
    MatchAll(Incoming(b, o)).taker
  }

  function CancelOrder(b: Book, o: OrderState): Outcome {
    Outcome(b.With(o.side, RemoveFromLadder(b.Ladder(o.side), o.price, o.id)).(sequence := b.sequence + 1), [], [o])
  }

  lemma IncomingValid(b: Book, o: OrderState)
    requires b.Valid() && o.Valid()
    ensures Incoming(b, o).Valid()
  {
  }

  /** Matching never improves the best price of the ladder it eats. */
  lemma LadderRecedes(s: Match)
    requires s.Valid() && Live(s)
    ensures var r := MatchAll(s).ladder;
      LadderOK(s.RestingSide(), r) && (r != [] ==> s.ladder != [] && !Better(s.RestingSide(), r[0].price, s.ladder[0].price))
  {
    FillCompleteness(s);
    var k := MatchUsesBestFirst(s);
  }

  /** The book stays well-formed and uncrossed when an order is added. */
  lemma AddKeepsBook(b: Book, o: OrderState, rejected: bool)
    requires CanAdd(b, o)
    ensures AddOrder(b, o, rejected).book.Valid()
  {
    IncomingValid(b, o);
    var s := Incoming(b, o);
    var r := MatchAll(s);
    LadderRecedes(s);
    FillCompleteness(s);
    NothingCrossesAfter(s);
    if !r.taker.IsTotallyFilled() && !rejected {
      FilledTestsAgree(r.taker);
      AddKeeps(o.side, b.Ladder(o.side), r.taker);
    }
  }

  /** addOrder against an independent matcher: the other side's queue is served to the end, with exactly its trades,
      and what is left of the order stands in the queue of its own side behind all that its price does not beat. */
  lemma AddServes(b: Book, o: OrderState, rejected: bool) returns (n: nat)
    requires CanAdd(b, o)
    ensures var out, d := AddOrder(b, o, rejected), ServeAll(Desk(Flat(b.Ladder(o.side.Opposite())), o, [], b.lastTrade, []), n);
      var own := Flat(b.Ladder(o.side));
      && !d.Open()
      && out.trades == d.trades && out.book.lastTrade == d.lastTrade && out.book.sequence == b.sequence + 1
      && Flat(out.book.Ladder(o.side.Opposite())) == d.queue
      && (if d.taker.IsTotallyFilled() || rejected
          then Flat(out.book.Ladder(o.side)) == own && out.retired == d.left + [d.taker]
          else Flat(out.book.Ladder(o.side)) == InsertBehind(o.side, own, d.taker) && out.retired == d.left)
  {
    IncomingValid(b, o);
    n := MatchServesAll(Incoming(b, o));
    AddInserts(o.side, b.Ladder(o.side), MatchAll(Incoming(b, o)).taker);
    hide MatchAll, ServeAll, AddToLadder, InsertBehind, Flat, Live;
  }

  lemma SameId(queue: seq<OrderState>, o: OrderState, x: OrderState)
    requires Unique(o.id, queue) && o in queue && x in queue && x.id == o.id
    ensures x == o
  {
    var i :| 0 <= i < |queue| && queue[i] == o;
    var j :| 0 <= j < |queue| && queue[j] == x;
    assert i < j || j < i || i == j;
  }

  lemma SamePriceAs(queue: seq<OrderState>, o: OrderState)
    requires Unique(o.id, queue) && o in queue
    ensures forall x :: x in queue && x.id == o.id ==> x.price == o.price
  {
    forall x | x in queue && x.id == o.id ensures x.price == o.price {
      SameId(queue, o, x);
    }
  }

  /** It stays so, too, when a resting order is cancelled. */
  lemma CancelKeepsBook(b: Book, o: OrderState)
    requires b.Valid() && o in Flat(b.Ladder(o.side)) && Unique(o.id, Flat(b.Ladder(o.side)))
    ensures CancelOrder(b, o).book.Valid() && CancelOrder(b, o).trades == [] && CancelOrder(b, o).retired == [o]
    ensures CancelOrder(b, o).book.Ladder(o.side.Opposite()) == b.Ladder(o.side.Opposite())
    ensures CancelOrder(b, o).book.lastTrade == b.lastTrade && CancelOrder(b, o).book.sequence == b.sequence + 1
    ensures Flat(CancelOrder(b, o).book.Ladder(o.side)) == Without(Flat(b.Ladder(o.side)), o.id)
  {
    hide LadderOK, Flat, Unique, Without, RemoveFromLadder;
    SamePriceAs(Flat(b.Ladder(o.side)), o);
    RemoveDrops(o.side, b.Ladder(o.side), o.price, o.id);
  }

  /** Adding an order that crosses nothing and cancelling it restores every level, every queue and every counter. */
  lemma AddThenCancel(b: Book, o: OrderState)
    requires CanAdd(b, o) && !Incoming(b, o).Enabled() && !o.IsTotallyFilled()
    requires Absent(o.id, Flat(b.Ladder(o.side))) && CountersFit(b.Ladder(o.side))
    ensures var added := AddOrder(b, o, false);
      && added.trades == [] && added.retired == []
      && CancelOrder(added.book, o).book == b.(sequence := b.sequence + 2)
  {
    IncomingValid(b, o);
    assert MatchAll(Incoming(b, o)) == Incoming(b, o);
    CancelUndoesAdd(o.side, b.Ladder(o.side), o);
  }

  // ---------- what an operation does to sums ----------

  lemma {:induction false} SumInsert(side: Side, queue: seq<OrderState>, o: OrderState, w: Weight)
    ensures Sum(w, InsertBehind(side, queue, o)) == Sum(w, queue) + Weigh(w, o)
  {
    if queue == [] || Better(side, o.price, queue[0].price) {
      assert ([o] + queue)[1..] == queue;
    } else {
      SumInsert(side, queue[1..], o, w);
      var r := InsertBehind(side, queue[1..], o);
      assert ([queue[0]] + r)[1..] == r;
    }
  }

  lemma {:induction false} SumWithout(queue: seq<OrderState>, o: OrderState, w: Weight)
    requires o in queue && Unique(o.id, queue)
    ensures Sum(w, Without(queue, o.id)) == Sum(w, queue) - Weigh(w, o)
  {
    if queue[0].id == o.id {
      SameId(queue, o, queue[0]);
      assert Absent(o.id, queue[1..]);
      WithoutAbsent(queue[1..], o.id);
      assert [] + queue[1..] == queue[1..];
    } else {
      assert Unique(o.id, queue[1..]);
      SumWithout(queue[1..], o, w);
      var r := Without(queue[1..], o.id);
      assert ([queue[0]] + r)[1..] == r;
    }
  }

  /** A sum over a book is one over its two sides, whichever is named first. */
  lemma BookSum(b: Book, side: Side, w: Weight)
    ensures Sum(w, b.Orders()) == Sum(w, Flat(b.Ladder(side))) + Sum(w, Flat(b.Ladder(side.Opposite())))
  {
    SumConcat(w, Flat(b.bids), Flat(b.asks));
  }

  /** The two ladders after addOrder. */
  lemma AddedLadders(b: Book, o: OrderState, rejected: bool)
    requires CanAdd(b, o)
    ensures Incoming(b, o).Valid() && Live(Incoming(b, o))
    ensures var r, out, rests := MatchAll(Incoming(b, o)), AddOrder(b, o, rejected), !MatchAll(Incoming(b, o)).taker.IsTotallyFilled() && !rejected;
      && out.book.Ladder(o.side.Opposite()) == r.ladder
      && out.book.Ladder(o.side) == (if rests then AddToLadder(o.side, b.Ladder(o.side), r.taker) else b.Ladder(o.side))
      && out.retired == (if rests then r.done else r.done + [r.taker])
      && LadderOK(o.side, b.Ladder(o.side))
  {
    IncomingValid(b, o);
  }

  /** What addOrder does to a sum over the resting orders. */
  lemma AddedSum(b: Book, o: OrderState, rejected: bool, w: Weight)
    requires CanAdd(b, o)
    ensures Incoming(b, o).Valid()
    ensures var r := MatchAll(Incoming(b, o)); var rests := !r.taker.IsTotallyFilled() && !rejected;
      Sum(w, AddOrder(b, o, rejected).book.Orders()) - Sum(w, b.Orders())
        == Sum(w, Flat(r.ladder)) - Sum(w, Flat(b.Ladder(o.side.Opposite()))) + if rests then Weigh(w, r.taker) else 0
  {
    AddedLadders(b, o, rejected);
    FillCompleteness(Incoming(b, o));
    hide AddOrder, CanAdd, LadderOK, Weigh, Sum, Flat, AddToLadder, Book.Orders, Book.Ladder, Live;
    var r := MatchAll(Incoming(b, o));
    BookSum(b, o.side, w);
    BookSum(AddOrder(b, o, rejected).book, o.side, w);
    AddInserts(o.side, b.Ladder(o.side), r.taker);
    SumInsert(o.side, Flat(b.Ladder(o.side)), r.taker, w);
  }

  /** Adding an order changes sums over resting and retired orders by what the matching changes. */
  lemma AddSum(b: Book, o: OrderState, rejected: bool, w: Weight)
    requires CanAdd(b, o)
    ensures var out, s := AddOrder(b, o, rejected), Incoming(b, o);
      && s.Valid()
      && Sum(w, out.book.Orders()) + Sum(w, out.retired)
           == Sum(w, b.Orders()) + Weigh(w, o) + Everyone(MatchAll(s), w) - Everyone(s, w)
  {
    hide AddOrder, CanAdd, Weigh, Flat, Book.Orders, Live, MatchAll, Liquidity, Match.Valid;
    AddedLadders(b, o, rejected);
    AddedSum(b, o, rejected, w);
    var r := MatchAll(Incoming(b, o));
    assert Incoming(b, o).done == [] && Sum(w, []) == 0;
    SumConcat(w, r.done, [r.taker]);
    assert Sum(w, [r.taker]) == Weigh(w, r.taker);
  }

  lemma CancelSum(b: Book, o: OrderState, w: Weight)
    requires b.Valid() && o in Flat(b.Ladder(o.side)) && Unique(o.id, Flat(b.Ladder(o.side)))
    ensures var out := CancelOrder(b, o);
      Sum(w, out.book.Orders()) + Sum(w, out.retired) == Sum(w, b.Orders())
  {
    var out := CancelOrder(b, o);
    assert out.retired == [o] && Sum(w, [o]) == Weigh(w, o);
    CancelKeepsBook(b, o);
    hide CancelOrder, Book.Valid, Book.Orders, Book.Ladder, Flat, Unique, Weigh;
    BookSum(b, o.side, w);
    BookSum(out.book, o.side, w);
    SumWithout(Flat(b.Ladder(o.side)), o, w);
  }

  // ---------- whole runs ----------

  /** How often an id was submitted. */
  ghost function Times(ids: seq<nat>, id: nat): nat {
    if ids == [] then 0 else (if ids[0] == id then 1 else 0) + Times(ids[1..], id)
  }

  lemma {:induction false} TimesMore(ids: seq<nat>, last: nat, id: nat)
    ensures Times(ids + [last], id) == Times(ids, id) + if id == last then 1 else 0
  {
    if ids == [] {
      assert [] + [last] == [last];
    } else {
      assert (ids + [last])[1..] == ids[1..] + [last];
      TimesMore(ids[1..], last, id);
    }
  }

  /** A book with everything that ever happened to it. */
  datatype History = History(book: Book, retired: seq<OrderState>, trades: seq<Trade>, submitted: seq<nat>) {
    ghost function Count(w: Weight): int {
      Sum(w, book.Orders()) + Sum(w, retired)
    }

    /** Every order submitted is resting or was retired, exactly once, and no two resting orders share an id; the
        fills of each id, and the fills of either
        side, are the quantities of the trades. */
    ghost predicate Sound() {
      && book.Valid()
      && (forall id :: Count(CopiesOf(id)) == Times(submitted, id))
      && (forall id :: Sum(CopiesOf(id), book.Orders()) <= 1)
      && (forall id :: Count(FillsOf(id)) == TradedFor(trades, id))
      && (forall side :: Count(FillsOn(side)) == Traded(trades))
      && (forall o :: o in retired ==> o.Valid())
    }
  }

  datatype Op = Submit(o: OrderState, rejected: bool) | Cancel(id: nat) | Clear

  /** A submitted order is unfilled and no resting order has its id; anything may be cancelled. */
  ghost predicate Allowed(h: History, op: Op) {
    op.Submit? ==> CanAdd(h.book, op.o) && Absent(op.o.id, h.book.Orders()) && op.o.TotalFilled() == 0
  }

  ghost function Apply(h: History, op: Op): History
    requires Allowed(h, op)
  {
    match op
    case Submit(o, rejected) =>
      var out := AddOrder(h.book, o, rejected);
      History(out.book, h.retired + out.retired, h.trades + out.trades, h.submitted + [o.id])
    case Cancel(id) =>
      var i := IndexOf(h.book.Orders(), id);
      if i == |h.book.Orders()| then h
      else
        var out := CancelOrder(h.book, h.book.Orders()[i]);
        History(out.book, h.retired + out.retired, h.trades, h.submitted)
    case Clear =>
      History(EMPTY, h.retired + h.book.Orders(), h.trades, h.submitted)
  }

  lemma {:induction false} CopiesUnique(queue: seq<OrderState>, id: nat)
    requires Sum(CopiesOf(id), queue) <= 1
    ensures Unique(id, queue)
    ensures Sum(CopiesOf(id), queue) <= 0 ==> Absent(id, queue)
  {
    if queue != [] {
      CountNonnegative(CopiesOf(id), queue[1..]);
      CopiesUnique(queue[1..], id);
    }
  }

  /** A resting order is on the ladder of its side, and no other order there has its id. */
  lemma RestingOnSide(h: History, i: nat)
    requires h.Sound() && i < |h.book.Orders()|
    ensures var o := h.book.Orders()[i]; var queue := Flat(h.book.Ladder(o.side));
      o in queue && Unique(o.id, queue)
  {
    var o := h.book.Orders()[i];
    var w := CopiesOf(o.id);
    assert Sum(w, h.book.Orders()) <= 1;
    CountNonnegative(w, Flat(h.book.bids));
    CountNonnegative(w, Flat(h.book.asks));
    SumConcat(w, Flat(h.book.bids), Flat(h.book.asks));
    CopiesUnique(Flat(h.book.bids), o.id);
    CopiesUnique(Flat(h.book.asks), o.id);
    if o in Flat(h.book.bids) {
      SideOfResting(Buy, h.book.bids, o);
    } else {
      SideOfResting(Sell, h.book.asks, o);
    }
  }

  lemma {:induction false} SideOfResting(side: Side, ladder: seq<Level>, o: OrderState)
    requires LadderOK(side, ladder) && o in Flat(ladder)
    ensures o.side == side
  {
    FlatPrices(side, ladder, o);
  }

  lemma RestingValid(b: Book, o: OrderState)
    requires b.Valid() && o in b.Orders()
    ensures o.Valid() && 0 < o.TotalRemaining()
  {
    if o in Flat(b.bids) {
      FlatPrices(Buy, b.bids, o);
    } else {
      FlatPrices(Sell, b.asks, o);
    }
  }

  lemma {:induction false} NoCopies(queue: seq<OrderState>, id: nat)
    ensures Absent(id, queue) <==> Sum(CopiesOf(id), queue) == 0
  {
    if queue != [] {
      CountNonnegative(CopiesOf(id), queue[1..]);
      NoCopies(queue[1..], id);
      assert forall o :: o in queue <==> o == queue[0] || o in queue[1..];
    }
  }

  /** Ids of resting orders stay apart when an order with a new id is added. */
  lemma AddKeepsSingle(b: Book, o: OrderState, rejected: bool, id: nat)
    requires CanAdd(b, o) && Sum(CopiesOf(id), b.Orders()) <= 1 && Absent(o.id, b.Orders())
    ensures Sum(CopiesOf(id), AddOrder(b, o, rejected).book.Orders()) <= 1
  {
    hide AddOrder, CanAdd, Flat, Book.Orders, Live, MatchAll, Liquidity, Match.Valid, Sum, Unique, Absent;
    var s, w := Incoming(b, o), CopiesOf(id);
    AddedLadders(b, o, rejected);
    AddedSum(b, o, rejected, w);
    FillCompleteness(s);
    MatchConserves(s, id, Buy);
    CountNonnegative(w, MatchAll(s).done);
    NoCopies(b.Orders(), o.id);
    NoneDone(w);
  }

  lemma NoneDone(w: Weight)
    ensures Sum(w, []) == 0
  {
  }

  lemma SubmitKeepsSound(h: History, o: OrderState, rejected: bool)
    requires h.Sound() && Allowed(h, Submit(o, rejected))
    ensures Apply(h, Submit(o, rejected)).Sound()
  {
    hide Live, MatchAll, Flat, Book.Orders, Liquidity, Absent;
    var h', out, s := Apply(h, Submit(o, rejected)), AddOrder(h.book, o, rejected), Incoming(h.book, o);
    AddKeepsBook(h.book, o, rejected);
    IncomingValid(h.book, o);
    forall id
      ensures h'.Count(CopiesOf(id)) == h.Count(CopiesOf(id)) + if id == o.id then 1 else 0
      ensures h'.Count(FillsOf(id)) == TradedFor(h'.trades, id)
    {
      AddMoves(h, o, rejected, CopiesOf(id));
      AddMoves(h, o, rejected, FillsOf(id));
      MatchConserves(s, id, Buy);
      TradedConcat(h.trades, out.trades, id);
    }
    forall id
      ensures h'.Count(CopiesOf(id)) == Times(h'.submitted, id)
      ensures Sum(CopiesOf(id), h'.book.Orders()) <= 1
    {
      TimesMore(h.submitted, o.id, id);
      AddKeepsSingle(h.book, o, rejected, id);
    }
    MatchRetires(s);
    FillCompleteness(s);
    forall side ensures h'.Count(FillsOn(side)) == Traded(h'.trades) {
      AddMoves(h, o, rejected, FillsOn(side));
      MatchConserves(s, o.id, side);
      TradedConcat(h.trades, out.trades, o.id);
    }
  }

  lemma AddMoves(h: History, o: OrderState, rejected: bool, w: Weight)
    requires h.Sound() && Allowed(h, Submit(o, rejected)) && Incoming(h.book, o).Valid()
    ensures Apply(h, Submit(o, rejected)).Count(w)
         == h.Count(w) + Weigh(w, o) + Everyone(MatchAll(Incoming(h.book, o)), w) - Everyone(Incoming(h.book, o), w)
  {
    AddSum(h.book, o, rejected, w);
    SumConcat(w, h.retired, AddOrder(h.book, o, rejected).retired);
  }

  lemma CancelKeepsSound(h: History, id: nat)
    requires h.Sound()
    ensures Apply(h, Cancel(id)).Sound()
  {
    var i := IndexOf(h.book.Orders(), id);
    if i < |h.book.Orders()| {
      var o := h.book.Orders()[i];
      RestingOnSide(h, i);
      CancelKeepsBook(h.book, o);
      RestingValid(h.book, o);
      var h' := Apply(h, Cancel(id));
      forall w ensures h'.Count(w) == h.Count(w) {
        CancelSum(h.book, o, w);
        SumConcat(w, h.retired, [o]);
      }
      forall id' ensures Sum(CopiesOf(id'), h'.book.Orders()) <= 1 {
        CancelSum(h.book, o, CopiesOf(id'));
        CountNonnegative(CopiesOf(id'), [o]);
      }
    }
  }

  lemma ClearKeepsSound(h: History)
    requires h.Sound()
    ensures Apply(h, Clear).Sound()
  {
    var h' := Apply(h, Clear);
    forall w ensures h'.Count(w) == h.Count(w) {
      SumConcat(w, h.retired, h.book.Orders());
    }
    forall o | o in h.book.Orders() ensures o.Valid() {
      RestingValid(h.book, o);
    }
  }

  ghost predicate AllowedRun(h: History, ops: seq<Op>)
    decreases |ops|
  {
    ops == [] || (Allowed(h, ops[0]) && AllowedRun(Apply(h, ops[0]), ops[1..]))
  }

  ghost function Run(h: History, ops: seq<Op>): History
    requires AllowedRun(h, ops)
    decreases |ops|
  {
    if ops == [] then h else Run(Apply(h, ops[0]), ops[1..])
  }

  /** Whatever is submitted, cancelled and cleared, in whatever order: the book is never crossed, nothing is lost or
      duplicated, and every fill is backed by trades. */
  lemma {:induction false} RunKeepsSound(h: History, ops: seq<Op>)
    requires h.Sound() && AllowedRun(h, ops)
    ensures Run(h, ops).Sound()
    decreases |ops|
  {
    if ops != [] {
      match ops[0] {
        case Submit(o, rejected) => SubmitKeepsSound(h, o, rejected);
        case Cancel(id) => CancelKeepsSound(h, id);
        case Clear => ClearKeepsSound(h);
      }
      RunKeepsSound(Apply(h, ops[0]), ops[1..]);
    }
  }

  const EMPTY: Book := Book([], [], 0, 0)

  lemma EmptySound()
    ensures History(EMPTY, [], [], []).Sound()
  {
    assert EMPTY.Orders() == [];
    hide Sum, Flat, Weigh, Book.Orders;
    forall w ensures Sum(w, []) == 0 {
      NoneDone(w);
    }
  }

  // ---------- one order in a run ----------

  lemma {:induction false} SoleFills(queue: seq<OrderState>, id: nat)
    requires Sum(CopiesOf(id), queue) <= 1
    ensures Sum(CopiesOf(id), queue) == 0 ==> Sum(FillsOf(id), queue) == 0
    ensures forall o :: o in queue && o.id == id ==> Sum(FillsOf(id), queue) == o.TotalFilled() && Sum(CopiesOf(id), queue) == 1
  {
    if queue != [] {
      CountNonnegative(CopiesOf(id), queue[1..]);
      SoleFills(queue[1..], id);
      assert forall o :: o in queue ==> o == queue[0] || o in queue[1..];
    }
  }

  /** In every sound history, each order whose id was used once, resting or retired, was filled by exactly the
      trades that name it, and what was filled and what is left make up its quantity. */
  lemma OrderAccounted(h: History, o: OrderState)
    requires h.Sound() && (o in h.book.Orders() || o in h.retired) && Times(h.submitted, o.id) == 1
    ensures o.TotalFilled() == TradedFor(h.trades, o.id)
    ensures o.TotalFilled() + o.TotalRemaining() == o.quantity
  {
    var w, queue := CopiesOf(o.id), h.book.Orders();
    assert h.Count(w) <= 1 && h.Count(FillsOf(o.id)) == TradedFor(h.trades, o.id);
    CountNonnegative(w, queue);
    CountNonnegative(w, h.retired);
    SoleFills(queue, o.id);
    SoleFills(h.retired, o.id);
    if o in queue {
      RestingValid(h.book, o);
    }
    FilledTestsAgree(o);
  }

  // ---------- orders that show nothing ----------

  /** Whether the incoming order is an iceberg that matching leaves with its peak spent and quantity hidden. */
  predicate SpendsItsPeak(b: Book, o: OrderState) {
    o.iceberg && o.hidden > 0 && Liquidity(o.side.Opposite(), b.Ladder(o.side.Opposite()), o.price) == o.Remaining()
  }

  /** In a book where every resting order shows something, this is still so after an order was added, except that
      an iceberg rests showing nothing exactly when what crosses it equals its peak. */
  lemma EveryoneShows(b: Book, o: OrderState, rejected: bool)
    requires CanAdd(b, o) && Sum(Exhausted, b.Orders()) == 0
    ensures Sum(Exhausted, AddOrder(b, o, rejected).book.Orders()) == 0 <==> rejected || !SpendsItsPeak(b, o)
  {
    AddedSum(b, o, rejected, Exhausted);
    var s := Incoming(b, o);
    TakerLeft(s);
    MatchExhausts(s);
    hide AddOrder, CanAdd, Flat, Book.Orders, Live, Sum, OrderState.Valid, OrderState.IsTotallyFilled, MatchAll, Match.Valid, OrderState.Remaining, Liquidity;
    BookSum(b, o.side, Exhausted);
    CountNonnegative(Exhausted, Flat(b.Ladder(o.side)));
    CountNonnegative(Exhausted, Flat(b.Ladder(o.side.Opposite())));
    CountNonnegative(Exhausted, Flat(MatchAll(s).ladder));
  }

  lemma CancelShows(h: History, id: nat)
    requires h.Sound() && Sum(Exhausted, h.book.Orders()) == 0
    ensures Sum(Exhausted, Apply(h, Cancel(id)).book.Orders()) == 0
  {
    var i := IndexOf(h.book.Orders(), id);
    if i < |h.book.Orders()| {
      RestingOnSide(h, i);
      CancelSum(h.book, h.book.Orders()[i], Exhausted);
      var out := CancelOrder(h.book, h.book.Orders()[i]);
      CountNonnegative(Exhausted, out.book.Orders());
      CountNonnegative(Exhausted, out.retired);
    }
  }

  /** Every resting order shows something, at the start and after every operation. */
  ghost predicate AlwaysShows(h: History, ops: seq<Op>)
    requires AllowedRun(h, ops)
    decreases |ops|
  {
    Sum(Exhausted, h.book.Orders()) == 0 && (ops == [] || AlwaysShows(Apply(h, ops[0]), ops[1..]))
  }

  /** No submission of the run comes to rest with its peak spent. */
  ghost predicate NeverSpends(h: History, ops: seq<Op>)
    requires AllowedRun(h, ops)
    decreases |ops|
  {
    ops == [] ||
      (!(ops[0].Submit? && !ops[0].rejected && SpendsItsPeak(h.book, ops[0].o)) && NeverSpends(Apply(h, ops[0]), ops[1..]))
  }

  lemma OpShows(h: History, op: Op)
    requires h.Sound() && Allowed(h, op) && Sum(Exhausted, h.book.Orders()) == 0
    ensures Apply(h, op).Sound()
    ensures Sum(Exhausted, Apply(h, op).book.Orders()) == 0
      <==> !(op.Submit? && !op.rejected && SpendsItsPeak(h.book, op.o))
  {
    hide History.Sound, CanAdd, AddOrder, CancelOrder, SpendsItsPeak, Book.Orders;
    match op
    case Submit(o, rejected) =>
      SubmitKeepsSound(h, o, rejected);
      EveryoneShows(h.book, o, rejected);
    case Cancel(id) =>
      CancelKeepsSound(h, id);
      CancelShows(h, id);
    case Clear =>
      ClearKeepsSound(h);
      NothingRests();
  }

  lemma NothingRests()
    ensures EMPTY.Orders() == [] && Sum(Exhausted, EMPTY.Orders()) == 0
  {
  }

  /** Over every run: every resting order shows something all along if and only if no submission spends its peak
      on exactly what crosses it and rests. */
  lemma {:induction false} RunShows(h: History, ops: seq<Op>)
    requires h.Sound() && AllowedRun(h, ops) && Sum(Exhausted, h.book.Orders()) == 0
    ensures AlwaysShows(h, ops) <==> NeverSpends(h, ops)
    decreases |ops|
  {
    if ops != [] {
      hide Allowed, Apply, History.Sound, Book.Orders, SpendsItsPeak, Sum;
      OpShows(h, ops[0]);
      if Sum(Exhausted, Apply(h, ops[0]).book.Orders()) == 0 {
        RunShows(Apply(h, ops[0]), ops[1..]);
      } else {
        SomeoneHides(Apply(h, ops[0]), ops[1..]);
      }
    }
  }

  lemma SomeoneHides(h: History, ops: seq<Op>)
    requires AllowedRun(h, ops) && Sum(Exhausted, h.book.Orders()) != 0
    ensures !AlwaysShows(h, ops)
  {
  }

  lemma SubmitTrades(h: History, o: OrderState, rejected: bool)
    requires h.Sound() && Allowed(h, Submit(o, rejected)) && Sum(Exhausted, h.book.Orders()) == 0 && AllTrade(h.trades)
    ensures AllTrade(Apply(h, Submit(o, rejected)).trades)
  {
    AddedLadders(h.book, o, rejected);
    var s := Incoming(h.book, o);
    assert s.ladder == h.book.Ladder(o.side.Opposite()) && s.trades == [];
    BookSum(h.book, o.side, Exhausted);
    CountNonnegative(Exhausted, Flat(h.book.Ladder(o.side)));
    CountNonnegative(Exhausted, Flat(s.ladder));
    MatchTradesSomething(s);
  }

  /** So over every run in which no submission spends its peak, every trade is for a positive quantity. */
  lemma {:induction false} RunTradesSomething(h: History, ops: seq<Op>)
    requires h.Sound() && AllowedRun(h, ops) && Sum(Exhausted, h.book.Orders()) == 0 && NeverSpends(h, ops) && AllTrade(h.trades)
    ensures AllTrade(Run(h, ops).trades)
    decreases |ops|
  {
    if ops != [] {
      hide CanAdd, History.Sound, Book.Orders, SpendsItsPeak, Sum, AllTrade;
      OpShows(h, ops[0]);
      match ops[0] {
        case Submit(o, rejected) => SubmitTrades(h, o, rejected);
        case Cancel(id) =>
        case Clear =>
      }
      RunTradesSomething(Apply(h, ops[0]), ops[1..]);
    }
  }

  /** An iceberg for 20 that shows 10 meets a plain order for 10: it rests for ten, and shows nothing. */
  lemma RestsUnseen()
    ensures var o, maker := OrderState(1, Buy, 100, 20, 0, true, 10, 10, 10, 0), OrderState(2, Sell, 100, 10, 0, false, 0, 0, 0, 0);
      var b := Book([], [Level(100, [maker], 10, 1, 10)], 0, 0);
      && CanAdd(b, o) && Sum(Exhausted, b.Orders()) == 0 && SpendsItsPeak(b, o)
      && Sum(Exhausted, AddOrder(b, o, false).book.Orders()) != 0
  {
    var o, maker := OrderState(1, Buy, 100, 20, 0, true, 10, 10, 10, 0), OrderState(2, Sell, 100, 10, 0, false, 0, 0, 0, 0);
    var b := Book([], [Level(100, [maker], 10, 1, 10)], 0, 0);
    assert b.asks[1..] == [] && [maker][1..] == [];
    assert Flat(b.asks) == [maker] + [] == [maker] && b.Orders() == [] + [maker] == [maker];
    assert Sum(Open, [maker]) == 10 && Sum(Exhausted, [maker]) == 0 && Liquidity(Sell, [], 100) == 0;
    assert Liquidity(Sell, b.asks, 100) == 10 && maker.Valid() && o.Valid() && LevelOK(Sell, b.asks[0]);
    assert b.Valid() && Live(Incoming(b, o)) && Room(b.bids);
    EveryoneShows(b, o, false);
  }

  /** The taker shows nothing after matching, yet is not filled, exactly when it is an iceberg that met its peak. */
  lemma TakerLeft(s: Match)
    requires s.Valid() && Live(s)
    ensures var t := MatchAll(s).taker;
      !t.IsTotallyFilled() && t.Remaining() == 0 <==>
        s.taker.iceberg && s.taker.hidden > 0 && Liquidity(s.RestingSide(), s.ladder, s.taker.price) == s.taker.Remaining()
  {
    FillCompleteness(s);
    TakerKeepsForm(s);
  }

  /** Matching never replenishes the taker. */
  lemma {:induction false} TakerKeepsForm(s: Match)
    requires s.Valid() && Live(s)
    ensures var t := MatchAll(s).taker;
      t.iceberg == s.taker.iceberg && t.hidden == s.taker.hidden
      && t.Remaining() == s.taker.Remaining() - (t.TotalFilled() - s.taker.TotalFilled())
    decreases s.taker.TotalRemaining(), Sum(Exhausted, Flat(s.ladder))
  {
    if s.Enabled() {
      StepKeeps(s);
      StepLive(s);
      CountNonnegative(Exhausted, Flat(Step(s).ladder));
      FillConserves(s.taker, s.TradeQuantity());
      TakerKeepsForm(Step(s));
    }
  }
}
