/** The engine with one of its two counters repaired. The depth of a level: when an order shows a new peak, the
    counter loses what was traded, not the whole old peak. The quantity of a queue: the counter loses what is traded,
    and an order leaves the front before it shows a new peak, not after. Either engine does all else as before, and
    the counter it repairs is always truthful. */
module RepairedCounters {
  import opened Orders
  import opened OrderQueues
  import opened Matching
  import opened MatchingLaws
  import opened Cancelling
  import opened DepthCounters
  import opened Books
  import opened TruthfulDepth
  import opened TruthfulQueues

  // ---------- the repaired engines ----------

  datatype Repair = OfDepth | OfQueue

  ghost function Reading(v: Repair, l: Level): nat {
    if v.OfDepth? then l.quantity else l.queueQuantity
  }

  ghost function WithReading(v: Repair, l: Level, n: nat): Level {
    if v.OfDepth? then l.(quantity := n) else l.(queueQuantity := n)
  }

  /** How far the counter is off, on 64 bits. */
  ghost function Off(v: Repair, l: Level): nat {
    if v.OfDepth? then Gap(l) else QueueGap(l)
  }

  ghost predicate Tells(v: Repair, b: Book) {
    if v.OfDepth? then TruthfulBook(b) else QueueBook(b)
  }

  ghost function SettleTraded(v: Repair, l: Level, m: OrderState, q: nat): Level
    requires l.orders != []
  {
    var replenishes := m.iceberg && m.IsVisiblePeakFilled() && !m.IsTotallyFilled();
    var paid := l.(queueQuantity := Wrap64(l.queueQuantity - q));
    match v
    case OfDepth =>
      if replenishes then
        var r := m.Replenished();
        UpdateLevel(Pushed(Popped(WithFront(l, r)), r), r.Remaining() - q, 0)
      else Settle(l, m, q)
    case OfQueue =>
      if replenishes then
        var r := m.Replenished();
        UpdateLevel(Pushed(Popped(WithFront(paid, m)), r), r.Remaining() - m.visible, 0)
      else Settle(paid, m, q)
  }

  ghost function StepTraded(v: Repair, s: Match): Match
    requires s.Valid() && s.Enabled()
  {
    var l, q := s.ladder[0], s.TradeQuantity();
    Step(s).(ladder := SetBest(s.ladder, SettleTraded(v, l, l.orders[0].Fill(q), q)))
  }

  ghost function MatchTraded(v: Repair, s: Match): Match
    requires s.Valid() && Live(s)
    decreases s.taker.TotalRemaining(), Sum(Exhausted, Flat(s.ladder))
  {
    if s.Enabled() then
      StepTradedOnward(v, s);
      MatchTraded(v, StepTraded(v, s))
    else s
  }

  ghost function AddTraded(v: Repair, b: Book, o: OrderState, rejected: bool): Outcome
    requires CanAdd(b, o)
  {
    IncomingValid(b, o);
    Conclude(b, o, MatchTraded(v, Incoming(b, o)), rejected)
  }

  ghost function ApplyTraded(v: Repair, h: History, op: Op): History
    requires Allowed(h, op)
  {
    match op
    case Submit(o, rejected) =>
      var out := AddTraded(v, h.book, o, rejected);
      History(out.book, h.retired + out.retired, h.trades + out.trades, h.submitted + [o.id])
    case _ => Apply(h, op)
  }

  ghost predicate AllowedTraded(v: Repair, h: History, ops: seq<Op>)
    decreases |ops|
  {
    ops == [] || (Allowed(h, ops[0]) && AllowedTraded(v, ApplyTraded(v, h, ops[0]), ops[1..]))
  }

  ghost function RunTraded(v: Repair, h: History, ops: seq<Op>): History
    requires AllowedTraded(v, h, ops)
    decreases |ops|
  {
    if ops == [] then h else RunTraded(v, ApplyTraded(v, h, ops[0]), ops[1..])
  }

  // ---------- counting anew ----------

  /** A level whose counter is counted anew. */
  ghost function Recounted(v: Repair, l: Level): Level {
    WithReading(v, l, Wrap64(Sum(Shown, l.orders)))
  }

  ghost function RecountAll(v: Repair, ladder: seq<Level>): (r: seq<Level>)
    ensures |r| == |ladder| && forall i :: 0 <= i < |r| ==> r[i] == Recounted(v, ladder[i])
  {
    if ladder == [] then [] else [Recounted(v, ladder[0])] + RecountAll(v, ladder[1..])
  }

  ghost function Recount(v: Repair, s: Match): Match {
    s.(ladder := RecountAll(v, s.ladder))
  }

  ghost function RecountBook(v: Repair, b: Book): Book {
    b.(bids := RecountAll(v, b.bids), asks := RecountAll(v, b.asks))
  }

  ghost function RecountHistory(v: Repair, h: History): History {
    h.(book := RecountBook(v, h.book))
  }

  lemma LevelRecounted(v: Repair, l: Level)
    ensures Off(v, Recounted(v, l)) == 0
  {
    hide Sum;
    WrapShift(Sum(Shown, l.orders), Sum(Shown, l.orders), 0);
  }

  lemma RecountedTold(v: Repair, ladder: seq<Level>)
    ensures forall l :: l in RecountAll(v, ladder) ==> Off(v, l) == 0
  {
    var r := RecountAll(v, ladder);
    hide Off, Recounted;
    forall l | l in r ensures Off(v, l) == 0 {
      var i :| 0 <= i < |r| && r[i] == l;
      LevelRecounted(v, ladder[i]);
    }
  }

  lemma LevelTold(v: Repair, l: Level)
    requires Off(v, l) == 0 && l.quantity < TWO_64 && l.queueQuantity < TWO_64
    ensures Recounted(v, l) == l
  {
    hide Sum;
    WrapBack(Reading(v, l), Sum(Shown, l.orders));
  }

  lemma WrapBack(a: nat, b: int)
    requires a < TWO_64 && Wrap64(a - b) == 0
    ensures Wrap64(b) == a
  {
  }

  lemma ToldRecounted(v: Repair, ladder: seq<Level>)
    requires (forall l :: l in ladder ==> Off(v, l) == 0) && CountersFit(ladder)
    ensures RecountAll(v, ladder) == ladder
  {
    hide Off, Recounted;
    forall i | 0 <= i < |ladder| ensures Recounted(v, ladder[i]) == ladder[i] {
      assert ladder[i] in ladder;
      LevelTold(v, ladder[i]);
    }
  }

  /** Nothing else depends on either counter. */
  lemma {:induction false} RecountFlat(v: Repair, side: Side, ladder: seq<Level>, limit: int)
    ensures Flat(RecountAll(v, ladder)) == Flat(ladder)
    ensures Liquidity(side, RecountAll(v, ladder), limit) == Liquidity(side, ladder, limit)
  {
    if ladder != [] {
      assert RecountAll(v, ladder)[1..] == RecountAll(v, ladder[1..]);
      RecountFlat(v, side, ladder[1..], limit);
    }
  }

  lemma RecountOK(v: Repair, side: Side, ladder: seq<Level>)
    ensures LadderOK(side, RecountAll(v, ladder)) <==> LadderOK(side, ladder)
  {
    var r := RecountAll(v, ladder);
    if LadderOK(side, ladder) {
      forall l | l in r ensures LevelOK(side, l) {
        var i :| 0 <= i < |r| && r[i] == l;
        assert LevelOK(side, ladder[i]);
      }
    }
    if LadderOK(side, r) {
      forall l | l in ladder ensures LevelOK(side, l) {
        var i :| 0 <= i < |ladder| && ladder[i] == l;
        assert r[i] in r && LevelOK(side, r[i]);
      }
      forall i, j | 0 <= i < j < |ladder| ensures Better(side, ladder[i].price, ladder[j].price) {
        assert Better(side, r[i].price, r[j].price);
      }
    }
  }

  lemma RecountMatch(v: Repair, s: Match)
    ensures Recount(v, s).Valid() <==> s.Valid()
    ensures Live(Recount(v, s)) <==> Live(s)
    ensures Recount(v, s).Enabled() <==> s.Enabled()
    ensures Flat(Recount(v, s).ladder) == Flat(s.ladder) && Recount(v, s).taker == s.taker
  {
    RecountOK(v, s.RestingSide(), s.ladder);
    RecountFlat(v, s.RestingSide(), s.ladder, s.taker.price);
  }

  // ---------- a round ----------

  /** What the repaired update adds to the counter is what the round adds to the quantity shown. */
  lemma TradedDepth(side: Side, l: Level, q: nat, n: nat)
    requires LevelOK(side, l) && q <= l.orders[0].Remaining()
    ensures var m, l' := l.orders[0].Fill(q), Settle(l, l.orders[0].Fill(q), q);
      SettleTraded(OfDepth, l.(quantity := n), m, q) == l'.(quantity := Wrap64(n + Sum(Shown, l'.orders) - Sum(Shown, l.orders)))
  {
    SettleShown(side, l, q);
    hide Sum, LevelOK;
    var r := l.orders[0].Fill(q).Replenished();
    assert ([r] + l.orders[1..])[1..] == l.orders[1..];
  }

  lemma TradedQueue(side: Side, l: Level, q: nat, n: nat)
    requires LevelOK(side, l) && q <= l.orders[0].Remaining()
    ensures var m, l' := l.orders[0].Fill(q), Settle(l, l.orders[0].Fill(q), q);
      SettleTraded(OfQueue, l.(queueQuantity := n), m, q)
        == l'.(queueQuantity := Wrap64(n + Sum(Shown, l'.orders) - Sum(Shown, l.orders)))
  {
    SettleShown(side, l, q);
    assert l.orders[0] in l.orders;
    var m, r := l.orders[0].Fill(q), l.orders[0].Fill(q).Replenished();
    FillConserves(l.orders[0], q);
    FilledTestsAgree(m);
    assert m.IsVisiblePeakFilled() || m.IsTotallyFilled() ==> m.Remaining() == 0;
    hide Sum, LevelOK, OrderState.Valid, OrderState.Remaining, OrderState.IsTotallyFilled, OrderState.IsVisiblePeakFilled,
         OrderState.Fill, OrderState.Replenished;
    assert ([m] + l.orders[1..])[1..] == l.orders[1..];
    WrapShift(n - q, 0, 0);
    WrapShift(n - q, 0, r.Remaining());
  }

  lemma TradedDelta(v: Repair, side: Side, l: Level, q: nat, n: nat)
    requires LevelOK(side, l) && q <= l.orders[0].Remaining()
    ensures var m, l' := l.orders[0].Fill(q), Settle(l, l.orders[0].Fill(q), q);
      SettleTraded(v, WithReading(v, l, n), m, q) == WithReading(v, l', Wrap64(n + Sum(Shown, l'.orders) - Sum(Shown, l.orders)))
  {
    hide SettleTraded, Settle, Sum, LevelOK;
    TradedDepth(side, l, q, n);
    TradedQueue(side, l, q, n);
  }

  /** The repaired update keeps how far the counter of every level is off, and changes no other counter. */
  lemma SettleTradedKeeps(v: Repair, side: Side, l: Level, q: nat)
    requires LevelOK(side, l) && q <= l.orders[0].Remaining()
    ensures var m := l.orders[0].Fill(q);
      var r := SettleTraded(v, l, m, q);
      && Off(v, r) == Off(v, l)
      && r == WithReading(v, Settle(l, m, q), Reading(v, r))
      && SettleTraded(v, Recounted(v, l), m, q) == Recounted(v, Settle(l, m, q))
  {
    hide *;
    NotEmptied(side, l);
    var m := l.orders[0].Fill(q);
    var l' := Settle(l, m, q);
    var n, a, b := Reading(v, l), Sum(Shown, l.orders), Sum(Shown, l'.orders);
    TradedDelta(v, side, l, q, n);
    TradedDelta(v, side, l, q, Wrap64(a));
    ReadingParts(v, l, 0);
    ReadingParts(v, l', Wrap64(n + b - a));
    DeltaWraps(n, a, b);
  }

  lemma NotEmptied(side: Side, l: Level)
    requires LevelOK(side, l)
    ensures l.orders != []
  {
  }

  lemma ReadingParts(v: Repair, l: Level, n: nat)
    ensures WithReading(v, l, Reading(v, l)) == l && Reading(v, WithReading(v, l, n)) == n
    ensures Off(v, l) == Wrap64(Reading(v, l) - Sum(Shown, l.orders))
    ensures Off(v, WithReading(v, l, n)) == Wrap64(n - Sum(Shown, l.orders))
    ensures Recounted(v, l) == WithReading(v, l, Wrap64(Sum(Shown, l.orders)))
  {
    hide Wrap64, Sum;
  }

  lemma DeltaWraps(n: nat, a: int, b: int)
    ensures Wrap64(Wrap64(n + b - a) - b) == Wrap64(n - a) && Wrap64(Wrap64(a) + b - a) == Wrap64(b)
  {
    WrapShift(n - a, b, b);
    WrapShift(a, 0, b - a);
  }

  lemma BestRecounted(v: Repair, ladder: seq<Level>, l: Level)
    requires ladder != []
    ensures SetBest(RecountAll(v, ladder), Recounted(v, l)) == RecountAll(v, SetBest(ladder, l))
  {
    hide Recounted;
    assert Recounted(v, l).count == l.count by {
      CountKept(v, l);
    }
    assert RecountAll(v, ladder)[1..] == RecountAll(v, ladder[1..]);
    assert ([l] + ladder[1..])[1..] == ladder[1..];
  }

  lemma CountKept(v: Repair, l: Level)
    ensures Recounted(v, l).count == l.count && Recounted(v, l).orders == l.orders && Recounted(v, l).price == l.price
  {
  }

  lemma SameRecount(v: Repair, l: Level, n: nat)
    ensures Recounted(v, WithReading(v, l, n)) == Recounted(v, l)
  {
  }

  lemma StepTradedIs(v: Repair, s: Match)
    requires s.Valid() && s.Enabled()
    ensures var l, q := s.ladder[0], s.TradeQuantity();
      && LevelOK(s.RestingSide(), l) && q <= l.orders[0].Remaining()
      && Step(s).ladder == SetBest(s.ladder, Settle(l, l.orders[0].Fill(q), q))
      && StepTraded(v, s) == Step(s).(ladder := SetBest(s.ladder, SettleTraded(v, l, l.orders[0].Fill(q), q)))
  {
    assert s.ladder[0] in s.ladder;
  }

  /** The repaired round differs from the round of the code in one counter only. */
  lemma StepTradedAlike(v: Repair, s: Match)
    requires s.Valid() && s.Enabled()
    ensures Recount(v, StepTraded(v, s)) == Recount(v, Step(s))
  {
    StepTradedIs(v, s);
    var l, q := s.ladder[0], s.TradeQuantity();
    var m := l.orders[0].Fill(q);
    hide StepTraded, Step, Settle, SettleTraded, Recounted, WithReading, Reading, SetBest, LevelOK, Match.Valid, Match.Enabled;
    SettleTradedKeeps(v, s.RestingSide(), l, q);
    SameRecount(v, Settle(l, m, q), Reading(v, SettleTraded(v, l, m, q)));
    BestRecounted(v, s.ladder, Settle(l, m, q));
    BestRecounted(v, s.ladder, SettleTraded(v, l, m, q));
  }

  lemma StepTradedOnward(v: Repair, s: Match)
    requires s.Valid() && Live(s) && s.Enabled()
    ensures StepTraded(v, s).Valid() && Live(StepTraded(v, s))
    ensures s.taker.TotalRemaining() > StepTraded(v, s).taker.TotalRemaining() >= 0
      || (s.taker.TotalRemaining() == StepTraded(v, s).taker.TotalRemaining()
          && Sum(Exhausted, Flat(s.ladder)) > Sum(Exhausted, Flat(StepTraded(v, s).ladder)) >= 0)
  {
    hide *;
    StepOnward(s);
    StepTradedAlike(v, s);
    RecountMatch(v, StepTraded(v, s));
    RecountMatch(v, Step(s));
  }

  lemma BestAlike(v: Repair, ladder: seq<Level>)
    requires ladder != []
    ensures RecountAll(v, ladder) != [] && RecountAll(v, ladder)[0] == Recounted(v, ladder[0])
    ensures Recounted(v, ladder[0]).orders == ladder[0].orders && Recounted(v, ladder[0]).price == ladder[0].price
  {
  }

  lemma QuantityRecounted(v: Repair, s: Match)
    requires s.Valid() && s.Enabled() && Recount(v, s).Valid() && Recount(v, s).Enabled()
    ensures Recount(v, s).TradeQuantity() == s.TradeQuantity() && Recount(v, s).ladder[0] == Recounted(v, s.ladder[0])
    ensures Recount(v, s).ladder == RecountAll(v, s.ladder) && Recount(v, s).RestingSide() == s.RestingSide()
    ensures s.ladder[0].orders != [] && Recounted(v, s.ladder[0]).orders == s.ladder[0].orders
    ensures Step(Recount(v, s)) == Step(s).(ladder := Step(Recount(v, s)).ladder)
  {
    BestAlike(v, s.ladder);
    hide RecountAll, Recounted, LadderOK, Settle, SetBest, OrderState.Valid, OrderState.Fill;
  }

  lemma StepRecounted(v: Repair, s: Match)
    requires s.Valid() && s.Enabled() && Recount(v, s).Valid() && Recount(v, s).Enabled()
    ensures StepTraded(v, Recount(v, s)) == Recount(v, Step(s))
  {
    QuantityRecounted(v, s);
    StepTradedIs(v, s);
    StepTradedIs(v, Recount(v, s));
    var l, q := s.ladder[0], s.TradeQuantity();
    var m := l.orders[0].Fill(q);
    hide StepTraded, Step, Settle, SettleTraded, Recounted, RecountAll, SetBest, LevelOK, Match.Valid, Match.Enabled;
    SettleTradedKeeps(v, s.RestingSide(), l, q);
    BestRecounted(v, s.ladder, Settle(l, m, q));
  }

  // ---------- matches, operations, runs ----------

  lemma {:induction false} MatchRecounted(v: Repair, s: Match)
    requires s.Valid() && Live(s)
    ensures Recount(v, s).Valid() && Live(Recount(v, s)) && MatchTraded(v, Recount(v, s)) == Recount(v, MatchAll(s))
    decreases s.taker.TotalRemaining(), Sum(Exhausted, Flat(s.ladder))
  {
    RecountMatch(v, s);
    hide Recount, StepTraded, Step, Match.Valid, Match.Enabled, Live;
    if s.Enabled() {
      StepOnward(s);
      StepRecounted(v, s);
      MatchRecounted(v, Step(s));
    }
  }

  lemma JoinRecounted(v: Repair, l: Level, o: OrderState)
    ensures Join(Recounted(v, l), o) == Recounted(v, Join(l, o)) && NewLevel(o) == Recounted(v, NewLevel(o))
  {
    SumConcat(Shown, l.orders, [o]);
    ShownBy(o);
    WrapShift(Sum(Shown, l.orders), 0, o.Remaining());
  }

  lemma {:induction false} AddRecounted(v: Repair, side: Side, ladder: seq<Level>, o: OrderState)
    ensures AddToLadder(side, RecountAll(v, ladder), o) == RecountAll(v, AddToLadder(side, ladder, o))
  {
    var r := AddToLadder(side, ladder, o);
    hide Recounted, Join, NewLevel;
    if ladder == [] {
      JoinRecounted(v, NewLevel(o), o);
    } else {
      JoinRecounted(v, ladder[0], o);
      CountKept(v, ladder[0]);
      assert RecountAll(v, ladder)[1..] == RecountAll(v, ladder[1..]);
      AddRecounted(v, side, ladder[1..], o);
      assert r[1..] == ladder || r[1..] == ladder[1..] || r[1..] == AddToLadder(side, ladder[1..], o);
    }
  }

  lemma LeaveRecounted(v: Repair, l: Level, i: nat)
    requires i < |l.orders|
    ensures Leave(Recounted(v, l), i) == Recounted(v, Leave(l, i))
  {
    var o, x, y := l.orders[i], l.orders[..i], l.orders[i + 1..];
    assert l.orders == x + ([o] + y);
    SumConcat(Shown, x, [o] + y);
    SumConcat(Shown, [o], y);
    SumConcat(Shown, x, y);
    ShownBy(o);
    WrapShift(Sum(Shown, l.orders), 0, -o.Remaining());
  }

  lemma {:induction false} RemoveRecounted(v: Repair, ladder: seq<Level>, price: int, id: nat)
    ensures RemoveFromLadder(RecountAll(v, ladder), price, id) == RecountAll(v, RemoveFromLadder(ladder, price, id))
  {
    if ladder != [] {
      var i := IndexOf(ladder[0].orders, id);
      CountKept(v, ladder[0]);
      hide Recounted, Leave, SetBest;
      assert RecountAll(v, ladder)[1..] == RecountAll(v, ladder[1..]);
      if ladder[0].price != price {
        RemoveRecounted(v, ladder[1..], price, id);
        var r := RemoveFromLadder(ladder[1..], price, id);
        assert ([ladder[0]] + r)[1..] == r;
      } else if i < |ladder[0].orders| {
        LeaveRecounted(v, ladder[0], i);
        BestRecounted(v, ladder, Leave(ladder[0], i));
      }
    }
  }

  lemma LadderRecounted(v: Repair, b: Book, side: Side)
    ensures RecountBook(v, b).Ladder(side) == RecountAll(v, b.Ladder(side))
  {
  }

  lemma OrdersRecounted(v: Repair, b: Book)
    ensures RecountBook(v, b).Orders() == b.Orders()
    ensures RecountBook(v, b).Valid() <==> b.Valid()
  {
    RecountFlat(v, Buy, b.bids, 0);
    RecountFlat(v, Sell, b.asks, 0);
    RecountOK(v, Buy, b.bids);
    RecountOK(v, Sell, b.asks);
  }

  lemma IncomingRecounted(v: Repair, b: Book, o: OrderState)
    ensures Incoming(RecountBook(v, b), o) == Recount(v, Incoming(b, o))
  {
  }

  lemma CanAddAlike(v: Repair, b: Book, o: OrderState)
    ensures CanAdd(RecountBook(v, b), o) <==> CanAdd(b, o)
  {
    OrdersRecounted(v, b);
    IncomingRecounted(v, b, o);
    RecountMatch(v, Incoming(b, o));
    LadderRecounted(v, b, o.side);
    RecountFlat(v, Buy, b.Ladder(o.side), 0);
    hide Live, Incoming, Recount, RecountBook, RecountAll, Book.Valid, Book.Ladder, OrderState.Valid, Flat;
  }

  lemma AllowedAlike(v: Repair, h: History, op: Op)
    ensures Allowed(RecountHistory(v, h), op) <==> Allowed(h, op)
  {
    OrdersRecounted(v, h.book);
    hide CanAdd, RecountBook, Book.Orders, Book.Valid;
    if op.Submit? {
      CanAddAlike(v, h.book, op.o);
    }
  }

  lemma ConcludeRecounted(v: Repair, b: Book, o: OrderState, r: Match, rejected: bool)
    ensures var out, out' := Conclude(b, o, r, rejected), Conclude(RecountBook(v, b), o, Recount(v, r), rejected);
      out' == out.(book := RecountBook(v, out.book))
  {
    AddRecounted(v, o.side, b.Ladder(o.side), r.taker);
    LadderRecounted(v, b, o.side);
    hide RecountAll, AddToLadder, OrderState.IsTotallyFilled;
  }

  lemma AddTradedIs(v: Repair, b: Book, o: OrderState, rejected: bool)
    requires CanAdd(b, o) && CanAdd(RecountBook(v, b), o)
    ensures var out, out' := AddOrder(b, o, rejected), AddTraded(v, RecountBook(v, b), o, rejected);
      out' == out.(book := RecountBook(v, out.book))
  {
    IncomingValid(b, o);
    IncomingRecounted(v, b, o);
    MatchRecounted(v, Incoming(b, o));
    ConcludeRecounted(v, b, o, MatchAll(Incoming(b, o)), rejected);
    hide Conclude, Incoming, Recount, RecountBook;
  }

  lemma CancelAlike(v: Repair, b: Book, o: OrderState)
    ensures CancelOrder(RecountBook(v, b), o).book == RecountBook(v, CancelOrder(b, o).book)
  {
    RemoveRecounted(v, b.Ladder(o.side), o.price, o.id);
    LadderRecounted(v, b, o.side);
    hide RecountAll, RemoveFromLadder;
  }

  lemma ApplyAlike(v: Repair, h: History, op: Op)
    requires Allowed(h, op) && Allowed(RecountHistory(v, h), op)
    ensures ApplyTraded(v, RecountHistory(v, h), op) == RecountHistory(v, Apply(h, op))
  {
    OrdersRecounted(v, h.book);
    hide CancelOrder, AddOrder, AddTraded, CanAdd, RecountAll, Book.Orders;
    match op
    case Submit(o, rejected) => AddTradedIs(v, h.book, o, rejected);
    case Cancel(id) =>
      var i := IndexOf(h.book.Orders(), id);
      if i < |h.book.Orders()| {
        CancelAlike(v, h.book, h.book.Orders()[i]);
        CancelRetires(h.book, h.book.Orders()[i]);
        CancelRetires(RecountBook(v, h.book), h.book.Orders()[i]);
      }
    case Clear =>
  }

  lemma CancelRetires(b: Book, o: OrderState)
    ensures CancelOrder(b, o).retired == [o]
  {
  }

  /** Run by run, the repaired engine does what the code does with the counter counted anew. */
  lemma {:induction false} RunAlike(v: Repair, h: History, ops: seq<Op>)
    ensures AllowedTraded(v, RecountHistory(v, h), ops) <==> AllowedRun(h, ops)
    ensures AllowedRun(h, ops) ==> RunTraded(v, RecountHistory(v, h), ops) == RecountHistory(v, Run(h, ops))
    decreases |ops|
  {
    hide Allowed, Apply, ApplyTraded, RecountHistory;
    if ops != [] {
      AllowedAlike(v, h, ops[0]);
      if Allowed(h, ops[0]) {
        ApplyAlike(v, h, ops[0]);
        RunAlike(v, Apply(h, ops[0]), ops[1..]);
      }
    }
  }

  /** Over every run, icebergs included, the repaired engine keeps its counters truthful; its trades, its queues, what
      it retires and what it allows are those of the code. */
  lemma TradedQuantityWouldDo(v: Repair, h: History, ops: seq<Op>)
    requires Tells(v, h.book) && CountersFit(h.book.bids) && CountersFit(h.book.asks)
    ensures AllowedTraded(v, h, ops) <==> AllowedRun(h, ops)
    ensures AllowedRun(h, ops) ==>
      var r, t := Run(h, ops), RunTraded(v, h, ops);
      && Tells(v, t.book)
      && t.trades == r.trades && t.retired == r.retired && t.book.Orders() == r.book.Orders()
      && t == RecountHistory(v, r)
  {
    ToldRecounted(v, h.book.bids);
    ToldRecounted(v, h.book.asks);
    RunAlike(v, h, ops);
    if AllowedRun(h, ops) {
      var b := Run(h, ops).book;
      RecountedTold(v, b.bids);
      RecountedTold(v, b.asks);
      OrdersRecounted(v, b);
    }
  }
}
