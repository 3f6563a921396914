/** An independent account of price-time priority: one queue of orders per side, sorted by price and, at
    equal prices, by time. The price levels, counters and id maps of the book do not occur here. */
module PriorityQueues {
  import opened Orders
  import opened Matching
  import opened MatchingLaws

  /** A newcomer stands behind every order that its price does not beat. */
  ghost function InsertBehind(side: Side, queue: seq<OrderState>, o: OrderState): seq<OrderState> {
    if queue == [] || Better(side, o.price, queue[0].price) then [o] + queue
    else [queue[0]] + InsertBehind(side, queue[1..], o)
  }

  ghost function Without(queue: seq<OrderState>, id: nat): seq<OrderState> {
    if queue == [] then []
    else (if queue[0].id == id then [] else [queue[0]]) + Without(queue[1..], id)
  }

  /** The taker at the desk, the queue it is served from, what was traded and who has left. */
  datatype Desk = Desk(queue: seq<OrderState>, taker: OrderState, trades: seq<Trade>, lastTrade: nat, left: seq<OrderState>) {
    ghost predicate Open() {
      !taker.IsTotallyFilled() && queue != [] && Crosses(taker.side.Opposite(), queue[0].price, taker.price)
    }
  }

  /** A trade at the price of the one who was waiting. */
  ghost function Deal(id: nat, taker: OrderState, first: OrderState, q: nat): Trade {
    if taker.side == Buy then Trade(id, taker.id, first.id, first.price, q, taker.iceberg, first.iceberg)
    else Trade(id, first.id, taker.id, first.price, q, first.iceberg, taker.iceberg)
  }

  /** The first in the queue trades with the taker, as much as both show; then it goes, stays first, or shows its
      next peak from behind all orders of its price. */
  ghost function Serve(d: Desk): Desk
    requires d.Open() && d.taker.Valid() && d.queue[0].Valid()
  {
    var q := if d.taker.Remaining() <= d.queue[0].Remaining() then d.taker.Remaining() else d.queue[0].Remaining();
    var m, rest := d.queue[0].Fill(q), d.queue[1..];
    Desk(if m.IsTotallyFilled() then rest
         else if m.IsVisiblePeakFilled() then InsertBehind(d.taker.side.Opposite(), rest, m.Replenished())
         else [m] + rest,
         d.taker.Fill(q), d.trades + [Deal(d.lastTrade + 1, d.taker, d.queue[0], q)], d.lastTrade + 1,
         if m.IsTotallyFilled() then d.left + [m] else d.left)
  }

  ghost function DeskOf(s: Match): Desk {
    Desk(Flat(s.ladder), s.taker, s.trades, s.nextId, s.done)
  }

  lemma {:induction false} InsertBehindSkips(side: Side, a: seq<OrderState>, b: seq<OrderState>, o: OrderState)
    requires forall x :: x in a ==> !Better(side, o.price, x.price)
    ensures InsertBehind(side, a + b, o) == a + InsertBehind(side, b, o)
  {
    if a == [] {
      assert a + b == b;
    } else {
      assert a[0] in a && (a + b)[1..] == a[1..] + b;
      InsertBehindSkips(side, a[1..], b, o);
      assert [a[0]] + (a[1..] + InsertBehind(side, b, o)) == a + InsertBehind(side, b, o);
    }
  }

  lemma FlatHead(side: Side, ladder: seq<Level>)
    requires LadderOK(side, ladder) && ladder != []
    ensures ladder[0].orders != [] && Flat(ladder) != [] && Flat(ladder)[0] == ladder[0].orders[0]
    ensures Resting(Flat(ladder)[0], side, ladder[0].price)
  {
    assert ladder[0] in ladder && ladder[0].orders[0] in ladder[0].orders;
  }

  /** What one served order does to the orders of the best level, the rest of the queue standing behind. */
  lemma SettleServes(side: Side, l: Level, behind: seq<OrderState>, q: nat)
    requires LevelOK(side, l) && q <= l.orders[0].Remaining()
    requires behind != [] ==> Better(side, l.price, behind[0].price)
    ensures var m, rest := l.orders[0].Fill(q), l.orders[1..] + behind;
      Settle(l, m, q).orders + behind ==
        if m.IsTotallyFilled() then rest
        else if m.IsVisiblePeakFilled() then InsertBehind(side, rest, m.Replenished())
        else [m] + rest
  {
    var m, r := l.orders[0].Fill(q), l.orders[0].Fill(q).Replenished();
    assert l.orders[0] in l.orders;
    FillConserves(l.orders[0], q);
    if m.IsTotallyFilled() {
    } else if m.IsVisiblePeakFilled() {
      assert forall x :: x in l.orders[1..] ==> x in l.orders;
      InsertBehindSkips(side, l.orders[1..], behind, r);
      assert l.orders[1..] + [r] + behind == l.orders[1..] + ([r] + behind);
    } else {
      assert [m] + l.orders[1..] + behind == [m] + (l.orders[1..] + behind);
    }
  }

  lemma TailOfConcat<T>(a: seq<T>, b: seq<T>)
    requires a != []
    ensures (a + b)[0] == a[0] && (a + b)[1..] == a[1..] + b
  {
  }

  lemma OpenIffEnabled(s: Match)
    requires s.Valid()
    ensures DeskOf(s).Open() <==> s.Enabled()
    ensures s.Enabled() ==> DeskOf(s).queue[0] == s.ladder[0].orders[0] && DeskOf(s).queue[0].Valid()
  {
    if s.ladder != [] {
      FlatHead(s.RestingSide(), s.ladder);
    }
  }

  /** What is left of the ladder after a round, as one queue. */
  lemma StepQueue(s: Match)
    requires s.Valid() && s.Enabled() && s.ladder != [] && s.ladder[0].orders != []
    ensures var l, q := s.ladder[0], s.TradeQuantity();
      var m, rest := l.orders[0].Fill(q), Flat(s.ladder)[1..];
      Flat(Step(s).ladder) ==
        if m.IsTotallyFilled() then rest
        else if m.IsVisiblePeakFilled() then InsertBehind(s.RestingSide(), rest, m.Replenished())
        else [m] + rest
  {
    var side, l, q, tail := s.RestingSide(), s.ladder[0], s.TradeQuantity(), s.ladder[1..];
    assert l in s.ladder;
    if tail != [] {
      FlatHead(side, tail);
    }
    SettleKeeps(side, l, q);
    SettleServes(side, l, Flat(tail), q);
    SetBestKeeps(side, s.ladder, Settle(l, l.orders[0].Fill(q), q), s.taker.price);
    TailOfConcat(l.orders, Flat(tail));
  }

  /** One round of the book's loop serves one order of the queue. */
  lemma StepServes(s: Match)
    requires s.Valid() && s.Enabled() && DeskOf(s).Open() && DeskOf(s).queue[0] == s.ladder[0].orders[0]
    requires DeskOf(s).queue[0].Valid()
    ensures DeskOf(Step(s)) == Serve(DeskOf(s))
  {
    hide *;
    DeskParts(s);
    WhoTrades(s);
    StepQueue(s);
    DealIs(s);
    DeskParts(Step(s));
    ServeIs(DeskOf(s), s.TradeQuantity(), s.ladder[0].orders[0].Fill(s.TradeQuantity()));
  }

  lemma DeskParts(s: Match)
    ensures DeskOf(s) == Desk(Flat(s.ladder), s.taker, s.trades, s.nextId, s.done) && s.RestingSide() == s.taker.side.Opposite()
    ensures DeskOf(s).Open() ==> Flat(s.ladder) != []
  {
  }

  lemma WhoTrades(s: Match)
    requires s.Valid() && s.Enabled()
    ensures s.ladder != [] && s.ladder[0].orders != [] && s.taker.Valid()
    ensures s.TradeQuantity() ==
      if s.taker.Remaining() <= s.ladder[0].orders[0].Remaining() then s.taker.Remaining() else s.ladder[0].orders[0].Remaining()
  {
  }

  lemma ServeIs(d: Desk, q: nat, m: OrderState)
    requires d.Open() && d.taker.Valid() && d.queue[0].Valid() && d.queue != []
    requires q == if d.taker.Remaining() <= d.queue[0].Remaining() then d.taker.Remaining() else d.queue[0].Remaining()
    requires m == d.queue[0].Fill(q)
    ensures Serve(d) ==
      Desk(if m.IsTotallyFilled() then d.queue[1..]
           else if m.IsVisiblePeakFilled() then InsertBehind(d.taker.side.Opposite(), d.queue[1..], m.Replenished())
           else [m] + d.queue[1..],
           d.taker.Fill(q), d.trades + [Deal(d.lastTrade + 1, d.taker, d.queue[0], q)], d.lastTrade + 1,
           if m.IsTotallyFilled() then d.left + [m] else d.left)
  {
    hide InsertBehind, Deal, OrderState.Fill, OrderState.Replenished, OrderState.IsTotallyFilled, OrderState.IsVisiblePeakFilled;
  }

  /** The trade of a round is at the price of its level, which is that of the order waiting there. */
  lemma DealIs(s: Match)
    requires s.Valid() && s.Enabled()
    ensures var l, q := s.ladder[0], s.TradeQuantity();
      && Step(s).trades == s.trades + [Deal(s.nextId + 1, s.taker, l.orders[0], q)]
      && Step(s).done == (if l.orders[0].Fill(q).IsTotallyFilled() then s.done + [l.orders[0].Fill(q)] else s.done)
      && Step(s).nextId == s.nextId + 1 && Step(s).taker == s.taker.Fill(q)
  {
    var l := s.ladder[0];
    assert l in s.ladder && l.orders[0] in l.orders;
  }

  /** The queue served n times, or until it closes. */
  ghost function ServeAll(d: Desk, n: nat): Desk
    decreases n
  {
    if n == 0 || !d.Open() || !d.taker.Valid() || !d.queue[0].Valid() then d else ServeAll(Serve(d), n - 1)
  }

  /** Refinement: whatever the number of rounds, the book's loop and the queue agree on the orders waiting, the
      taker, every trade and everyone who left; and where the loop ends, it ends where the queue closes. */
  lemma {:induction false} MatchRefinesQueue(s: Match, n: nat)
    requires s.Valid()
    ensures Iterate(s, n).trades == ServeAll(DeskOf(s), n).trades
    ensures DeskOf(Iterate(s, n)) == ServeAll(DeskOf(s), n)
    ensures Iterate(s, n).Enabled() <==> ServeAll(DeskOf(s), n).Open()
    decreases n
  {
    hide *;
    OpenIffEnabled(s);
    OneRound(s, n);
    if n > 0 && s.Enabled() {
      StepServes(s);
      MatchRefinesQueue(Step(s), n - 1);
    }
  }

  lemma OneRound(s: Match, n: nat)
    requires s.Valid() && (DeskOf(s).Open() <==> s.Enabled()) && (s.Enabled() ==> DeskOf(s).queue[0].Valid())
    ensures DeskOf(s).trades == s.trades && DeskOf(s).taker.Valid()
    ensures n == 0 || !s.Enabled() ==> Iterate(s, n) == s && ServeAll(DeskOf(s), n) == DeskOf(s)
    ensures n > 0 && s.Enabled() ==>
      && Step(s).Valid() && Iterate(s, n) == Iterate(Step(s), n - 1)
      && ServeAll(DeskOf(s), n) == ServeAll(Serve(DeskOf(s)), n - 1)
  {
    hide Step, Serve, Match.Enabled, Desk.Open, Flat;
    if s.Enabled() {
      StepKeeps(s);
    }
  }

  /** Where the loop ends, the queue was served to the end, with the same trades. */
  lemma MatchServesAll(s: Match) returns (n: nat)
    requires s.Valid() && Live(s)
    ensures DeskOf(MatchAll(s)) == ServeAll(DeskOf(s), n) && !ServeAll(DeskOf(s), n).Open()
  {
    n := LiveStops(s);
    MatchRefinesQueue(s, n);
  }

  // ---------- resting and cancelling ----------

  ghost predicate Room(ladder: seq<Level>) {
    |Flat(ladder)| + 1 < TWO_32
  }

  lemma LadderCons(side: Side, l: Level, tail: seq<Level>)
    requires LevelOK(side, l) && LadderOK(side, tail) && (tail != [] ==> Better(side, l.price, tail[0].price))
    ensures LadderOK(side, [l] + tail)
  {
    var r := [l] + tail;
    forall i, j | 0 <= i < j < |r| ensures Better(side, r[i].price, r[j].price) {
      assert j > 1 ==> Better(side, tail[0].price, tail[j - 1].price);
      assert i > 0 ==> Better(side, tail[i - 1].price, tail[j - 1].price);
    }
  }

  /** Resting an order keeps the ladder well-formed; the best price is the better of the two. */
  lemma {:induction false} AddKeeps(side: Side, ladder: seq<Level>, o: OrderState)
    requires LadderOK(side, ladder) && Resting(o, side, o.price) && Room(ladder)
    ensures LadderOK(side, AddToLadder(side, ladder, o)) && AddToLadder(side, ladder, o) != []
    ensures AddToLadder(side, ladder, o)[0].price
         == if ladder == [] || Better(side, o.price, ladder[0].price) then o.price else ladder[0].price
  {
    if ladder == [] || Better(side, o.price, ladder[0].price) {
      LadderCons(side, NewLevel(o), ladder);
    } else {
      var l, tail := ladder[0], ladder[1..];
      assert l in ladder && |Flat(ladder)| == |l.orders| + |Flat(tail)|;
      if l.price == o.price {
        LadderCons(side, Join(l, o), tail);
      } else {
        AddKeeps(side, tail, o);
        LadderCons(side, l, AddToLadder(side, tail, o));
      }
    }
  }

  /** Resting an order puts it behind everything its price does not beat. */
  lemma {:induction false} AddInserts(side: Side, ladder: seq<Level>, o: OrderState)
    requires LadderOK(side, ladder)
    ensures Flat(AddToLadder(side, ladder, o)) == InsertBehind(side, Flat(ladder), o)
  {
    if ladder != [] {
      FlatHead(side, ladder);
    }
    if ladder == [] || Better(side, o.price, ladder[0].price) {
      assert ([NewLevel(o)] + ladder)[1..] == ladder;
    } else {
      var l, tail := ladder[0], ladder[1..];
      assert l in ladder;
      InsertBehindSkips(side, l.orders, Flat(tail), o);
      if l.price == o.price {
        if tail != [] {
          FlatHead(side, tail);
        }
        assert ([Join(l, o)] + tail)[1..] == tail;
        assert l.orders + [o] + Flat(tail) == l.orders + ([o] + Flat(tail));
      } else {
        AddInserts(side, tail, o);
        assert ([l] + AddToLadder(side, tail, o))[1..] == AddToLadder(side, tail, o);
      }
    }
  }
}
