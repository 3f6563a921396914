/** Buying and selling are mirror images: swap the sides, negate the prices. The two loop bodies of the program are
    written out one by one, and proved to be each other's mirror image. */
module Mirroring {
  import opened Orders
  import opened OrderQueues
  import opened Matching
  import opened MatchingLaws

  ghost function MirrorOrder(o: OrderState): OrderState {
    o.(side := o.side.Opposite(), price := -o.price)
  }

  ghost function MirrorOrders(orders: seq<OrderState>): (r: seq<OrderState>)
    ensures |r| == |orders| && forall i :: 0 <= i < |r| ==> r[i] == MirrorOrder(orders[i])
  {
    if orders == [] then [] else [MirrorOrder(orders[0])] + MirrorOrders(orders[1..])
  }

  ghost function MirrorLevel(l: Level): Level {
    l.(price := -l.price, orders := MirrorOrders(l.orders))
  }

  ghost function MirrorLadder(ladder: seq<Level>): (r: seq<Level>)
    ensures |r| == |ladder| && forall i :: 0 <= i < |r| ==> r[i] == MirrorLevel(ladder[i])
  {
    if ladder == [] then [] else [MirrorLevel(ladder[0])] + MirrorLadder(ladder[1..])
  }

  ghost function MirrorTrade(t: Trade): Trade {
    Trade(t.id, t.sellId, t.buyId, -t.price, t.quantity, t.sellIceberg, t.buyIceberg)
  }

  ghost function MirrorTrades(trades: seq<Trade>): (r: seq<Trade>)
    ensures |r| == |trades| && forall i :: 0 <= i < |r| ==> r[i] == MirrorTrade(trades[i])
  {
    if trades == [] then [] else [MirrorTrade(trades[0])] + MirrorTrades(trades[1..])
  }

  ghost function Mirror(s: Match): Match {
    Match(MirrorLadder(s.ladder), MirrorOrder(s.taker), MirrorTrades(s.trades), MirrorOrders(s.done), s.nextId)
  }

  lemma MirrorValid(s: Match)
    requires s.Valid()
    ensures Mirror(s).Valid() && (Mirror(s).Enabled() <==> s.Enabled())
  {
    var side, r := s.RestingSide(), Mirror(s).ladder;
    forall l | l in r ensures LevelOK(side.Opposite(), l) {
      var i :| 0 <= i < |r| && r[i] == l;
      MirrorLevelOK(side, s.ladder[i]);
    }
    forall i, j | 0 <= i < j < |r| ensures Better(side.Opposite(), r[i].price, r[j].price) {
      assert Better(side, s.ladder[i].price, s.ladder[j].price);
    }
    if s.ladder != [] {
      assert s.ladder[0] in s.ladder;
    }
  }

  lemma MirrorLevelOK(side: Side, l: Level)
    requires LevelOK(side, l)
    ensures LevelOK(side.Opposite(), MirrorLevel(l))
  {
    var r := MirrorOrders(l.orders);
    forall o | o in r ensures Resting(o, side.Opposite(), -l.price) {
      var i :| 0 <= i < |r| && r[i] == o;
      assert l.orders[i] in l.orders;
    }
  }

  lemma MirrorBack(m: OrderState, a: seq<OrderState>)
    ensures MirrorOrders(a + [m]) == MirrorOrders(a) + [MirrorOrder(m)]
    ensures MirrorOrders([m] + a) == [MirrorOrder(m)] + MirrorOrders(a)
  {
  }

  lemma MirrorFilled(o: OrderState, q: nat)
    ensures MirrorOrder(o).Fill(q) == MirrorOrder(o.Fill(q)) && MirrorOrder(o).Replenished() == MirrorOrder(o.Replenished())
    ensures MirrorOrder(o).IsTotallyFilled() == o.IsTotallyFilled()
    ensures MirrorOrder(o).IsVisiblePeakFilled() == o.IsVisiblePeakFilled() && MirrorOrder(o).Remaining() == o.Remaining()
    ensures MirrorOrder(o).iceberg == o.iceberg && MirrorOrder(o).visible == o.visible
  {
  }

  lemma MirrorSettle(side: Side, l: Level, q: nat)
    requires LevelOK(side, l) && q <= l.orders[0].Remaining()
    ensures var m := l.orders[0].Fill(q);
      MirrorOrders(l.orders)[0].Fill(q) == MirrorOrder(m)
      && Settle(MirrorLevel(l), MirrorOrder(m), q) == MirrorLevel(Settle(l, m, q))
  {
    var m, a := l.orders[0].Fill(q), l.orders[1..];
    MirrorFilled(l.orders[0], q);
    MirrorFilled(m, 0);
    MirrorBack(m.Replenished(), a);
    MirrorBack(m, a);
    assert MirrorOrders(l.orders)[1..] == MirrorOrders(a);
    hide MirrorOrder, MirrorOrders, Wrap64, LevelOK, OrderState.Fill, OrderState.Replenished, OrderState.Remaining,
         OrderState.IsTotallyFilled, OrderState.IsVisiblePeakFilled;
  }

  lemma MirrorBest(ladder: seq<Level>, l: Level)
    requires ladder != []
    ensures MirrorLadder(SetBest(ladder, l)) == SetBest(MirrorLadder(ladder), MirrorLevel(l))
  {
  }

  lemma MirrorAppend(trades: seq<Trade>, t: Trade, done: seq<OrderState>, m: OrderState)
    ensures MirrorTrades(trades + [t]) == MirrorTrades(trades) + [MirrorTrade(t)]
    ensures MirrorOrders(done + [m]) == MirrorOrders(done) + [MirrorOrder(m)]
  {
  }

  lemma MirrorExecute(id: nat, taker: OrderState, maker: OrderState, price: int, q: nat)
    ensures Execute(id, MirrorOrder(taker), MirrorOrder(maker), -price, q) == MirrorTrade(Execute(id, taker, maker, price, q))
  {
  }

  /** Filled orders mirror to filled orders, and trade for the same quantity. */
  lemma MirrorFills(s: Match)
    requires s.Valid() && s.Enabled() && Mirror(s).Valid() && Mirror(s).Enabled()
    ensures var q, l := s.TradeQuantity(), s.ladder[0]; var m := l.orders[0].Fill(q);
      && Mirror(s).TradeQuantity() == q && Mirror(s).ladder[0] == MirrorLevel(l)
      && Mirror(s).ladder[0].orders[0].Fill(q) == MirrorOrder(m) && LevelOK(s.RestingSide(), l) && q <= l.orders[0].Remaining()
      && (MirrorOrder(m).IsTotallyFilled() <==> m.IsTotallyFilled())
      && MirrorOrder(s.taker).Fill(q) == MirrorOrder(s.taker.Fill(q))
  {
    assert s.ladder[0] in s.ladder;
  }

  lemma StepFrom(s: Match, l: Level, q: nat, m: OrderState)
    requires s.Valid() && s.Enabled() && l == s.ladder[0] && q == s.TradeQuantity() && m == l.orders[0].Fill(q)
    ensures Step(s) == Match(SetBest(s.ladder, Settle(l, m, q)), s.taker.Fill(q),
                             s.trades + [Execute(s.nextId + 1, s.taker.Fill(q), m, l.price, q)],
                             if m.IsTotallyFilled() then s.done + [m] else s.done, s.nextId + 1)
  {
  }

  lemma MirrorStep(s: Match)
    requires s.Valid() && s.Enabled() && Mirror(s).Valid() && Mirror(s).Enabled()
    ensures Step(Mirror(s)) == Mirror(Step(s))
  {
    hide *;
    MirrorFills(s);
    NotEmpty(s);
    var l, q := s.ladder[0], s.TradeQuantity();
    var m, t := l.orders[0].Fill(q), s.taker.Fill(q);
    StepFrom(s, l, q, m);
    MirrorParts(s);
    StepFrom(Mirror(s), MirrorLevel(l), q, MirrorOrder(m));
    MirrorSettle(s.RestingSide(), l, q);
    MirrorBest(s.ladder, Settle(l, m, q));
    MirrorAppend(s.trades, Execute(s.nextId + 1, t, m, l.price, q), s.done, m);
    MirrorExecute(s.nextId + 1, t, m, l.price, q);
    LevelPrice(l);
    MirrorParts(Step(s));
  }

  lemma NotEmpty(s: Match)
    requires s.Valid() && s.Enabled()
    ensures s.ladder != [] && s.ladder[0].orders != []
  {
  }

  lemma MirrorParts(s: Match)
    ensures Mirror(s) == Match(MirrorLadder(s.ladder), MirrorOrder(s.taker), MirrorTrades(s.trades), MirrorOrders(s.done), s.nextId)
  {
  }

  lemma LevelPrice(l: Level)
    ensures MirrorLevel(l).price == -l.price
  {
  }

  /** The loop on the mirrored book gives the mirrored trades and the mirrored book, round for round; so the
      buy loop and the sell loop end together. */
  lemma {:induction false} MatchMirrors(s: Match, n: nat)
    requires s.Valid() && Mirror(s).Valid()
    ensures Iterate(Mirror(s), n) == Mirror(Iterate(s, n))
    decreases n
  {
    hide Mirror, Step, Match.Valid, Match.Enabled;
    MirrorValid(s);
    if n > 0 && s.Enabled() {
      StepKeeps(s);
      MirrorStep(s);
      MirrorValid(Step(s));
      MatchMirrors(Step(s), n - 1);
    }
  }

  lemma MirrorsStop(s: Match, n: nat)
    requires s.Valid()
    ensures Mirror(s).Valid() && (Iterate(Mirror(s), n).Enabled() <==> Iterate(s, n).Enabled())
  {
    MirrorValid(s);
    MatchMirrors(s, n);
    MirrorValid(Iterate(s, n));
  }

  // ---------- the two loop bodies, one by one ----------

  predicate BuyGoesOn(asks: seq<Level>, buy: OrderState) {
    !buy.IsTotallyFilled() && asks != [] && !(asks[0].price > buy.price) && asks[0].orders != []
  }

  /** The body of the loop of matchBuyOrder. */
  function BuyRound(s: Match): Match
    requires s.Valid() && s.taker.side == Buy && BuyGoesOn(s.ladder, s.taker)
  {
    var bestAsk := s.ladder[0];
    var sell := bestAsk.orders[0];
    BothShow(s);
    var q: nat := if s.taker.Remaining() <= sell.Remaining() then s.taker.Remaining() else sell.Remaining();
    var buy', sell' := s.taker.Fill(q), sell.Fill(q);
    var traded := s.(taker := buy', nextId := s.nextId + 1,
      trades := s.trades + [Trade(s.nextId + 1, buy'.id, sell'.id, bestAsk.price, q, buy'.iceberg, sell'.iceberg)]);
    var front := WithFront(bestAsk, sell');
    if sell'.iceberg && sell'.IsVisiblePeakFilled() then
      if sell'.IsTotallyFilled() then
        traded.(ladder := SetBest(s.ladder, UpdateLevel(Popped(front), -(q as int), -1)), done := s.done + [sell'])
      else
        var renewed := sell'.Replenished();
        traded.(ladder := SetBest(s.ladder,
          UpdateLevel(Pushed(Popped(WithFront(front, renewed)), renewed), renewed.Remaining() - sell'.visible, 0)))
    else if sell'.IsTotallyFilled() then
      traded.(ladder := SetBest(s.ladder, UpdateLevel(Popped(front), -(q as int), -1)), done := s.done + [sell'])
    else
      traded.(ladder := SetBest(s.ladder, UpdateLevel(front, -(q as int), 0)))
  }

  predicate SellGoesOn(bids: seq<Level>, sell: OrderState) {
    !sell.IsTotallyFilled() && bids != [] && !(bids[0].price < sell.price) && bids[0].orders != []
  }

  /** The body of the loop of matchSellOrder. */
  function SellRound(s: Match): Match
    requires s.Valid() && s.taker.side == Sell && SellGoesOn(s.ladder, s.taker)
  {
    var bestBid := s.ladder[0];
    var buy := bestBid.orders[0];
    BothShow(s);
    var q: nat := if s.taker.Remaining() <= buy.Remaining() then s.taker.Remaining() else buy.Remaining();
    var buy', sell' := buy.Fill(q), s.taker.Fill(q);
    var traded := s.(taker := sell', nextId := s.nextId + 1,
      trades := s.trades + [Trade(s.nextId + 1, buy'.id, sell'.id, bestBid.price, q, buy'.iceberg, sell'.iceberg)]);
    var front := WithFront(bestBid, buy');
    if buy'.iceberg && buy'.IsVisiblePeakFilled() then
      if buy'.IsTotallyFilled() then
        traded.(ladder := SetBest(s.ladder, UpdateLevel(Popped(front), -(q as int), -1)), done := s.done + [buy'])
      else
        var renewed := buy'.Replenished();
        traded.(ladder := SetBest(s.ladder,
          UpdateLevel(Pushed(Popped(WithFront(front, renewed)), renewed), renewed.Remaining() - buy'.visible, 0)))
    else if buy'.IsTotallyFilled() then
      traded.(ladder := SetBest(s.ladder, UpdateLevel(Popped(front), -(q as int), -1)), done := s.done + [buy'])
    else
      traded.(ladder := SetBest(s.ladder, UpdateLevel(front, -(q as int), 0)))
  }

  lemma BothShow(s: Match)
    requires s.Valid() && s.ladder != [] && s.ladder[0].orders != []
    ensures 0 <= s.taker.Remaining() && 0 <= s.ladder[0].orders[0].Remaining()
  {
    assert s.ladder[0] in s.ladder && s.ladder[0].orders[0] in s.ladder[0].orders;
  }

  /** The branches after a trade, whichever side rests. */
  lemma BranchesSettle(l: Level, m: OrderState, q: nat)
    requires l.orders != []
    ensures Settle(l, m, q) ==
      if m.iceberg && m.IsVisiblePeakFilled() && !m.IsTotallyFilled() then
        UpdateLevel(Pushed(Popped(WithFront(WithFront(l, m), m.Replenished())), m.Replenished()), m.Replenished().Remaining() - m.visible, 0)
      else if m.IsTotallyFilled() then UpdateLevel(Popped(WithFront(l, m)), -(q as int), -1)
      else UpdateLevel(WithFront(l, m), -(q as int), 0)
  {
    hide Wrap64, UpdateLevel, OrderState.Replenished, OrderState.Remaining, OrderState.IsTotallyFilled, OrderState.IsVisiblePeakFilled;
    assert WithFront(l, m).orders[1..] == l.orders[1..];
    assert WithFront(WithFront(l, m), m.Replenished()).orders[1..] == l.orders[1..];
  }

  lemma BuyRoundIs(s: Match)
    requires s.Valid() && s.taker.side == Buy
    ensures s.Enabled() <==> BuyGoesOn(s.ladder, s.taker)
    ensures s.Enabled() ==> BuyRound(s) == Step(s)
  {
    if s.Enabled() {
      var l, q := s.ladder[0], s.TradeQuantity();
      BranchesSettle(l, l.orders[0].Fill(q), q);
      hide Settle, UpdateLevel, Pushed, Popped, WithFront, SetBest, OrderState.Fill, OrderState.Replenished;
    }
  }

  lemma SellRoundIs(s: Match)
    requires s.Valid() && s.taker.side == Sell
    ensures s.Enabled() <==> SellGoesOn(s.ladder, s.taker)
    ensures s.Enabled() ==> SellRound(s) == Step(s)
  {
    if s.Enabled() {
      var l, q := s.ladder[0], s.TradeQuantity();
      BranchesSettle(l, l.orders[0].Fill(q), q);
      hide Settle, UpdateLevel, Pushed, Popped, WithFront, SetBest, OrderState.Fill, OrderState.Replenished;
    }
  }

  /** The loop of matchBuyOrder for at most n rounds, and that of matchSellOrder. */
  ghost function BuyLoop(s: Match, n: nat): (r: Match)
    requires s.Valid() && s.taker.side == Buy
    ensures r == Iterate(s, n)
    decreases n
  {
    BuyRoundIs(s);
    if n == 0 || !BuyGoesOn(s.ladder, s.taker) then s
    else
      StepKeeps(s);
      BuyLoop(BuyRound(s), n - 1)
  }

  ghost function SellLoop(s: Match, n: nat): (r: Match)
    requires s.Valid() && s.taker.side == Sell
    ensures r == Iterate(s, n)
    decreases n
  {
    SellRoundIs(s);
    if n == 0 || !SellGoesOn(s.ladder, s.taker) then s
    else
      StepKeeps(s);
      SellLoop(SellRound(s), n - 1)
  }

  /** Round for round, what selling does on the mirrored book is the mirror image of what buying does. */
  lemma SellMirrorsBuy(s: Match, n: nat)
    requires s.Valid() && s.taker.side == Buy
    ensures Mirror(s).Valid() && Mirror(s).taker.side == Sell
    ensures SellLoop(Mirror(s), n) == Mirror(BuyLoop(s, n))
    ensures SellGoesOn(SellLoop(Mirror(s), n).ladder, SellLoop(Mirror(s), n).taker)
       <==> BuyGoesOn(BuyLoop(s, n).ladder, BuyLoop(s, n).taker)
  {
    MirrorValid(s);
    MatchMirrors(s, n);
    MirrorValid(Iterate(s, n));
    SideStays(s, n);
    BuyRoundIs(Iterate(s, n));
    SellRoundIs(Mirror(Iterate(s, n)));
  }

  lemma {:induction false} SideStays(s: Match, n: nat)
    requires s.Valid()
    ensures Iterate(s, n).taker.side == s.taker.side
    decreases n
  {
    if n > 0 && s.Enabled() {
      StepKeeps(s);
      SideStays(Step(s), n - 1);
    }
  }
}
