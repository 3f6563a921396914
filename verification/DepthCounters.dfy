/** How far the published depth of a level is from the quantity its orders show. */
module DepthCounters {
  import opened Orders
  import opened OrderQueues
  import opened Matching
  import opened MatchingLaws

  /** Depth shown minus depth there is, on 64 bits; zero for a truthful level. */
  ghost function Gap(l: Level): nat {
    Wrap64(l.quantity - Sum(Shown, l.orders))
  }

  /** The same for the counter kept by the queue, which best bid and best ask quantities are read from. */
  ghost function QueueGap(l: Level): nat {
    Wrap64(l.queueQuantity - Sum(Shown, l.orders))
  }

  /** A round in which the first order shows a new peak. */
  ghost predicate Replenishes(l: Level, q: nat)
    requires l.orders != []
  {
    var m := l.orders[0].Fill(q);
    m.IsVisiblePeakFilled() && !m.IsTotallyFilled()
  }

  lemma WrapShift(a: int, b: int, d: int)
    ensures Wrap64(Wrap64(a + d) - b) == Wrap64(a + d - b)
    ensures Wrap64(Wrap64(a) + d) == Wrap64(a + d)
  {
  }

  /** What one round changes in the quantity shown. */
  lemma SettleShown(side: Side, l: Level, q: nat)
    requires LevelOK(side, l) && q <= l.orders[0].Remaining()
    ensures var m, l' := l.orders[0].Fill(q), Settle(l, l.orders[0].Fill(q), q);
      && Sum(Shown, l'.orders) == Sum(Shown, l.orders) - q + (if Replenishes(l, q) then m.Replenished().Remaining() else 0)
      && l'.quantity == Wrap64(l.quantity + if Replenishes(l, q) then m.Replenished().Remaining() - m.visible else -(q as int))
      && (m.iceberg ==> m.visibleFilled == l.orders[0].visibleFilled + q)
      && (Replenishes(l, q) ==> m.visible == m.visibleFilled)
  {
    assert l.orders[0] in l.orders;
    FillConserves(l.orders[0], q);
    SettleSum(side, l, q, Shown);
  }

  /** The drift of the depth: it loses what the replenished peak had traded before its last trade. */
  lemma SettleGap(side: Side, l: Level, q: nat)
    requires LevelOK(side, l) && q <= l.orders[0].Remaining()
    ensures Gap(Settle(l, l.orders[0].Fill(q), q))
         == Wrap64(Gap(l) - (if Replenishes(l, q) then l.orders[0].visibleFilled else 0))
  {
    SettleShown(side, l, q);
    var m, l' := l.orders[0].Fill(q), Settle(l, l.orders[0].Fill(q), q);
    var d := if Replenishes(l, q) then m.Replenished().Remaining() - m.visible else -(q as int);
    GapMoves(l.quantity, d, Sum(Shown, l.orders), Sum(Shown, l'.orders));
  }

  /** The drift of the queue counter: it keeps every fill, and misses every new peak. */
  lemma SettleQueueGap(side: Side, l: Level, q: nat)
    requires LevelOK(side, l) && q <= l.orders[0].Remaining()
    ensures var m := l.orders[0].Fill(q);
      QueueGap(Settle(l, m, q))
        == Wrap64(QueueGap(l) + q - (if Replenishes(l, q) then m.Replenished().Remaining() else 0))
  {
    SettleShown(side, l, q);
    SettleCounter(side, l, q);
    hide Sum, Settle, Replenishes, LevelOK, OrderState.Fill, OrderState.Remaining, OrderState.Replenished, Wrap64, QueueGap;
    var l' := Settle(l, l.orders[0].Fill(q), q);
    QueueMoves(l.queueQuantity, l'.queueQuantity, Sum(Shown, l.orders), Sum(Shown, l'.orders));
    QueueGapIs(l);
    QueueGapIs(l');
  }

  /** A round leaves the drift of the queue counter as it was exactly if the new peak shows what was traded, on 64
      bits; a round without a new peak, exactly if nothing was traded. */
  lemma SettleQueueExact(side: Side, l: Level, q: nat)
    requires LevelOK(side, l) && q <= l.orders[0].Remaining()
    ensures var m := l.orders[0].Fill(q);
      (QueueGap(Settle(l, m, q)) == QueueGap(l))
        <==> ((q - (if Replenishes(l, q) then m.Replenished().Remaining() else 0)) % TWO_64 == 0)
  {
    SettleQueueGap(side, l, q);
    var m := l.orders[0].Fill(q);
    WrapSame(QueueGap(l), q - if Replenishes(l, q) then m.Replenished().Remaining() else 0);
  }

  lemma WrapSame(g: nat, d: int)
    requires g < TWO_64
    ensures Wrap64(g + d) == g <==> d % TWO_64 == 0
  {
  }

  lemma GapMoves(counter: nat, d: int, a: int, b: int)
    ensures Wrap64(Wrap64(counter + d) - b) == Wrap64(Wrap64(counter - a) + d + a - b)
  {
    WrapShift(counter, b, d);
    WrapShift(counter - a, 0, d + a - b);
  }

  /** A truthful level stays truthful through a round exactly unless a peak that had been traded before is
      replenished. */
  lemma TruthfulRound(side: Side, l: Level, q: nat)
    requires LevelOK(side, l) && q <= l.orders[0].Remaining() && Gap(l) == 0 && l.orders[0].visibleFilled < TWO_64
    ensures Gap(Settle(l, l.orders[0].Fill(q), q)) == 0
      <==> !(Replenishes(l, q) && 0 < l.orders[0].visibleFilled)
  {
    SettleGap(side, l, q);
  }

  /** Resting and cancelling are exact. */
  lemma JoinGap(l: Level, o: OrderState)
    ensures Gap(Join(l, o)) == Gap(l) && QueueGap(Join(l, o)) == QueueGap(l)
  {
    hide Wrap64, Sum, Weigh;
    var a := Sum(Shown, l.orders);
    SumConcat(Shown, l.orders, [o]);
    ShownBy(o);
    GapMoves(l.quantity, o.Remaining(), a, a + o.Remaining());
    GapMoves(l.queueQuantity, o.Remaining(), a, a + o.Remaining());
    WrapShift(l.quantity - a, 0, 0);
    WrapShift(l.queueQuantity - a, 0, 0);
  }

  lemma ShownBy(o: OrderState)
    ensures Sum(Shown, [o]) == o.Remaining()
  {
  }

  /** A level opened for an order counts truthfully. */
  lemma NewLevelGap(o: OrderState)
    ensures Gap(NewLevel(o)) == 0 && QueueGap(NewLevel(o)) == 0
  {
    ShownBy(o);
  }

  lemma LeaveGap(l: Level, i: nat)
    requires i < |l.orders|
    ensures Gap(Leave(l, i)) == Gap(l) && QueueGap(Leave(l, i)) == QueueGap(l)
  {
    hide Wrap64, Sum, Weigh;
    var o, x, y := l.orders[i], l.orders[..i], l.orders[i + 1..];
    assert l.orders == x + ([o] + y);
    SumConcat(Shown, x, [o] + y);
    SumConcat(Shown, [o], y);
    SumConcat(Shown, x, y);
    ShownBy(o);
    var a := Sum(Shown, l.orders);
    GapMoves(l.quantity, -o.Remaining(), a, a - o.Remaining());
    GapMoves(l.queueQuantity, -o.Remaining(), a, a - o.Remaining());
    WrapShift(l.quantity - a, 0, 0);
    WrapShift(l.queueQuantity - a, 0, 0);
  }

  // ---------- over the whole loop ----------

  /** What the first peaks of a queue had traded before, as far as an order that shows so much uses them up: the
      peaks it finishes while more is hidden behind them. */
  ghost function Forgone(orders: seq<OrderState>, shown: int): nat {
    if orders == [] || shown <= 0 || shown < orders[0].Remaining() then 0
    else
      (if orders[0].iceberg && orders[0].hidden > 0 then orders[0].visibleFilled else 0)
      + Forgone(orders[1..], shown - orders[0].Remaining())
  }

  /** The same at a price of a ladder: all that is open on better levels comes first. */
  ghost function ForgoneAt(side: Side, ladder: seq<Level>, limit: int, price: int, shown: int): nat {
    if ladder == [] || !Crosses(side, ladder[0].price, limit) then 0
    else if ladder[0].price == price then Forgone(ladder[0].orders, shown)
    else ForgoneAt(side, ladder[1..], limit, price, shown - Sum(Open, ladder[0].orders))
  }

  /** The level of a price outlasts an order that shows so much. */
  ghost predicate Stays(side: Side, ladder: seq<Level>, limit: int, price: int, shown: int) {
    ladder != [] &&
      if ladder[0].price == price then !Crosses(side, price, limit) || shown < Sum(Open, ladder[0].orders)
      else Stays(side, ladder[1..], limit, price, shown - Sum(Open, ladder[0].orders))
  }

  ghost predicate HasLevel(ladder: seq<Level>, price: int) {
    exists l :: l in ladder && l.price == price
  }

  ghost function Foregoes(s: Match, price: int): nat {
    ForgoneAt(s.RestingSide(), s.ladder, s.taker.price, price, s.taker.Remaining())
  }

  ghost predicate Outlasts(s: Match, price: int) {
    Stays(s.RestingSide(), s.ladder, s.taker.price, price, s.taker.Remaining())
  }

  /** An order with a fresh peak at the back forgoes nothing. */
  lemma {:induction false} ForgoneBehind(orders: seq<OrderState>, r: OrderState, shown: int)
    requires r.visibleFilled == 0
    ensures Forgone(orders + [r], shown) == Forgone(orders, shown)
  {
    if orders != [] {
      assert (orders + [r])[1..] == orders[1..] + [r];
      ForgoneBehind(orders[1..], r, shown - orders[0].Remaining());
    }
  }

  /** One round at the best level takes its loss out of what the taker will still forgo there. */
  lemma SettleForgone(side: Side, l: Level, q: nat, shown: int)
    requires LevelOK(side, l) && 0 < shown
    requires q == if shown <= l.orders[0].Remaining() then shown else l.orders[0].Remaining()
    ensures Forgone(l.orders, shown)
         == (if Replenishes(l, q) then l.orders[0].visibleFilled else 0) + Forgone(Settle(l, l.orders[0].Fill(q), q).orders, shown - q)
  {
    assert l.orders[0] in l.orders;
    FillConserves(l.orders[0], q);
    var m := l.orders[0].Fill(q);
    if Replenishes(l, q) {
      ForgoneBehind(l.orders[1..], m.Replenished(), shown - q);
    }
  }

  lemma {:induction false} NoneWithoutLevel(side: Side, ladder: seq<Level>, limit: int, price: int, shown: int)
    requires !HasLevel(ladder, price)
    ensures ForgoneAt(side, ladder, limit, price, shown) == 0 && !Stays(side, ladder, limit, price, shown)
  {
    if ladder != [] {
      assert ladder[0] in ladder && forall l :: l in ladder[1..] ==> l in ladder;
      NoneWithoutLevel(side, ladder[1..], limit, price, shown - Sum(Open, ladder[0].orders));
    }
  }

  lemma BestIsAlone(side: Side, ladder: seq<Level>)
    requires LadderOK(side, ladder) && ladder != []
    ensures !HasLevel(ladder[1..], ladder[0].price) && LadderOK(side, ladder[1..]) && LevelOK(side, ladder[0])
  {
    assert ladder[0] in ladder;
    forall l | l in ladder[1..] ensures l.price != ladder[0].price {
      var i :| 0 <= i < |ladder[1..]| && ladder[1..][i] == l;
      assert ladder[i + 1] == l;
    }
  }

  /** What one round does to the taker and the best level. */
  lemma StepShape(s: Match)
    requires s.Valid() && Live(s) && s.Enabled()
    ensures var side, l, q, s' := s.RestingSide(), s.ladder[0], s.TradeQuantity(), Step(s);
      var l' := Settle(l, l.orders[0].Fill(q), q);
      && s'.RestingSide() == side && s'.taker.price == s.taker.price && Crosses(side, l.price, s.taker.price)
      && 0 < s.taker.Remaining() && s'.taker.Remaining() == s.taker.Remaining() - q
      && q == (if s.taker.Remaining() <= l.orders[0].Remaining() then s.taker.Remaining() else l.orders[0].Remaining())
      && LevelOK(side, l) && !HasLevel(s.ladder[1..], l.price)
      && l'.price == l.price && Sum(Open, l'.orders) == Sum(Open, l.orders) - q
      && s'.ladder == (if l'.orders == [] then s.ladder[1..] else [l'] + s.ladder[1..])
  {
    var side, l, q := s.RestingSide(), s.ladder[0], s.TradeQuantity();
    BestIsAlone(side, s.ladder);
    StepLive(s);
    StepKeeps(s);
    FillConserves(s.taker, q);
    SettleKeeps(side, l, q);
    OpenLeft(side, l, q);
  }

  /** Each round moves its loss from what is still to be forgone to what is lost. */
  lemma StepForgoes(s: Match, price: int)
    requires s.Valid() && Live(s) && s.Enabled()
    ensures Foregoes(s, price) == Foregoes(Step(s), price) +
      if s.ladder[0].price == price && Replenishes(s.ladder[0], s.TradeQuantity()) then s.ladder[0].orders[0].visibleFilled else 0
  {
    var side, l, q, shown := s.RestingSide(), s.ladder[0], s.TradeQuantity(), s.taker.Remaining();
    StepShape(s);
    hide Step, Settle, Match.Valid, Live, LevelOK, Weigh;
    var l', tail := Settle(l, l.orders[0].Fill(q), q), s.ladder[1..];
    SettleForgone(side, l, q, shown);
    NoneWithoutLevel(side, tail, s.taker.price, l.price, shown - q);
    assert l'.orders != [] ==> ([l'] + tail)[1..] == tail;
  }

  /** And no round decides which levels are left in the end. */
  lemma StepOutlasts(s: Match, price: int)
    requires s.Valid() && Live(s) && s.Enabled()
    ensures Outlasts(s, price) <==> Outlasts(Step(s), price)
  {
    var side, l, q, shown := s.RestingSide(), s.ladder[0], s.TradeQuantity(), s.taker.Remaining();
    StepShape(s);
    hide Step, Settle, Match.Valid, Live, LevelOK, Weigh;
    var l', tail := Settle(l, l.orders[0].Fill(q), q), s.ladder[1..];
    NoneWithoutLevel(side, tail, s.taker.price, l.price, shown - q);
    assert l'.orders != [] ==> ([l'] + tail)[1..] == tail;
  }

  lemma OpenLeft(side: Side, l: Level, q: nat)
    requires LevelOK(side, l) && q <= l.orders[0].Remaining()
    ensures Sum(Open, Settle(l, l.orders[0].Fill(q), q).orders) == Sum(Open, l.orders) - q
  {
    var m := l.orders[0].Fill(q);
    assert l.orders[0] in l.orders;
    FillConserves(l.orders[0], q);
    ReplenishConserves(m);
    FilledTestsAgree(m);
    SettleSum(side, l, q, Open);
  }

  /** Who shows nothing forgoes nothing, and uses no level up. */
  lemma {:induction false} NothingShown(side: Side, ladder: seq<Level>, limit: int, price: int, shown: int)
    requires LadderOK(side, ladder) && shown <= 0
    ensures ForgoneAt(side, ladder, limit, price, shown) == 0
    ensures Stays(side, ladder, limit, price, shown) <==> HasLevel(ladder, price)
  {
    if ladder != [] {
      BestIsAlone(side, ladder);
      TotalPositive(side, ladder[0].price, ladder[0].orders);
      NothingShown(side, ladder[1..], limit, price, shown - Sum(Open, ladder[0].orders));
      assert ladder[0] in ladder && forall l :: l in ladder <==> l == ladder[0] || l in ladder[1..];
    }
  }

  /** Nor does who crosses nothing. */
  lemma {:induction false} NothingCrossed(side: Side, ladder: seq<Level>, limit: int, price: int, shown: int)
    requires LadderOK(side, ladder) && (ladder != [] ==> !Crosses(side, ladder[0].price, limit))
    ensures ForgoneAt(side, ladder, limit, price, shown) == 0
    ensures Stays(side, ladder, limit, price, shown) <==> HasLevel(ladder, price)
  {
    if ladder != [] {
      BestIsAlone(side, ladder);
      NothingCrossed(side, ladder[1..], limit, price, shown - Sum(Open, ladder[0].orders));
      assert ladder[0] in ladder && forall l :: l in ladder <==> l == ladder[0] || l in ladder[1..];
    }
  }

  lemma EndForgoes(s: Match, price: int)
    requires s.Valid() && Live(s) && !s.Enabled()
    ensures MatchAll(s) == s && Foregoes(s, price) == 0 && (Outlasts(s, price) <==> HasLevel(s.ladder, price))
  {
    if s.taker.IsTotallyFilled() {
      NothingShown(s.RestingSide(), s.ladder, s.taker.price, price, s.taker.Remaining());
    } else {
      if s.ladder != [] {
        assert s.ladder[0] in s.ladder;
      }
      NothingCrossed(s.RestingSide(), s.ladder, s.taker.price, price, s.taker.Remaining());
    }
  }

  lemma GapsAdd(g: nat, g1: nat, now: int, rest: int)
    requires g1 == Wrap64(g - now)
    ensures Wrap64(g1 - rest) == Wrap64(g - (now + rest))
  {
    WrapShift(g - now, rest, 0);
  }

  lemma GapFits(l: Level)
    ensures Gap(l) == Wrap64(Gap(l) - 0)
  {
  }

  /** A level after one round is the settled best level or one of the others, as it was. */
  lemma LevelBefore(s: Match, l: Level) returns (before: Level)
    requires s.Valid() && s.Enabled() && l in Step(s).ladder
    ensures before in s.ladder && before.price == l.price
    ensures var b, q := s.ladder[0], s.TradeQuantity();
      if before.price == b.price then before == b && l == Settle(b, b.orders[0].Fill(q), q) else before == l
  {
    var b, q := s.ladder[0], s.TradeQuantity();
    assert b in s.ladder;
    SettleKeeps(s.RestingSide(), b, q);
    if l in s.ladder[1..] {
      before := l;
      var i :| 0 <= i < |s.ladder[1..]| && s.ladder[1..][i] == l;
      assert s.ladder[i + 1] == l && l.price != b.price;
    } else {
      before := b;
    }
  }

  /** The drift over a whole match, in terms of the book before it: each level that is left is off by what the
      peaks the taker finishes there had traded before. */
  lemma {:induction false} MatchGap(s: Match, l': Level) returns (l: Level)
    requires s.Valid() && Live(s) && l' in MatchAll(s).ladder
    ensures l in s.ladder && l.price == l'.price
    ensures Gap(l') == Wrap64(Gap(l) - Foregoes(s, l'.price))
    decreases s.taker.TotalRemaining(), Sum(Exhausted, Flat(s.ladder))
  {
    hide *;
    if s.Enabled() {
      StepOnward(s);
      StepForgoes(s, l'.price);
      var l1 := MatchGap(Step(s), l');
      l := LevelBefore(s, l1);
      if l.price == s.ladder[0].price {
        SettleGap(s.RestingSide(), l, s.TradeQuantity());
        var now := if Replenishes(l, s.TradeQuantity()) then l.orders[0].visibleFilled else 0;
        GapsAdd(Gap(l), Gap(l1), now, Foregoes(Step(s), l'.price));
      } else {
        assert l == l1;
      }
    } else {
      l := l';
      EndForgoes(s, l.price);
      GapFits(l);
    }
  }

  /** Which levels are left after a match, in terms of the book before it. */
  lemma {:induction false} MatchOutlasts(s: Match, price: int)
    requires s.Valid() && Live(s)
    ensures HasLevel(MatchAll(s).ladder, price) <==> Outlasts(s, price)
    decreases s.taker.TotalRemaining(), Sum(Exhausted, Flat(s.ladder))
  {
    hide *;
    if s.Enabled() {
      StepOnward(s);
      StepOutlasts(s, price);
      MatchOutlasts(Step(s), price);
    } else {
      EndForgoes(s, price);
    }
  }

  /** No match moves the counter of a queue: all that its orders show less afterwards is drift. */
  lemma {:induction false} MatchQueueGap(s: Match, l': Level) returns (l: Level)
    requires s.Valid() && Live(s) && l' in MatchAll(s).ladder
    ensures l in s.ladder && l.price == l'.price
    ensures Wrap64(l'.queueQuantity) == Wrap64(l.queueQuantity)
    ensures QueueGap(l') == Wrap64(QueueGap(l) + Sum(Shown, l.orders) - Sum(Shown, l'.orders))
    ensures QueueGap(l') == QueueGap(l) <==> (Sum(Shown, l.orders) - Sum(Shown, l'.orders)) % TWO_64 == 0
    decreases s.taker.TotalRemaining(), Sum(Exhausted, Flat(s.ladder))
  {
    hide *;
    if s.Enabled() {
      StepOnward(s);
      var l1 := MatchQueueGap(Step(s), l');
      l := LevelBefore(s, l1);
      if l.price == s.ladder[0].price {
        SettleCounter(s.RestingSide(), l, s.TradeQuantity());
      }
    } else {
      l := l';
      EndForgoes(s, l.price);
    }
    QueueMoves(l.queueQuantity, l'.queueQuantity, Sum(Shown, l.orders), Sum(Shown, l'.orders));
    QueueGapIs(l);
    QueueGapIs(l');
    WrapSame(QueueGap(l), Sum(Shown, l.orders) - Sum(Shown, l'.orders));
  }

  lemma QueueGapIs(l: Level)
    ensures QueueGap(l) == Wrap64(l.queueQuantity - Sum(Shown, l.orders)) < TWO_64
  {
  }

  lemma QueueMoves(before: nat, after: nat, a: int, b: int)
    requires Wrap64(after) == Wrap64(before)
    ensures Wrap64(after - b) == Wrap64(Wrap64(before - a) + a - b)
  {
    WrapShift(before - a, 0, a - b);
    WrapShift(after, 0, -b);
    WrapShift(before, 0, -b);
  }

  /** Taking an order off the front and putting it back, or dropping one that shows nothing, moves no counter. */
  lemma SettleCounter(side: Side, l: Level, q: nat)
    requires LevelOK(side, l) && q <= l.orders[0].Remaining()
    ensures Wrap64(Settle(l, l.orders[0].Fill(q), q).queueQuantity) == Wrap64(l.queueQuantity)
  {
    var m := l.orders[0].Fill(q);
    assert l.orders[0] in l.orders;
    FillConserves(l.orders[0], q);
    FilledTestsAgree(m);
    WrapShift(l.queueQuantity - m.Replenished().Remaining(), 0, m.Replenished().Remaining());
    WrapShift(l.queueQuantity, 0, 0);
  }

  // ---------- seen beforehand ----------

  /** Whether an order that shows so much finishes the peak of order j, which had traded before and has more hidden. */
  ghost predicate Finishes(orders: seq<OrderState>, shown: int, j: nat) {
    && j < |orders| && orders[j].iceberg && 0 < orders[j].hidden && 0 < orders[j].visibleFilled
    && Sum(Shown, orders[..j]) < shown && Sum(Shown, orders[..j + 1]) <= shown
  }

  lemma {:induction false} ForgoneIff(orders: seq<OrderState>, shown: int)
    requires forall o :: o in orders ==> 0 <= o.Remaining()
    ensures 0 < Forgone(orders, shown) <==> exists j: nat :: Finishes(orders, shown, j)
  {
    if orders != [] {
      var tail, rest := orders[1..], shown - orders[0].Remaining();
      assert orders[0] in orders;
      ForgoneIff(tail, rest);
      FinishesFirst(orders, shown);
      forall j: nat ensures Finishes(orders, shown, j + 1) <==> 0 < shown && 0 <= rest && Finishes(tail, rest, j) {
        FinishesLater(orders, shown, j);
      }
      if j: nat :| Finishes(orders, shown, j) && 0 < j {
        FinishesLater(orders, shown, j - 1);
      }
    }
  }

  lemma FinishesFirst(orders: seq<OrderState>, shown: int)
    requires orders != []
    ensures Finishes(orders, shown, 0) <==>
      && orders[0].iceberg && 0 < orders[0].hidden && 0 < orders[0].visibleFilled
      && 0 < shown && orders[0].Remaining() <= shown
  {
    assert orders[..0] == [] && orders[..1] == [orders[0]];
    ShownBy(orders[0]);
  }

  lemma FinishesLater(orders: seq<OrderState>, shown: int, j: nat)
    requires orders != [] && forall o :: o in orders ==> 0 <= o.Remaining()
    ensures var rest := shown - orders[0].Remaining();
      Finishes(orders, shown, j + 1) <==> 0 < shown && 0 <= rest && Finishes(orders[1..], rest, j)
  {
    var tail := orders[1..];
    if j < |tail| {
      assert orders[..j + 1][1..] == tail[..j] && orders[..j + 2][1..] == tail[..j + 1];
      ShownBefore(tail, j);
      assert orders[0] in orders;
    }
  }

  lemma {:induction false} ShownBefore(orders: seq<OrderState>, j: nat)
    requires j <= |orders| && forall o :: o in orders ==> 0 <= o.Remaining()
    ensures 0 <= Sum(Shown, orders[..j])
  {
    if 0 < j {
      assert orders[0] in orders && orders[..j][1..] == orders[1..][..j - 1];
      ShownBefore(orders[1..], j - 1);
    }
  }

  /** What the levels before level i leave of what the taker shows. */
  ghost function Left(ladder: seq<Level>, i: nat, shown: int): int
    requires i <= |ladder|
  {
    shown - Sum(Open, Flat(ladder[..i]))
  }

  lemma {:induction false} AtLevel(side: Side, ladder: seq<Level>, limit: int, i: nat, shown: int)
    requires LadderOK(side, ladder) && i < |ladder|
    ensures ForgoneAt(side, ladder, limit, ladder[i].price, shown)
         == if Crosses(side, ladder[i].price, limit) then Forgone(ladder[i].orders, Left(ladder, i, shown)) else 0
    ensures Stays(side, ladder, limit, ladder[i].price, shown)
       <==> !Crosses(side, ladder[i].price, limit) || Left(ladder, i + 1, shown) < 0
  {
    var l, tail := ladder[0], ladder[1..];
    if i == 0 {
      assert ladder[..1][1..] == [] && ladder[..1][0].orders + [] == l.orders;
    } else {
      BestIsAlone(side, ladder);
      assert tail[i - 1] in tail && Better(side, l.price, ladder[i].price);
      AtLevel(side, tail, limit, i - 1, shown - Sum(Open, l.orders));
      assert ladder[..i][1..] == tail[..i - 1] && ladder[..i + 1][1..] == tail[..i];
      SumConcat(Open, l.orders, Flat(tail[..i - 1]));
      SumConcat(Open, l.orders, Flat(tail[..i]));
    }
  }

  // ---------- witnesses ----------

  /** An iceberg that shows 6 of a peak of 10 is hit for 6: ten are shown, six are published. */
  lemma DepthDrifts()
    ensures var o := OrderState(1, Sell, 100, 20, 0, true, 10, 10, 10, 4);
      var l := Level(100, [o], 6, 1, 10);
      && LevelOK(Sell, l) && Gap(l) == 0
      && Settle(l, o.Fill(6), 6).quantity == 6 && Sum(Shown, Settle(l, o.Fill(6), 6).orders) == 10
  {
    var o := OrderState(1, Sell, 100, 20, 0, true, 10, 10, 10, 4);
    var l := Level(100, [o], 6, 1, 10);
    assert Sum(Shown, [o]) == 6;
    var m, r := o.Fill(6), OrderState(1, Sell, 100, 20, 10, true, 10, 10, 0, 0);
    assert m.Replenished() == r && Sum(Shown, [r]) == 10;
    assert l.orders[1..] + [r] == [r];
  }

  /** A plain order of 100 is hit for 40: sixty are shown, the queue goes on counting a hundred. */
  lemma QueueDrifts()
    ensures var o := OrderState(1, Sell, 100, 100, 0, false, 0, 0, 0, 0);
      var l := Level(100, [o], 100, 1, 100);
      && LevelOK(Sell, l) && QueueGap(l) == 0
      && Settle(l, o.Fill(40), 40).queueQuantity == 100 && Sum(Shown, Settle(l, o.Fill(40), 40).orders) == 60
  {
    var o := OrderState(1, Sell, 100, 100, 0, false, 0, 0, 0, 0);
    assert Sum(Shown, [o]) == 100;
    var m := o.Fill(40);
    assert [m] + [o][1..] == [m] && Sum(Shown, [m]) == 60;
  }
}
