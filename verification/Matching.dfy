/** One side of the book as a ladder of price levels, best first, and the matching loop on it
    (server/src/core/OrderBook.cpp). The loop bodies of matchBuyOrder and matchSellOrder differ only in
    the direction of price; here the direction is the side of the resting orders. */
module Matching {
  import opened Orders
  import opened OrderQueues

  const TWO_32: nat := 0x1_0000_0000

  /** A price level: its FIFO, the counters of its tree node, and the counter of its queue. */
  datatype Level = Level(price: int, orders: seq<OrderState>, quantity: nat, count: nat, queueQuantity: nat)

  datatype Trade = Trade(id: nat, buyId: nat, sellId: nat, price: int, quantity: nat, buyIceberg: bool, sellIceberg: bool)

  /** p stands before q on the given side. */
  predicate Better(side: Side, p: int, q: int) {
    if side.Buy? then p > q else p < q
  }

  /** A resting price is acceptable for an incoming order with the given limit. */
  predicate Crosses(side: Side, price: int, limit: int) {
    !Better(side, limit, price)
  }

  // ---------- sums over queues ----------

  /** What can be counted over a sequence of orders. */
  datatype Weight =
    | Open                // quantity left, hidden included
    | Shown               // quantity shown
    | Exhausted           // orders that show nothing: icebergs resting with a spent peak
    | FillsOf(id: nat)    // quantity filled for one order
    | FillsOn(side: Side) // quantity filled on one side
    | CopiesOf(id: nat)   // orders with a given id

  function Weigh(w: Weight, o: OrderState): int {
    match w
    case Open => o.TotalRemaining()
    case Shown => o.Remaining()
    case Exhausted => if o.Remaining() == 0 then 1 else 0
    case FillsOf(id) => if o.id == id then o.TotalFilled() else 0
    case FillsOn(side) => if o.side == side then o.TotalFilled() else 0
    case CopiesOf(id) => if o.id == id then 1 else 0
  }

  function Sum(w: Weight, orders: seq<OrderState>): int {
    if orders == [] then 0 else Weigh(w, orders[0]) + Sum(w, orders[1..])
  }

  lemma {:induction false} SumConcat(w: Weight, a: seq<OrderState>, b: seq<OrderState>)
    ensures Sum(w, a + b) == Sum(w, a) + Sum(w, b)
  {
    if a == [] {
      assert a + b == b;
    } else {
      assert (a + b)[1..] == a[1..] + b;
      SumConcat(w, a[1..], b);
    }
  }

  lemma {:induction false} CountNonnegative(w: Weight, orders: seq<OrderState>)
    requires w.Exhausted? || w.CopiesOf? || w.FillsOf? || w.FillsOn?
    ensures 0 <= Sum(w, orders)
  {
    if orders != [] {
      CountNonnegative(w, orders[1..]);
    }
  }

  /** All orders of a ladder, best level first and each level in time order. */
  function Flat(ladder: seq<Level>): seq<OrderState> {
    if ladder == [] then [] else ladder[0].orders + Flat(ladder[1..])
  }

  // ---------- well-formed ladders ----------

  /** A resting order: valid, on its side and at its price, and with something left to trade. */
  ghost predicate Resting(o: OrderState, side: Side, price: int) {
    o.Valid() && o.side == side && o.price == price && 0 < o.TotalRemaining()
  }

  ghost predicate LevelOK(side: Side, l: Level) {
    0 < l.count == |l.orders| < TWO_32 && forall o :: o in l.orders ==> Resting(o, side, l.price)
  }

  ghost predicate LadderOK(side: Side, ladder: seq<Level>) {
    && (forall l :: l in ladder ==> LevelOK(side, l))
    && (forall i, j :: 0 <= i < j < |ladder| ==> Better(side, ladder[i].price, ladder[j].price))
  }

  /** What the crossing part of a ladder can fill, hidden quantity included. */
  function Liquidity(side: Side, ladder: seq<Level>, limit: int): int {
    if ladder == [] || !Crosses(side, ladder[0].price, limit) then 0
    else Sum(Open, ladder[0].orders) + Liquidity(side, ladder[1..], limit)
  }

  lemma {:induction false} TotalPositive(side: Side, price: int, orders: seq<OrderState>)
    requires forall o :: o in orders ==> Resting(o, side, price)
    ensures 0 <= Sum(Open, orders) && (orders != [] ==> 0 < Sum(Open, orders))
    ensures 0 <= Sum(Shown, orders) <= Sum(Open, orders)
  {
    if orders != [] {
      assert orders[0] in orders;
      TotalPositive(side, price, orders[1..]);
    }
  }

  lemma {:induction false} LiquidityPositive(side: Side, ladder: seq<Level>, limit: int)
    requires LadderOK(side, ladder)
    ensures 0 <= Liquidity(side, ladder, limit)
    ensures ladder != [] && Crosses(side, ladder[0].price, limit) ==> 0 < Liquidity(side, ladder, limit)
  {
    if ladder != [] {
      assert ladder[0] in ladder;
      TotalPositive(side, ladder[0].price, ladder[0].orders);
      LiquidityPositive(side, ladder[1..], limit);
    }
  }

  // ---------- one round of matching ----------

  /** An incoming order against the ladder of the other side; done collects the makers retired. */
  datatype Match = Match(ladder: seq<Level>, taker: OrderState, trades: seq<Trade>, done: seq<OrderState>, nextId: nat) {
    function RestingSide(): Side {
      taker.side.Opposite()
    }

    ghost predicate Valid() {
      taker.Valid() && LadderOK(RestingSide(), ladder)
    }

    /** The guards at the head of the loop. */
    predicate Enabled() {
      && !taker.IsTotallyFilled() && ladder != []
      && Crosses(RestingSide(), ladder[0].price, taker.price) && ladder[0].orders != []
    }

    function TradeQuantity(): (q: nat)
      requires Valid() && Enabled()
      ensures q <= taker.Remaining() && q <= ladder[0].orders[0].Remaining()
      ensures q == taker.Remaining() || q == ladder[0].orders[0].Remaining()
    {
      assert ladder[0] in ladder && ladder[0].orders[0] in ladder[0].orders;
      var m := ladder[0].orders[0];
      if taker.Remaining() <= m.Remaining() then taker.Remaining() else m.Remaining()
    }
  }

  function Execute(id: nat, taker: OrderState, maker: OrderState, price: int, q: nat): Trade {
    if taker.side.Buy? then Trade(id, taker.id, maker.id, price, q, taker.iceberg, maker.iceberg)
    else Trade(id, maker.id, taker.id, price, q, maker.iceberg, taker.iceberg)
  }

  /** Node counters after an update; the level disappears when its order count reaches zero. */
  function UpdateLevel(l: Level, quantityDelta: int, countDelta: int): Level {
    l.(quantity := Wrap64(l.quantity + quantityDelta), count := (l.count + countDelta) % TWO_32)
  }

  /** A level whose queue was popped, and one whose queue was pushed. */
  function Popped(l: Level): Level
    requires l.orders != []
  {
    l.(orders := l.orders[1..], queueQuantity := Wrap64(l.queueQuantity - l.orders[0].Remaining()))
  }

  function Pushed(l: Level, o: OrderState): Level {
    l.(orders := l.orders + [o], queueQuantity := Wrap64(l.queueQuantity + o.Remaining()))
  }

  /** The best level with a new state for its first order. */
  function WithFront(l: Level, m: OrderState): Level
    requires l.orders != []
  {
    l.(orders := [m] + l.orders[1..])
  }

  /** The level after its first order was filled by q to the state m. */
  function Settle(l: Level, m: OrderState, q: nat): Level
    requires l.orders != []
  {
    if m.iceberg && m.IsVisiblePeakFilled() && !m.IsTotallyFilled() then
      var r := m.Replenished();
      UpdateLevel(l.(orders := l.orders[1..] + [r],
                     queueQuantity := Wrap64(Wrap64(l.queueQuantity - r.Remaining()) + r.Remaining())),
                  r.Remaining() - m.visible, 0)
    else if m.IsTotallyFilled() then
      UpdateLevel(l.(orders := l.orders[1..], queueQuantity := Wrap64(l.queueQuantity - m.Remaining())), -(q as int), -1)
    else
      UpdateLevel(l.(orders := [m] + l.orders[1..]), -(q as int), 0)
  }

  /** A ladder whose best level became l. */
  function SetBest(ladder: seq<Level>, l: Level): seq<Level>
    requires ladder != []
  {
    if l.count == 0 then ladder[1..] else [l] + ladder[1..]
  }

  /** A ladder whose level k became l. */
  function SetLevel(ladder: seq<Level>, k: nat, l: Level): seq<Level>
    requires k < |ladder|
  {
    if l.count == 0 then ladder[..k] + ladder[k + 1..] else ladder[k := l]
  }

  function Step(s: Match): Match
    requires s.Valid() && s.Enabled()
  {
    var q := s.TradeQuantity();
    var l := s.ladder[0];
    var m := l.orders[0].Fill(q);
    var taker := s.taker.Fill(q);
    Match(SetBest(s.ladder, Settle(l, m, q)), taker,
          s.trades + [Execute(s.nextId + 1, taker, m, l.price, q)],
          if m.IsTotallyFilled() then s.done + [m] else s.done,
          s.nextId + 1)
  }

  /** One round on the best level: its order m is filled by q and stays, goes to the back, or leaves. */
  lemma SettleKeeps(side: Side, l: Level, q: nat)
    requires LevelOK(side, l) && q <= l.orders[0].Remaining()
    ensures var m, l' := l.orders[0].Fill(q), Settle(l, l.orders[0].Fill(q), q);
      && (l'.count == 0 <==> l'.orders == []) && l'.price == l.price
      && (l'.count != 0 ==> LevelOK(side, l'))
      && m.Valid() && m.Replenished().Valid()
  {
    var m := l.orders[0].Fill(q);
    assert l.orders[0] in l.orders;
    FillConserves(l.orders[0], q);
    ReplenishConserves(m);
  }

  lemma SettleSum(side: Side, l: Level, q: nat, w: Weight)
    requires LevelOK(side, l) && q <= l.orders[0].Remaining()
    ensures var m := l.orders[0].Fill(q);
      Sum(w, Settle(l, m, q).orders) ==
        Sum(w, l.orders) - Weigh(w, l.orders[0]) + if m.IsTotallyFilled() then 0 else Weigh(w, m.Replenished())
  {
    var m := l.orders[0].Fill(q);
    SumConcat(w, l.orders[1..], [m.Replenished()]);
    SumConcat(w, [m], l.orders[1..]);
    assert l.orders[0] in l.orders;
    FillConserves(l.orders[0], q);
  }

  // ---------- the whole loop ----------

  /** An order that never runs out of visible quantity while there is something left to match: every plain
      order, and an iceberg whose crossing counterpart does not exceed what it shows. */
  ghost predicate Live(s: Match) {
    !s.taker.iceberg || s.taker.hidden == 0
    || Liquidity(s.RestingSide(), s.ladder, s.taker.price) <= s.taker.Remaining()
  }

  /** Replacing the best level changes the sums by what that level changes. */
  lemma SetBestKeeps(side: Side, ladder: seq<Level>, l: Level, limit: int)
    requires LadderOK(side, ladder) && ladder != [] && l.price == ladder[0].price
    requires (l.count == 0 <==> l.orders == []) && (l.count != 0 ==> LevelOK(side, l))
    ensures LadderOK(side, SetBest(ladder, l))
    ensures Flat(SetBest(ladder, l)) == l.orders + Flat(ladder[1..])
    ensures Crosses(side, l.price, limit) ==>
      Liquidity(side, SetBest(ladder, l), limit) - Liquidity(side, ladder, limit) == Sum(Open, l.orders) - Sum(Open, ladder[0].orders)
  {
    var r := SetBest(ladder, l);
    if l.count != 0 {
      assert r[1..] == ladder[1..];
    }
    forall x | x in r ensures LevelOK(side, x) {
      assert x == l || x in ladder;
    }
  }

  /** One round moves the traded quantity out of the crossing liquidity and into the taker. */
  lemma StepKeeps(s: Match)
    requires s.Valid() && s.Enabled()
    ensures var s', q := Step(s), s.TradeQuantity();
      && s'.Valid() && s'.taker == s.taker.Fill(q)
      && s'.taker.TotalRemaining() == s.taker.TotalRemaining() - q
      && Liquidity(s.RestingSide(), s'.ladder, s.taker.price) == Liquidity(s.RestingSide(), s.ladder, s.taker.price) - q
  {
    var l, q := s.ladder[0], s.TradeQuantity();
    assert l in s.ladder && l.orders[0] in l.orders;
    FillConserves(s.taker, q);
    FillConserves(l.orders[0], q);
    ReplenishConserves(l.orders[0].Fill(q));
    SettleKeeps(s.RestingSide(), l, q);
    SettleSum(s.RestingSide(), l, q, Open);
    SetBestKeeps(s.RestingSide(), s.ladder, Settle(l, l.orders[0].Fill(q), q), s.taker.price);
  }

  /** What one round does to any sum over resting and retired orders: one maker changes its state. */
  lemma StepSum(s: Match, w: Weight)
    requires s.Valid() && s.Enabled()
    ensures var s', m := Step(s), s.ladder[0].orders[0].Fill(s.TradeQuantity());
      && Sum(w, Flat(s'.ladder)) == Sum(w, Flat(s.ladder)) - Weigh(w, s.ladder[0].orders[0])
                                    + (if m.IsTotallyFilled() then 0 else Weigh(w, m.Replenished()))
      && Sum(w, s'.done) == Sum(w, s.done) + if m.IsTotallyFilled() then Weigh(w, m) else 0
  {
    var l, q := s.ladder[0], s.TradeQuantity();
    assert l in s.ladder;
    var m := l.orders[0].Fill(q);
    SettleKeeps(s.RestingSide(), l, q);
    SettleSum(s.RestingSide(), l, q, w);
    SetBestKeeps(s.RestingSide(), s.ladder, Settle(l, m, q), s.taker.price);
    SumConcat(w, Settle(l, m, q).orders, Flat(s.ladder[1..]));
    SumConcat(w, l.orders, Flat(s.ladder[1..]));
    SumConcat(w, s.done, [m]);
  }

  /** A live loop stays live, and each round either fills the taker or revives an exhausted maker. */
  lemma StepLive(s: Match)
    requires s.Valid() && s.Enabled() && Live(s)
    ensures Live(Step(s)) && 0 < s.taker.Remaining()
    ensures 0 < s.TradeQuantity()
      || (Step(s).taker == s.taker && Sum(Exhausted, Flat(Step(s).ladder)) == Sum(Exhausted, Flat(s.ladder)) - 1)
  {
    StepKeeps(s);
    StepSum(s, Exhausted);
    var o := s.ladder[0].orders[0];
    assert s.ladder[0] in s.ladder && o in s.ladder[0].orders;
    ReplenishConserves(o.Fill(0));
    LiquidityPositive(s.RestingSide(), s.ladder, s.taker.price);
  }

  /** matchBuyOrder and matchSellOrder, where they terminate. */
  function MatchAll(s: Match): Match
    requires s.Valid() && Live(s)
    decreases s.taker.TotalRemaining(), Sum(Exhausted, Flat(s.ladder))
  {
    if s.Enabled() then
      StepKeeps(s);
      StepLive(s);
      CountNonnegative(Exhausted, Flat(Step(s).ladder));
      MatchAll(Step(s))
    else s
  }

  // ---------- resting an order, cancelling an order ----------

  function NewLevel(o: OrderState): Level {
    UpdateLevel(Level(o.price, [o], 0, 0, Wrap64(o.Remaining())), o.Remaining(), 1)
  }

  function Join(l: Level, o: OrderState): Level {
    UpdateLevel(l.(orders := l.orders + [o], queueQuantity := Wrap64(l.queueQuantity + o.Remaining())), o.Remaining(), 1)
  }

  /** addOrderToBook: the order joins the level of its price, or a new level takes its place in the ladder. */
  function AddToLadder(side: Side, ladder: seq<Level>, o: OrderState): seq<Level> {
    if ladder == [] || Better(side, o.price, ladder[0].price) then [NewLevel(o)] + ladder
    else if ladder[0].price == o.price then [Join(ladder[0], o)] + ladder[1..]
    else [ladder[0]] + AddToLadder(side, ladder[1..], o)
  }

  function IndexOf(orders: seq<OrderState>, id: nat): (i: nat)
    ensures i <= |orders|
    ensures i < |orders| ==> orders[i].id == id
    ensures forall j :: 0 <= j < i ==> orders[j].id != id
  {
    if orders == [] || orders[0].id == id then 0 else 1 + IndexOf(orders[1..], id)
  }

  function Leave(l: Level, i: nat): Level
    requires i < |l.orders|
  {
    var o := l.orders[i];
    UpdateLevel(l.(orders := l.orders[..i] + l.orders[i + 1..], queueQuantity := Wrap64(l.queueQuantity - o.Remaining())),
                -o.Remaining(), -1)
  }

  /** cancelOrder on the ladder: the order leaves its level, and an empty level leaves the ladder. */
  function RemoveFromLadder(ladder: seq<Level>, price: int, id: nat): seq<Level> {
    if ladder == [] then []
    else if ladder[0].price == price then
      var i := IndexOf(ladder[0].orders, id);
      if i == |ladder[0].orders| then ladder else SetBest(ladder, Leave(ladder[0], i))
    else [ladder[0]] + RemoveFromLadder(ladder[1..], price, id)
  }
}
