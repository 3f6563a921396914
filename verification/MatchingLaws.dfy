/** What the matching loop guarantees, for every incoming order and every well-formed ladder. */
module MatchingLaws {
  import opened Orders
  import opened Matching

  // ---------- termination ----------

  /** The loop after at most n rounds. */
  ghost function Iterate(s: Match, n: nat): (r: Match)
    requires s.Valid()
    ensures r.Valid()
    decreases n
  {
    if n == 0 || !s.Enabled() then s
    else
      StepKeeps(s);
      Iterate(Step(s), n - 1)
  }

  /** The measure of the loop falls, and the rest of it ends where it would have. */
  lemma StepOnward(s: Match)
    requires s.Valid() && Live(s) && s.Enabled()
    ensures Step(s).Valid() && Live(Step(s)) && MatchAll(s) == MatchAll(Step(s))
    ensures s.taker.TotalRemaining() > Step(s).taker.TotalRemaining() >= 0
      || (s.taker.TotalRemaining() == Step(s).taker.TotalRemaining()
          && Sum(Exhausted, Flat(s.ladder)) > Sum(Exhausted, Flat(Step(s).ladder)) >= 0)
    ensures LevelOK(s.RestingSide(), s.ladder[0]) && s.TradeQuantity() <= s.ladder[0].orders[0].Remaining()
  {
    StepKeeps(s);
    StepLive(s);
    CountNonnegative(Exhausted, Flat(Step(s).ladder));
    assert s.ladder[0] in s.ladder;
  }

  lemma {:induction false} LiveStops(s: Match) returns (n: nat)
    requires s.Valid() && Live(s)
    ensures Iterate(s, n) == MatchAll(s) && !MatchAll(s).Enabled()
    decreases s.taker.TotalRemaining(), Sum(Exhausted, Flat(s.ladder))
  {
    n := 0;
    if s.Enabled() {
      StepKeeps(s);
      StepLive(s);
      CountNonnegative(Exhausted, Flat(Step(s).ladder));
      n := LiveStops(Step(s));
      n := n + 1;
    }
  }

  lemma {:induction false} NotLiveRuns(s: Match, n: nat)
    requires s.Valid() && !Live(s)
    ensures Iterate(s, n).Enabled()
    decreases n
  {
    assert s.Enabled() by {
      if s.ladder != [] {
        assert s.ladder[0] in s.ladder;
      }
    }
    if n > 0 {
      StepKeeps(s);
      NotLiveRuns(Step(s), n - 1);
    }
  }

  /** The loop ends exactly for live orders. An iceberg with hidden quantity facing more crossing
      liquidity than it shows spins for ever, because nothing replenishes the incoming order. */
  lemma TerminationCondition(s: Match)
    requires s.Valid()
    ensures (exists n :: !Iterate(s, n).Enabled()) <==> Live(s)
  {
    if Live(s) {
      var n := LiveStops(s);
      assert !Iterate(s, n).Enabled();
    } else {
      forall n: nat ensures Iterate(s, n).Enabled() {
        NotLiveRuns(s, n);
      }
    }
  }

  /** An iceberg for 20 that shows 10 meets a plain order for 15: ten are traded, and the loop goes on for ever. */
  lemma SpinsForEver()
    ensures var taker, maker := OrderState(1, Buy, 100, 20, 0, true, 10, 10, 10, 0), OrderState(2, Sell, 100, 15, 0, false, 0, 0, 0, 0);
      var s := Match([Level(100, [maker], 15, 1, 15)], taker, [], [], 0);
      s.Valid() && !Live(s) && forall n: nat :: Iterate(s, n).Enabled()
  {
    var taker, maker := OrderState(1, Buy, 100, 20, 0, true, 10, 10, 10, 0), OrderState(2, Sell, 100, 15, 0, false, 0, 0, 0, 0);
    var s := Match([Level(100, [maker], 15, 1, 15)], taker, [], [], 0);
    assert Sum(Open, [maker]) == 15 && s.ladder[1..] == [];
    assert Liquidity(s.RestingSide(), s.ladder, s.taker.price) == 15 + Liquidity(s.RestingSide(), s.ladder[1..], s.taker.price);
    assert maker.Valid() && taker.Valid() && LevelOK(Sell, s.ladder[0]);
    forall n: nat ensures Iterate(s, n).Enabled() {
      NotLiveRuns(s, n);
    }
  }

  // ---------- how much is filled, and what is left ----------

  /** The taker is filled by the smaller of what it shows and what crosses, hidden quantity of the makers
      included, however many peaks that takes. */
  lemma {:induction false} FillCompleteness(s: Match)
    requires s.Valid() && Live(s)
    ensures var r, liquidity := MatchAll(s), Liquidity(s.RestingSide(), s.ladder, s.taker.price);
      && r.Valid() && r.taker.price == s.taker.price && r.taker.side == s.taker.side && r.taker.id == s.taker.id
      && r.taker.TotalFilled() - s.taker.TotalFilled()
           == (if s.taker.Remaining() <= liquidity then s.taker.Remaining() else liquidity)
      && Liquidity(s.RestingSide(), r.ladder, s.taker.price)
           == liquidity - (r.taker.TotalFilled() - s.taker.TotalFilled())
    decreases s.taker.TotalRemaining(), Sum(Exhausted, Flat(s.ladder))
  {
    LiquidityPositive(s.RestingSide(), s.ladder, s.taker.price);
    if s.Enabled() {
      StepKeeps(s);
      StepLive(s);
      CountNonnegative(Exhausted, Flat(Step(s).ladder));
      FillConserves(s.taker, s.TradeQuantity());
      FillCompleteness(Step(s));
    } else if s.ladder != [] {
      assert s.ladder[0] in s.ladder;
    }
  }

  /** An order with quantity left after matching meets no crossing price any more. */
  lemma NothingCrossesAfter(s: Match)
    requires s.Valid() && Live(s)
    ensures var r := MatchAll(s);
      !r.taker.IsTotallyFilled() ==> r.ladder == [] || !Crosses(s.RestingSide(), r.ladder[0].price, s.taker.price)
  {
    FillCompleteness(s);
    var n := LiveStops(s);
    var r := MatchAll(s);
    if r.ladder != [] {
      assert r.ladder[0] in r.ladder;
    }
  }

  /** Orders retired by matching are valid and have nothing left. */
  lemma {:induction false} MatchRetires(s: Match)
    requires s.Valid() && Live(s) && forall o :: o in s.done ==> o.Valid() && o.IsTotallyFilled()
    ensures forall o :: o in MatchAll(s).done ==> o.Valid() && o.IsTotallyFilled()
    decreases s.taker.TotalRemaining(), Sum(Exhausted, Flat(s.ladder))
  {
    if s.Enabled() {
      StepKeeps(s);
      StepLive(s);
      CountNonnegative(Exhausted, Flat(Step(s).ladder));
      assert s.ladder[0] in s.ladder && s.ladder[0].orders[0] in s.ladder[0].orders;
      FillConserves(s.ladder[0].orders[0], s.TradeQuantity());
      MatchRetires(Step(s));
    }
  }

  /** A round makes no order show nothing that goes on resting; if none did before, it trades something. */
  lemma StepExhausts(s: Match)
    requires s.Valid() && s.Enabled() && Live(s)
    ensures 0 <= Sum(Exhausted, Flat(Step(s).ladder)) <= Sum(Exhausted, Flat(s.ladder))
    ensures Sum(Exhausted, Flat(s.ladder)) == 0 ==> 0 < s.TradeQuantity()
  {
    StepKeeps(s);
    StepLive(s);
    StepSum(s, Exhausted);
    CountNonnegative(Exhausted, Flat(Step(s).ladder));
    var m := s.ladder[0].orders[0].Fill(s.TradeQuantity());
    assert s.ladder[0] in s.ladder && s.ladder[0].orders[0] in s.ladder[0].orders;
    FillConserves(s.ladder[0].orders[0], s.TradeQuantity());
    ReplenishConserves(m);
    FilledTestsAgree(m);
  }

  /** Matching leaves no more orders behind that show nothing than it met. */
  lemma {:induction false} MatchExhausts(s: Match)
    requires s.Valid() && Live(s)
    ensures Sum(Exhausted, Flat(MatchAll(s).ladder)) <= Sum(Exhausted, Flat(s.ladder))
    decreases s.taker.TotalRemaining(), Sum(Exhausted, Flat(s.ladder))
  {
    if s.Enabled() {
      StepOnward(s);
      StepExhausts(s);
      MatchExhausts(Step(s));
    }
  }

  // ---------- the trades ----------

  ghost function Traded(trades: seq<Trade>): int {
    if trades == [] then 0 else trades[0].quantity + Traded(trades[1..])
  }

  /** Quantity one trade moves for an order. */
  ghost function Moves(t: Trade, id: nat): int {
    (if t.buyId == id then t.quantity else 0) + (if t.sellId == id then t.quantity else 0)
  }

  /** Quantity of the trades that name an order. */
  ghost function TradedFor(trades: seq<Trade>, id: nat): int {
    if trades == [] then 0 else Moves(trades[0], id) + TradedFor(trades[1..], id)
  }

  lemma {:induction false} TradedConcat(a: seq<Trade>, b: seq<Trade>, id: nat)
    ensures Traded(a + b) == Traded(a) + Traded(b)
    ensures TradedFor(a + b, id) == TradedFor(a, id) + TradedFor(b, id)
  {
    if a == [] {
      assert a + b == b;
    } else {
      assert (a + b)[1..] == a[1..] + b;
      TradedConcat(a[1..], b, id);
    }
  }

  lemma TradedAppend(trades: seq<Trade>, t: Trade, id: nat)
    ensures Traded(trades + [t]) == Traded(trades) + t.quantity
    ensures TradedFor(trades + [t], id) == TradedFor(trades, id) + Moves(t, id)
  {
    TradedConcat(trades, [t], id);
    assert Traded([t]) == t.quantity && TradedFor([t], id) == Moves(t, id);
  }

  /** All orders a matching run knows: resting, retired and the taker. */
  ghost function Everyone(s: Match, w: Weight): int {
    Sum(w, Flat(s.ladder)) + Sum(w, s.done) + Weigh(w, s.taker)
  }

  /** The weights that neither a fill of zero nor a new peak changes. */
  lemma StepMoves(s: Match, w: Weight)
    requires s.Valid() && s.Enabled() && (w.FillsOf? || w.FillsOn? || w.CopiesOf?)
    ensures var q, o := s.TradeQuantity(), s.ladder[0].orders[0];
      Everyone(Step(s), w) - Everyone(s, w)
        == Weigh(w, o.Fill(q)) - Weigh(w, o) + Weigh(w, s.taker.Fill(q)) - Weigh(w, s.taker)
  {
    StepSum(s, w);
    StepKeeps(s);
  }

  /** What a fill adds to the weights of an order. */
  lemma FillWeighs(o: OrderState, q: nat, id: nat, side: Side)
    ensures Weigh(FillsOf(id), o.Fill(q)) - Weigh(FillsOf(id), o) == if o.id == id then q else 0
    ensures Weigh(FillsOn(side), o.Fill(q)) - Weigh(FillsOn(side), o) == if o.side == side then q else 0
    ensures Weigh(CopiesOf(id), o.Fill(q)) == Weigh(CopiesOf(id), o)
  {
  }

  /** The two orders a round fills, one on either side, and the trade that says so. */
  lemma StepFills(s: Match, id: nat) returns (t: Trade)
    requires s.Valid() && s.Enabled()
    ensures s.ladder[0].orders[0].side != s.taker.side
    ensures Step(s).trades == s.trades + [t] && t.quantity == s.TradeQuantity()
    ensures Moves(t, id) == (if s.ladder[0].orders[0].id == id then t.quantity else 0) + if s.taker.id == id then t.quantity else 0
  {
    var l, q := s.ladder[0], s.TradeQuantity();
    assert l in s.ladder && l.orders[0] in l.orders;
    t := Execute(s.nextId + 1, s.taker.Fill(q), l.orders[0].Fill(q), l.price, q);
  }

  /** Every round adds to the fills of each order, and to the fills of each side, what its trade says, and
      neither loses nor duplicates an order. */
  lemma StepConserves(s: Match, id: nat, side: Side)
    requires s.Valid() && s.Enabled()
    ensures var s' := Step(s);
      && Everyone(s', FillsOf(id)) - Everyone(s, FillsOf(id)) == TradedFor(s'.trades, id) - TradedFor(s.trades, id)
      && Everyone(s', FillsOn(side)) - Everyone(s, FillsOn(side)) == Traded(s'.trades) - Traded(s.trades)
      && Everyone(s', CopiesOf(id)) == Everyone(s, CopiesOf(id))
  {
    var q, o := s.TradeQuantity(), s.ladder[0].orders[0];
    hide Step, Match.Valid, Match.Enabled, Everyone, Weigh, Moves, OrderState.Fill;
    var t := StepFills(s, id);
    StepMoves(s, FillsOf(id));
    StepMoves(s, FillsOn(side));
    StepMoves(s, CopiesOf(id));
    FillWeighs(o, q, id, side);
    FillWeighs(s.taker, q, id, side);
    TradedAppend(s.trades, t, id);
  }

  /** Conservation over the whole loop, for every order id and both sides. */
  lemma {:induction false} MatchConserves(s: Match, id: nat, side: Side)
    requires s.Valid() && Live(s)
    ensures var r := MatchAll(s);
      && Everyone(r, FillsOf(id)) - Everyone(s, FillsOf(id)) == TradedFor(r.trades, id) - TradedFor(s.trades, id)
      && Everyone(r, FillsOn(side)) - Everyone(s, FillsOn(side)) == Traded(r.trades) - Traded(s.trades)
      && Everyone(r, CopiesOf(id)) == Everyone(s, CopiesOf(id))
    decreases s.taker.TotalRemaining(), Sum(Exhausted, Flat(s.ladder))
  {
    if s.Enabled() {
      StepKeeps(s);
      StepLive(s);
      CountNonnegative(Exhausted, Flat(Step(s).ladder));
      StepConserves(s, id, side);
      MatchConserves(Step(s), id, side);
    }
  }

  /** Trades carry consecutive ids, name the taker, stay within its limit and never improve for it. */
  ghost predicate TradesInOrder(trades: seq<Trade>, taker: OrderState, firstId: nat) {
    && (forall i :: 0 <= i < |trades| ==>
          && trades[i].id == firstId + 1 + i
          && (if taker.side.Buy? then trades[i].buyId else trades[i].sellId) == taker.id
          && Crosses(taker.side.Opposite(), trades[i].price, taker.price))
    && (forall i, j :: 0 <= i < j < |trades| ==>
          !Better(taker.side.Opposite(), trades[j].price, trades[i].price))
  }

  lemma PrependTrade(t: Trade, rest: seq<Trade>, taker: OrderState, q: nat, firstId: nat)
    requires TradesInOrder([t], taker, firstId) && TradesInOrder(rest, taker.Fill(q), firstId + 1)
    requires forall u :: u in rest ==> !Better(taker.side.Opposite(), u.price, t.price)
    ensures TradesInOrder([t] + rest, taker, firstId)
  {
    var all := [t] + rest;
    assert forall i :: 0 < i < |all| ==> all[i] == rest[i - 1] && rest[i - 1] in rest;
    assert [t][0] == t;
  }

  /** The trade of one round. */
  lemma StepTrade(s: Match) returns (t: Trade)
    requires s.Valid() && s.Enabled()
    ensures Step(s).trades == s.trades + [t] && Step(s).nextId == s.nextId + 1
    ensures Step(s).taker == s.taker.Fill(s.TradeQuantity()) && Step(s).RestingSide() == s.RestingSide()
    ensures TradesInOrder([t], s.taker, s.nextId) && t.price == s.ladder[0].price && t.quantity == s.TradeQuantity()
  {
    var l, q := s.ladder[0], s.TradeQuantity();
    t := Execute(s.nextId + 1, s.taker.Fill(q), l.orders[0].Fill(q), l.price, q);
  }

  /** The best price never improves from one round to the next. */
  lemma BestNotBetter(s: Match)
    requires s.Valid() && s.Enabled()
    ensures Step(s).ladder != [] ==> !Better(s.RestingSide(), Step(s).ladder[0].price, s.ladder[0].price)
  {
    assert s.ladder[0] in s.ladder;
    SettleKeeps(s.RestingSide(), s.ladder[0], s.TradeQuantity());
  }

  /** The new trades of one run of the loop, in order; none is better for the taker than the best level. */
  lemma {:induction false} MatchTrades(s: Match) returns (news: seq<Trade>)
    requires s.Valid() && Live(s)
    ensures var r := MatchAll(s); r.trades == s.trades + news && r.nextId == s.nextId + |news|
    ensures TradesInOrder(news, s.taker, s.nextId)
    ensures forall t :: t in news ==> s.ladder != [] && !Better(s.RestingSide(), t.price, s.ladder[0].price)
    decreases s.taker.TotalRemaining(), Sum(Exhausted, Flat(s.ladder))
  {
    hide *;
    news := [];
    if s.Enabled() {
      StepOnward(s);
      var t := StepTrade(s);
      var rest := MatchTrades(Step(s));
      news := [t] + rest;
      NoneBetter(s, t, rest);
      PrependTrade(t, rest, s.taker, s.TradeQuantity(), s.nextId);
      assert s.trades + [t] + rest == s.trades + news;
    } else {
      NoTrades(s);
    }
  }

  lemma NoTrades(s: Match)
    requires s.Valid() && Live(s) && !s.Enabled()
    ensures MatchAll(s) == s && TradesInOrder([], s.taker, s.nextId)
  {
  }

  /** Trades that come no better than the next best level come no better than this one. */
  lemma NoneBetter(s: Match, t: Trade, rest: seq<Trade>)
    requires s.Valid() && s.Enabled() && Step(s).RestingSide() == s.RestingSide() && t.price == s.ladder[0].price
    requires forall u :: u in rest ==> Step(s).ladder != [] && !Better(s.RestingSide(), u.price, Step(s).ladder[0].price)
    ensures s.ladder != [] && s.RestingSide() == s.taker.side.Opposite()
    ensures forall u :: u in rest ==> !Better(s.taker.side.Opposite(), u.price, t.price)
    ensures forall u :: u in [t] + rest ==> !Better(s.RestingSide(), u.price, s.ladder[0].price)
  {
    BestNotBetter(s);
    assert forall u :: u in [t] + rest ==> u == t || u in rest;
  }

  /** Every one of the trades is for a positive quantity. */
  ghost predicate AllTrade(trades: seq<Trade>) {
    forall t :: t in trades ==> 0 < t.quantity
  }

  /** Where every resting order shows something, every trade of a match is for a positive quantity. */
  lemma {:induction false} MatchTradesSomething(s: Match)
    requires s.Valid() && Live(s) && Sum(Exhausted, Flat(s.ladder)) == 0 && AllTrade(s.trades)
    ensures AllTrade(MatchAll(s).trades)
    decreases s.taker.TotalRemaining(), Sum(Exhausted, Flat(s.ladder))
  {
    if s.Enabled() {
      var t := StepTrade(s);
      StepOnward(s);
      StepExhausts(s);
      hide Step, Match.Valid, Match.Enabled, Live, Sum, Flat;
      MatchTradesSomething(Step(s));
    }
  }

  /** r is what remains of a ladder when the levels before k are used up and level k is at most thinned out. */
  ghost predicate UsedUpTo(ladder: seq<Level>, r: seq<Level>, k: nat) {
    k <= |ladder| &&
    (r == ladder[k..]
     || (r != [] && k < |ladder| && r[0].price == ladder[k].price && r[1..] == ladder[k + 1..]))
  }

  lemma UsedUpToChains(ladder: seq<Level>, s: seq<Level>, r: seq<Level>, i: nat, k: nat)
    requires UsedUpTo(ladder, s, i) && UsedUpTo(s, r, k)
    ensures UsedUpTo(ladder, r, i + k)
  {
    if s == ladder[i..] {
      assert s[k..] == ladder[i + k..];
      assert k < |s| ==> s[k + 1..] == ladder[i + k + 1..];
    } else if k > 0 {
      assert s[1..][k - 1..] == s[k..] && ladder[i + 1..][k - 1..] == ladder[i + k..];
      assert k < |s| ==> s[k] == s[1..][k - 1] && s[1..][k..] == s[k + 1..] && ladder[i + 1..][k..] == ladder[i + k + 1..];
    }
  }

  /** Matching uses the ladder from the best level on: the levels behind some level k are untouched. */
  lemma {:induction false} MatchUsesBestFirst(s: Match) returns (k: nat)
    requires s.Valid() && Live(s)
    ensures UsedUpTo(s.ladder, MatchAll(s).ladder, k)
    decreases s.taker.TotalRemaining(), Sum(Exhausted, Flat(s.ladder))
  {
    k := 0;
    if s.Enabled() {
      var l, q := s.ladder[0], s.TradeQuantity();
      assert l in s.ladder;
      StepKeeps(s);
      StepLive(s);
      CountNonnegative(Exhausted, Flat(Step(s).ladder));
      SettleKeeps(s.RestingSide(), l, q);
      var i := if Settle(l, l.orders[0].Fill(q), q).count == 0 then 1 else 0;
      assert UsedUpTo(s.ladder, Step(s).ladder, i);
      k := MatchUsesBestFirst(Step(s));
      UsedUpToChains(s.ladder, Step(s).ladder, MatchAll(s).ladder, i, k);
      k := i + k;
    }
  }
}
