/** When the counters of the queues, which best-bid and best-ask quantities are read from, tell what is on offer. */
module TruthfulQueues {
  import opened Orders
  import opened OrderQueues
  import opened Matching
  import opened MatchingLaws
  import opened DepthCounters
  import opened Books
  import opened PlainBooks
  import opened TruthfulDepth

  // ---------- what a match takes from a level ----------

  /** What an order that shows so much has left to take when it comes to a price. */
  ghost function TakenAt(side: Side, ladder: seq<Level>, limit: int, price: int, shown: int): nat {
    if ladder == [] || !Crosses(side, ladder[0].price, limit) then 0
    else if ladder[0].price == price then if shown <= 0 then 0 else shown
    else TakenAt(side, ladder[1..], limit, price, shown - Sum(Open, ladder[0].orders))
  }

  ghost function Takes(s: Match, price: int): nat {
    TakenAt(s.RestingSide(), s.ladder, s.taker.price, price, s.taker.Remaining())
  }

  /** What the icebergs of a queue hide. */
  ghost function Concealed(orders: seq<OrderState>): nat {
    if orders == [] then 0 else (if orders[0].iceberg then orders[0].hidden else 0) + Concealed(orders[1..])
  }

  lemma {:induction false} ConcealedBehind(orders: seq<OrderState>, r: OrderState)
    ensures Concealed(orders + [r]) == Concealed(orders) + if r.iceberg then r.hidden else 0
  {
    if orders == [] {
      assert [] + [r] == [r];
    } else {
      assert (orders + [r])[1..] == orders[1..] + [r];
      ConcealedBehind(orders[1..], r);
    }
  }

  /** What a queue shows anew while one who shows so much is served: whoever is finished leaves, or shows a new peak
      from the back. */
  ghost function Revealed(orders: seq<OrderState>, shown: int): nat
    decreases Concealed(orders), |orders|
  {
    if orders == [] || !orders[0].Valid() || shown <= 0 || shown < orders[0].Remaining() then 0
    else
      var o, rest := orders[0], shown - orders[0].Remaining();
      if !Hides(o) then Revealed(orders[1..], rest)
      else
        var r := o.Fill(o.Remaining()).Replenished();
        ConcealedBehind(orders[1..], r);
        r.Remaining() + Revealed(orders[1..] + [r], rest)
  }

  ghost function RevealedAt(side: Side, ladder: seq<Level>, limit: int, price: int, shown: int): nat {
    if ladder == [] || !Crosses(side, ladder[0].price, limit) then 0
    else if ladder[0].price == price then Revealed(ladder[0].orders, shown)
    else RevealedAt(side, ladder[1..], limit, price, shown - Sum(Open, ladder[0].orders))
  }

  ghost function Reveals(s: Match, price: int): nat {
    RevealedAt(s.RestingSide(), s.ladder, s.taker.price, price, s.taker.Remaining())
  }

  /** The quantity a level hides. */
  ghost function Hidden(l: Level): int {
    Sum(Open, l.orders) - Sum(Shown, l.orders)
  }

  lemma {:induction false} NoneTaken(side: Side, ladder: seq<Level>, limit: int, price: int, shown: int)
    requires LadderOK(side, ladder) && (shown <= 0 || ladder == [] || !Crosses(side, ladder[0].price, limit))
    ensures TakenAt(side, ladder, limit, price, shown) == 0 && RevealedAt(side, ladder, limit, price, shown) == 0
  {
    if ladder != [] {
      BestIsAlone(side, ladder);
      TotalPositive(side, ladder[0].price, ladder[0].orders);
      NoneTaken(side, ladder[1..], limit, price, shown - Sum(Open, ladder[0].orders));
    }
  }

  /** A round at a price that keeps its level takes its trade there; a round elsewhere changes nothing. */
  lemma StepTakes(s: Match, price: int)
    requires s.Valid() && Live(s) && s.Enabled()
    ensures s.ladder[0].price == price && HasLevel(Step(s).ladder, price) ==> Takes(s, price) == Takes(Step(s), price) + s.TradeQuantity()
    ensures s.ladder[0].price == price ==> 0 < Takes(s, price)
    ensures s.ladder[0].price != price ==> Takes(s, price) == Takes(Step(s), price)
  {
    StepShape(s);
    var l, q := s.ladder[0], s.TradeQuantity();
    hide Step, Settle, Match.Valid, Live, LevelOK, Weigh;
    var l', tail := Settle(l, l.orders[0].Fill(q), q), s.ladder[1..];
    assert l'.orders != [] ==> ([l'] + tail)[1..] == tail;
  }

  /** What one round shows anew on the best level. */
  ghost function Renewed(s: Match): nat
    requires s.Valid() && s.Enabled() && Live(s)
  {
    StepShape(s);
    var l, q := s.ladder[0], s.TradeQuantity();
    if Replenishes(l, q) then
      FrontRenews(s.RestingSide(), l, q);
      l.orders[0].Fill(q).Replenished().Remaining()
    else 0
  }

  lemma FrontRenews(side: Side, l: Level, q: nat)
    requires LevelOK(side, l) && q <= l.orders[0].Remaining()
    ensures 0 <= l.orders[0].Fill(q).Replenished().Remaining()
  {
    assert l.orders[0] in l.orders;
  }

  lemma SettleReveals(side: Side, l: Level, q: nat, shown: int)
    requires LevelOK(side, l) && 0 < shown
    requires q == if shown <= l.orders[0].Remaining() then shown else l.orders[0].Remaining()
    ensures Revealed(l.orders, shown) == Revealed(Settle(l, l.orders[0].Fill(q), q).orders, shown - q)
      + if Replenishes(l, q) then l.orders[0].Fill(q).Replenished().Remaining() else 0
  {
    assert l.orders[0] in l.orders;
    FillConserves(l.orders[0], q);
  }

  lemma StepReveals(s: Match, price: int)
    requires s.Valid() && Live(s) && s.Enabled()
    ensures s.ladder[0].price == price && HasLevel(Step(s).ladder, price) ==> Reveals(s, price) == Reveals(Step(s), price) + Renewed(s)
    ensures s.ladder[0].price != price ==> Reveals(s, price) == Reveals(Step(s), price)
  {
    StepShape(s);
    var l, q := s.ladder[0], s.TradeQuantity();
    SettleReveals(s.RestingSide(), l, q, s.taker.Remaining());
    hide Step, Settle, Match.Valid, Live, LevelOK, Weigh, Revealed;
    var l', tail := Settle(l, l.orders[0].Fill(q), q), s.ladder[1..];
    assert l'.orders != [] ==> ([l'] + tail)[1..] == tail;
  }

  lemma EndTakes(s: Match, price: int)
    requires s.Valid() && Live(s) && !s.Enabled()
    ensures MatchAll(s) == s && Takes(s, price) == 0 && Reveals(s, price) == 0
  {
    if !s.taker.IsTotallyFilled() && s.ladder != [] {
      assert s.ladder[0] in s.ladder;
    }
    NoneTaken(s.RestingSide(), s.ladder, s.taker.price, price, s.taker.Remaining());
  }

  /** One round takes its trade from what is open on the best level, and from what is hidden what it shows anew. */
  lemma SettleTakes(s: Match)
    requires s.Valid() && Live(s) && s.Enabled()
    ensures s.ladder != [] && s.ladder[0].orders != []
    ensures var l, q := s.ladder[0], s.TradeQuantity();
      var l' := Settle(l, l.orders[0].Fill(q), q);
      Sum(Open, l'.orders) == Sum(Open, l.orders) - q && Hidden(l') == Hidden(l) - Renewed(s)
  {
    StepShape(s);
    SettleShown(s.RestingSide(), s.ladder[0], s.TradeQuantity());
  }

  lemma AsItWas(l: Level)
    ensures Sum(Open, l.orders) == Sum(Open, l.orders) - 0 && Hidden(l) == Hidden(l) - 0
  {
  }

  /** Told from the book before it: of each level that is left, a match takes exactly what the taker has left to take
      there, and shows anew what its queue shows anew in serving that much; a level it takes nothing from stays as it
      is. */
  lemma {:induction false} MatchTakes(s: Match, l': Level) returns (l: Level)
    requires s.Valid() && Live(s) && l' in MatchAll(s).ladder
    ensures l in s.ladder && l.price == l'.price
    ensures Sum(Open, l'.orders) == Sum(Open, l.orders) - Takes(s, l'.price)
    ensures Hidden(l') == Hidden(l) - Reveals(s, l'.price)
    ensures Takes(s, l'.price) == 0 ==> l' == l
    decreases s.taker.TotalRemaining(), Sum(Exhausted, Flat(s.ladder))
  {
    hide *;
    if s.Enabled() {
      StepOnward(s);
      StepTakes(s, l'.price);
      StepReveals(s, l'.price);
      var l1 := MatchTakes(Step(s), l');
      LevelThere(Step(s).ladder, l1);
      l := LevelBefore(s, l1);
      if l.price == s.ladder[0].price {
        SettleTakes(s);
      } else {
        assert l == l1;
      }
    } else {
      l := l';
      EndTakes(s, l.price);
      AsItWas(l);
    }
  }

  // ---------- the drift of a queue counter ----------

  lemma SameLevel(side: Side, ladder: seq<Level>, a: Level, b: Level)
    requires LadderOK(side, ladder) && a in ladder && b in ladder && a.price == b.price
    ensures a == b
  {
    var i :| 0 <= i < |ladder| && ladder[i] == a;
    var j :| 0 <= j < |ladder| && ladder[j] == b;
    assert i < j || j < i || i == j;
  }

  lemma RestingLadder(s: Match)
    requires s.Valid()
    ensures LadderOK(s.RestingSide(), s.ladder)
  {
  }

  /** The counter of a queue that is left by a match drifts by what was taken there less what was shown anew, both
      told from the book before it; it drifts not if and only if the two are equal, on 64 bits. */
  lemma QueueDrift(s: Match, l': Level) returns (l: Level)
    requires s.Valid() && Live(s) && l' in MatchAll(s).ladder
    ensures l in s.ladder && l.price == l'.price
    ensures QueueGap(l') == Wrap64(QueueGap(l) + Takes(s, l'.price) - Reveals(s, l'.price))
    ensures QueueGap(l') == QueueGap(l) <==> (Takes(s, l'.price) - Reveals(s, l'.price)) % TWO_64 == 0
    ensures Takes(s, l'.price) == 0 ==> l' == l
  {
    hide MatchAll, Match.Valid, Live, QueueGap, Takes, Reveals, Wrap64, Sum;
    l := MatchTakes(s, l');
    var m := MatchQueueGap(s, l');
    RestingLadder(s);
    SameLevel(s.RestingSide(), s.ladder, l, m);
    var taken: int, anew: int := Takes(s, l'.price), Reveals(s, l'.price);
    assert Sum(Shown, l.orders) - Sum(Shown, l'.orders) == taken - anew;
    assert QueueGap(l) + Sum(Shown, l.orders) - Sum(Shown, l'.orders) == QueueGap(l) + taken - anew;
  }

  /** A queue that hides nothing shows nothing anew. */
  lemma {:induction false} NothingRevealed(orders: seq<OrderState>, shown: int)
    requires NoneHides(orders)
    ensures Revealed(orders, shown) == 0
    decreases |orders|
  {
    if orders != [] {
      assert orders[0] in orders;
      NothingRevealed(orders[1..], shown - orders[0].Remaining());
    }
  }

  lemma {:induction false} NothingRevealedAt(side: Side, ladder: seq<Level>, limit: int, price: int, shown: int)
    requires forall l :: l in ladder && l.price == price ==> NoneHides(l.orders)
    ensures RevealedAt(side, ladder, limit, price, shown) == 0
  {
    if ladder != [] {
      assert ladder[0] in ladder && forall l :: l in ladder[1..] ==> l in ladder;
      if ladder[0].price == price {
        NothingRevealed(ladder[0].orders, shown);
      }
      NothingRevealedAt(side, ladder[1..], limit, price, shown - Sum(Open, ladder[0].orders));
    }
  }

  /** Where nothing is hidden, the counter drifts by exactly what was taken. */
  lemma QueueTruth(s: Match, l': Level) returns (l: Level)
    requires s.Valid() && Live(s) && l' in MatchAll(s).ladder
    requires forall m :: m in s.ladder && m.price == l'.price ==> NoneHides(m.orders)
    ensures l in s.ladder && l.price == l'.price
    ensures QueueGap(l') == Wrap64(QueueGap(l) + Takes(s, l'.price))
    ensures QueueGap(l') == QueueGap(l) <==> Takes(s, l'.price) % TWO_64 == 0
  {
    l := QueueDrift(s, l');
    NothingRevealedAt(s.RestingSide(), s.ladder, s.taker.price, l'.price, s.taker.Remaining());
    hide MatchAll, Match.Valid, Live, QueueGap, Takes, Wrap64, RevealedAt;
  }

  // ---------- one submission, seen beforehand ----------

  ghost predicate QueuesTruthful(ladder: seq<Level>) {
    forall l :: l in ladder ==> QueueGap(l) == 0
  }

  ghost predicate QueueBook(b: Book) {
    QueuesTruthful(b.bids) && QueuesTruthful(b.asks)
  }

  /** Adding o trades on level i of the other side and does not use it up. */
  ghost predicate Touches(b: Book, o: OrderState, i: nat) {
    var side, ladder := o.side.Opposite(), b.Ladder(o.side.Opposite());
    && i < |ladder| && Crosses(side, ladder[i].price, o.price)
    && 0 < Left(ladder, i, o.Remaining()) && Left(ladder, i + 1, o.Remaining()) < 0
  }

  ghost predicate TouchesAny(b: Book, o: OrderState) {
    exists i: nat :: Touches(b, o, i)
  }

  /** And the queue does not show anew what is taken there. */
  ghost predicate Dents(b: Book, o: OrderState, i: nat) {
    Touches(b, o, i) &&
      var ladder := b.Ladder(o.side.Opposite());
      var left := Left(ladder, i, o.Remaining());
      (left - Revealed(ladder[i].orders, left)) % TWO_64 != 0
  }

  ghost predicate DentsAny(b: Book, o: OrderState) {
    exists i: nat :: Dents(b, o, i)
  }

  lemma {:induction false} TakenAtLevel(side: Side, ladder: seq<Level>, limit: int, i: nat, shown: int)
    requires LadderOK(side, ladder) && i < |ladder|
    ensures var left, price := Left(ladder, i, shown), ladder[i].price;
      var takes := Crosses(side, price, limit) && 0 < left;
      && TakenAt(side, ladder, limit, price, shown) == (if takes then left else 0)
      && RevealedAt(side, ladder, limit, price, shown) == (if takes then Revealed(ladder[i].orders, left) else 0)
  {
    var l, tail := ladder[0], ladder[1..];
    if i > 0 {
      BestIsAlone(side, ladder);
      assert tail[i - 1] in tail && Better(side, l.price, ladder[i].price);
      TakenAtLevel(side, tail, limit, i - 1, shown - Sum(Open, l.orders));
      assert ladder[..i][1..] == tail[..i - 1];
      SumConcat(Open, l.orders, Flat(tail[..i - 1]));
    }
  }

  lemma IncomingTakes(b: Book, o: OrderState, price: int)
    ensures var side, ladder := o.side.Opposite(), b.Ladder(o.side.Opposite());
      && Takes(Incoming(b, o), price) == TakenAt(side, ladder, o.price, price, o.Remaining())
      && Reveals(Incoming(b, o), price) == RevealedAt(side, ladder, o.price, price, o.Remaining())
  {
    IncomingLadder(b, o);
  }

  /** Denting level i, in the terms of the match. */
  lemma DentsIs(b: Book, o: OrderState, i: nat)
    requires b.Valid() && i < |b.Ladder(o.side.Opposite())|
    ensures var s, price := Incoming(b, o), b.Ladder(o.side.Opposite())[i].price;
      Dents(b, o, i) <==> Outlasts(s, price) && (Takes(s, price) - Reveals(s, price)) % TWO_64 != 0
  {
    var side, ladder := o.side.Opposite(), b.Ladder(o.side.Opposite());
    assert LadderOK(side, ladder);
    IncomingTerms(b, o, ladder[i].price);
    IncomingTakes(b, o, ladder[i].price);
    AtLevel(side, ladder, o.price, i, o.Remaining());
    TakenAtLevel(side, ladder, o.price, i, o.Remaining());
    hide Stays, TakenAt, RevealedAt, Revealed, Left, LadderOK, Crosses, Book.Ladder, Incoming, OrderState.Remaining, Takes,
         Reveals, Outlasts;
  }

  lemma {:induction false} LeftFits(side: Side, ladder: seq<Level>, i: nat, shown: int)
    requires LadderOK(side, ladder) && i <= |ladder|
    ensures Left(ladder, i, shown) <= shown
  {
    if i > 0 {
      BestIsAlone(side, ladder);
      TotalPositive(side, ladder[0].price, ladder[0].orders);
      LeftFits(side, ladder[1..], i - 1, shown);
      assert ladder[..i][1..] == ladder[1..][..i - 1];
      SumConcat(Open, ladder[0].orders, Flat(ladder[1..][..i - 1]));
    }
  }

  lemma {:induction false} LevelHides(ladder: seq<Level>, i: nat)
    requires i < |ladder| && NoneHides(Flat(ladder))
    ensures NoneHides(ladder[i].orders)
  {
    HeadHides(ladder);
    if i > 0 {
      LevelHides(ladder[1..], i - 1);
    }
  }

  /** Where nothing is hidden, touching a level dents it. */
  lemma TouchesDents(b: Book, o: OrderState)
    requires b.Valid() && NoneHides(Flat(b.Ladder(o.side.Opposite()))) && o.Remaining() < TWO_64
    ensures DentsAny(b, o) <==> TouchesAny(b, o)
  {
    var side, ladder := o.side.Opposite(), b.Ladder(o.side.Opposite());
    assert LadderOK(side, ladder);
    forall i: nat | Touches(b, o, i) ensures Dents(b, o, i) {
      LevelHides(ladder, i);
      LeftFits(side, ladder, i, o.Remaining());
      NothingRevealed(ladder[i].orders, Left(ladder, i, o.Remaining()));
    }
  }

  /** A truthful queue that is left is off after a match exactly if the order dents it. */
  lemma DentedLevel(b: Book, o: OrderState, i: nat, l': Level)
    requires CanAdd(b, o) && Incoming(b, o).Valid() && Live(Incoming(b, o)) && l' in MatchAll(Incoming(b, o)).ladder
    requires var ladder := b.Ladder(o.side.Opposite());
      QueuesTruthful(ladder) && i < |ladder| && l'.price == ladder[i].price
    ensures QueueGap(l') == 0 <==> !Dents(b, o, i)
  {
    hide *;
    var s, ladder := Incoming(b, o), b.Ladder(o.side.Opposite());
    IncomingLadder(b, o);
    BookValid(b, o);
    DentsIs(b, o, i);
    var l := QueueDrift(s, l');
    MatchOutlasts(s, l'.price);
    LevelThere(MatchAll(s).ladder, l');
    TruthfulAt(ladder, l);
  }

  lemma TruthfulAt(ladder: seq<Level>, l: Level)
    requires QueuesTruthful(ladder) && l in ladder
    ensures QueueGap(l) == 0
  {
  }

  lemma OutlastsDented(b: Book, o: OrderState, i: nat) returns (l': Level)
    requires CanAdd(b, o) && Incoming(b, o).Valid() && Live(Incoming(b, o)) && Dents(b, o, i)
    ensures i < |b.Ladder(o.side.Opposite())|
    ensures l' in MatchAll(Incoming(b, o)).ladder && l'.price == b.Ladder(o.side.Opposite())[i].price
  {
    assert b.Valid();
    DentsIs(b, o, i);
    MatchOutlasts(Incoming(b, o), b.Ladder(o.side.Opposite())[i].price);
    l' :| l' in MatchAll(Incoming(b, o)).ladder && l'.price == b.Ladder(o.side.Opposite())[i].price;
  }

  lemma QueueSides(b: Book, side: Side)
    ensures QueueBook(b) <==> QueuesTruthful(b.Ladder(side)) && QueuesTruthful(b.Ladder(side.Opposite()))
  {
  }

  lemma {:induction false} AddQueues(side: Side, ladder: seq<Level>, o: OrderState)
    requires QueuesTruthful(ladder)
    ensures QueuesTruthful(AddToLadder(side, ladder, o))
  {
    hide QueueGap, Join, NewLevel;
    NewLevelGap(o);
    if ladder != [] {
      assert ladder[0] in ladder;
      JoinGap(ladder[0], o);
      AddQueues(side, ladder[1..], o);
    }
  }

  lemma {:induction false} RemoveQueues(ladder: seq<Level>, price: int, id: nat)
    requires QueuesTruthful(ladder)
    ensures QueuesTruthful(RemoveFromLadder(ladder, price, id))
  {
    hide QueueGap, Leave;
    if ladder != [] {
      assert ladder[0] in ladder;
      var i := IndexOf(ladder[0].orders, id);
      if i < |ladder[0].orders| {
        LeaveGap(ladder[0], i);
      }
      RemoveQueues(ladder[1..], price, id);
    }
  }

  /** Truthful queue counters stay truthful when an order is added if and only if the order dents no level. */
  lemma AddKeepsQueues(b: Book, o: OrderState, rejected: bool)
    requires CanAdd(b, o) && QueueBook(b)
    ensures QueueBook(AddOrder(b, o, rejected).book) <==> !DentsAny(b, o)
  {
    AddedLadders(b, o, rejected);
    IncomingLadder(b, o);
    var s, b', ladder := Incoming(b, o), AddOrder(b, o, rejected).book, b.Ladder(o.side.Opposite());
    QueueSides(b, o.side);
    QueueSides(b', o.side);
    hide CanAdd, AddOrder, LadderOK, Live, Match.Valid, MatchAll, Book.Ladder, Dents, QueueBook, QueueGap;
    AddQueues(o.side, b.Ladder(o.side), MatchAll(s).taker);
    if i: nat :| Dents(b, o, i) {
      var l' := OutlastsDented(b, o, i);
      DentedLevel(b, o, i, l');
    } else {
      forall l' | l' in MatchAll(s).ladder ensures QueueGap(l') == 0 {
        var i := LevelKept(s, l');
        DentedLevel(b, o, i, l');
      }
    }
  }

  // ---------- whole runs ----------

  /** The queue counters are truthful at the start and after every operation. */
  ghost predicate AlwaysTold(h: History, ops: seq<Op>)
    requires AllowedRun(h, ops)
    decreases |ops|
  {
    QueueBook(h.book) && (ops == [] || AlwaysTold(Apply(h, ops[0]), ops[1..]))
  }

  /** No submission of the run dents a level of the book it meets. */
  ghost predicate NeverDents(h: History, ops: seq<Op>)
    requires AllowedRun(h, ops)
    decreases |ops|
  {
    ops == [] || (!(ops[0].Submit? && DentsAny(h.book, ops[0].o)) && NeverDents(Apply(h, ops[0]), ops[1..]))
  }

  lemma CancelKeepsQueues(h: History, id: nat)
    requires h.Sound() && QueueBook(h.book)
    ensures QueueBook(Apply(h, Cancel(id)).book)
  {
    var b' := Apply(h, Cancel(id)).book;
    forall side ensures QueuesTruthful(b'.Ladder(side)) {
      var at := CancelledLadder(h, id, side);
      QueueSides(h.book, side);
      hide *;
      RemoveQueues(h.book.Ladder(side), at, id);
    }
    QueueSides(b', Buy);
  }

  lemma OpKeepsQueues(h: History, op: Op)
    requires h.Sound() && Allowed(h, op) && QueueBook(h.book)
    ensures QueueBook(Apply(h, op).book) <==> !(op.Submit? && DentsAny(h.book, op.o))
  {
    match op
    case Submit(o, rejected) => AddKeepsQueues(h.book, o, rejected);
    case Cancel(id) => CancelKeepsQueues(h, id);
    case Clear =>
  }

  lemma NotTold(h: History, ops: seq<Op>)
    requires AllowedRun(h, ops) && !QueueBook(h.book)
    ensures !AlwaysTold(h, ops)
  {
  }

  /** Over every run, icebergs included: the queue counters are truthful all along if and only if no submission dents
      a level. */
  lemma {:induction false} RunKeepsQueues(h: History, ops: seq<Op>)
    requires h.Sound() && AllowedRun(h, ops) && QueueBook(h.book)
    ensures AlwaysTold(h, ops) <==> NeverDents(h, ops)
    decreases |ops|
  {
    if ops != [] {
      hide Allowed, Apply, QueueBook, DentsAny, History.Sound;
      OneOp(h, ops);
      OpKeepsQueues(h, ops[0]);
      if QueueBook(Apply(h, ops[0]).book) {
        RunKeepsQueues(Apply(h, ops[0]), ops[1..]);
      } else {
        NotTold(Apply(h, ops[0]), ops[1..]);
      }
    }
  }

  /** No submission of the run trades on a level of the book it meets without using it up. */
  ghost predicate NeverTouches(h: History, ops: seq<Op>)
    requires AllowedRun(h, ops)
    decreases |ops|
  {
    ops == [] || (!(ops[0].Submit? && TouchesAny(h.book, ops[0].o)) && NeverTouches(Apply(h, ops[0]), ops[1..]))
  }

  lemma OpTouches(h: History, op: Op)
    requires h.Sound() && Allowed(h, op) && NoneHides(h.book.Orders())
    requires op.Submit? ==> !Hides(op.o) && op.o.Remaining() < TWO_64
    ensures NoneHides(Apply(h, op).book.Orders())
    ensures op.Submit? ==> (DentsAny(h.book, op.o) <==> TouchesAny(h.book, op.o))
  {
    OpHides(h, op);
    if op.Submit? {
      SidesHide(h.book, op.o.side);
      TouchesDents(h.book, op.o);
    }
  }

  lemma {:induction false} NeverDentsIs(h: History, ops: seq<Op>)
    requires h.Sound() && AllowedRun(h, ops) && NoneHides(h.book.Orders())
    requires forall op :: op in ops && op.Submit? ==> !Hides(op.o) && op.o.Remaining() < TWO_64
    ensures NeverDents(h, ops) <==> NeverTouches(h, ops)
    decreases |ops|
  {
    if ops != [] {
      assert ops[0] in ops;
      forall op | op in ops[1..] ensures op in ops {}
      hide Allowed, Apply, DentsAny, TouchesAny, History.Sound, NoneHides, Hides, OrderState.Remaining;
      OneOp(h, ops);
      OpTouches(h, ops[0]);
      NeverDentsIs(Apply(h, ops[0]), ops[1..]);
    }
  }

  /** Over every run in which no submitted order hides anything, plain orders among them: the queue counters are
      truthful all along if and only if no submission trades on a level that it does not use up. */
  lemma PlainRunKeepsQueues(h: History, ops: seq<Op>)
    requires h.Sound() && AllowedRun(h, ops) && QueueBook(h.book) && NoneHides(h.book.Orders())
    requires forall op :: op in ops && op.Submit? ==> !Hides(op.o) && op.o.Remaining() < TWO_64
    ensures AlwaysTold(h, ops) <==> NeverTouches(h, ops)
  {
    RunKeepsQueues(h, ops);
    NeverDentsIs(h, ops);
  }
}
