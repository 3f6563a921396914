/** When the published depth is the quantity on offer, and how far it is off when it is not. */
module TruthfulDepth {
  import opened Orders
  import opened OrderQueues
  import opened Matching
  import opened DepthCounters
  import opened Books
  import opened PlainBooks

  ghost predicate Truthful(ladder: seq<Level>) {
    forall l :: l in ladder ==> Gap(l) == 0
  }

  ghost predicate TruthfulBook(b: Book) {
    Truthful(b.bids) && Truthful(b.asks)
  }

  // ---------- one submission, seen beforehand ----------

  /** Adding o finishes, on level i of the other side, the peak of order j, which had traded before and has more
      hidden, and does not use the level up. */
  ghost predicate Spoils(b: Book, o: OrderState, i: nat, j: nat) {
    var side, ladder := o.side.Opposite(), b.Ladder(o.side.Opposite());
    && i < |ladder| && Crosses(side, ladder[i].price, o.price)
    && Left(ladder, i + 1, o.Remaining()) < 0 && Finishes(ladder[i].orders, Left(ladder, i, o.Remaining()), j)
  }

  ghost predicate SpoilsAny(b: Book, o: OrderState) {
    exists i: nat, j: nat :: Spoils(b, o, i, j)
  }

  /** What all the current peaks of a queue have traded. */
  ghost function Used(orders: seq<OrderState>): nat {
    if orders == [] then 0 else orders[0].visibleFilled + Used(orders[1..])
  }

  ghost predicate UsedFits(ladder: seq<Level>) {
    forall l :: l in ladder ==> Used(l.orders) < TWO_64
  }

  lemma {:induction false} ForgoneFits(orders: seq<OrderState>, shown: int)
    ensures Forgone(orders, shown) <= Used(orders)
  {
    if orders != [] {
      ForgoneFits(orders[1..], shown - orders[0].Remaining());
    }
  }

  lemma IncomingLadder(b: Book, o: OrderState)
    ensures Incoming(b, o).ladder == b.Ladder(o.side.Opposite()) && Incoming(b, o).taker == o
    ensures Incoming(b, o).RestingSide() == o.side.Opposite()
  {
  }

  /** Spoiling level i, in the terms of the ladder. */
  lemma SpoilsIs(b: Book, o: OrderState, i: nat)
    requires b.Valid() && i < |b.Ladder(o.side.Opposite())|
    ensures var side, ladder := o.side.Opposite(), b.Ladder(o.side.Opposite());
      var price := ladder[i].price;
      && (Stays(side, ladder, o.price, price, o.Remaining()) ==>
           (0 < ForgoneAt(side, ladder, o.price, price, o.Remaining()) <==> exists j: nat :: Spoils(b, o, i, j)))
      && ((exists j: nat :: Spoils(b, o, i, j)) ==> Stays(side, ladder, o.price, price, o.Remaining()))
      && ForgoneAt(side, ladder, o.price, price, o.Remaining()) <= Used(ladder[i].orders)
  {
    var side, ladder := o.side.Opposite(), b.Ladder(o.side.Opposite());
    var shown := Left(ladder, i, o.Remaining());
    assert ladder[i] in ladder;
    assert LadderOK(side, ladder);
    AtLevel(side, ladder, o.price, i, o.Remaining());
    ForgoneFits(ladder[i].orders, shown);
    PositiveRemaining(side, ladder[i]);
    ForgoneIff(ladder[i].orders, shown);
    forall j: nat ensures Spoils(b, o, i, j) <==>
      Crosses(side, ladder[i].price, o.price) && Left(ladder, i + 1, o.Remaining()) < 0 && Finishes(ladder[i].orders, shown, j)
    {
    }
    hide Spoils, Finishes, Stays, ForgoneAt, Left, Forgone, Used, Book.Valid, Book.Ladder, LevelOK;
    if j: nat :| Finishes(ladder[i].orders, shown, j) && Crosses(side, ladder[i].price, o.price) && Left(ladder, i + 1, o.Remaining()) < 0 {
      assert Spoils(b, o, i, j);
    }
  }

  lemma OffBy(l: Level, l': Level, owed: nat)
    requires Gap(l) == 0 && Gap(l') == Wrap64(Gap(l) - owed) && owed < TWO_64
    ensures Gap(l') == 0 <==> owed == 0
  {
  }

  /** A truthful level that is left is off after a match exactly if the order spoils it. */
  lemma SpoiledLevel(b: Book, o: OrderState, i: nat, l': Level)
    requires CanAdd(b, o) && Incoming(b, o).Valid() && Live(Incoming(b, o)) && l' in MatchAll(Incoming(b, o)).ladder
    requires var ladder := b.Ladder(o.side.Opposite());
      Truthful(ladder) && UsedFits(ladder) && i < |ladder| && l'.price == ladder[i].price
    ensures Gap(l') == 0 <==> !exists j: nat :: Spoils(b, o, i, j)
  {
    hide *;
    var s, ladder := Incoming(b, o), b.Ladder(o.side.Opposite());
    IncomingLadder(b, o);
    BookValid(b, o);
    SpoilsIs(b, o, i);
    var l := MatchGap(s, l');
    KnownLevels(ladder, l, i);
    MatchOutlasts(s, l'.price);
    LevelThere(MatchAll(s).ladder, l');
    IncomingTerms(b, o, l'.price);
    OffBy(l, l', Foregoes(s, l'.price));
  }

  lemma BookValid(b: Book, o: OrderState)
    requires CanAdd(b, o)
    ensures b.Valid()
  {
  }

  lemma KnownLevels(ladder: seq<Level>, l: Level, i: nat)
    requires Truthful(ladder) && UsedFits(ladder) && l in ladder && i < |ladder|
    ensures Gap(l) == 0 && Used(ladder[i].orders) < TWO_64
  {
  }

  lemma LevelThere(ladder: seq<Level>, l: Level)
    requires l in ladder
    ensures HasLevel(ladder, l.price)
  {
  }

  lemma IncomingTerms(b: Book, o: OrderState, price: int)
    ensures var side, ladder := o.side.Opposite(), b.Ladder(o.side.Opposite());
      && Foregoes(Incoming(b, o), price) == ForgoneAt(side, ladder, o.price, price, o.Remaining())
      && (Outlasts(Incoming(b, o), price) <==> Stays(side, ladder, o.price, price, o.Remaining()))
  {
    IncomingLadder(b, o);
  }

  lemma PositiveRemaining(side: Side, l: Level)
    requires LevelOK(side, l)
    ensures forall o :: o in l.orders ==> 0 <= o.Remaining()
  {
  }

  lemma OutlastsSpoilt(b: Book, o: OrderState, i: nat, j: nat) returns (l': Level)
    requires CanAdd(b, o) && Incoming(b, o).Valid() && Live(Incoming(b, o)) && Spoils(b, o, i, j)
    ensures l' in MatchAll(Incoming(b, o)).ladder && l'.price == b.Ladder(o.side.Opposite())[i].price
  {
    IncomingLadder(b, o);
    var s, ladder := Incoming(b, o), b.Ladder(o.side.Opposite());
    AtLevel(o.side.Opposite(), ladder, o.price, i, o.Remaining());
    MatchOutlasts(s, ladder[i].price);
    l' :| l' in MatchAll(s).ladder && l'.price == ladder[i].price;
  }

  lemma LevelKept(s: Match, l': Level) returns (i: nat)
    requires s.Valid() && Live(s) && l' in MatchAll(s).ladder
    ensures i < |s.ladder| && s.ladder[i].price == l'.price
  {
    var l := MatchGap(s, l');
    i :| 0 <= i < |s.ladder| && s.ladder[i] == l;
  }

  /** A truthful book stays truthful when an order is added if and only if the order spoils no level. */
  lemma AddStaysTruthful(b: Book, o: OrderState, rejected: bool)
    requires CanAdd(b, o) && TruthfulBook(b) && UsedFits(b.Ladder(o.side.Opposite()))
    ensures TruthfulBook(AddOrder(b, o, rejected).book) <==> !SpoilsAny(b, o)
  {
    AddedLadders(b, o, rejected);
    IncomingLadder(b, o);
    var s, b', ladder := Incoming(b, o), AddOrder(b, o, rejected).book, b.Ladder(o.side.Opposite());
    TruthfulSides(b, o.side);
    TruthfulSides(b', o.side);
    hide CanAdd, AddOrder, LadderOK, Live, Match.Valid, MatchAll, Book.Ladder, Spoils, TruthfulBook, Gap, UsedFits;
    AddTruthful(o.side, b.Ladder(o.side), MatchAll(s).taker);
    if i: nat, j: nat :| Spoils(b, o, i, j) {
      var l' := OutlastsSpoilt(b, o, i, j);
      SpoilsWhere(b, o, i, j);
      SpoiledLevel(b, o, i, l');
    } else {
      forall l' | l' in MatchAll(s).ladder ensures Gap(l') == 0 {
        var i := LevelKept(s, l');
        SpoiledLevel(b, o, i, l');
      }
    }
  }

  lemma SpoilsWhere(b: Book, o: OrderState, i: nat, j: nat)
    requires Spoils(b, o, i, j)
    ensures i < |b.Ladder(o.side.Opposite())|
  {
  }

  lemma TruthfulSides(b: Book, side: Side)
    ensures TruthfulBook(b) <==> Truthful(b.Ladder(side)) && Truthful(b.Ladder(side.Opposite()))
  {
  }

  lemma {:induction false} AddTruthful(side: Side, ladder: seq<Level>, o: OrderState)
    requires Truthful(ladder)
    ensures Truthful(AddToLadder(side, ladder, o))
  {
    hide Gap, Join, NewLevel;
    NewLevelGap(o);
    if ladder != [] {
      assert ladder[0] in ladder;
      JoinGap(ladder[0], o);
      AddTruthful(side, ladder[1..], o);
    }
  }

  // ---------- the ledger of a run ----------

  /** What is owed at a price after an operation: a submission on the other side adds what it forgoes there, and
      when the level goes, the debt goes with it. */
  ghost function Entry(h: History, op: Op, side: Side, price: int, owed: nat): nat
    requires h.Sound() && Allowed(h, op)
  {
    if !HasLevel(Apply(h, op).book.Ladder(side), price) then 0
    else if op.Submit? && op.o.side != side then owed + Foregoes(Incoming(h.book, op.o), price)
    else owed
  }

  ghost function Ledger(h: History, ops: seq<Op>, side: Side, price: int, owed: nat): nat
    requires h.Sound() && AllowedRun(h, ops)
    decreases |ops|
  {
    if ops == [] then owed
    else
      RunKeepsSound(h, ops[..1]);
      OneOp(h, ops);
      Ledger(Apply(h, ops[0]), ops[1..], side, price, Entry(h, ops[0], side, price, owed))
  }

  lemma OneOp(h: History, ops: seq<Op>)
    requires h.Sound() && AllowedRun(h, ops) && ops != []
    ensures Apply(h, ops[0]).Sound()
  {
    RunOne(h, ops[0]);
    RunKeepsSound(h, [ops[0]]);
  }

  lemma RunOne(h: History, op: Op)
    requires Allowed(h, op)
    ensures AllowedRun(h, [op]) && Run(h, [op]) == Apply(h, op)
  {
    assert [op][1..] == [];
  }

  /** The level of a price, if there is one, is off by what is owed; without one nothing is. */
  ghost predicate Owes(ladder: seq<Level>, price: int, owed: nat) {
    && (forall l :: l in ladder && l.price == price ==> Gap(l) == Wrap64(0 - owed))
    && (!HasLevel(ladder, price) ==> owed == 0)
  }

  lemma DebtsAdd(g: nat, owed: nat, more: nat)
    requires g == Wrap64(0 - owed)
    ensures Wrap64(g - more) == Wrap64(0 - (owed + more))
  {
    WrapShift(0 - owed, more, 0);
  }

  lemma MatchOwes(s: Match, price: int, owed: nat)
    requires s.Valid() && Live(s) && Owes(s.ladder, price, owed)
    ensures var ladder := MatchAll(s).ladder;
      Owes(ladder, price, if HasLevel(ladder, price) then owed + Foregoes(s, price) else 0)
  {
    hide Gap, MatchAll, Live, Match.Valid, Foregoes;
    forall l' | l' in MatchAll(s).ladder && l'.price == price ensures Gap(l') == Wrap64(0 - (owed + Foregoes(s, price))) {
      var l := MatchGap(s, l');
      DebtsAdd(Gap(l), owed, Foregoes(s, price));
    }
  }

  /** Where the levels of a ladder come from when an order is rested. */
  lemma {:induction false} LevelAdded(side: Side, ladder: seq<Level>, o: OrderState, l': Level)
    requires LadderOK(side, ladder) && l' in AddToLadder(side, ladder, o)
    ensures l' in ladder || (l' == NewLevel(o) && !HasLevel(ladder, o.price))
      || exists l :: l in ladder && l.price == o.price && l' == Join(l, o)
  {
    if ladder == [] || Better(side, o.price, ladder[0].price) {
      forall l | l in ladder ensures l.price != o.price {
        var i :| 0 <= i < |ladder| && ladder[i] == l;
        assert i > 0 ==> Better(side, ladder[0].price, ladder[i].price);
      }
    } else if ladder[0].price != o.price && l' != ladder[0] {
      BestIsAlone(side, ladder);
      LevelAdded(side, ladder[1..], o, l');
      assert forall l :: l in ladder <==> l == ladder[0] || l in ladder[1..];
    } else {
      assert ladder[0] in ladder;
    }
  }

  lemma {:induction false} LevelsStay(side: Side, ladder: seq<Level>, o: OrderState, price: int)
    ensures HasLevel(ladder, price) ==> HasLevel(AddToLadder(side, ladder, o), price)
    ensures HasLevel(AddToLadder(side, ladder, o), o.price)
  {
    var r := AddToLadder(side, ladder, o);
    if ladder == [] || Better(side, o.price, ladder[0].price) {
      assert r[0] in r && r[1..] == ladder;
      assert forall l :: l in ladder ==> l in r;
    } else if ladder[0].price == o.price {
      assert r[0] in r && r[1..] == ladder[1..];
      assert forall l :: l in ladder[1..] ==> l in r;
    } else {
      LevelsStay(side, ladder[1..], o, price);
      assert r[0] in r && r[1..] == AddToLadder(side, ladder[1..], o);
      assert forall l :: l in r[1..] ==> l in r;
    }
  }

  lemma AddOwes(side: Side, ladder: seq<Level>, o: OrderState, price: int, owed: nat)
    requires LadderOK(side, ladder) && Owes(ladder, price, owed)
    ensures var ladder' := AddToLadder(side, ladder, o);
      Owes(ladder', price, if HasLevel(ladder', price) then owed else 0)
  {
    hide Gap, LadderOK, AddToLadder;
    forall l' | l' in AddToLadder(side, ladder, o) && l'.price == price ensures Gap(l') == Wrap64(0 - owed) {
      LevelAdded(side, ladder, o, l');
      if l' in ladder {
      } else if l' == NewLevel(o) && !HasLevel(ladder, o.price) {
        NewLevelGap(o);
      } else {
        var l :| l in ladder && l.price == o.price && l' == Join(l, o);
        JoinGap(l, o);
      }
    }
  }

  lemma {:induction false} LevelRemoved(ladder: seq<Level>, price: int, id: nat, l': Level)
    requires l' in RemoveFromLadder(ladder, price, id)
    ensures l' in ladder || exists l, i: nat :: l in ladder && i < |l.orders| && l' == Leave(l, i)
  {
    var i := IndexOf(ladder[0].orders, id);
    assert ladder[0] in ladder && forall l :: l in ladder[1..] ==> l in ladder;
    if ladder[0].price != price {
      if l' != ladder[0] {
        LevelRemoved(ladder[1..], price, id, l');
      }
    } else if i < |ladder[0].orders| && l' !in ladder[1..] {
      assert l' == Leave(ladder[0], i);
    }
  }

  lemma RemoveOwes(ladder: seq<Level>, at: int, id: nat, price: int, owed: nat)
    requires Owes(ladder, price, owed)
    ensures var ladder' := RemoveFromLadder(ladder, at, id);
      Owes(ladder', price, if HasLevel(ladder', price) then owed else 0)
  {
    hide Gap, RemoveFromLadder;
    forall l' | l' in RemoveFromLadder(ladder, at, id) && l'.price == price ensures Gap(l') == Wrap64(0 - owed) {
      LevelRemoved(ladder, at, id, l');
      if l' !in ladder {
        var l, i: nat :| l in ladder && i < |l.orders| && l' == Leave(l, i);
        LeaveGap(l, i);
      }
    }
  }

  lemma SameOwes(ladder: seq<Level>, price: int, owed: nat)
    requires Owes(ladder, price, owed)
    ensures Owes(ladder, price, if HasLevel(ladder, price) then owed else 0)
  {
  }

  lemma EntryIs(h: History, op: Op, side: Side, price: int, owed: nat)
    requires h.Sound() && Allowed(h, op)
    ensures Entry(h, op, side, price, owed) ==
      if !HasLevel(Apply(h, op).book.Ladder(side), price) then 0
      else if op.Submit? && op.o.side != side then owed + Foregoes(Incoming(h.book, op.o), price)
      else owed
    ensures op.Submit? ==> CanAdd(h.book, op.o) && Apply(h, op).book == AddOrder(h.book, op.o, op.rejected).book
  {
  }

  lemma SubmitOwes(h: History, o: OrderState, rejected: bool, side: Side, price: int, owed: nat)
    requires h.Sound() && Allowed(h, Submit(o, rejected)) && Owes(h.book.Ladder(side), price, owed)
    ensures Owes(Apply(h, Submit(o, rejected)).book.Ladder(side), price, Entry(h, Submit(o, rejected), side, price, owed))
  {
    hide *;
    EntryIs(h, Submit(o, rejected), side, price, owed);
    AddedLadders(h.book, o, rejected);
    IncomingLadder(h.book, o);
    var s := Incoming(h.book, o);
    if side == o.side {
      AddOwes(side, h.book.Ladder(side), MatchAll(s).taker, price, owed);
      SameOwes(h.book.Ladder(side), price, owed);
    } else {
      OtherSide(side, o.side);
      MatchOwes(s, price, owed);
    }
  }

  lemma OtherSide(a: Side, b: Side)
    requires a != b
    ensures a == b.Opposite()
  {
  }

  /** A side of the book after a cancellation: as it was, or without the order. */
  lemma CancelledLadder(h: History, id: nat, side: Side) returns (at: int)
    requires h.Sound()
    ensures var r := Apply(h, Cancel(id)).book.Ladder(side);
      r == h.book.Ladder(side) || r == RemoveFromLadder(h.book.Ladder(side), at, id)
  {
    at := 0;
    var i := IndexOf(h.book.Orders(), id);
    if i < |h.book.Orders()| {
      hide Book.Orders, RemoveFromLadder, History.Sound;
      at := h.book.Orders()[i].price;
    }
  }

  lemma CancelOwes(h: History, id: nat, side: Side, price: int, owed: nat)
    requires h.Sound() && Owes(h.book.Ladder(side), price, owed)
    ensures Owes(Apply(h, Cancel(id)).book.Ladder(side), price, Entry(h, Cancel(id), side, price, owed))
  {
    hide *;
    assert Allowed(h, Cancel(id)) by {
      MayCancel(h, id);
    }
    EntryIs(h, Cancel(id), side, price, owed);
    var at := CancelledLadder(h, id, side);
    SameOwes(h.book.Ladder(side), price, owed);
    RemoveOwes(h.book.Ladder(side), at, id, price, owed);
  }

  lemma MayCancel(h: History, id: nat)
    ensures Allowed(h, Cancel(id))
  {
  }

  /** Over every run, icebergs included: each level's published depth is short, on 64 bits, by exactly what the
      ledger has at its price. */
  lemma {:induction false} RunLedger(h: History, ops: seq<Op>, side: Side, price: int, owed: nat)
    requires h.Sound() && AllowedRun(h, ops) && Owes(h.book.Ladder(side), price, owed)
    ensures Owes(Run(h, ops).book.Ladder(side), price, Ledger(h, ops, side, price, owed))
    decreases |ops|
  {
    if ops != [] {
      match ops[0] {
        case Submit(o, rejected) => SubmitOwes(h, o, rejected, side, price, owed);
        case Cancel(id) => CancelOwes(h, id, side, price, owed);
        case Clear =>
      }
      OneOp(h, ops);
      RunLedger(Apply(h, ops[0]), ops[1..], side, price, Entry(h, ops[0], side, price, owed));
    }
  }

  // ---------- truthful runs ----------

  lemma {:induction false} RemoveTruthful(ladder: seq<Level>, price: int, id: nat)
    requires Truthful(ladder)
    ensures Truthful(RemoveFromLadder(ladder, price, id))
  {
    hide Gap, Leave;
    if ladder != [] {
      assert ladder[0] in ladder;
      var i := IndexOf(ladder[0].orders, id);
      if i < |ladder[0].orders| {
        LeaveGap(ladder[0], i);
      }
      RemoveTruthful(ladder[1..], price, id);
    }
  }

  lemma CancelStaysTruthful(h: History, id: nat)
    requires h.Sound() && TruthfulBook(h.book)
    ensures TruthfulBook(Apply(h, Cancel(id)).book)
  {
    var b' := Apply(h, Cancel(id)).book;
    forall side ensures Truthful(b'.Ladder(side)) {
      var at := CancelledLadder(h, id, side);
      TruthfulSides(h.book, side);
      hide *;
      RemoveTruthful(h.book.Ladder(side), at, id);
    }
    TruthfulSides(b', Buy);
  }

  /** The depth is truthful at the start and after every operation. */
  ghost predicate AlwaysTruthful(h: History, ops: seq<Op>)
    requires AllowedRun(h, ops)
    decreases |ops|
  {
    TruthfulBook(h.book) && (ops == [] || AlwaysTruthful(Apply(h, ops[0]), ops[1..]))
  }

  /** No submission of the run spoils a level of the book it meets. */
  ghost predicate NeverSpoils(h: History, ops: seq<Op>)
    requires AllowedRun(h, ops)
    decreases |ops|
  {
    ops == [] || (!(ops[0].Submit? && SpoilsAny(h.book, ops[0].o)) && NeverSpoils(Apply(h, ops[0]), ops[1..]))
  }

  /** What the peaks of a level have traded fits 64 bits all along. */
  ghost predicate AlwaysFits(h: History, ops: seq<Op>)
    requires AllowedRun(h, ops)
    decreases |ops|
  {
    UsedFits(h.book.bids) && UsedFits(h.book.asks) && (ops == [] || AlwaysFits(Apply(h, ops[0]), ops[1..]))
  }

  lemma OpStaysTruthful(h: History, op: Op)
    requires h.Sound() && Allowed(h, op) && TruthfulBook(h.book) && UsedFits(h.book.bids) && UsedFits(h.book.asks)
    ensures TruthfulBook(Apply(h, op).book) <==> !(op.Submit? && SpoilsAny(h.book, op.o))
  {
    match op
    case Submit(o, rejected) => AddStaysTruthful(h.book, o, rejected);
    case Cancel(id) => CancelStaysTruthful(h, id);
    case Clear =>
  }

  /** Over every run, icebergs included: the published depth is truthful all along if and only if no submission
      spoils a level. */
  lemma {:induction false} RunStaysTruthful(h: History, ops: seq<Op>)
    requires h.Sound() && AllowedRun(h, ops) && TruthfulBook(h.book) && AlwaysFits(h, ops)
    ensures AlwaysTruthful(h, ops) <==> NeverSpoils(h, ops)
    decreases |ops|
  {
    if ops != [] {
      hide Allowed, Apply, TruthfulBook, SpoilsAny, History.Sound;
      OneOp(h, ops);
      OpStaysTruthful(h, ops[0]);
      if TruthfulBook(Apply(h, ops[0]).book) {
        RunStaysTruthful(Apply(h, ops[0]), ops[1..]);
      } else {
        NotTruthful(Apply(h, ops[0]), ops[1..]);
      }
    }
  }

  lemma NotTruthful(h: History, ops: seq<Op>)
    requires AllowedRun(h, ops) && !TruthfulBook(h.book)
    ensures !AlwaysTruthful(h, ops)
  {
  }

  // ---------- books in which nothing is hidden ----------

  lemma {:induction false} PlainForgone(orders: seq<OrderState>, shown: int)
    requires NoneHides(orders)
    ensures Forgone(orders, shown) == 0
  {
    if orders != [] {
      assert orders[0] in orders;
      PlainForgone(orders[1..], shown - orders[0].Remaining());
    }
  }

  lemma {:induction false} PlainForgoes(side: Side, ladder: seq<Level>, limit: int, price: int, shown: int)
    requires NoneHides(Flat(ladder))
    ensures ForgoneAt(side, ladder, limit, price, shown) == 0
  {
    if ladder != [] {
      HeadHides(ladder);
      PlainForgone(ladder[0].orders, shown);
      PlainForgoes(side, ladder[1..], limit, price, shown - Sum(Open, ladder[0].orders));
    }
  }

  lemma MatchTruthful(s: Match)
    requires s.Valid() && Live(s) && NoneHides(Flat(s.ladder)) && Truthful(s.ladder)
    ensures Truthful(MatchAll(s).ladder)
  {
    hide Gap, ForgoneAt, MatchAll, Live, Match.Valid, Flat, NoneHides;
    forall l' | l' in MatchAll(s).ladder ensures Gap(l') == 0 {
      var l := MatchGap(s, l');
      PlainForgoes(s.RestingSide(), s.ladder, s.taker.price, l'.price, s.taker.Remaining());
    }
  }

  lemma SubmitPlain(b: Book, o: OrderState, rejected: bool)
    requires CanAdd(b, o) && NoneHides(b.Orders()) && TruthfulBook(b)
    ensures TruthfulBook(AddOrder(b, o, rejected).book)
  {
    AddedLadders(b, o, rejected);
    hide CanAdd, AddOrder, Truthful, TruthfulBook, NoneHides, LadderOK, Flat, AddToLadder, Live, Match.Valid, MatchAll,
         Book.Ladder, Book.Orders;
    var s := Incoming(b, o);
    TruthfulSides(b, o.side);
    SidesHide(b, o.side);
    IncomingLadder(b, o);
    MatchTruthful(s);
    AddTruthful(o.side, b.Ladder(o.side), MatchAll(s).taker);
    TruthfulSides(AddOrder(b, o, rejected).book, o.side);
  }

  /** Over every run in which no submitted order hides anything, plain orders among them: each level's published
      depth is, on 64 bits, the sum of what its orders show. */
  lemma {:induction false} PlainRunTruthful(h: History, ops: seq<Op>)
    requires h.Sound() && AllowedRun(h, ops) && NoneHides(h.book.Orders()) && TruthfulBook(h.book)
    requires forall op :: op in ops && op.Submit? ==> !Hides(op.o)
    ensures NoneHides(Run(h, ops).book.Orders()) && TruthfulBook(Run(h, ops).book)
    decreases |ops|
  {
    if ops != [] {
      var op := ops[0];
      assert op in ops;
      OneOp(h, ops);
      OpHides(h, op);
      match op {
        case Submit(o, rejected) => SubmitPlain(h.book, o, rejected);
        case Cancel(id) => CancelStaysTruthful(h, id);
        case Clear =>
      }
      PlainRunTruthful(Apply(h, op), ops[1..]);
    }
  }
}
