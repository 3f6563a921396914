/** Books in which no order hides anything: what every run of orders that hide nothing keeps. */
module PlainBooks {
  import opened Orders
  import opened Matching
  import opened MatchingLaws
  import opened PriorityQueues
  import opened Books

  /** An iceberg with more than it shows. */
  predicate Hides(o: OrderState) {
    o.iceberg && o.hidden > 0
  }

  ghost predicate NoneHides(orders: seq<OrderState>) {
    forall o :: o in orders ==> !Hides(o)
  }

  lemma HeadHides(ladder: seq<Level>)
    requires ladder != [] && NoneHides(Flat(ladder))
    ensures NoneHides(ladder[0].orders) && NoneHides(Flat(ladder[1..]))
  {
    forall o | o in ladder[0].orders || o in Flat(ladder[1..]) ensures !Hides(o) {
      assert o in Flat(ladder);
    }
  }

  lemma SidesHide(b: Book, side: Side)
    ensures NoneHides(b.Orders()) <==> NoneHides(Flat(b.Ladder(side))) && NoneHides(Flat(b.Ladder(side.Opposite())))
  {
    hide Hides, Flat;
  }

  lemma StepHides(s: Match)
    requires s.Valid() && s.Enabled() && NoneHides(Flat(s.ladder))
    ensures NoneHides(Flat(Step(s).ladder))
  {
    var l, q := s.ladder[0], s.TradeQuantity();
    assert l in s.ladder && l.orders[0] in l.orders;
    var m := l.orders[0].Fill(q);
    var l' := Settle(l, m, q);
    SettleKeeps(s.RestingSide(), l, q);
    SetBestKeeps(s.RestingSide(), s.ladder, l', s.taker.price);
    assert l.orders[0] in Flat(s.ladder);
    forall o | o in l'.orders + Flat(s.ladder[1..]) ensures o == m || o in Flat(s.ladder) {
      assert o in l'.orders ==> o == m || o in l.orders;
    }
  }

  lemma {:induction false} MatchHides(s: Match)
    requires s.Valid() && Live(s) && NoneHides(Flat(s.ladder))
    ensures NoneHides(Flat(MatchAll(s).ladder))
    decreases s.taker.TotalRemaining(), Sum(Exhausted, Flat(s.ladder))
  {
    if s.Enabled() {
      StepHides(s);
      hide Step, Match.Valid, Match.Enabled, Live, NoneHides, Flat, Sum;
      StepOnward(s);
      MatchHides(Step(s));
    }
  }

  lemma {:induction false} InsertHides(side: Side, queue: seq<OrderState>, o: OrderState)
    requires NoneHides(queue) && !Hides(o)
    ensures NoneHides(InsertBehind(side, queue, o))
  {
    if queue != [] {
      assert queue[0] in queue;
      InsertHides(side, queue[1..], o);
    }
  }

  lemma {:induction false} WithoutHides(queue: seq<OrderState>, id: nat)
    requires NoneHides(queue)
    ensures NoneHides(Without(queue, id))
  {
    if queue != [] {
      assert queue[0] in queue;
      WithoutHides(queue[1..], id);
    }
  }

  lemma SubmitHides(b: Book, o: OrderState, rejected: bool)
    requires CanAdd(b, o) && NoneHides(b.Orders()) && !Hides(o)
    ensures NoneHides(AddOrder(b, o, rejected).book.Orders())
  {
    AddedLadders(b, o, rejected);
    var s := Incoming(b, o);
    assert s.ladder == b.Ladder(o.side.Opposite()) && s.taker == o;
    TakerKeepsForm(s);
    var r := MatchAll(s);
    assert !Hides(r.taker);
    hide CanAdd, AddOrder, Hides, NoneHides, LadderOK, Flat, AddToLadder, Live, Match.Valid, MatchAll, Book.Ladder, Book.Orders;
    SidesHide(b, o.side);
    MatchHides(s);
    AddInserts(o.side, b.Ladder(o.side), r.taker);
    InsertHides(o.side, Flat(b.Ladder(o.side)), r.taker);
    SidesHide(AddOrder(b, o, rejected).book, o.side);
  }

  lemma CancelIs(h: History, id: nat)
    ensures var orders, i := h.book.Orders(), IndexOf(h.book.Orders(), id);
      Apply(h, Cancel(id)).book == if i < |orders| then CancelOrder(h.book, orders[i]).book else h.book
    ensures IndexOf(h.book.Orders(), id) <= |h.book.Orders()|
  {
    hide CancelOrder, Book.Orders;
  }

  lemma CancelHides(h: History, id: nat)
    requires h.Sound() && NoneHides(h.book.Orders())
    ensures NoneHides(Apply(h, Cancel(id)).book.Orders())
  {
    hide *;
    CancelIs(h, id);
    var i := IndexOf(h.book.Orders(), id);
    if i < |h.book.Orders()| {
      var b, o := h.book, h.book.Orders()[i];
      RestingOnSide(h, i);
      SoundBook(h);
      CancelKeepsBook(b, o);
      SidesHide(b, o.side);
      WithoutHides(Flat(b.Ladder(o.side)), o.id);
      SidesHide(CancelOrder(b, o).book, o.side);
    }
  }

  lemma SoundBook(h: History)
    requires h.Sound()
    ensures h.book.Valid()
  {
  }

  lemma OpHides(h: History, op: Op)
    requires h.Sound() && Allowed(h, op) && NoneHides(h.book.Orders()) && (op.Submit? ==> !Hides(op.o))
    ensures NoneHides(Apply(h, op).book.Orders())
  {
    match op
    case Submit(o, rejected) => SubmitHides(h.book, o, rejected);
    case Cancel(id) => CancelHides(h, id);
    case Clear =>
  }
}
