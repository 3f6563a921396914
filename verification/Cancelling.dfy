/** Cancelling an order, and how it undoes resting one. */
module Cancelling {
  import opened Orders
  import opened OrderQueues
  import opened Matching
  import opened PriorityQueues

  ghost predicate Absent(id: nat, orders: seq<OrderState>) {
    forall o :: o in orders ==> o.id != id
  }

  ghost predicate Unique(id: nat, orders: seq<OrderState>) {
    forall i, j :: 0 <= i < j < |orders| && orders[i].id == id ==> orders[j].id != id
  }

  lemma {:induction false} WithoutConcat(a: seq<OrderState>, b: seq<OrderState>, id: nat)
    ensures Without(a + b, id) == Without(a, id) + Without(b, id)
  {
    if a == [] {
      assert a + b == b;
    } else {
      TailOfConcat(a, b);
      WithoutConcat(a[1..], b, id);
    }
  }

  lemma {:induction false} WithoutAbsent(a: seq<OrderState>, id: nat)
    requires Absent(id, a)
    ensures Without(a, id) == a
  {
    if a != [] {
      assert a[0] in a;
      WithoutAbsent(a[1..], id);
    }
  }

  /** Dropping the first order of an id drops them all, when there is at most one. */
  lemma {:induction false} WithoutUnique(a: seq<OrderState>, id: nat)
    requires Unique(id, a) && IndexOf(a, id) < |a|
    ensures var i := IndexOf(a, id); Without(a, id) == a[..i] + a[i + 1..]
  {
    var i := IndexOf(a, id);
    if i == 0 {
      assert Absent(id, a[1..]);
      WithoutAbsent(a[1..], id);
    } else {
      assert i == 1 + IndexOf(a[1..], id);
      WithoutUnique(a[1..], id);
      assert a[..i] + a[i + 1..] == [a[0]] + (a[1..][..i - 1] + a[1..][i..]);
    }
  }

  lemma IndexOfAbsent(a: seq<OrderState>, id: nat)
    ensures IndexOf(a, id) == |a| <==> Absent(id, a)
  {
    if IndexOf(a, id) < |a| {
      assert a[IndexOf(a, id)] in a;
    }
  }

  /** The order stands on the best level, or nowhere. */
  lemma RemoveHere(side: Side, ladder: seq<Level>, id: nat)
    requires ladder != [] && LadderOK(side, ladder) && Unique(id, Flat(ladder))
    requires forall o :: o in Flat(ladder) && o.id == id ==> o.price == ladder[0].price
    ensures var r := RemoveFromLadder(ladder, ladder[0].price, id);
      && LadderOK(side, r) && Flat(r) == Without(Flat(ladder), id)
      && (r != [] ==> !Better(side, r[0].price, ladder[0].price))
  {
    var l, tail := ladder[0], ladder[1..];
    assert l in ladder;
    WithoutConcat(l.orders, Flat(tail), id);
    UniqueParts(id, l.orders, Flat(tail));
    NoneBehind(side, ladder, id);
    WithoutAbsent(Flat(tail), id);
    IndexOfAbsent(l.orders, id);
    if IndexOf(l.orders, id) < |l.orders| {
      LeaveDrops(side, l, id);
      if Leave(l, IndexOf(l.orders, id)).count != 0 {
        LadderCons(side, Leave(l, IndexOf(l.orders, id)), tail);
      }
    } else {
      WithoutAbsent(l.orders, id);
    }
  }

  /** The order does not stand on the best level. */
  lemma RemoveLater(side: Side, ladder: seq<Level>, price: int, id: nat)
    requires ladder != [] && LadderOK(side, ladder) && Unique(id, Flat(ladder)) && ladder[0].price != price
    requires forall o :: o in Flat(ladder) && o.id == id ==> o.price == price
    ensures LadderOK(side, ladder[1..]) && Unique(id, Flat(ladder[1..])) && LevelOK(side, ladder[0])
    ensures forall o :: o in Flat(ladder[1..]) ==> o in Flat(ladder)
    ensures Without(Flat(ladder), id) == ladder[0].orders + Without(Flat(ladder[1..]), id)
    ensures |ladder| > 1 ==> Better(side, ladder[0].price, ladder[1].price)
  {
    var l, tail := ladder[0], ladder[1..];
    assert l in ladder;
    WithoutConcat(l.orders, Flat(tail), id);
    UniqueParts(id, l.orders, Flat(tail));
    forall o | o in l.orders ensures o.id != id {
      assert o in Flat(ladder) && o.price == l.price;
    }
    WithoutAbsent(l.orders, id);
  }

  /** Cancelling takes exactly the order of that id out of the queue, and keeps the ladder well-formed. */
  lemma {:induction false} RemoveDrops(side: Side, ladder: seq<Level>, price: int, id: nat)
    requires LadderOK(side, ladder) && Unique(id, Flat(ladder))
    requires forall o :: o in Flat(ladder) && o.id == id ==> o.price == price
    ensures var r := RemoveFromLadder(ladder, price, id);
      && LadderOK(side, r) && Flat(r) == Without(Flat(ladder), id)
      && (r != [] ==> ladder != [] && !Better(side, r[0].price, ladder[0].price))
  {
    if ladder == [] {
    } else if ladder[0].price == price {
      RemoveHere(side, ladder, id);
    } else {
      hide LadderOK, Unique, Without, LevelOK;
      var l, tail := ladder[0], ladder[1..];
      RemoveLater(side, ladder, price, id);
      RemoveDrops(side, tail, price, id);
      LadderCons(side, l, RemoveFromLadder(tail, price, id));
      assert ([l] + RemoveFromLadder(tail, price, id))[1..] == RemoveFromLadder(tail, price, id);
    }
  }

  lemma LeaveDrops(side: Side, l: Level, id: nat)
    requires LevelOK(side, l) && Unique(id, l.orders) && IndexOf(l.orders, id) < |l.orders|
    ensures var l' := Leave(l, IndexOf(l.orders, id));
      && l'.orders == Without(l.orders, id) && l'.price == l.price
      && (l'.count == 0 <==> l'.orders == []) && (l'.count != 0 ==> LevelOK(side, l'))
  {
    WithoutUnique(l.orders, id);
  }

  lemma UniqueParts(id: nat, a: seq<OrderState>, b: seq<OrderState>)
    requires Unique(id, a + b)
    ensures Unique(id, a) && Unique(id, b)
  {
    var s := a + b;
    forall i, j | 0 <= i < j < |a| && a[i].id == id ensures a[j].id != id {
      assert s[i] == a[i] && s[j] == a[j];
    }
    forall i, j | 0 <= i < j < |b| && b[i].id == id ensures b[j].id != id {
      assert s[|a| + i] == b[i] && s[|a| + j] == b[j];
    }
  }

  lemma {:induction false} FlatPrices(side: Side, ladder: seq<Level>, o: OrderState)
    requires LadderOK(side, ladder) && o in Flat(ladder)
    ensures exists l :: l in ladder && o in l.orders && o.price == l.price
  {
    assert ladder[0] in ladder;
    if o !in ladder[0].orders {
      FlatPrices(side, ladder[1..], o);
      var l :| l in ladder[1..] && o in l.orders;
      assert l in ladder;
    }
  }

  lemma NoneBehind(side: Side, ladder: seq<Level>, id: nat)
    requires LadderOK(side, ladder) && ladder != []
    requires forall o :: o in Flat(ladder) && o.id == id ==> o.price == ladder[0].price
    ensures Absent(id, Flat(ladder[1..]))
  {
    forall o | o in Flat(ladder[1..]) ensures o.id != id {
      FlatPrices(side, ladder[1..], o);
      var l :| l in ladder[1..] && o in l.orders && o.price == l.price;
      var j :| 0 <= j < |ladder[1..]| && ladder[1..][j] == l;
      assert ladder[j + 1] == l;
      assert o in Flat(ladder);
    }
  }

  /** Counters that fit their 64 bits. */
  ghost predicate CountersFit(ladder: seq<Level>) {
    forall l :: l in ladder ==> l.quantity < TWO_64 && l.queueQuantity < TWO_64
  }

  lemma WrapUndone(a: nat, d: int)
    requires a < TWO_64
    ensures Wrap64(Wrap64(a + d) - d) == a
  {
  }

  /** Cancelling an order just rested restores the ladder, with its counters, exactly. */
  lemma {:induction false} CancelUndoesAdd(side: Side, ladder: seq<Level>, o: OrderState)
    requires LadderOK(side, ladder) && Room(ladder) && CountersFit(ladder) && Absent(o.id, Flat(ladder))
    ensures RemoveFromLadder(AddToLadder(side, ladder, o), o.price, o.id) == ladder
  {
    var r := AddToLadder(side, ladder, o);
    if ladder == [] || Better(side, o.price, ladder[0].price) {
      assert r[1..] == ladder;
    } else {
      var l, tail := ladder[0], ladder[1..];
      assert l in ladder && |Flat(ladder)| == |l.orders| + |Flat(tail)| && r[1..] == (if l.price == o.price then tail else AddToLadder(side, tail, o));
      forall x | x in l.orders + Flat(tail) ensures x.id != o.id {
        assert x in Flat(ladder);
      }
      if l.price == o.price {
        JoinLeave(l, o);
        assert [l] + tail == ladder;
      } else {
        assert CountersFit(tail);
        CancelUndoesAdd(side, tail, o);
        assert [l] + tail == ladder;
      }
    }
  }

  lemma JoinLeave(l: Level, o: OrderState)
    requires Absent(o.id, l.orders) && l.quantity < TWO_64 && l.queueQuantity < TWO_64 && l.count < TWO_32
    ensures var l' := Join(l, o); IndexOf(l'.orders, o.id) == |l.orders| && Leave(l', |l.orders|) == l
  {
    var l' := Join(l, o);
    IndexOfAppend(l.orders, o);
    WrapUndone(l.quantity, o.Remaining());
    WrapUndone(l.queueQuantity, o.Remaining());
    assert l'.orders[..|l.orders|] + l'.orders[|l.orders| + 1..] == l.orders;
  }

  lemma {:induction false} IndexOfAppend(a: seq<OrderState>, o: OrderState)
    requires Absent(o.id, a)
    ensures IndexOf(a + [o], o.id) == |a|
  {
    if a != [] {
      assert a[0] in a;
      TailOfConcat(a, [o]);
      IndexOfAppend(a[1..], o);
    }
  }
}
