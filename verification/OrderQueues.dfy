/** The doubly linked FIFO of one price level (server/src/core/OrderQueue.cpp). */
module OrderQueues {
  import opened Orders

  const TWO_64: nat := 0x1_0000_0000_0000_0000

  /** Addition on a 64-bit unsigned counter. */
  function Wrap64(n: int): nat {
    n % TWO_64
  }

  ghost predicate Distinct(orders: seq<Order>) {
    forall i, j :: 0 <= i < j < |orders| ==> orders[i] != orders[j]
  }

  /** An id map that holds exactly the given orders, each under its id. */
  ghost predicate Indexes(index: map<nat, Order>, orders: seq<Order>)
    reads orders`orderId
  {
    && (forall o :: o in orders ==> o.orderId in index && index[o.orderId] == o)
    && (forall id :: id in index ==> index[id] in orders && index[id].orderId == id)
  }

  /** Dropping one order and its id keeps the map and the list in step. */
  lemma IndexesWithout(index: map<nat, Order>, orders: seq<Order>, at: nat)
    requires Indexes(index, orders) && at < |orders|
    requires Distinct(orders)
    ensures Indexes(index - {orders[at].orderId}, orders[..at] + orders[at + 1..])
  {
    var r := orders[..at] + orders[at + 1..];
    forall id | id in index && id != orders[at].orderId ensures index[id] in r {
      var k :| 0 <= k < |orders| && orders[k] == index[id];
      assert r[if k < at then k else k - 1] == index[id];
    }
    forall o | o in r ensures o in orders && o != orders[at] {
      var k :| 0 <= k < |r| && r[k] == o;
      assert o == orders[if k < at then k else k + 1];
    }
  }

  class OrderQueue {
    var head: Order?
    var tail: Order?
    var orderCount: nat
    var totalQty: nat
    var orderMap: map<nat, Order>
    ghost var contents: seq<Order>

    /** The links thread exactly `contents`, in order and in both directions. */
    ghost predicate Linked()
      reads this`contents, this`head, this`tail, contents`prev, contents`next
    {
      && Distinct(contents)
      && head == (if |contents| == 0 then null else contents[0])
      && tail == (if |contents| == 0 then null else contents[|contents| - 1])
      && (forall i {:trigger contents[i].next} :: 0 <= i < |contents| ==>
            contents[i].next == if i + 1 < |contents| then contents[i + 1] else null)
      && (forall i {:trigger contents[i].prev} :: 0 <= i < |contents| ==>
            contents[i].prev == if 0 < i then contents[i - 1] else null)
    }

    ghost predicate Valid()
      reads this`contents, this`head, this`tail, this`orderCount, this`orderMap
      reads contents`prev, contents`next, contents`orderId
    {
      Linked() && Indexes(orderMap, contents) && orderCount == |contents|
    }

    constructor ()
      ensures Valid() && contents == [] && totalQty == 0 && orderMap == map[] && fresh(this)
    {
      head, tail, orderCount, totalQty, orderMap := null, null, 0, 0, map[];
      contents := [];
    }

    /** Appends an order to the links. */
    method Link(order: Order)
      requires Linked() && order !in contents
      modifies this`head, this`tail, this`contents, order`prev, order`next, contents`next
      ensures Linked() && contents == old(contents) + [order]
    {
      order.prev := tail;
      order.next := null;
      if tail != null {
        tail.next := order;
      } else {
        head := order;
      }
      tail := order;
      contents := contents + [order];
    }

    /** The order joins at the back; if another order of the queue has its id, the map goes over to the newcomer. */
    method PushBack(order: Order)
      requires Linked() && order !in contents
      modifies this, order`prev, order`next, contents`next
      ensures Linked() && contents == old(contents) + [order]
      ensures orderMap == old(orderMap)[order.orderId := order] && orderCount == old(orderCount) + 1
      ensures totalQty == Wrap64(old(totalQty) + order.State().Remaining())
      ensures old(Valid()) ==> (Valid() <==> order.orderId !in old(orderMap))
    {
      hide OrderQueue.Linked, Distinct, Wrap64, Order.State;
      Link(order);
      orderCount := orderCount + 1;
      totalQty := Wrap64(totalQty + order.State().Remaining());
      orderMap := orderMap[order.orderId := order];
    }

    /** The order before one order, or the head, comes to point behind it. */
    method SkipForward(order: Order, ghost at: nat)
      requires Linked() && at < |contents| && contents[at] == order
      modifies this`head, contents`next
      ensures head == if at == 0 then old(order.next) else old(head)
      ensures forall i {:trigger contents[i].next} :: 0 <= i < |contents| ==>
        contents[i].next == if i + 1 == at then old(order.next) else old(contents[i].next)
    {
      if order.prev != null {
        order.prev.next := order.next;
      } else {
        head := order.next;
      }
    }

    /** The order behind it, or the tail, comes to point before it. */
    method SkipBack(order: Order, ghost at: nat)
      requires Distinct(contents) && at < |contents| && contents[at] == order
      requires order.next == if at + 1 < |contents| then contents[at + 1] else null
      modifies this`tail, contents`prev
      ensures tail == if at + 1 == |contents| then old(order.prev) else old(tail)
      ensures forall i {:trigger contents[i].prev} :: 0 <= i < |contents| ==>
        contents[i].prev == if i == at + 1 then old(order.prev) else old(contents[i].prev)
    {
      if order.next != null {
        order.next.prev := order.prev;
      } else {
        tail := order.prev;
      }
    }

    /** Splices one order out of the links, at whatever position it stands. */
    method Unlink(order: Order, ghost at: nat)
      requires Valid() && at < |contents| && contents[at] == order
      modifies this`head, this`tail, this`contents, contents`prev, contents`next
      ensures Linked() && contents == old(contents)[..at] + old(contents)[at + 1..]
      ensures Distinct(old(contents)) && Indexes(orderMap, old(contents)) && orderCount == |old(contents)|
      ensures order.prev == null && order.next == null
    {
      hide Indexes;
      ghost var was := contents;
      SkipForward(order, at);
      SkipBack(order, at);
      order.prev := null;
      order.next := null;
      contents := contents[..at] + contents[at + 1..];
      assert forall i :: 0 <= i < |contents| ==> contents[i] == was[if i < at then i else i + 1];
    }

    /** Drops an unlinked order from the counters and the id map. */
    method Forget(order: Order, ghost was: seq<Order>, ghost at: nat)
      requires Linked() && at < |was| && was[at] == order && orderCount == |was|
      requires Distinct(was)
      requires Indexes(orderMap, was) && contents == was[..at] + was[at + 1..]
      modifies this`totalQty, this`orderCount, this`orderMap
      ensures Valid() && totalQty == Wrap64(old(totalQty) - order.State().Remaining())
      ensures order.orderId !in orderMap
    {
      IndexesWithout(orderMap, was, at);
      totalQty := Wrap64(totalQty - order.State().Remaining());
      orderCount := orderCount - 1;
      orderMap := orderMap - {order.orderId};
    }

    /** Splices the first order out of the links. */
    method UnlinkFront() returns (order: Order)
      requires Valid() && |contents| > 0
      modifies this`head, this`tail, this`contents, contents`prev, contents`next
      ensures Linked() && order == old(contents)[0] && contents == old(contents)[1..]
      ensures Distinct(old(contents)) && Indexes(orderMap, old(contents)) && orderCount == |old(contents)|
      ensures contents == old(contents)[..0] + old(contents)[0 + 1..]
    {
      order := head;
      head := head.next;
      if head != null {
        head.prev := null;
      } else {
        tail := null;
      }
      order.prev := null;
      order.next := null;
      contents := contents[1..];
    }

    method PopFront() returns (order: Order?)
      requires Valid()
      modifies this, contents`prev, contents`next
      ensures Valid()
      ensures |old(contents)| == 0 ==> order == null && contents == old(contents) && totalQty == old(totalQty)
      ensures |old(contents)| > 0 ==> order == old(contents)[0] && contents == old(contents)[1..]
      ensures |old(contents)| > 0 ==> totalQty == Wrap64(old(totalQty) - old(contents)[0].State().Remaining())
    {
      if head == null {
        return null;
      }
      order := PopFirst();
    }

    method PopFirst() returns (order: Order)
      requires Valid() && |contents| > 0
      modifies this, contents`prev, contents`next
      ensures Valid() && order == old(contents)[0] && contents == old(contents)[1..]
      ensures totalQty == Wrap64(old(totalQty) - order.State().Remaining()) && order.orderId !in orderMap
    {
      ghost var was := contents;
      hide *;
      order := UnlinkFront();
      Forget(order, was, 0);
    }

    /** Removes an order by id; `at` is the position it had. */
    method Remove(orderId: nat) returns (found: bool, ghost at: nat)
      requires Valid()
      modifies this, contents`prev, contents`next
      ensures Valid()
      ensures found <==> orderId in old(orderMap)
      ensures !found ==> contents == old(contents) && totalQty == old(totalQty)
      ensures found ==> at < |old(contents)| && old(contents[at].orderId) == orderId
      ensures found ==> contents == old(contents)[..at] + old(contents)[at + 1..]
      ensures found ==> totalQty == Wrap64(old(totalQty) - old(contents)[at].State().Remaining())
    {
      if orderId !in orderMap {
        return false, 0;
      }
      var order := orderMap[orderId];
      at :| 0 <= at < |contents| && contents[at] == order;
      hide *;
      Unlink(order, at);
      Forget(order, old(contents), at);
      return true, at;
    }
  }
}
