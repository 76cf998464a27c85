// Rebuilding a book from loose orders: sorting once and appending gives what
// resting them one by one in time order gives.
module Batch {
  import opened Matching
  import opened MatchingLaws

  // One order at a time, in the given order (addToBookInternal on each).
  function RestAll(b: Book, orders: seq<Order>): Book {
    if orders == [] then b
    else
      var pre := RestAll(b, orders[..|orders| - 1]);
      var o := orders[|orders| - 1];
      pre.With(o.side, Rest(pre.On(o.side), o))
  }

  // What sorting once and appending guarantees: the same orders, each on its
  // side, in priority.
  ghost predicate IsSorted(b: Book, orders: seq<Order>) {
    && multiset(b.bids) + multiset(b.asks) == multiset(orders)
    && (forall x :: x in b.bids ==> x.side == Buy) && (forall x :: x in b.asks ==> x.side == Sell)
    && InPriority(Buy, b.bids) && InPriority(Sell, b.asks)
  }

  ghost predicate ByTime(orders: seq<Order>) {
    forall i, j :: 0 <= i < j < |orders| ==> orders[i].createdAt < orders[j].createdAt
  }

  lemma {:induction false} RestAllIsSorted(orders: seq<Order>)
    requires ByTime(orders)
    ensures IsSorted(RestAll(EMPTY_BOOK, orders), orders)
  {
    if orders != [] {
      var pre, o := orders[..|orders| - 1], orders[|orders| - 1];
      RestAllIsSorted(pre);
      assert orders == pre + [o];
      RestOneMore(RestAll(EMPTY_BOOK, pre), pre, o);
    }
  }

  lemma RestOneMore(b: Book, pre: seq<Order>, o: Order)
    requires IsSorted(b, pre) && forall x :: x in pre ==> x.createdAt < o.createdAt
    ensures IsSorted(b.With(o.side, Rest(b.On(o.side), o)), pre + [o])
  {
    forall x | x in b.On(o.side) ensures x.createdAt < o.createdAt {
      assert x in multiset(b.bids) + multiset(b.asks);
      assert x in multiset(pre);
    }
    RestLater(b.On(o.side), o);
    RestMembers(b.On(o.side), o);
    assert multiset(pre + [o]) == multiset(pre) + multiset{o};
  }

  // Priority leaves no choice in ordering a multiset of orders.
  lemma {:induction false} PriorityIsUnique(side: Side, a: seq<Order>, b: seq<Order>)
    requires multiset(a) == multiset(b) && InPriority(side, a) && InPriority(side, b)
    ensures a == b
  {
    assert |a| == |multiset(a)| == |multiset(b)| == |b|;
    if a != [] {
      SameFirst(side, a, b);
      assert a == [a[0]] + a[1..] && b == [b[0]] + b[1..];
      assert multiset(a[1..]) == multiset(a) - multiset{a[0]};
      assert multiset(b[1..]) == multiset(b) - multiset{b[0]};
      PriorityIsUnique(side, a[1..], b[1..]);
    }
  }

  lemma SameFirst(side: Side, a: seq<Order>, b: seq<Order>)
    requires multiset(a) == multiset(b) && a != [] && b != [] && InPriority(side, a) && InPriority(side, b)
    ensures a[0] == b[0]
  {
    assert a[0] in multiset(b) && b[0] in multiset(a);
    var i :| 0 <= i < |b| && b[i] == a[0];
    var j :| 0 <= j < |a| && a[j] == b[0];
    assert j > 0 ==> Before(side, a[0], a[j]);
    assert i > 0 ==> Before(side, b[0], b[i]);
    assert i == 0 || j == 0;
  }

  // The multiset of orders fixes each side's multiset.
  lemma SidesFixed(b: Book, c: Book, orders: seq<Order>)
    requires IsSorted(b, orders) && IsSorted(c, orders)
    ensures multiset(b.bids) == multiset(c.bids) && multiset(b.asks) == multiset(c.asks)
  {
    forall x: Order
      ensures multiset(b.bids)[x] == multiset(c.bids)[x] && multiset(b.asks)[x] == multiset(c.asks)[x]
    {
      var whole := multiset(orders);
      assert (multiset(b.bids) + multiset(b.asks))[x] == whole[x] == (multiset(c.bids) + multiset(c.asks))[x];
      if x.side == Buy {
        assert x !in b.asks && x !in c.asks;
      } else {
        assert x !in b.bids && x !in c.bids;
      }
    }
  }

  // Sorted once and appended, or rested one by one in time order: one book.
  lemma BatchIsOneByOne(b: Book, orders: seq<Order>, byTime: seq<Order>)
    requires IsSorted(b, orders)
    requires multiset(byTime) == multiset(orders) && ByTime(byTime)
    ensures b == RestAll(EMPTY_BOOK, byTime)
  {
    var c := RestAll(EMPTY_BOOK, byTime);
    RestAllIsSorted(byTime);
    assert IsSorted(c, orders);
    SidesFixed(b, c, orders);
    PriorityIsUnique(Buy, b.bids, c.bids);
    PriorityIsUnique(Sell, b.asks, c.asks);
  }
}
