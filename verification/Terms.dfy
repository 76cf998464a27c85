// The terms of a submission, in prices, quantities, IDs and statuses alone: who
// trades with whom, at which price, what is left of both sides, and how the
// order ends (internal/matching/book/orderbook.go:135-351). They leave exactly
// one outcome, and matching gives it.
module Terms {
  import opened Matching
  import opened MatchingLaws
  import opened Priority

  // ---- The trades ----

  // The k-th trade is with the k-th resting order, at that order's price, between
  // these two users, within the taker's limit, and for all the maker has unless
  // it is the last; and it stops short of the taker's quantity only when the next
  // resting order is strictly beyond the limit, or there is none.
  ghost predicate Fair(o: Order, opps: seq<Order>, trades: seq<Trade>) {
    var n := |trades|;
    && n <= |opps| && TotalQuantity(trades) <= o.quantity
    && (forall k :: 0 <= k < n ==> FairTrade(o, opps[k], trades[k]))
    && (forall k :: 0 <= k < n - 1 ==> trades[k].quantity == opps[k].remaining)
    && (TotalQuantity(trades) < o.quantity ==>
          && (n > 0 ==> trades[n - 1].quantity == opps[n - 1].remaining)
          && (n < |opps| ==> BeyondLimit(o, opps[n].price)))
  }

  lemma GreedyIsFair(o: Order, opps: seq<Order>)
    requires o.remaining == o.quantity > 0 && AllLive(opps) && InPriority(Opposite(o.side), opps)
    ensures Fair(o, opps, Greedy(o, opps).trades)
  {
    hide Greedy, Matchable, InPriority, AllLive, TotalQuantity, Order.Fill;
    GreedyIsPriceTime(o, opps);
    GreedyFills(o, opps);
  }

  // These terms leave no choice.
  lemma FairIsUnique(o: Order, opps: seq<Order>, ts: seq<Trade>, us: seq<Trade>)
    requires Fair(o, opps, ts) && Fair(o, opps, us)
    ensures ts == us
  {
    hide TotalQuantity, FairTrade, BeyondLimit;
    if |ts| <= |us| {
      NoLonger(o, opps, ts, us);
      SameTrades(o, opps, ts, us);
    } else {
      NoLonger(o, opps, us, ts);
      SameTrades(o, opps, us, ts);
    }
  }

  lemma TotalLast(ts: seq<Trade>)
    requires ts != []
    ensures TotalQuantity(ts) == TotalQuantity(ts[..|ts| - 1]) + ts[|ts| - 1].quantity
  {
  }

  lemma {:induction false} TotalGrows(ts: seq<Trade>, n: nat)
    requires n <= |ts| && forall k :: 0 <= k < |ts| ==> ts[k].quantity > 0
    ensures TotalQuantity(ts[..n]) <= TotalQuantity(ts)
    ensures n < |ts| ==> TotalQuantity(ts[..n]) + ts[n].quantity <= TotalQuantity(ts)
  {
    if n == |ts| {
      assert ts[..n] == ts;
    } else {
      var pre := ts[..|ts| - 1];
      if n < |ts| - 1 { TotalGrows(pre, n); }
      assert pre[..n] == ts[..n];
    }
  }

  // All but the last trade are the same, being for all the maker has.
  lemma {:induction false} SameStart(o: Order, opps: seq<Order>, ts: seq<Trade>, us: seq<Trade>, n: nat)
    requires Fair(o, opps, ts) && Fair(o, opps, us) && n < |ts| && n < |us|
    ensures ts[..n] == us[..n]
  {
    hide TotalQuantity, BeyondLimit;
    if n > 0 {
      SameStart(o, opps, ts, us, n - 1);
      assert ts[n - 1] == us[n - 1];
      assert ts[..n] == ts[..n - 1] + [ts[n - 1]] && us[..n] == us[..n - 1] + [us[n - 1]];
    }
  }

  // The one with fewer trades has filled the order or reached its limit.
  lemma NoLonger(o: Order, opps: seq<Order>, ts: seq<Trade>, us: seq<Trade>)
    requires Fair(o, opps, ts) && Fair(o, opps, us) && |ts| <= |us|
    ensures |ts| == |us|
  {
    hide TotalQuantity;
    var n := |ts|;
    if n < |us| {
      TotalGrows(us, n);
      if n > 0 {
        SameStart(o, opps, ts, us, n - 1);
        TotalLast(ts);
        TotalLast(us[..n]);
        assert us[..n][..n - 1] == us[..n - 1];
      }
    }
  }

  lemma SameTrades(o: Order, opps: seq<Order>, ts: seq<Trade>, us: seq<Trade>)
    requires Fair(o, opps, ts) && Fair(o, opps, us) && |ts| == |us|
    ensures ts == us
  {
    hide TotalQuantity, BeyondLimit;
    var n := |ts|;
    if n > 0 {
      SameStart(o, opps, ts, us, n - 1);
      TotalLast(ts);
      TotalLast(us);
      assert ts[n - 1] == us[n - 1];
      assert ts == ts[..n - 1] + [ts[n - 1]] && us == us[..n - 1] + [us[n - 1]];
    }
  }

  // ---- What is left of the resting orders ----

  // Those traded with are gone, but the last if something of it is left.
  ghost function Remains(opps: seq<Order>, trades: seq<Trade>): seq<Order>
    requires |trades| <= |opps|
  {
    var n := |trades|;
    if n > 0 && trades[n - 1].quantity < opps[n - 1].remaining then
      var o, q := opps[n - 1], trades[n - 1].quantity;
      [o.(filled := o.filled + q, remaining := o.remaining - q, status := PartialFilled)] + opps[n..]
    else
      opps[n..]
  }

  lemma {:induction false} ActivesConcat(a: seq<Order>, b: seq<Order>)
    ensures Actives(a + b) == Actives(a) + Actives(b)
  {
    if b == [] {
      assert a + b == a;
    } else {
      ActivesConcat(a, b[..|b| - 1]);
      assert (a + b)[..|a + b| - 1] == a + b[..|b| - 1];
    }
  }

  lemma {:induction false} ActivesOfNone(s: seq<Order>)
    requires forall k :: 0 <= k < |s| ==> !s[k].IsActive()
    ensures Actives(s) == []
  {
    if s != [] { ActivesOfNone(s[..|s| - 1]); }
  }

  lemma GreedyRemains(o: Order, opps: seq<Order>)
    requires o.remaining > 0 && AllLive(opps) && InPriority(Opposite(o.side), opps)
    ensures
      var out := Greedy(o, opps);
      |out.trades| <= |opps| && Actives(out.resting) == Remains(opps, out.trades)
  {
    hide Greedy, Actives, InPriority, TradeOf, Order.Accepts;
    var out := Greedy(o, opps);
    var n := |out.trades|;
    GreedyIsPriceTime(o, opps);
    assert out.resting[n..] == opps[n..];
    ActivesOfLive(opps[n..]);
    if n == 0 {
      assert out.resting == opps;
    } else {
      var gone, last := out.resting[..n - 1], out.resting[n - 1];
      ActivesOfNone(gone);
      ActivesConcat(gone + [last], out.resting[n..]);
      ActivesConcat(gone, [last]);
      ActivesOfOne(last);
      assert out.resting == gone + [last] + out.resting[n..];
    }
  }

  lemma ActivesOfOne(o: Order)
    ensures Actives([o]) == if o.IsActive() then [o] else []
  {
    assert [o][..0] == [];
  }

  // ---- How the order ends ----

  // Where a remainder rests: behind all prices at least as good, before all
  // strictly worse ones.
  ghost predicate Placed(s: seq<Order>, u: Order, s': seq<Order>) {
    exists i :: 0 <= i <= |s| && s' == s[..i] + [u] + s[i..] && PlacedAt(s, u, i)
  }

  ghost predicate PlacedAt(s: seq<Order>, u: Order, i: nat) {
    && i <= |s|
    && (forall k :: 0 <= k < i ==> (u.side == Buy ==> s[k].price >= u.price) && (u.side == Sell ==> s[k].price <= u.price))
    && (forall k :: i <= k < |s| ==> (u.side == Buy ==> s[k].price < u.price) && (u.side == Sell ==> s[k].price > u.price))
  }

  // The reply to an order that could make these trades. A FOK order they do not
  // fill is rejected and nothing happens; of any other what is left rests if it
  // is a limit order, and is given up if not.
  ghost predicate EndsAs(b: Book, o: Order, ts: seq<Trade>, r: Reply) {
    var got, left := TotalQuantity(ts), o.quantity - TotalQuantity(ts);
    if o.orderType == FOK && left > 0 then
      && !r.ok && r.trades == [] && r.book == b
      && r.taker == o.(filled := got, remaining := left, unfilled := left, status := Rejected)
    else
      && r.ok && r.trades == ts
      && r.taker == o.(filled := got, remaining := left, unfilled := if o.orderType == Limit then 0 else left,
           status := if o.orderType != Limit || left == 0 then Filled else if got == 0 then Pending else PartialFilled)
      && (o.side == Buy ==> BooksAs(b.asks, b.bids, ts, r.taker, r.book.asks, r.book.bids))
      && (o.side == Sell ==> BooksAs(b.bids, b.asks, ts, r.taker, r.book.bids, r.book.asks))
  }

  // The opposite side and the order's own side, afterwards.
  ghost predicate BooksAs(opps: seq<Order>, own: seq<Order>, ts: seq<Trade>, u: Order, opps': seq<Order>, own': seq<Order>) {
    && |ts| <= |opps| && opps' == Remains(opps, ts)
    && if u.orderType == Limit && u.remaining > 0 then Placed(own, u, own') else own' == own
  }

  ghost predicate Settles(b: Book, o: Order, r: Reply) {
    exists ts :: Fair(o, if o.side == Buy then b.asks else b.bids, ts) && EndsAs(b, o, ts, r)
  }

  lemma SubmitSettles(b: Book, o: Order)
    requires Wf(b) && Fresh(b, o)
    ensures Settles(b, o, Submit(b, o))
  {
    hide Wf, Greedy, Actives, InPriority, AllLive, Fair, Rest, Placed, Remains, TotalQuantity, Matchable;
    var opp := Opposite(o.side);
    var opps := b.On(opp);
    FreshIsNew(b, o);
    SideOf(b, Buy);
    SideOf(b, Sell);
    GreedyIsFair(o, opps);
    GreedyRemains(o, opps);
    GreedyFills(o, opps);
    GreedyTaker(o, opps);
    ActivesOfLive(b.On(o.side));
    var out := Greedy(o, opps);
    RestIsPlaced(b.On(o.side), out.taker);
    assert EndsAs(b, o, out.trades, Submit(b, o));
  }

  lemma FreshIsNew(b: Book, o: Order)
    requires Fresh(b, o)
    ensures o.remaining == o.quantity > 0 && o.filled == 0 == o.unfilled && o.status == Pending
  {
  }

  lemma SideOf(b: Book, side: Side)
    requires Wf(b)
    ensures AllLive(b.On(side)) && InPriority(side, b.On(side))
  {
    WfSide(b, side);
    SideIsLive(b.On(side), side);
  }

  lemma RestIsPlaced(s: seq<Order>, u: Order)
    requires InPriority(u.side, s)
    ensures Placed(s, u, Rest(s, u))
  {
    var i := Slot(u.side, s, u.price);
    forall k | i <= k < |s| ensures Rank(u.side, s[k].price) > Rank(u.side, u.price) {
      assert i < k ==> Before(u.side, s[i], s[k]);
    }
    assert PlacedAt(s, u, i);
  }

  // The terms leave one reply.
  lemma SettlesOnce(b: Book, o: Order, q: Reply, r: Reply)
    requires Settles(b, o, q) && Settles(b, o, r)
    ensures q == r
  {
    hide Fair, Placed, TotalQuantity, Remains;
    var opps := if o.side == Buy then b.asks else b.bids;
    var ts :| Fair(o, opps, ts) && EndsAs(b, o, ts, q);
    var us :| Fair(o, opps, us) && EndsAs(b, o, us, r);
    FairIsUnique(o, opps, ts, us);
    if q.ok && o.side == Buy { PlacedOnce(b.bids, q.taker, q.book.bids, r.book.bids); }
    if q.ok && o.side == Sell { PlacedOnce(b.asks, q.taker, q.book.asks, r.book.asks); }
  }

  lemma PlacedOnce(s: seq<Order>, u: Order, p: seq<Order>, q: seq<Order>)
    ensures Placed(s, u, p) && Placed(s, u, q) ==> p == q
  {
    if Placed(s, u, p) && Placed(s, u, q) {
      var i :| 0 <= i <= |s| && p == s[..i] + [u] + s[i..] && PlacedAt(s, u, i);
      var j :| 0 <= j <= |s| && q == s[..j] + [u] + s[j..] && PlacedAt(s, u, j);
      OnePlace(s, u, i);
    }
  }

  lemma OnePlace(s: seq<Order>, u: Order, i: nat)
    requires PlacedAt(s, u, i)
    ensures forall j: nat :: PlacedAt(s, u, j) ==> j == i
  {
    forall j: nat | j <= |s| && j != i ensures !PlacedAt(s, u, j) {
      var k := if i < j then i else j;
      assert s[k].price <= s[k].price;
    }
  }

  // So they say what a submission does, and nothing less.
  lemma SubmitIsTheOne(b: Book, o: Order, r: Reply)
    requires Wf(b) && Fresh(b, o)
    ensures Settles(b, o, r) <==> r == Submit(b, o)
  {
    hide Settles, Submit, Wf, Fresh;
    SubmitSettles(b, o);
    if Settles(b, o, r) { SettlesOnce(b, o, r, Submit(b, o)); }
  }

  // ---- Cancelling ----

  ghost function Others(s: seq<Order>, id: string): seq<Order> {
    if s == [] then [] else (if s[0].orderId == id then [] else [s[0]]) + Others(s[1..], id)
  }

  // A cancellation takes out the orders of that ID, of which a well-formed book
  // has one or none, leaves the others as they stand, and says whether there was
  // one.
  ghost predicate Withdraws(b: Book, id: string, r: CancelReply) {
    && r.book == Book(Others(b.bids, id), Others(b.asks, id))
    && r.found == exists x :: (x in b.bids || x in b.asks) && x.orderId == id
  }

  lemma CancelWithdraws(b: Book, id: string)
    requires Wf(b)
    ensures Withdraws(b, id, Cancel(b, id))
  {
    hide Uncrossed, InPriority, OneSided;
    FindMembers(b.bids, id);
    FindMembers(b.asks, id);
    OthersAre(b.bids, id);
    OthersAre(b.asks, id);
    if Find(b.bids, id) < |b.bids| { assert b.bids[Find(b.bids, id)] in b.bids; }
    if Find(b.asks, id) < |b.asks| { assert b.asks[Find(b.asks, id)] in b.asks; }
  }

  lemma {:induction false} OthersAre(s: seq<Order>, id: string)
    requires DistinctIds(s)
    ensures Others(s, id) == if Find(s, id) < |s| then Drop(s, Find(s, id)) else s
  {
    hide DistinctIds, Drop;
    if s != [] {
      TailDistinct(s);
      if s[0].orderId == id {
        AllOthers(s[1..], id);
        DropFirst(s);
      } else {
        OthersAre(s[1..], id);
        if Find(s[1..], id) < |s[1..]| { DropLater(s, Find(s[1..], id)); }
        assert [s[0]] + s[1..] == s;
      }
    }
  }

  lemma TailDistinct(s: seq<Order>)
    requires s != [] && DistinctIds(s)
    ensures DistinctIds(s[1..]) && forall k :: 0 <= k < |s[1..]| ==> s[1..][k].orderId != s[0].orderId
  {
  }

  lemma {:induction false} AllOthers(s: seq<Order>, id: string)
    requires forall k :: 0 <= k < |s| ==> s[k].orderId != id
    ensures Others(s, id) == s
  {
    if s != [] {
      AllOthers(s[1..], id);
      assert [s[0]] + s[1..] == s;
    }
  }

  lemma DropFirst(s: seq<Order>)
    requires s != []
    ensures Drop(s, 0) == s[1..]
  {
  }

  lemma DropLater(s: seq<Order>, i: nat)
    requires i + 1 < |s|
    ensures Drop(s, i + 1) == [s[0]] + Drop(s[1..], i)
  {
  }

  // ---- The book ----

  // A well-formed book, in prices and times: asks from the lowest price up, bids
  // from the highest down, older orders first at one price, and the best bid
  // below the best ask.
  lemma WfIsSorted(b: Book)
    requires Wf(b)
    ensures forall i, j :: 0 <= i < j < |b.asks| ==>
      b.asks[i].price < b.asks[j].price || (b.asks[i].price == b.asks[j].price && b.asks[i].createdAt < b.asks[j].createdAt)
    ensures forall i, j :: 0 <= i < j < |b.bids| ==>
      b.bids[i].price > b.bids[j].price || (b.bids[i].price == b.bids[j].price && b.bids[i].createdAt < b.bids[j].createdAt)
    ensures b.bids != [] && b.asks != [] ==> b.bids[0].price < b.asks[0].price
  {
    if b.bids != [] && b.asks != [] { assert b.bids[0] in b.bids && b.asks[0] in b.asks; }
    forall i, j | 0 <= i < j < |b.asks| ensures Before(Sell, b.asks[i], b.asks[j]) {}
    forall i, j | 0 <= i < j < |b.bids| ensures Before(Buy, b.bids[i], b.bids[j]) {}
  }
}
