// Matching one taker through the index, in place
// (internal/matching/book/orderbook.go:149-256).
module Walk {
  import opened Matching
  import opened SkipLists
  import opened Orders
  import opened Sorting
  import Priority
  import opened PriceIndex

  // ---- Matching one taker against the opposite list, in place ----

  // Orders the flat list no longer needs to visit change nothing.
  lemma {:induction false} GreedySkip(t: Order, vals: seq<Order>, c: nat, e: nat)
    requires c <= e <= |vals|
    requires forall j :: c <= j < e ==>
      !(Greedy(t, vals[..c]).taker.remaining > 0 && vals[j].IsActive() && Greedy(t, vals[..c]).taker.Accepts(vals[j].price))
    ensures
      var out := Greedy(t, vals[..c]);
      Greedy(t, vals[..e]) == Outcome(out.taker, out.resting + vals[c..e], out.trades)
  {
    hide Greedy;
    var out := Greedy(t, vals[..c]);
    if c == e {
      assert out.resting + vals[c..e] == out.resting;
    } else {
      GreedySkip(t, vals, c, e - 1);
      GreedyStep(t, vals, e - 1);
      assert vals[c..e] == vals[c..e - 1] + [vals[e - 1]];
      assert out.resting + (vals[c..e - 1] + [vals[e - 1]]) == out.resting + vals[c..e - 1] + [vals[e - 1]];
    }
  }

  lemma GreedyStep(t: Order, vals: seq<Order>, c: nat)
    requires c < |vals|
    ensures Greedy(t, vals[..c + 1]) == Meet(Greedy(t, vals[..c]), vals[c])
  {
    assert vals[..c + 1][..c] == vals[..c];
  }

  // `order` has met the first c of `opps`, which held `vals` before.
  ghost predicate Progress(order: OrderInBook, opps: seq<OrderInBook>, t: Order, vals: seq<Order>, c: nat, trades: seq<Trade>)
    reads order, opps
  {
    && |vals| == |opps| && c <= |opps|
    && var out := Greedy(t, vals[..c]);
    && order.Value() == out.taker && trades == out.trades
    && (forall j :: 0 <= j < c ==> opps[j].Value() == out.resting[j])
    && (forall j :: c <= j < |opps| ==> opps[j].Value() == vals[j])
  }

  lemma ProgressSkip(order: OrderInBook, opps: seq<OrderInBook>, t: Order, vals: seq<Order>, c: nat, e: nat, trades: seq<Trade>)
    requires Progress(order, opps, t, vals, c, trades) && c <= e <= |opps|
    requires forall j :: c <= j < e ==>
      !(order.remainingQty > 0 && vals[j].IsActive() && order.Value().Accepts(vals[j].price))
    ensures Progress(order, opps, t, vals, e, trades)
  {
    GreedySkip(t, vals, c, e);
  }

  // What a rollback needs to know about one touched order.
  datatype Saved = Saved(opp: OrderInBook, filled: int, remaining: int, status: Status)

  ghost function SaveOf(o: OrderInBook, v: Order): Saved {
    Saved(o, v.filled, v.remaining, v.status)
  }

  // Every touched order is in the journal, with the state it had before.
  ghost predicate Journaled(restored: seq<Saved>, opps: seq<OrderInBook>, vals: seq<Order>)
    reads opps
  {
    && |vals| == |opps|
    && (forall r :: r in restored ==> exists j :: 0 <= j < |opps| && r == SaveOf(opps[j], vals[j]))
    && (forall j :: 0 <= j < |opps| ==> Restorable(opps[j], vals[j]))
    && (forall j :: 0 <= j < |opps| ==> opps[j].Value() == vals[j] || SaveOf(opps[j], vals[j]) in restored)
  }

  ghost predicate Restorable(o: OrderInBook, v: Order)
    reads o
  {
    o.Value().(filled := v.filled, remaining := v.remaining, status := v.status) == v
  }

  // One trade: both orders fill by the smaller remainder, at the resting price.
  method Exchange(order: OrderInBook, opp: OrderInBook) returns (trade: Trade)
    requires order != opp
    modifies order, opp
    ensures
      var qty := Min(old(order.remainingQty), old(opp.remainingQty));
      && trade == TradeOf(old(order.Value()), old(opp.Value()), qty)
      && order.Value() == old(order.Value()).Fill(qty) && opp.Value() == old(opp.Value()).Fill(qty)
  {
    var filledQty := Min(order.remainingQty, opp.remainingQty);
    if order.side == Buy {
      trade := Trade(order.orderId, opp.orderId, order.userId, opp.userId, opp.price, filledQty);
    } else {
      trade := Trade(opp.orderId, order.orderId, opp.userId, order.userId, opp.price, filledQty);
    }
    order.Fill(filledQty);
    opp.Fill(filledQty);
  }

  lemma FairExchange(o: Order, opp: Order)
    requires o.remaining > 0 && opp.remaining > 0 && o.Accepts(opp.price)
    ensures
      var q := Min(o.remaining, opp.remaining);
      Priority.FairTrade(o, opp, TradeOf(o, opp, q)) && TradeOf(o, opp, q).quantity == q && (q == o.remaining || q == opp.remaining)
  {
  }

  // The next order of the flat list trades.
  method MatchNext(order: OrderInBook, ghost opps: seq<OrderInBook>, ghost t: Order, ghost vals: seq<Order>, ghost c: nat,
                   opp: OrderInBook, trades0: seq<Trade>, restored0: seq<Saved>)
    returns (trades: seq<Trade>, restored: seq<Saved>)
    requires c < |opps| && opp == opps[c] && order !in opps && DistinctOrders(opps)
    requires Progress(order, opps, t, vals, c, trades0) && Journaled(restored0, opps, vals)
    requires opp.IsActive() && order.Value().Accepts(opp.price) && order.remainingQty > 0 && opp.remainingQty > 0
    modifies order, opp
    ensures Progress(order, opps, t, vals, c + 1, trades) && Journaled(restored, opps, vals)
    ensures order.remainingQty >= 0
    ensures |trades| == |trades0| + 1 && trades[..|trades0|] == trades0
    ensures Priority.FairTrade(old(order.Value()), old(opp.Value()), trades[|trades0|])
    ensures old(order.remainingQty) == trades[|trades0|].quantity || old(opp.remainingQty) == trades[|trades0|].quantity
  {
    hide TradeOf, Priority.FairTrade, Order.Accepts;
    FairExchange(order.Value(), opp.Value());
    restored := restored0 + [Saved(opp, opp.filledQuantity, opp.remainingQty, opp.status)];
    var trade := Exchange(order, opp);
    trades := trades0 + [trade];
    GreedyStep(t, vals, c);
    assert SaveOf(opps[c], vals[c]) in restored;
  }

  // One price level, oldest order first, until the taker is filled or its
  // limit is passed.
  method MatchLevel(order: OrderInBook, pl: PriceLevel,
                    ghost opps: seq<OrderInBook>, ghost t: Order, ghost vals: seq<Order>, ghost c: nat,
                    trades0: seq<Trade>, restored0: seq<Saved>)
    returns (trades: seq<Trade>, restored: seq<Saved>)
    requires IsSegment(pl.orders, opps, c, pl.price) && order !in opps && DistinctOrders(opps)
    requires Positive(vals)
    requires Progress(order, opps, t, vals, c, trades0) && Journaled(restored0, opps, vals) && order.remainingQty > 0
    modifies order, opps, pl
    ensures pl.orders == old(pl.orders)
    ensures Journaled(restored, opps, vals) && order.remainingQty >= 0
    ensures Progress(order, opps, t, vals, if order.remainingQty == 0 then |opps| else c + |pl.orders|, trades)
  {
    hide Progress, Journaled;
    var sorted := SortSlice(ByTime, pl.orders);
    SortedIsUnique(ByTime, sorted, pl.orders);
    pl.orders := sorted;
    trades, restored := MatchOrders(order, pl.price, sorted, opps, t, vals, c, trades0, restored0);
  }

  ghost predicate Positive(vals: seq<Order>) {
    forall j :: 0 <= j < |vals| && vals[j].IsActive() ==> vals[j].remaining > 0
  }

  method MatchOrders(order: OrderInBook, ghost price: int, level: seq<OrderInBook>,
                     ghost opps: seq<OrderInBook>, ghost t: Order, ghost vals: seq<Order>, ghost c: nat,
                     trades0: seq<Trade>, restored0: seq<Saved>)
    returns (trades: seq<Trade>, restored: seq<Saved>)
    requires IsSegment(level, opps, c, price) && order !in opps && DistinctOrders(opps)
    requires Positive(vals)
    requires Progress(order, opps, t, vals, c, trades0) && Journaled(restored0, opps, vals) && order.remainingQty > 0
    modifies order, opps
    ensures Journaled(restored, opps, vals) && order.remainingQty >= 0
    ensures Progress(order, opps, t, vals, if order.remainingQty == 0 then |opps| else c + |level|, trades)
  {
    hide Progress, Journaled, DistinctOrders;
    trades, restored := trades0, restored0;
    var i := 0;
    while i < |level|
      invariant 0 <= i <= |level|
      invariant order.remainingQty > 0
      invariant Progress(order, opps, t, vals, c + i, trades) && Journaled(restored, opps, vals)
    {
      var opp := level[i];
      assert opp == opps[c + i] && opp.price == price;
      NextUntouched(order, opps, t, vals, c + i, trades);
      if !opp.IsActive() {
        ProgressSkip(order, opps, t, vals, c + i, c + i + 1, trades);
        i := i + 1;
        continue;
      }
      var canMatch := order.orderType == Market || order.CanMatch(opp.price);
      if !canMatch {
        assert forall j :: c + i <= j < c + |level| ==> opps[j] == level[j - c];
        SkipLevel(order, opps, t, vals, c + i, c + |level|, trades, price);
        return;
      }
      assert opp.remainingQty > 0;
      trades, restored := MatchNext(order, opps, t, vals, c + i, opp, trades, restored);
      i := i + 1;
      if order.IsFilled() {
        ProgressSkip(order, opps, t, vals, c + i, |opps|, trades);
        return;
      }
    }
  }

  lemma NextUntouched(order: OrderInBook, opps: seq<OrderInBook>, t: Order, vals: seq<Order>, c: nat, trades: seq<Trade>)
    requires Progress(order, opps, t, vals, c, trades) && c < |opps|
    ensures |vals| == |opps| && opps[c].Value() == vals[c]
  {
  }

  // Past an order at an unacceptable price, the rest of its level is too.
  lemma SkipLevel(order: OrderInBook, opps: seq<OrderInBook>, t: Order, vals: seq<Order>, c: nat, e: nat, trades: seq<Trade>, price: int)
    requires Progress(order, opps, t, vals, c, trades) && c <= e <= |opps|
    requires forall j :: c <= j < e ==> opps[j].price == price
    requires !order.Value().Accepts(price)
    ensures Progress(order, opps, t, vals, e, trades)
  {
    assert forall j :: c <= j < e ==> vals[j].price == opps[j].Value().price;
    ProgressSkip(order, opps, t, vals, c, e, trades);
  }

  // A taker may meet the list: it is not one of its orders, whose values are
  // `vals`, and the active ones have something left.
  ghost predicate Ready(order: OrderInBook, opps: seq<OrderInBook>, vals: seq<Order>)
    reads order, opps
  {
    && order !in opps && DistinctOrders(opps) && Positive(vals) && vals == Values(opps)
    && order.remainingQty > 0
  }

  lemma StartProgress(order: OrderInBook, opps: seq<OrderInBook>, vals: seq<Order>)
    requires Ready(order, opps, vals)
    ensures Progress(order, opps, order.Value(), vals, 0, []) && Journaled([], opps, vals)
  {
  }

  // One stop of a walk, at the k-th node: match its level.
  method VisitLevel(order: OrderInBook, pl: PriceLevel, ghost priceLevels: map<int, PriceLevel>,
                    ghost side: Side, ghost index: SkipList, ghost k: nat,
                    ghost opps: seq<OrderInBook>, ghost t: Order, ghost vals: seq<Order>, ghost c0: nat,
                    trades0: seq<Trade>, restored0: seq<Saved>)
    returns (trades: seq<Trade>, restored: seq<Saved>, ghost c: nat)
    requires SideIndexed(index, priceLevels, opps) && 1 <= k < |index.nodes|
    requires index.nodes[k].key in priceLevels && pl == priceLevels[index.nodes[k].key]
    requires Ranked(side, opps) && Boundary(side, opps, index.nodes[k].key, c0)
    requires order !in opps && DistinctOrders(opps) && Positive(vals)
    requires Progress(order, opps, t, vals, c0, trades0) && Journaled(restored0, opps, vals) && order.remainingQty > 0
    modifies order, opps, pl
    ensures LevelOrders(priceLevels) == old(LevelOrders(priceLevels))
    ensures SideIndexed(index, priceLevels, opps) && index.nodes == old(index.nodes)
    ensures Journaled(restored, opps, vals) && order.remainingQty >= 0
    ensures Progress(order, opps, t, vals, c, trades)
    ensures if order.remainingQty == 0 then c == |opps| else Behind(side, opps, index.nodes[k].key, c)
  {
    hide Progress, Journaled, Boundary, Behind;
    LevelIsSegment(side, index, priceLevels, opps, k, c0);
    trades, restored := MatchLevel(order, pl, opps, t, vals, c0, trades0, restored0);
    c := if order.remainingQty == 0 then |opps| else c0 + |pl.orders|;
    assert forall p :: p in priceLevels ==> priceLevels[p].orders == old(priceLevels[p].orders);
  }

  // One iteration of a walk. Only the header's key, 0, has no level.
  method StopAt(order: OrderInBook, key: int, priceLevels: map<int, PriceLevel>,
                ghost side: Side, ghost index: SkipList, ghost k: nat,
                ghost opps: seq<OrderInBook>, ghost t: Order, ghost vals: seq<Order>, ghost c0: nat,
                trades0: seq<Trade>, restored0: seq<Saved>)
    returns (trades: seq<Trade>, restored: seq<Saved>, ghost c: nat)
    requires SideIndexed(index, priceLevels, opps) && k < |index.nodes| && key == index.nodes[k].key
    requires if k == 0 then key !in priceLevels && c0 == |opps| else Boundary(side, opps, key, c0)
    requires Ranked(side, opps) && order !in opps && DistinctOrders(opps) && Positive(vals)
    requires Progress(order, opps, t, vals, c0, trades0) && Journaled(restored0, opps, vals) && order.remainingQty > 0
    modifies order, opps, priceLevels.Values
    ensures LevelOrders(priceLevels) == old(LevelOrders(priceLevels))
    ensures SideIndexed(index, priceLevels, opps) && index.nodes == old(index.nodes)
    ensures Journaled(restored, opps, vals) && order.remainingQty >= 0
    ensures Progress(order, opps, t, vals, c, trades)
    ensures if order.remainingQty == 0 || k == 0 then c == |opps| else Behind(side, opps, key, c)
  {
    hide Progress, Journaled, Boundary, Behind, SideIndexed, LevelOrders;
    trades, restored, c := trades0, restored0, c0;
    if k > 0 { KeyHasLevel(index, priceLevels, opps, k); }
    if key in priceLevels {
      trades, restored, c := VisitLevel(order, priceLevels[key], priceLevels, side, index, k, opps, t, vals, c0, trades0, restored0);
    }
  }

  // The walk of a buyer through the asks, lowest price first.
  method WalkAsks(order: OrderInBook, asks: SkipList, priceLevels: map<int, PriceLevel>,
                  ghost opps: seq<OrderInBook>, ghost vals: seq<Order>)
    returns (trades: seq<Trade>, restored: seq<Saved>)
    requires SideIndexed(asks, priceLevels, opps) && Ranked(Sell, opps) && Ready(order, opps, vals)
    modifies order, opps, priceLevels.Values
    ensures LevelOrders(priceLevels) == old(LevelOrders(priceLevels))
    ensures Progress(order, opps, old(order.Value()), vals, |opps|, trades) && Journaled(restored, opps, vals)
    ensures order.remainingQty >= 0
  {
    hide Progress, Journaled, Boundary, Behind, SideIndexed, LevelOrders;
    ghost var t := order.Value();
    ghost var c: nat, k: nat := 0, 1;
    StartProgress(order, opps, vals);
    IndexIsValid(asks, priceLevels, opps);
    NextAskBoundary(asks, priceLevels, opps, 0, 0);
    trades, restored := [], [];
    var node := asks.SeekFirst();
    while node != null
      invariant 1 <= k <= |asks.nodes| && node == NodeAt(asks.nodes, k)
      invariant SideIndexed(asks, priceLevels, opps) && asks.nodes == old(asks.nodes)
      invariant LevelOrders(priceLevels) == old(LevelOrders(priceLevels))
      invariant if k < |asks.nodes| then Boundary(Sell, opps, asks.nodes[k].key, c) else c == |opps|
      invariant order.remainingQty > 0
      invariant Progress(order, opps, t, vals, c, trades) && Journaled(restored, opps, vals)
      decreases |asks.nodes| - k
    {
      trades, restored, c := StopAt(order, node.key, priceLevels, Sell, asks, k, opps, t, vals, c, trades, restored);
      if order.IsFilled() {
        return;
      }
      NextAskBoundary(asks, priceLevels, opps, k, c);
      LinksOf(asks, priceLevels, opps, k);
      node := node.Next();
      k := k + 1;
    }
  }

  // The walk of a seller through the bids, highest price first. After the
  // first node Prev leads to the header, whose key 0 has no level.
  method WalkBids(order: OrderInBook, bids: SkipList, priceLevels: map<int, PriceLevel>,
                  ghost opps: seq<OrderInBook>, ghost vals: seq<Order>)
    returns (trades: seq<Trade>, restored: seq<Saved>)
    requires SideIndexed(bids, priceLevels, opps) && Ranked(Buy, opps) && Ready(order, opps, vals)
    requires bids.nodes[0].key !in priceLevels
    modifies order, opps, priceLevels.Values
    ensures LevelOrders(priceLevels) == old(LevelOrders(priceLevels))
    ensures Progress(order, opps, old(order.Value()), vals, |opps|, trades) && Journaled(restored, opps, vals)
    ensures order.remainingQty >= 0
  {
    hide Progress, Journaled, Boundary, Behind, SideIndexed, LevelOrders, Ranked, DistinctOrders, Positive;
    ghost var t := order.Value();
    IndexIsValid(bids, priceLevels, opps);
    ghost var c: nat, k: nat := 0, |bids.nodes| - 1;
    StartProgress(order, opps, vals);
    NextBidBoundary(bids, priceLevels, opps, k + 1, 0);
    trades, restored := [], [];
    var node := bids.SeekLast();
    while node != null
      invariant k < |bids.nodes| && (node == bids.nodes[k] || (k == 0 && node == null))
      invariant SideIndexed(bids, priceLevels, opps) && bids.nodes == old(bids.nodes)
      invariant LevelOrders(priceLevels) == old(LevelOrders(priceLevels))
      invariant if k > 0 then Boundary(Buy, opps, bids.nodes[k].key, c) else c == |opps|
      invariant order.remainingQty > 0
      invariant Progress(order, opps, t, vals, c, trades) && Journaled(restored, opps, vals)
      decreases k, node != null
    {
      trades, restored, c := StopAt(order, node.key, priceLevels, Buy, bids, k, opps, t, vals, c, trades, restored);
      if order.IsFilled() {
        return;
      }
      LinksOf(bids, priceLevels, opps, k);
      node := node.Prev();
      if k > 0 {
        NextBidBoundary(bids, priceLevels, opps, k, c);
        k := k - 1;
      }
    }
  }

  // Undoes every fill in the journal.
  method Rollback(restored: seq<Saved>, ghost opps: seq<OrderInBook>, ghost vals: seq<Order>)
    requires Journaled(restored, opps, vals) && DistinctOrders(opps)
    modifies opps
    ensures Values(opps) == vals
  {
    for n := 0 to |restored|
      invariant Journaled(restored[n..], opps, vals)
    {
      var r := restored[n];
      assert r in restored[n..];
      RestoreOne(r, restored[n..], opps, vals);
      assert restored[n..][1..] == restored[n + 1..];
    }
    assert restored[|restored|..] == [];
  }

  method RestoreOne(r: Saved, ghost rest: seq<Saved>, ghost opps: seq<OrderInBook>, ghost vals: seq<Order>)
    requires Journaled(rest, opps, vals) && DistinctOrders(opps) && rest != [] && r == rest[0]
    modifies opps
    ensures Journaled(rest[1..], opps, vals)
  {
    assert r in rest;
    ghost var j :| 0 <= j < |opps| && r == SaveOf(opps[j], vals[j]);
    assert Restorable(opps[j], vals[j]);
    r.opp.filledQuantity := r.filled;
    r.opp.remainingQty := r.remaining;
    r.opp.status := r.status;
    assert opps[j].Value() == vals[j];
    assert rest == [r] + rest[1..];
    assert forall x :: x in rest[1..] ==> x in rest;
    forall i | 0 <= i < |opps|
      ensures Restorable(opps[i], vals[i]) && (opps[i].Value() == vals[i] || SaveOf(opps[i], vals[i]) in rest[1..])
    {
      assert i != j ==> opps[i] != opps[j];
    }
  }
}
