// One symbol's order book (internal/matching/book/orderbook.go): the flat
// lists, the two price indexes and the shared level map, updated in place.
module OrderBooks {
  import opened Matching
  import opened MatchingLaws
  import opened SkipLists
  import opened Orders
  import opened Sorting
  import opened Terms
  import opened PriceIndex
  import opened Walk
  import opened Batch

  ghost predicate Within(ns: seq<SkipListNode>, ms: seq<SkipListNode>) {
    forall i :: 0 <= i < |ns| ==> ns[i] in ms
  }

  class OrderBook {
    var buyOrders: seq<OrderInBook>    // best price first
    var sellOrders: seq<OrderInBook>   // best price first
    const bids: SkipList
    const asks: SkipList
    var priceLevels: map<int, PriceLevel>

    constructor ()
      ensures Valid() && Contents() == EMPTY_BOOK && buyOrders == [] && sellOrders == [] && priceLevels == map[]
      ensures fresh(bids) && forall k :: 0 <= k < |bids.nodes| ==> fresh(bids.nodes[k])
      ensures fresh(asks) && forall k :: 0 <= k < |asks.nodes| ==> fresh(asks.nodes[k])
    {
      hide SkipList.Valid, SkipList.Keys, Holds, Wf, Values;
      bids := new SkipList();
      asks := new SkipList();
      buyOrders, sellOrders, priceLevels := [], [], map[];
      new;
      NothingHeld();
    }

    static lemma NothingHeld()
      ensures Holds([], map[], []) && Wf(EMPTY_BOOK) && Values([]) == []
    {
    }

    function Index(side: Side): SkipList {
      if side == Buy then bids else asks
    }

    ghost function ListOf(side: Side): seq<OrderInBook>
      reads this
    {
      if side == Buy then buyOrders else sellOrders
    }

    // The two lists are indexed: nothing here depends on how full an order is.
    ghost predicate Indexed(side: Side, list: seq<OrderInBook>, other: seq<OrderInBook>)
      reads this`priceLevels, bids, asks, bids.nodes, asks.nodes, priceLevels.Values
    {
      && SideIndexed(Index(side), priceLevels, list)
      && SideIndexed(Index(Opposite(side)), priceLevels, other)
      && Separate()
    }

    // The two indexes share the level map, but no key, no level and no node.
    ghost predicate Separate()
      reads this`priceLevels, bids, asks
    {
      && bids != asks
      && (forall i, j :: 0 <= i < |bids.nodes| && 0 <= j < |asks.nodes| ==> bids.nodes[i] != asks.nodes[j])
      && (forall p :: p in bids.Keys() ==> p !in asks.Keys())
      && (forall p :: p in priceLevels ==> p in bids.Keys() || p in asks.Keys())
      && OwnLevels(priceLevels)
    }

    ghost function Contents(): Book
      reads this, buyOrders, sellOrders
    {
      Book(Values(buyOrders), Values(sellOrders))
    }

    ghost predicate Valid()
      reads this, bids, asks, bids.nodes, asks.nodes, priceLevels.Values, buyOrders, sellOrders
    {
      Indexed(Buy, buyOrders, sellOrders) && Wf(Contents())
    }

    // removePriceLevel: the key leaves its index, the level leaves the map.
    method RemovePriceLevel(price: int, side: Side)
      requires Separate() && price in priceLevels && price in Index(side).Keys()
      requires Index(side).Valid() && Index(Opposite(side)).Valid()
      modifies this`priceLevels, Index(side), Index(side).nodes
      ensures priceLevels == old(priceLevels) - {price}
      ensures LevelOrders(priceLevels) == old(LevelOrders(priceLevels)) - {price}
      ensures Separate() && Index(side).Valid() && Index(Opposite(side)).Valid()
      ensures Index(Opposite(side)).Keys() == old(Index(Opposite(side)).Keys())
      ensures forall q :: q in Index(side).Keys() <==> q in old(Index(side).Keys()) && q != price
      ensures Within(Index(side).nodes, old(Index(side).nodes))
    {
      hide SkipList.Valid, SkipList.Keys;
      if side == Buy {
        var removed, p := bids.Delete(price);
      } else {
        var removed, p := asks.Delete(price);
      }
      priceLevels := priceLevels - {price};
    }

    // Takes one order out of its level, and the level out of the index when it
    // was alone there.
    method RemoveFromLevel(o: OrderInBook, side: Side, ghost list: seq<OrderInBook>, ghost k: nat, ghost other: seq<OrderInBook>)
      requires Indexed(side, list, other) && k < |list| && o == list[k] && DistinctOrders(list)
      modifies this`priceLevels, Index(side), Index(side).nodes, priceLevels.Values
      ensures Indexed(side, DropAt(list, k), other)
      ensures Within(Index(side).nodes, old(Index(side).nodes)) && priceLevels.Values <= old(priceLevels.Values)
    {
      hide SkipList.Valid, SkipList.Keys, Holds, DropAt, DistinctOrders, WithoutId, AtPrice;
      ghost var keys, otherKeys, lv := Index(side).Keys(), Index(Opposite(side)).Keys(), LevelOrders(priceLevels);
      OrderHasLevel(keys, lv, list, k);
      if o.price in priceLevels {
        var pl := priceLevels[o.price];
        var newOrders := FilterOut(pl.orders, o.orderId);
        SetLevel(priceLevels, pl, o.price, newOrders);
        if |pl.orders| == 0 {
          RemovePriceLevel(o.price, side);
          assert lv[o.price := newOrders] - {o.price} == lv - {o.price};
        }
      }
      HoldsAfterDrop(keys, lv, list, k, Index(side).Keys(), LevelOrders(priceLevels));
      HoldsElsewhere(otherKeys, lv, other, o.price, LevelOrders(priceLevels));
    }

    // One side of cleanupOrdersInternal: the inactive orders leave the list and
    // their levels.
    method CleanSide(side: Side, list: seq<OrderInBook>, ghost other: seq<OrderInBook>) returns (kept: seq<OrderInBook>)
      requires Indexed(side, list, other) && DistinctOrders(list)
      modifies this`priceLevels, Index(side), Index(side).nodes, priceLevels.Values
      ensures kept == ActiveOnly(list) && Indexed(side, kept, other)
      ensures Within(Index(side).nodes, old(Index(side).nodes)) && priceLevels.Values <= old(priceLevels.Values)
    {
      hide Indexed, DistinctOrders, SkipList.Keys, ActiveOnly;
      NothingActive(list);
      kept := [];
      assert kept + list == list;
      for i := 0 to |list|
        invariant kept == ActiveOnly(list[..i])
        invariant Indexed(side, kept + list[i..], other) && DistinctOrders(kept + list[i..])
        invariant Within(Index(side).nodes, old(Index(side).nodes)) && priceLevels.Values <= old(priceLevels.Values)
      {
        var o := list[i];
        ActiveOnlyPush(list, i);
        if o.IsActive() {
          KeepHead(kept, list, i);
          kept := kept + [o];
        } else {
          DropHead(kept, list, i);
          RemoveFromLevel(o, side, kept + list[i..], |kept|, other);
        }
      }
      assert kept + list[|list|..] == kept;
      assert list[..|list|] == list;
    }

    static lemma KeepHead(kept: seq<OrderInBook>, list: seq<OrderInBook>, i: nat)
      requires i < |list|
      ensures kept + list[i..] == (kept + [list[i]]) + list[i + 1..]
    {
    }

    // cleanupOrdersInternal
    method CleanupOrders()
      requires Indexed(Buy, buyOrders, sellOrders) && DistinctOrders(buyOrders) && DistinctOrders(sellOrders)
      modifies this, bids, asks, bids.nodes, asks.nodes, priceLevels.Values
      ensures buyOrders == old(ActiveOnly(buyOrders)) && sellOrders == old(ActiveOnly(sellOrders))
      ensures Indexed(Buy, buyOrders, sellOrders)
      ensures Within(bids.nodes, old(bids.nodes)) && Within(asks.nodes, old(asks.nodes))
      ensures priceLevels.Values <= old(priceLevels.Values)
    {
      hide Indexed, DistinctOrders, ActiveOnly, SkipList.Keys;
      var newBuyOrders := CleanSide(Buy, buyOrders, sellOrders);
      buyOrders := newBuyOrders;
      Flip(Buy, buyOrders, sellOrders);
      var newSellOrders := CleanSide(Sell, sellOrders, buyOrders);
      sellOrders := newSellOrders;
      Flip(Sell, sellOrders, buyOrders);
    }

    lemma Flip(side: Side, list: seq<OrderInBook>, other: seq<OrderInBook>)
      requires Indexed(side, list, other)
      ensures Indexed(Opposite(side), other, list)
    {
    }

    // A new key and its empty level. The key is new to both indexes, so no live
    // level is overwritten.
    method NewLevel(price: int, side: Side) returns (pl: PriceLevel)
      requires Index(side).Valid() && Index(Opposite(side)).Valid() && Separate()
      requires price !in bids.Keys() && price !in asks.Keys()
      modifies this`priceLevels, Index(side), Index(side).nodes
      ensures Index(side).Valid() && Index(Opposite(side)).Valid() && Separate()
      ensures Index(Opposite(side)).Keys() == old(Index(Opposite(side)).Keys())
      ensures forall q :: q in Index(side).Keys() <==> q in old(Index(side).Keys()) || q == price
      ensures pl.price == price && pl.orders == [] && fresh(pl) && price !in old(priceLevels)
      ensures priceLevels == old(priceLevels)[price := pl]
      ensures forall k :: 0 <= k < |Index(side).nodes| ==> Index(side).nodes[k] in old(Index(side).nodes) || fresh(Index(side).nodes[k])
    {
      hide SkipList.Valid, SkipList.Keys;
      var node, p := Index(side).Insert(price);
      pl := new PriceLevel(price);
      priceLevels := priceLevels[price := pl];
    }

    // The level an order of this price joins, created when its key is new.
    method LevelFor(price: int, side: Side, ghost list: seq<OrderInBook>, ghost other: seq<OrderInBook>) returns (pl: PriceLevel)
      requires Indexed(side, list, other) && price !in Index(Opposite(side)).Keys()
      modifies this`priceLevels, Index(side), Index(side).nodes
      ensures Index(side).Valid() && Index(Opposite(side)).Valid() && Separate()
      ensures Index(Opposite(side)).Keys() == old(Index(Opposite(side)).Keys())
      ensures forall q :: q in Index(side).Keys() <==> q in old(Index(side).Keys()) || q == price
      ensures price in priceLevels && pl == priceLevels[price]
      ensures LevelOrders(priceLevels) == old(LevelOrders(priceLevels))[price := AtPrice(list, price)]
      ensures forall p :: p in priceLevels ==> priceLevels[p].price == p
      ensures forall k :: 0 <= k < |Index(side).nodes| ==> Index(side).nodes[k] in old(Index(side).nodes) || fresh(Index(side).nodes[k])
      ensures forall l :: l in priceLevels.Values ==> l in old(priceLevels.Values) || fresh(l)
    {
      hide SkipList.Valid, SkipList.Keys, Holds;
      LevelOfKey(Index(side).Keys(), LevelOrders(priceLevels), list, price);
      var node := Index(side).Seek(price);
      if node != null && node.key == price {
        pl := priceLevels[price];
      } else {
        pl := NewLevel(price, side);
      }
    }

    // i is the first position at a worse price.
    static ghost predicate FirstWorse(side: Side, list: seq<OrderInBook>, price: int, i: nat) {
      && i <= |list|
      && (forall j :: 0 <= j < i ==> Rank(side, list[j].price) <= Rank(side, price))
      && (forall j :: i <= j < |list| ==> Rank(side, list[j].price) > Rank(side, price))
    }

    // The flat list, with the order before the first one at a worse price.
    method InsertFlat(side: Side, list: seq<OrderInBook>, order: OrderInBook, ghost i: nat) returns (r: seq<OrderInBook>)
      requires FirstWorse(side, list, order.price, i)
      ensures r == InsertAt(list, i, order)
    {
      var k := 0;
      while k < |list|
        invariant 0 <= k <= i
      {
        var worse := if side == Buy then order.price > list[k].price else order.price < list[k].price;
        if worse {
          return list[..k] + [order] + list[k..];
        }
        k := k + 1;
      }
      r := list + [order];
      assert r == InsertAt(list, i, order);
    }

    static lemma SlotIsFirstWorse(side: Side, list: seq<OrderInBook>, price: int, i: nat)
      requires Ranked(side, list) && i == Slot(side, Values(list), price)
      ensures FirstWorse(side, list, price, i)
    {
      var vs := Values(list);
      assert forall j :: 0 <= j < |list| ==> list[j].price == vs[j].price;
      forall j | i <= j < |list| ensures Rank(side, list[j].price) > Rank(side, price) {
        if i < j { assert Rank(side, list[i].price) <= Rank(side, list[j].price); }
      }
    }

    // The index half of addToBookInternal.
    method IndexOrder(order: OrderInBook, side: Side, ghost list: seq<OrderInBook>, ghost i: nat, ghost list': seq<OrderInBook>,
                      ghost other: seq<OrderInBook>)
      requires Indexed(side, list, other) && order.price !in Index(Opposite(side)).Keys()
      requires FirstWorse(side, list, order.price, i)
      requires list' == InsertAt(list, i, order)
      modifies this`priceLevels, Index(side), Index(side).nodes, priceLevels.Values
      ensures Indexed(side, list', other)
      ensures Values(list') == old(Values(list')) && Values(other) == old(Values(other))
      ensures forall k :: 0 <= k < |Index(side).nodes| ==> Index(side).nodes[k] in old(Index(side).nodes) || fresh(Index(side).nodes[k])
      ensures forall l :: l in priceLevels.Values ==> l in old(priceLevels.Values) || fresh(l)
    {
      hide SkipList.Valid, SkipList.Keys, Holds, InsertAt, Values;
      ghost var keys, otherKeys, lv := Index(side).Keys(), Index(Opposite(side)).Keys(), LevelOrders(priceLevels);
      var pl := LevelFor(order.price, side, list, other);
      SetLevel(priceLevels, pl, order.price, pl.orders + [order]);
      HoldsAfterInsert(keys, lv, list, i, order, Index(side).Keys(), LevelOrders(priceLevels));
      HoldsElsewhere(otherKeys, lv, other, order.price, LevelOrders(priceLevels));
    }

    // addToBookInternal: the order joins its level and its flat list.
    method AddToBook(order: OrderInBook, ghost list': seq<OrderInBook>, ghost other: seq<OrderInBook>)
      requires Indexed(order.side, ListOf(order.side), other) && Ranked(order.side, ListOf(order.side))
      requires other == ListOf(Opposite(order.side)) && order.price !in Index(Opposite(order.side)).Keys()
      requires list' == InsertAt(ListOf(order.side), Slot(order.side, Values(ListOf(order.side)), order.price), order)
      modifies this, Index(order.side), Index(order.side).nodes, priceLevels.Values
      ensures ListOf(order.side) == list' && ListOf(Opposite(order.side)) == other
      ensures Indexed(order.side, list', other)
      ensures Values(list') == old(Values(list')) && Values(other) == old(Values(other))
      ensures forall k :: 0 <= k < |Index(order.side).nodes| ==>
        Index(order.side).nodes[k] in old(Index(order.side).nodes) || fresh(Index(order.side).nodes[k])
      ensures forall l :: l in priceLevels.Values ==> l in old(priceLevels.Values) || fresh(l)
    {
      hide Indexed, InsertAt, SkipList.Keys, Values, Ranked, FirstWorse;
      ghost var list := ListOf(order.side);
      ghost var i := Slot(order.side, Values(list), order.price);
      SlotIsFirstWorse(order.side, list, order.price, i);
      IndexOrder(order, order.side, list, i, list', other);
      if order.side == Buy {
        buyOrders := InsertFlat(Buy, buyOrders, order, i);
      } else {
        sellOrders := InsertFlat(Sell, sellOrders, order, i);
      }
    }

    // ---- Adding an order ----

    // What a well-formed book says of each flat list.
    static lemma ListFacts(side: Side, list: seq<OrderInBook>)
      requires OneSided(side, Values(list)) && InPriority(side, Values(list)) && DistinctIds(Values(list))
      ensures Ranked(side, list) && DistinctOrders(list) && Positive(Values(list))
      ensures forall o :: o in list ==> o.side == side && o.price != 0
    {
      var vs := Values(list);
      forall j | 0 <= j < |list|
        ensures Live(vs[j]) && vs[j].side == side
      {
        assert vs[j] in vs;
      }
      forall i, j | 0 <= i < j < |list|
        ensures Rank(side, list[i].price) < Rank(side, list[j].price)
             || (list[i].price == list[j].price && list[i].createdAt < list[j].createdAt)
      {
        assert Before(side, vs[i], vs[j]);
      }
    }

    lemma ListsApart()
      requires Valid()
      ensures forall i, j :: 0 <= i < |buyOrders| && 0 <= j < |sellOrders| ==> buyOrders[i] != sellOrders[j]
    {
      var b := Contents();
      forall i, j | 0 <= i < |buyOrders| && 0 <= j < |sellOrders|
        ensures buyOrders[i].orderId != sellOrders[j].orderId
      {
        assert b.bids[i] in b.bids && b.asks[j] in b.asks;
      }
    }

    // The header's key has no level.
    lemma NoLevelAtZero()
      requires Valid()
      ensures 0 !in priceLevels
    {
      hide SkipList.Valid, SkipList.Keys, Holds;
      ListFacts(Buy, buyOrders);
      ListFacts(Sell, sellOrders);
      AllAtPrice(buyOrders, 0);
      AllAtPrice(sellOrders, 0);
      LevelOfKey(bids.Keys(), LevelOrders(priceLevels), buyOrders, 0);
      LevelOfKey(asks.Keys(), LevelOrders(priceLevels), sellOrders, 0);
      NoKeyAt(bids.Keys(), LevelOrders(priceLevels), buyOrders, 0);
      NoKeyAt(asks.Keys(), LevelOrders(priceLevels), sellOrders, 0);
    }

    // Matching a buyer: only the asks, and no structure, change.
    method MatchBuy(order: OrderInBook) returns (trades: seq<Trade>, restored: seq<Saved>)
      requires Valid() && order !in sellOrders && order.remainingQty > 0
      modifies order, sellOrders, priceLevels.Values
      ensures Indexed(Buy, buyOrders, sellOrders)
      ensures Outcome(order.Value(), Values(sellOrders), trades) == Greedy(old(order.Value()), old(Values(sellOrders)))
      ensures Journaled(restored, sellOrders, old(Values(sellOrders)))
    {
      hide SkipList.Valid, SkipList.Keys, Holds, Progress, Journaled, Greedy, Wf, DistinctOrders, Ranked, Positive;
      SideFacts();
      ghost var vals := Values(sellOrders);
      trades, restored := WalkAsks(order, asks, priceLevels, sellOrders, vals);
      ProgressDone(order, sellOrders, old(order.Value()), vals, trades);
    }

    // Matching a seller: only the bids, and no structure, change.
    method MatchSell(order: OrderInBook) returns (trades: seq<Trade>, restored: seq<Saved>)
      requires Valid() && order !in buyOrders && order.remainingQty > 0
      modifies order, buyOrders, priceLevels.Values
      ensures Indexed(Buy, buyOrders, sellOrders)
      ensures Outcome(order.Value(), Values(buyOrders), trades) == Greedy(old(order.Value()), old(Values(buyOrders)))
      ensures Journaled(restored, buyOrders, old(Values(buyOrders)))
    {
      hide SkipList.Valid, SkipList.Keys, Holds, Progress, Journaled, Greedy, Wf, DistinctOrders, Ranked, Positive;
      SideFacts();
      NoLevelAtZero();
      HeaderKey();
      ghost var vals := Values(buyOrders);
      trades, restored := WalkBids(order, bids, priceLevels, buyOrders, vals);
      ProgressDone(order, buyOrders, old(order.Value()), vals, trades);
    }

    lemma HeaderKey()
      requires Valid()
      ensures |bids.nodes| > 0 && bids.nodes[0].key == 0
    {
    }

    lemma SideFacts()
      requires Valid()
      ensures Ranked(Buy, buyOrders) && DistinctOrders(buyOrders) && Positive(Values(buyOrders))
      ensures Ranked(Sell, sellOrders) && DistinctOrders(sellOrders) && Positive(Values(sellOrders))
    {
      ListFacts(Buy, buyOrders);
      ListFacts(Sell, sellOrders);
    }

    static lemma ProgressDone(order: OrderInBook, opps: seq<OrderInBook>, t: Order, vals: seq<Order>, trades: seq<Trade>)
      requires Progress(order, opps, t, vals, |opps|, trades)
      ensures Outcome(order.Value(), Values(opps), trades) == Greedy(t, vals)
    {
      assert vals[..|opps|] == vals;
    }

    // Either half, as one step of the book's value.
    method Match(order: OrderInBook) returns (trades: seq<Trade>, restored: seq<Saved>)
      requires Valid() && order !in buyOrders && order !in sellOrders && order.remainingQty > 0
      modifies order, buyOrders, sellOrders, priceLevels.Values
      ensures Indexed(Buy, buyOrders, sellOrders)
      ensures
        var opp := Opposite(order.side);
        var m := Greedy(old(order.Value()), old(Contents().On(opp)));
        && order.Value() == m.taker && trades == m.trades
        && Contents() == old(Contents()).With(opp, m.resting)
        && Journaled(restored, ListOf(opp), old(Contents().On(opp)))
    {
      hide Progress, Journaled, Greedy, Wf, Indexed;
      ListsApart();
      if order.side == Buy {
        trades, restored := MatchBuy(order);
      } else {
        trades, restored := MatchSell(order);
      }
    }

    // The FOK branch: undo the fills and reject the taker, whose own fill
    // fields stay as matching left them.
    method Reject(order: OrderInBook, restored: seq<Saved>, ghost b: Book)
      requires Indexed(Buy, buyOrders, sellOrders)
      requires order !in buyOrders && order !in sellOrders && DistinctOrders(ListOf(Opposite(order.side)))
      requires forall i, j :: 0 <= i < |buyOrders| && 0 <= j < |sellOrders| ==> buyOrders[i] != sellOrders[j]
      requires Contents() == b.With(Opposite(order.side), Contents().On(Opposite(order.side)))
      requires Journaled(restored, ListOf(Opposite(order.side)), b.On(Opposite(order.side)))
      modifies order, buyOrders, sellOrders
      ensures Indexed(Buy, buyOrders, sellOrders) && Contents() == b
      ensures order.Value() == old(order.Value().(unfilled := order.remainingQty, status := Rejected))
    {
      hide Journaled, Indexed, Values, DistinctOrders;
      if order.side == Buy {
        Rollback(restored, sellOrders, b.asks);
      } else {
        Rollback(restored, buyOrders, b.bids);
      }
      MarkRejected(order, buyOrders, sellOrders);
    }

    static method MarkRejected(order: OrderInBook, ghost buys: seq<OrderInBook>, ghost sells: seq<OrderInBook>)
      requires order !in buys && order !in sells
      modifies order
      ensures order.Value() == old(order.Value().(unfilled := order.remainingQty, status := Rejected))
      ensures Values(buys) == old(Values(buys)) && Values(sells) == old(Values(sells))
    {
      order.unfilledQty := order.remainingQty;
      order.status := Rejected;
    }

    // cleanupOrdersInternal, as a step of the book's value.
    method Cleanup()
      requires Indexed(Buy, buyOrders, sellOrders) && DistinctOrders(buyOrders) && DistinctOrders(sellOrders)
      modifies this, bids, asks, bids.nodes, asks.nodes, priceLevels.Values
      ensures Contents() == old(Book(Actives(Contents().bids), Actives(Contents().asks)))
      ensures Indexed(Buy, buyOrders, sellOrders)
      ensures Within(bids.nodes, old(bids.nodes)) && Within(asks.nodes, old(asks.nodes))
      ensures priceLevels.Values <= old(priceLevels.Values)
      ensures forall o :: o in buyOrders ==> o in old(buyOrders)
      ensures forall o :: o in sellOrders ==> o in old(sellOrders)
    {
      hide Indexed, DistinctOrders, ActiveOnly, Actives;
      ActiveOnlyValues(buyOrders);
      ActiveOnlyValues(sellOrders);
      ActiveOnlyMembers(buyOrders);
      ActiveOnlyMembers(sellOrders);
      ghost var keptBuys, keptSells := ActiveOnly(buyOrders), ActiveOnly(sellOrders);
      ghost var buyValues, sellValues := Values(keptBuys), Values(keptSells);
      CleanupOrders();
      assert Values(keptBuys) == buyValues && Values(keptSells) == sellValues;
    }

    // Resting what is left of a limit order, as a step of the book's value.
    method RestOrder(order: OrderInBook)
      requires Valid() && Live(order.Value())
      requires Newer(Contents().bids, order.Value()) && Newer(Contents().asks, order.Value())
      requires forall y :: y in Contents().On(Opposite(order.side)) ==> !order.CanMatch(y.price)
      modifies this, Index(order.side), Index(order.side).nodes, priceLevels.Values
      ensures Valid()
      ensures Contents() == old(Contents()).With(order.side, Rest(old(Contents()).On(order.side), order.Value()))
      ensures forall k :: 0 <= k < |Index(order.side).nodes| ==>
        Index(order.side).nodes[k] in old(Index(order.side).nodes) || fresh(Index(order.side).nodes[k])
      ensures forall l :: l in priceLevels.Values ==> l in old(priceLevels.Values) || fresh(l)
      ensures forall o :: o in buyOrders ==> o in old(buyOrders) || o == order
      ensures forall o :: o in sellOrders ==> o in old(sellOrders) || o == order
    {
      hide Indexed, Wf, SkipList.Keys, Slot, Ranked, Newer, Values, InsertAt;
      ghost var b, o, list := Contents(), order.Value(), ListOf(order.side);
      RestWf(b, o);
      SideFacts();
      Flip(Buy, buyOrders, sellOrders);
      PriceIsNew(order);
      ghost var i := Slot(order.side, Values(list), order.price);
      ghost var list', other := InsertAt(list, i, order), ListOf(Opposite(order.side));
      ValuesInsert(list, i, order);
      AddToBook(order, list', other);
      Flip(order.side, list', other);
    }

    lemma PriceIsNew(order: OrderInBook)
      requires Valid()
      requires forall y :: y in Contents().On(Opposite(order.side)) ==> !order.CanMatch(y.price)
      ensures order.price !in Index(Opposite(order.side)).Keys()
    {
      hide SkipList.Valid, SkipList.Keys, Holds, Wf;
      var opp := Opposite(order.side);
      var list := ListOf(opp);
      forall j | 0 <= j < |list| ensures list[j].price != order.price {
        assert Contents().On(opp)[j] in Contents().On(opp);
      }
      NoKeyAt(Index(opp).Keys(), LevelOrders(priceLevels), list, order.price);
    }

    static lemma ValuesInsert(list: seq<OrderInBook>, i: nat, o: OrderInBook)
      requires i <= |list|
      ensures Values(InsertAt(list, i, o)) == Values(list)[..i] + [o.Value()] + Values(list)[i..]
      ensures forall x :: x in InsertAt(list, i, o) ==> x in list || x == o
    {
    }

    // The switch on the order type that ends AddOrder.
    method FinishOrder(order: OrderInBook, ghost trades: seq<Trade>)
      requires Valid() && order !in buyOrders && order !in sellOrders
      requires order.orderType == Limit && order.remainingQty != 0 && order.IsActive() ==> CanRest(order)
      modifies this, bids, asks, bids.nodes, asks.nodes, priceLevels.Values, order
      ensures Valid()
      ensures Reply(Contents(), order.Value(), trades, true) == Finish(old(Contents()), old(order.Value()), trades)
      ensures forall k :: 0 <= k < |bids.nodes| ==> bids.nodes[k] in old(bids.nodes) || fresh(bids.nodes[k])
      ensures forall k :: 0 <= k < |asks.nodes| ==> asks.nodes[k] in old(asks.nodes) || fresh(asks.nodes[k])
      ensures forall l :: l in priceLevels.Values ==> l in old(priceLevels.Values) || fresh(l)
      ensures forall o :: o in buyOrders ==> o in old(buyOrders) || o == order
      ensures forall o :: o in sellOrders ==> o in old(sellOrders) || o == order
    {
      hide Indexed, Wf, Rest, Live, Newer;
      match order.orderType
      case Limit =>
        if !order.IsFilled() && order.IsActive() {
          RestOrder(order);
        }
      case FOK =>
      case _ =>
        if order.remainingQty > 0 {
          order.unfilledQty := order.remainingQty;
        }
        order.status := Filled;
    }

    ghost predicate CanRest(order: OrderInBook)
      reads this, buyOrders, sellOrders, order
    {
      && Live(order.Value())
      && Newer(Contents().bids, order.Value()) && Newer(Contents().asks, order.Value())
      && forall y :: y in Contents().On(Opposite(order.side)) ==> !order.CanMatch(y.price)
    }

    // AddOrder: match, then roll back a short FOK, or drop the filled orders and
    // finish.
    method AddOrder(order: OrderInBook) returns (trades: seq<Trade>, ok: bool)
      requires Valid() && order !in buyOrders && order !in sellOrders
      requires Fresh(Contents(), order.Value())
      modifies this, bids, asks, bids.nodes, asks.nodes, priceLevels.Values, buyOrders, sellOrders, order
      ensures Valid()
      ensures Reply(Contents(), order.Value(), trades, ok) == Submit(old(Contents()), old(order.Value()))
      ensures Settles(old(Contents()), old(order.Value()), Reply(Contents(), order.Value(), trades, ok))
      ensures forall k :: 0 <= k < |bids.nodes| ==> bids.nodes[k] in old(bids.nodes) || fresh(bids.nodes[k])
      ensures forall k :: 0 <= k < |asks.nodes| ==> asks.nodes[k] in old(asks.nodes) || fresh(asks.nodes[k])
      ensures forall l :: l in priceLevels.Values ==> l in old(priceLevels.Values) || fresh(l)
      ensures forall o :: o in buyOrders ==> o in old(buyOrders) || o == order
      ensures forall o :: o in sellOrders ==> o in old(sellOrders) || o == order
    {
      hide Indexed, Journaled, Greedy, Wf, Newer, Finish, Actives, DistinctOrders, Ranked, Values, Settles;
      ghost var b, o := Contents(), order.Value();
      SubmitSettles(b, o);
      SideFacts();
      ListsApart();
      MatchedWf(b, o);
      var restored;
      trades, restored := Match(order);
      if order.orderType == FOK && order.remainingQty > 0 {
        Reject(order, restored, b);
        return [], false;
      }
      if order.orderType == Limit { Restable(b, o); }
      ok := true;
      Conclude(order, trades, Matched(b, o));
    }

    // After a match that stands: drop the filled orders and finish.
    method Conclude(order: OrderInBook, ghost trades: seq<Trade>, ghost c: Book)
      requires Indexed(Buy, buyOrders, sellOrders) && DistinctOrders(buyOrders) && DistinctOrders(sellOrders)
      requires order !in buyOrders && order !in sellOrders
      requires c == Book(Actives(Contents().bids), Actives(Contents().asks)) && Wf(c)
      requires order.orderType == Limit && order.remainingQty != 0 && order.IsActive() ==>
        && Live(order.Value()) && Newer(c.bids, order.Value()) && Newer(c.asks, order.Value())
        && forall y :: y in c.On(Opposite(order.side)) ==> !order.CanMatch(y.price)
      modifies this, bids, asks, bids.nodes, asks.nodes, priceLevels.Values, order
      ensures Valid() && Reply(Contents(), order.Value(), trades, true) == Finish(c, old(order.Value()), trades)
      ensures forall k :: 0 <= k < |bids.nodes| ==> bids.nodes[k] in old(bids.nodes) || fresh(bids.nodes[k])
      ensures forall k :: 0 <= k < |asks.nodes| ==> asks.nodes[k] in old(asks.nodes) || fresh(asks.nodes[k])
      ensures forall l :: l in priceLevels.Values ==> l in old(priceLevels.Values) || fresh(l)
      ensures forall o :: o in buyOrders ==> o in old(buyOrders) || o == order
      ensures forall o :: o in sellOrders ==> o in old(sellOrders) || o == order
    {
      hide Indexed, Wf, Newer, Finish, Actives, DistinctOrders, Values, Live;
      Cleanup();
      FinishOrder(order, trades);
    }

    // The scan for an ID in one flat list.
    static method IndexOf(list: seq<OrderInBook>, orderId: string) returns (i: nat)
      ensures i == Find(Values(list), orderId)
    {
      i := 0;
      while i < |list|
        invariant 0 <= i <= |list|
        invariant forall k :: 0 <= k < i ==> list[k].orderId != orderId
      {
        if list[i].orderId == orderId {
          FindIs(list, orderId, i);
          return;
        }
        i := i + 1;
      }
      FindIs(list, orderId, i);
    }

    static lemma FindIs(list: seq<OrderInBook>, orderId: string, i: nat)
      requires i <= |list| && forall k :: 0 <= k < i ==> list[k].orderId != orderId
      requires i < |list| ==> list[i].orderId == orderId
      ensures i == Find(Values(list), orderId)
    {
      var vs := Values(list);
      var k := Find(vs, orderId);
      assert i < |vs| ==> vs[i].orderId == list[i].orderId;
      assert k < |vs| ==> vs[k].orderId == list[k].orderId;
    }

    static lemma ValuesDrop(list: seq<OrderInBook>, i: nat)
      requires i < |list|
      ensures Values(DropAt(list, i)) == Drop(Values(list), i)
    {
    }

    // One found order is marked, and leaves its level and its flat list.
    method CancelAt(side: Side, i: nat)
      requires Valid() && i < |ListOf(side)|
      modifies this, Index(side), Index(side).nodes, priceLevels.Values, ListOf(side)[i]
      ensures Valid()
      ensures Contents() == old(Contents()).With(side, Drop(old(Contents()).On(side), i))
      ensures old(ListOf(side))[i].Value() == old(ListOf(side)[i].Value()).(status := Cancelled)
      ensures Within(Index(side).nodes, old(Index(side).nodes)) && priceLevels.Values <= old(priceLevels.Values)
      ensures forall o :: o in buyOrders ==> o in old(buyOrders)
      ensures forall o :: o in sellOrders ==> o in old(sellOrders)
    {
      hide Indexed, Wf, SkipList.Keys, DistinctOrders, Ranked, Drop, DropAt, Values;
      ghost var b, list, other := Contents(), ListOf(side), ListOf(Opposite(side));
      var o := if side == Buy then buyOrders[i] else sellOrders[i];
      DropWf(b, side, i);
      SideFacts();
      DropApart(side, i);
      ValuesDrop(list, i);
      ghost var rest := DropAt(list, i);
      MarkCancelled(o, rest, other);
      if side == Buy {
        buyOrders := buyOrders[..i] + buyOrders[i + 1..];
      } else {
        sellOrders := sellOrders[..i] + sellOrders[i + 1..];
      }
      RemoveFromIndex(o, side, list, i, rest, other);
    }

    static method MarkCancelled(o: OrderInBook, ghost rest: seq<OrderInBook>, ghost other: seq<OrderInBook>)
      requires o !in rest && o !in other
      modifies o
      ensures o.Value() == old(o.Value()).(status := Cancelled)
      ensures Values(rest) == old(Values(rest)) && Values(other) == old(Values(other))
    {
      o.status := Cancelled;
    }

    // RemoveFromLevel, seen from either side.
    method RemoveFromIndex(o: OrderInBook, side: Side, ghost list: seq<OrderInBook>, ghost i: nat,
                           ghost rest: seq<OrderInBook>, ghost other: seq<OrderInBook>)
      requires Indexed(Buy, if side == Buy then list else other, if side == Buy then other else list)
      requires i < |list| && o == list[i] && DistinctOrders(list) && rest == DropAt(list, i)
      modifies this`priceLevels, Index(side), Index(side).nodes, priceLevels.Values
      ensures Indexed(Buy, if side == Buy then rest else other, if side == Buy then other else rest)
      ensures Values(rest) == old(Values(rest)) && Values(other) == old(Values(other)) && o.Value() == old(o.Value())
      ensures Within(Index(side).nodes, old(Index(side).nodes)) && priceLevels.Values <= old(priceLevels.Values)
    {
      hide Indexed, SkipList.Keys, DistinctOrders, DropAt, Values;
      if side == Sell { Flip(Buy, other, list); }
      RemoveFromLevel(o, side, list, i, other);
      if side == Sell { Flip(Sell, rest, other); }
    }

    // The cancelled order is in neither of the lists that remain.
    lemma DropApart(side: Side, i: nat)
      requires Valid() && i < |ListOf(side)|
      ensures ListOf(side)[i] !in DropAt(ListOf(side), i) && ListOf(side)[i] !in ListOf(Opposite(side))
      ensures DropAt(ListOf(side), i) == ListOf(side)[..i] + ListOf(side)[i + 1..]
      ensures forall o :: o in DropAt(ListOf(side), i) ==> o in ListOf(side)
    {
      SideFacts();
      ListsApart();
    }

    // One of the two loops of CancelOrder.
    method CancelIn(side: Side, orderId: string) returns (found: bool, ghost i: nat)
      requires Valid()
      modifies this, Index(side), Index(side).nodes, priceLevels.Values, ListOf(side)
      ensures Valid() && i == Find(old(Contents()).On(side), orderId)
      ensures found == (i < |old(ListOf(side))|)
      ensures !found ==> Contents() == old(Contents()) && buyOrders == old(buyOrders) && sellOrders == old(sellOrders)
      ensures !found ==> bids.nodes == old(bids.nodes) && asks.nodes == old(asks.nodes) && priceLevels == old(priceLevels)
      ensures found ==> Contents() == old(Contents()).With(side, Drop(old(Contents()).On(side), i))
      ensures found ==> old(ListOf(side))[i].Value() == old(ListOf(side)[i].Value()).(status := Cancelled)
      ensures Within(Index(side).nodes, old(Index(side).nodes)) && priceLevels.Values <= old(priceLevels.Values)
      ensures forall o :: o in buyOrders ==> o in old(buyOrders)
      ensures forall o :: o in sellOrders ==> o in old(sellOrders)
    {
      hide Indexed, Wf, SkipList.Keys, Drop;
      i := Find(Contents().On(side), orderId);
      var k := IndexOf(if side == Buy then buyOrders else sellOrders, orderId);
      found := k < |if side == Buy then buyOrders else sellOrders|;
      if found {
        CancelAt(side, k);
      }
    }

    lemma CancelIsWithdrawal(orderId: string)
      requires Valid()
      ensures Withdraws(Contents(), orderId, Cancel(Contents(), orderId))
      ensures |Contents().bids| == |buyOrders| && |Contents().asks| == |sellOrders|
      ensures forall k :: 0 <= k < |buyOrders| ==> Contents().bids[k] == buyOrders[k].Value()
      ensures forall k :: 0 <= k < |sellOrders| ==> Contents().asks[k] == sellOrders[k].Value()
    {
      hide Wf, Indexed, Withdraws, Cancel;
      CancelWithdraws(Contents(), orderId);
    }

    // CancelOrder: the bids are searched first, then the asks; the order found
    // is marked cancelled.
    method CancelOrder(orderId: string) returns (found: bool, ghost o: OrderInBook?)
      requires Valid()
      modifies this, bids, asks, bids.nodes, asks.nodes, priceLevels.Values, buyOrders, sellOrders
      ensures Valid()
      ensures CancelReply(Contents(), found) == Cancel(old(Contents()), orderId)
      ensures Withdraws(old(Contents()), orderId, CancelReply(Contents(), found))
      ensures found ==> o != null && (o in old(buyOrders) || o in old(sellOrders)) && o.orderId == orderId
      ensures found ==> old(allocated(o)) && o.Value() == old(o.Value()).(status := Cancelled)
      ensures Within(bids.nodes, old(bids.nodes)) && Within(asks.nodes, old(asks.nodes))
      ensures priceLevels.Values <= old(priceLevels.Values)
      ensures forall x :: x in buyOrders ==> x in old(buyOrders)
      ensures forall x :: x in sellOrders ==> x in old(sellOrders)
    {
      hide Valid, Contents, Drop, Withdraws, Wf;
      CancelIsWithdrawal(orderId);
      o := null;
      ghost var i;
      ghost var buys, sells := buyOrders, sellOrders;
      found, i := CancelIn(Buy, orderId);
      if found {
        o := buys[i];
        return;
      }
      found, i := CancelIn(Sell, orderId);
      if found {
        o := sells[i];
      }
    }

    // ---- Reading the book ----

    // The last bid key and the first ask key are the heads of the flat lists.
    lemma BestKeys()
      requires Valid()
      ensures bids.Keys() == [] ==> buyOrders == []
      ensures asks.Keys() == [] ==> sellOrders == []
      ensures buyOrders != [] ==> |bids.nodes| > 1 && bids.nodes[|bids.nodes| - 1].key == buyOrders[0].price
      ensures sellOrders != [] ==> |asks.nodes| > 1 && asks.nodes[1].key == sellOrders[0].price
      ensures (|bids.nodes| > 1 ==> buyOrders != []) && (|asks.nodes| > 1 ==> sellOrders != [])
    {
      SideFacts();
      BestBidKey(bids, priceLevels, buyOrders);
      BestAskKey(asks, priceLevels, sellOrders);
    }

    // The flat lists are the levels in priority order: bid levels by descending
    // price, ask levels by ascending price.
    lemma ListsAreLevels()
      requires Valid()
      ensures forall p :: p in bids.Keys() || p in asks.Keys() <==> p in LevelOrders(priceLevels)
      ensures Concat(Reverse(bids.Keys()), LevelOrders(priceLevels)) == buyOrders
      ensures Concat(asks.Keys(), LevelOrders(priceLevels)) == sellOrders
    {
      SideFacts();
      FlatListIsLevels(Sell, asks.Keys(), LevelOrders(priceLevels), sellOrders);
      FlatListIsLevels(Buy, Reverse(bids.Keys()), LevelOrders(priceLevels), buyOrders);
    }

    // GetBestBid: zero when there is none.
    method GetBestBid() returns (price: int)
      requires Valid()
      ensures price == if buyOrders == [] then 0 else buyOrders[0].price
    {
      hide SkipList.Valid, SkipList.Keys, Holds, Wf;
      BestKeys();
      HeaderKey();
      var empty := bids.IsEmpty();
      if empty { return 0; }
      var node := bids.SeekLast();
      if node == null { return 0; }
      price := node.key;
    }

    // GetBestAsk: zero when there is none.
    method GetBestAsk() returns (price: int)
      requires Valid()
      ensures price == if sellOrders == [] then 0 else sellOrders[0].price
    {
      hide SkipList.Valid, SkipList.Keys, Holds, Wf;
      BestKeys();
      var empty := asks.IsEmpty();
      if empty { return 0; }
      var node := asks.SeekFirst();
      if node == null { return 0; }
      price := node.key;
    }

    // GetDepth: the first orders of each side; 10 of them unless told otherwise.
    function GetDepth(depth: int): (r: (seq<OrderInBook>, seq<OrderInBook>))
      reads this
      ensures r.0 <= buyOrders && r.1 <= sellOrders
      ensures var d := if depth <= 0 then 10 else depth;
        |r.0| == Min(d, |buyOrders|) && |r.1| == Min(d, |sellOrders|)
    {
      var d := if depth <= 0 then 10 else depth;
      (if |buyOrders| < d then buyOrders else buyOrders[..d],
       if |sellOrders| < d then sellOrders else sellOrders[..d])
    }

    // ---- Recovery ----

    // The level for a price, looked up in the map and not in the skip list.
    method LevelInMap(price: int, side: Side, ghost list: seq<OrderInBook>, ghost other: seq<OrderInBook>) returns (pl: PriceLevel)
      requires Indexed(side, list, other) && price !in Index(Opposite(side)).Keys()
      modifies this`priceLevels, Index(side), Index(side).nodes
      ensures Index(side).Valid() && Index(Opposite(side)).Valid() && Separate()
      ensures Index(Opposite(side)).Keys() == old(Index(Opposite(side)).Keys())
      ensures forall q :: q in Index(side).Keys() <==> q in old(Index(side).Keys()) || q == price
      ensures price in priceLevels && pl == priceLevels[price]
      ensures LevelOrders(priceLevels) == old(LevelOrders(priceLevels))[price := AtPrice(list, price)]
      ensures forall p :: p in priceLevels ==> priceLevels[p].price == p
      ensures forall k :: 0 <= k < |Index(side).nodes| ==> Index(side).nodes[k] in old(Index(side).nodes) || fresh(Index(side).nodes[k])
      ensures forall l :: l in priceLevels.Values ==> l in old(priceLevels.Values) || fresh(l)
    {
      hide SkipList.Valid, SkipList.Keys, Holds;
      LevelOfKey(Index(side).Keys(), LevelOrders(priceLevels), list, price);
      if price in priceLevels {
        pl := priceLevels[price];
      } else {
        pl := NewLevel(price, side);
      }
    }

    // One append of BatchAddOrdersForRecovery: level and index first.
    method AppendOrder(order: OrderInBook, side: Side, ghost list: seq<OrderInBook>, ghost other: seq<OrderInBook>)
      requires Indexed(side, list, other) && order.price !in Index(Opposite(side)).Keys()
      modifies this`priceLevels, Index(side), Index(side).nodes, priceLevels.Values
      ensures Indexed(side, list + [order], other)
      ensures forall k :: 0 <= k < |Index(side).nodes| ==> Index(side).nodes[k] in old(Index(side).nodes) || fresh(Index(side).nodes[k])
      ensures forall l :: l in priceLevels.Values ==> l in old(priceLevels.Values) || fresh(l)
    {
      hide SkipList.Valid, SkipList.Keys, Holds;
      ghost var keys, otherKeys, lv := Index(side).Keys(), Index(Opposite(side)).Keys(), LevelOrders(priceLevels);
      var pl := LevelInMap(order.price, side, list, other);
      SetLevel(priceLevels, pl, order.price, pl.orders + [order]);
      assert InsertAt(list, |list|, order) == list + [order];
      HoldsAfterInsert(keys, lv, list, |list|, order, Index(side).Keys(), LevelOrders(priceLevels));
      HoldsElsewhere(otherKeys, lv, other, order.price, LevelOrders(priceLevels));
    }

    // Appends a sorted run of orders to an empty side.
    method AppendAll(orders: seq<OrderInBook>, side: Side, ghost other: seq<OrderInBook>)
      requires Indexed(side, [], other)
      requires forall o, x :: o in orders && x in other ==> o.price != x.price
      modifies this`priceLevels, Index(side), Index(side).nodes, priceLevels.Values
      ensures Indexed(side, orders, other)
      ensures forall k :: 0 <= k < |Index(side).nodes| ==> Index(side).nodes[k] in old(Index(side).nodes) || fresh(Index(side).nodes[k])
      ensures forall l :: l in priceLevels.Values ==> l in old(priceLevels.Values) || fresh(l)
    {
      hide Indexed, SkipList.Keys;
      for i := 0 to |orders|
        invariant Indexed(side, orders[..i], other)
        invariant forall k :: 0 <= k < |Index(side).nodes| ==> Index(side).nodes[k] in old(Index(side).nodes) || fresh(Index(side).nodes[k])
        invariant forall l :: l in priceLevels.Values ==> l in old(priceLevels.Values) || fresh(l)
      {
        NotOpposite(orders[i].price, side, orders[..i], other);
        AppendOrder(orders[i], side, orders[..i], other);
        assert orders[..i + 1] == orders[..i] + [orders[i]];
      }
      assert orders[..|orders|] == orders;
    }

    lemma NotOpposite(price: int, side: Side, list: seq<OrderInBook>, other: seq<OrderInBook>)
      requires Indexed(side, list, other) && forall x :: x in other ==> x.price != price
      ensures price !in Index(Opposite(side)).Keys()
    {
      hide SkipList.Valid, SkipList.Keys, Holds;
      NoKeyAt(Index(Opposite(side)).Keys(), LevelOrders(priceLevels), other, price);
    }

    // What the batch asks of its orders: live, unlike each other, uncrossed.
    static ghost predicate BatchReady(orders: seq<OrderInBook>)
      reads orders
    {
      && Unlike(orders)
      && (forall i :: 0 <= i < |orders| ==> Live(orders[i].Value()))
      && (forall i, j :: 0 <= i < |orders| && 0 <= j < |orders| && orders[i].side == Buy && orders[j].side == Sell ==>
            orders[i].price < orders[j].price)
    }

    method SplitSides(orders: seq<OrderInBook>) returns (buys: seq<OrderInBook>, sells: seq<OrderInBook>)
      ensures multiset(buys + sells) == multiset(orders)
      ensures (forall o :: o in buys ==> o.side == Buy) && (forall o :: o in sells ==> o.side == Sell)
    {
      buys, sells := [], [];
      for i := 0 to |orders|
        invariant multiset(buys + sells) == multiset(orders[..i])
        invariant (forall o :: o in buys ==> o.side == Buy) && (forall o :: o in sells ==> o.side == Sell)
      {
        assert orders[..i + 1] == orders[..i] + [orders[i]];
        if orders[i].side == Buy {
          buys := buys + [orders[i]];
        } else {
          sells := sells + [orders[i]];
        }
      }
      assert orders[..|orders|] == orders;
    }

    // Each side sorted, the two lists hold exactly the orders and make a
    // well-formed book.
    static lemma BatchFacts(orders: seq<OrderInBook>, b: seq<OrderInBook>, s: seq<OrderInBook>)
      requires BatchReady(orders) && multiset(b + s) == multiset(orders)
      requires (forall o :: o in b ==> o.side == Buy) && (forall o :: o in s ==> o.side == Sell)
      requires SortedBy(ByPriority(Buy), b) && SortedBy(ByPriority(Sell), s)
      ensures Wf(Book(Values(b), Values(s))) && IsSorted(Book(Values(b), Values(s)), Values(orders))
      ensures forall o, x :: o in s && x in b ==> o.price != x.price
      ensures forall o :: o in b || o in s ==> o in orders
    {
      hide IsSorted, Wf, BatchReady;
      BatchMembers(orders, b + s);
      BatchSide(Buy, b, b + s);
      BatchSide(Sell, s, b + s);
      BatchApart(b, s);
      BatchMultiset(orders, b, s);
    }

    static lemma BatchMembers(orders: seq<OrderInBook>, all: seq<OrderInBook>)
      requires BatchReady(orders) && multiset(all) == multiset(orders)
      ensures BatchReady(all) && forall o :: o in all ==> o in orders
    {
      UnlikePermuted(all, orders);
      forall i | 0 <= i < |all|
        ensures all[i] in orders
      {
        assert all[i] in multiset(orders);
      }
    }

    static lemma BatchSide(side: Side, list: seq<OrderInBook>, all: seq<OrderInBook>)
      requires BatchReady(all) && multiset(list) <= multiset(all) && (forall o :: o in list ==> o.side == side && o in all)
      requires SortedBy(ByPriority(side), list)
      ensures OneSided(side, Values(list)) && InPriority(side, Values(list)) && DistinctIds(Values(list))
    {
      UnlikePermuted(list, all);
      var vs := Values(list);
      forall i | 0 <= i < |list| ensures Live(vs[i]) && vs[i].side == side {
        assert list[i] in list;
      }
      forall i, j | 0 <= i < j < |list| ensures Before(side, vs[i], vs[j]) {
        assert NotAfter(ByPriority(side), list[i], list[j]);
      }
    }

    static lemma BatchApart(b: seq<OrderInBook>, s: seq<OrderInBook>)
      requires BatchReady(b + s)
      requires (forall o :: o in b ==> o.side == Buy) && (forall o :: o in s ==> o.side == Sell)
      requires OneSided(Buy, Values(b)) && InPriority(Buy, Values(b)) && DistinctIds(Values(b))
      requires OneSided(Sell, Values(s)) && InPriority(Sell, Values(s)) && DistinctIds(Values(s))
      ensures Wf(Book(Values(b), Values(s)))
      ensures forall o, x :: o in s && x in b ==> o.price != x.price
    {
      var all := b + s;
      forall i, j | 0 <= i < |b| && 0 <= j < |s|
        ensures b[i].orderId != s[j].orderId && b[i].price < s[j].price
      {
        assert all[i] == b[i] && all[|b| + j] == s[j];
        assert b[i] in b && s[j] in s;
      }
    }

    static lemma BatchMultiset(orders: seq<OrderInBook>, b: seq<OrderInBook>, s: seq<OrderInBook>)
      requires multiset(b + s) == multiset(orders)
      requires (forall o :: o in b ==> o.side == Buy) && (forall o :: o in s ==> o.side == Sell)
      requires InPriority(Buy, Values(b)) && InPriority(Sell, Values(s))
      ensures IsSorted(Book(Values(b), Values(s)), Values(orders))
    {
      SameValues(b + s, orders);
      assert Values(b + s) == Values(b) + Values(s);
    }

    // Both sides of the index, from empty.
    method IndexBatch(buys: seq<OrderInBook>, sells: seq<OrderInBook>)
      requires Indexed(Buy, [], []) && forall o, x :: o in sells && x in buys ==> o.price != x.price
      modifies this`priceLevels, bids, asks, bids.nodes, asks.nodes, priceLevels.Values
      ensures Indexed(Buy, buys, sells)
      ensures Values(buys) == old(Values(buys)) && Values(sells) == old(Values(sells))
      ensures forall k :: 0 <= k < |bids.nodes| ==> bids.nodes[k] in old(bids.nodes) || fresh(bids.nodes[k])
      ensures forall k :: 0 <= k < |asks.nodes| ==> asks.nodes[k] in old(asks.nodes) || fresh(asks.nodes[k])
      ensures forall l :: l in priceLevels.Values ==> l in old(priceLevels.Values) || fresh(l)
    {
      hide Indexed, SkipList.Keys, Values;
      AppendAll(buys, Buy, []);
      Flip(Buy, buys, []);
      AppendAll(sells, Sell, buys);
      Flip(Sell, sells, buys);
    }

    // The two sorted lists become the book.
    method ListBatch(buys: seq<OrderInBook>, sells: seq<OrderInBook>)
      requires Indexed(Buy, [], []) && Wf(Book(Values(buys), Values(sells)))
      requires forall o, x :: o in sells && x in buys ==> o.price != x.price
      modifies this, bids, asks, bids.nodes, asks.nodes, priceLevels.Values
      ensures Valid() && Contents() == old(Book(Values(buys), Values(sells)))
      ensures buyOrders == buys && sellOrders == sells
      ensures forall k :: 0 <= k < |bids.nodes| ==> bids.nodes[k] in old(bids.nodes) || fresh(bids.nodes[k])
      ensures forall k :: 0 <= k < |asks.nodes| ==> asks.nodes[k] in old(asks.nodes) || fresh(asks.nodes[k])
      ensures forall l :: l in priceLevels.Values ==> l in old(priceLevels.Values) || fresh(l)
    {
      hide Indexed, SkipList.Keys, Wf, Values;
      IndexBatch(buys, sells);
      buyOrders, sellOrders := buys, sells;
    }

    // BatchAddOrdersForRecovery, on an empty book.
    method BatchAddOrders(orders: seq<OrderInBook>)
      requires Valid() && Contents() == EMPTY_BOOK && BatchReady(orders)
      modifies this, bids, asks, bids.nodes, asks.nodes, priceLevels.Values
      ensures Valid() && IsSorted(Contents(), Values(orders))
      ensures forall o :: o in buyOrders || o in sellOrders ==> o in orders
      ensures forall k :: 0 <= k < |bids.nodes| ==> bids.nodes[k] in old(bids.nodes) || fresh(bids.nodes[k])
      ensures forall k :: 0 <= k < |asks.nodes| ==> asks.nodes[k] in old(asks.nodes) || fresh(asks.nodes[k])
      ensures forall l :: l in priceLevels.Values ==> l in old(priceLevels.Values) || fresh(l)
    {
      hide Indexed, SkipList.Keys, Wf, Values, IsSorted, BatchReady, SortedBy;
      NothingListed(orders);
      if |orders| == 0 {
        return;
      }
      var buys, sells := SplitAndSort(orders);
      BatchFacts(orders, buys, sells);
      ListBatch(buys, sells);
    }

    method SplitAndSort(orders: seq<OrderInBook>) returns (b: seq<OrderInBook>, s: seq<OrderInBook>)
      ensures multiset(b + s) == multiset(orders)
      ensures (forall o :: o in b ==> o.side == Buy) && (forall o :: o in s ==> o.side == Sell)
      ensures SortedBy(ByPriority(Buy), b) && SortedBy(ByPriority(Sell), s)
    {
      hide SortedBy;
      var buys, sells := SplitSides(orders);
      b := SortSlice(ByPriority(Buy), buys);
      s := SortSlice(ByPriority(Sell), sells);
      assert forall o :: o in b ==> o in multiset(buys);
      assert forall o :: o in s ==> o in multiset(sells);
    }

    lemma NothingListed(orders: seq<OrderInBook>)
      requires Valid() && Contents() == EMPTY_BOOK
      ensures buyOrders == [] && sellOrders == []
      ensures orders == [] ==> IsSorted(Contents(), Values(orders))
    {
      assert |Contents().bids| == |buyOrders| && |Contents().asks| == |sellOrders|;
    }
  }
}
