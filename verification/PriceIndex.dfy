// How a skip list of prices and the level map index one flat list.
module PriceIndex {
  import opened Matching
  import opened SkipLists
  import opened Orders

  // ---- One side's index ----

  // What the level map holds, by price.
  ghost function LevelOrders(levels: map<int, PriceLevel>): map<int, seq<OrderInBook>>
    reads levels.Values
  {
    map p | p in levels :: levels[p].orders
  }

  // The keys are exactly the prices of the list, and the level of each holds
  // exactly the orders there, in list order.
  ghost predicate Holds(keys: seq<int>, levelOrders: map<int, seq<OrderInBook>>, list: seq<OrderInBook>) {
    && (forall p :: p in keys <==> AtPrice(list, p) != [])
    && (forall p :: p in keys ==> p in levelOrders && levelOrders[p] == AtPrice(list, p))
  }

  ghost predicate SideIndexed(index: SkipList, levels: map<int, PriceLevel>, list: seq<OrderInBook>)
    reads index, index.nodes, levels.Values
  {
    && index.Valid()
    && Holds(index.Keys(), LevelOrders(levels), list)
    && (forall p :: p in levels ==> levels[p].price == p)
  }

  // The level of the k-th node, when the first c orders are at better prices.
  lemma LevelIsSegment(side: Side, index: SkipList, levels: map<int, PriceLevel>, list: seq<OrderInBook>, k: nat, c: nat)
    requires SideIndexed(index, levels, list) && Ranked(side, list) && 1 <= k < |index.nodes|
    requires Boundary(side, list, index.nodes[k].key, c)
    ensures
      var p := index.nodes[k].key;
      && p in levels && levels[p].price == p && IsSegment(levels[p].orders, list, c, p)
      && Behind(side, list, p, c + |levels[p].orders|)
  {
    var p := index.nodes[k].key;
    assert index.Keys()[k - 1] == p;
    AtPriceIsSegment(side, list, p, c);
    forall o | o in AtPrice(list, p) ensures o.price == p { AtPriceMember(list, p, o); }
  }

  // Every order stands at the key of some node.
  lemma NodeOf(index: SkipList, levels: map<int, PriceLevel>, list: seq<OrderInBook>, j: nat) returns (m: nat)
    requires SideIndexed(index, levels, list) && j < |list|
    ensures 1 <= m < |index.nodes| && index.nodes[m].key == list[j].price
  {
    var p := list[j].price;
    AtPriceMember(list, p, list[j]);
    assert p in index.Keys();
    var i :| 0 <= i < |index.Keys()| && index.Keys()[i] == p;
    m := i + 1;
  }

  lemma IndexIsValid(index: SkipList, levels: map<int, PriceLevel>, list: seq<OrderInBook>)
    requires SideIndexed(index, levels, list)
    ensures index.Valid() && |index.nodes| > 0
  {
  }

  lemma LinksOf(index: SkipList, levels: map<int, PriceLevel>, list: seq<OrderInBook>, k: nat)
    requires SideIndexed(index, levels, list) && k < |index.nodes|
    ensures index.Valid()
    ensures |index.nodes[k].forward| > 0 && index.nodes[k].forward[0] == NodeAt(index.nodes, k + 1)
    ensures index.nodes[k].backward == Predecessor(index.nodes, k)
  {
    index.LinkOnLevelZero(k);
  }

  lemma KeyHasLevel(index: SkipList, levels: map<int, PriceLevel>, list: seq<OrderInBook>, k: nat)
    requires SideIndexed(index, levels, list) && 1 <= k < |index.nodes|
    ensures index.nodes[k].key in levels
  {
    assert index.Keys()[k - 1] == index.nodes[k].key;
    assert index.nodes[k].key in LevelOrders(levels);
  }

  // Asks are walked upwards ...
  lemma NextAskBoundary(index: SkipList, levels: map<int, PriceLevel>, list: seq<OrderInBook>, k: nat, c: nat)
    requires SideIndexed(index, levels, list) && k < |index.nodes|
    requires if k == 0 then c == 0 else Behind(Sell, list, index.nodes[k].key, c)
    ensures if k + 1 < |index.nodes| then Boundary(Sell, list, index.nodes[k + 1].key, c) else c == |list|
  {
    forall j | c <= j < |list|
      ensures k + 1 < |index.nodes| && list[j].price >= index.nodes[k + 1].key
    {
      var m := NodeOf(index, levels, list, j);
    }
  }

  // ... and bids downwards, k == |nodes| standing for the start.
  lemma NextBidBoundary(index: SkipList, levels: map<int, PriceLevel>, list: seq<OrderInBook>, k: nat, c: nat)
    requires SideIndexed(index, levels, list) && 1 <= k <= |index.nodes|
    requires if k == |index.nodes| then c == 0 else Behind(Buy, list, index.nodes[k].key, c)
    ensures if k > 1 then Boundary(Buy, list, index.nodes[k - 1].key, c) else c == |list|
  {
    forall j | c <= j < |list|
      ensures k > 1 && list[j].price <= index.nodes[k - 1].key
    {
      var m := NodeOf(index, levels, list, j);
    }
  }

  // Dropping an order from its level, and the level from the index once empty,
  // follows the flat list ...
  lemma HoldsAfterDrop(keys: seq<int>, lv: map<int, seq<OrderInBook>>, list: seq<OrderInBook>, k: nat,
                       keys': seq<int>, lv': map<int, seq<OrderInBook>>)
    requires Holds(keys, lv, list) && k < |list| && DistinctOrders(list)
    requires
      var p, rest := list[k].price, WithoutId(AtPrice(list, list[k].price), list[k].orderId);
      && (forall q :: q in keys' <==> q in keys && (q != p || rest != []))
      && lv' == if rest == [] then lv - {p} else lv[p := rest]
    ensures Holds(keys', lv', DropAt(list, k))
  {
    var p := list[k].price;
    AtPriceMember(list, p, list[k]);
    forall q ensures AtPrice(DropAt(list, k), q) ==
      if q == p then WithoutId(AtPrice(list, q), list[k].orderId) else AtPrice(list, q)
    {
      AtPriceWithout(list, k, q);
    }
  }

  // ... and does not disturb the other side, which has no such key.
  lemma HoldsElsewhere(keys: seq<int>, lv: map<int, seq<OrderInBook>>, other: seq<OrderInBook>, p: int,
                       lv': map<int, seq<OrderInBook>>)
    requires Holds(keys, lv, other) && p !in keys
    requires forall q :: q != p && q in lv ==> q in lv' && lv'[q] == lv[q]
    ensures Holds(keys, lv', other)
  {
  }

  lemma OrderHasLevel(keys: seq<int>, lv: map<int, seq<OrderInBook>>, list: seq<OrderInBook>, k: nat)
    requires Holds(keys, lv, list) && k < |list|
    ensures list[k].price in keys && list[k].price in lv && lv[list[k].price] == AtPrice(list, list[k].price)
  {
    AtPriceMember(list, list[k].price, list[k]);
  }

  ghost predicate OwnLevels(levels: map<int, PriceLevel>) {
    forall p, q :: p in levels && q in levels && p != q ==> levels[p] != levels[q]
  }

  // Writing one level changes the level map's contents there only.
  method SetLevel(ghost levels: map<int, PriceLevel>, pl: PriceLevel, ghost p: int, orders: seq<OrderInBook>)
    requires p in levels && pl == levels[p] && OwnLevels(levels)
    modifies pl
    ensures LevelOrders(levels) == old(LevelOrders(levels))[p := orders]
    ensures pl.orders == orders
  {
    pl.orders := orders;
    assert forall q :: q in levels ==> levels[q].orders == if q == p then orders else old(levels[q].orders);
  }

  // ---- Putting one order into the flat list and into its level ----

  ghost function InsertAt(s: seq<OrderInBook>, i: nat, o: OrderInBook): seq<OrderInBook>
    requires i <= |s|
  {
    s[..i] + [o] + s[i..]
  }

  lemma AtPriceInsert(s: seq<OrderInBook>, i: nat, o: OrderInBook, p: int)
    requires i <= |s| && forall k :: i <= k < |s| ==> s[k].price != o.price
    ensures AtPrice(InsertAt(s, i, o), p) == AtPrice(s, p) + if p == o.price then [o] else []
  {
    AtPriceSplit(s, p, i);
    AtPriceConcat(s[..i] + [o], s[i..], p);
    AtPricePush(s[..i], o, p);
    if p == o.price { AllAtPrice(s[i..], p); }
    assert AtPrice(s[..i], p) + [] + AtPrice(s[i..], p) == AtPrice(s, p);
  }

  // Appending to the level follows inserting into the flat list behind
  // everything at that price or better.
  lemma HoldsAfterInsert(keys: seq<int>, lv: map<int, seq<OrderInBook>>, list: seq<OrderInBook>, i: nat, o: OrderInBook,
                         keys': seq<int>, lv': map<int, seq<OrderInBook>>)
    requires Holds(keys, lv, list)
    requires i <= |list| && forall k :: i <= k < |list| ==> list[k].price != o.price
    requires forall q :: q in keys' <==> q in keys || q == o.price
    requires lv' == lv[o.price := AtPrice(list, o.price) + [o]]
    ensures Holds(keys', lv', InsertAt(list, i, o))
  {
    forall q ensures AtPrice(InsertAt(list, i, o), q) == AtPrice(list, q) + if q == o.price then [o] else [] {
      AtPriceInsert(list, i, o, q);
    }
  }

  lemma LevelOfKey(keys: seq<int>, lv: map<int, seq<OrderInBook>>, list: seq<OrderInBook>, p: int)
    requires Holds(keys, lv, list)
    ensures p in keys ==> p in lv && lv[p] == AtPrice(list, p)
    ensures p !in keys ==> AtPrice(list, p) == []
  {
  }

  lemma NoKeyAt(keys: seq<int>, lv: map<int, seq<OrderInBook>>, list: seq<OrderInBook>, p: int)
    requires Holds(keys, lv, list) && forall j :: 0 <= j < |list| ==> list[j].price != p
    ensures p !in keys
  {
    AllAtPrice(list, p);
  }

  // ---- Best prices ----

  // Every node's key is the price of some order.
  lemma OrderOf(index: SkipList, levels: map<int, PriceLevel>, list: seq<OrderInBook>, k: nat) returns (j: nat)
    requires SideIndexed(index, levels, list) && 1 <= k < |index.nodes|
    ensures j < |list| && list[j].price == index.nodes[k].key
  {
    var p := index.nodes[k].key;
    assert index.Keys()[k - 1] == p;
    var o := AtPrice(list, p)[0];
    AtPriceMember(list, p, o);
    j :| 0 <= j < |list| && list[j] == o;
  }

  lemma BestAskKey(index: SkipList, levels: map<int, PriceLevel>, list: seq<OrderInBook>)
    requires SideIndexed(index, levels, list) && Ranked(Sell, list)
    ensures index.Keys() == [] ==> list == []
    ensures list != [] ==> |index.nodes| > 1 && index.nodes[1].key == list[0].price
    ensures |index.nodes| > 1 ==> list != []
  {
    hide SideIndexed;
    if |index.nodes| > 1 { var j := OrderOf(index, levels, list, 1); }
    if list != [] {
      var m := NodeOf(index, levels, list, 0);
      var j := OrderOf(index, levels, list, 1);
      NodesAscend(index, levels, list, 1, m);
    }
  }

  lemma BestBidKey(index: SkipList, levels: map<int, PriceLevel>, list: seq<OrderInBook>)
    requires SideIndexed(index, levels, list) && Ranked(Buy, list)
    ensures index.Keys() == [] ==> list == []
    ensures list != [] ==> |index.nodes| > 1 && index.nodes[|index.nodes| - 1].key == list[0].price
    ensures |index.nodes| > 1 ==> list != []
  {
    hide SideIndexed;
    if |index.nodes| > 1 { var j := OrderOf(index, levels, list, 1); }
    if list != [] {
      var m := NodeOf(index, levels, list, 0);
      var j := OrderOf(index, levels, list, |index.nodes| - 1);
      NodesAscend(index, levels, list, m, |index.nodes| - 1);
    }
  }

  lemma NodesAscend(index: SkipList, levels: map<int, PriceLevel>, list: seq<OrderInBook>, k: nat, m: nat)
    requires SideIndexed(index, levels, list) && 1 <= k <= m < |index.nodes|
    ensures index.nodes[k].key <= index.nodes[m].key && index.Keys() != []
  {
  }

  // ---- The flat list is its levels, best price first ----

  ghost function Concat(keys: seq<int>, lv: map<int, seq<OrderInBook>>): seq<OrderInBook> {
    if keys == [] then []
    else (if keys[0] in lv then lv[keys[0]] else []) + Concat(keys[1..], lv)
  }

  function Reverse(s: seq<int>): (r: seq<int>)
    ensures |r| == |s| && forall k :: 0 <= k < |s| ==> r[k] == s[|s| - 1 - k]
    ensures forall x :: x in r <==> x in s
  {
    if s == [] then [] else
      assert s == [s[0]] + s[1..];
      Reverse(s[1..]) + [s[0]]
  }

  ghost predicate BestFirst(side: Side, keys: seq<int>) {
    forall i, j :: 0 <= i < j < |keys| ==> Rank(side, keys[i]) < Rank(side, keys[j])
  }

  lemma {:induction false} ConcatFrom(side: Side, keys: seq<int>, lv: map<int, seq<OrderInBook>>, list: seq<OrderInBook>, k: nat, c: nat)
    requires Holds(keys, lv, list) && Ranked(side, list) && BestFirst(side, keys)
    requires k <= |keys| && if k < |keys| then Boundary(side, list, keys[k], c) else c == |list|
    ensures Concat(keys[k..], lv) == list[c..]
    decreases |keys| - k
  {
    if k < |keys| {
      var e := EndOf(side, list, keys[k], c);
      AtPriceIsSegment(side, list, keys[k], c);
      NextSegment(side, keys, lv, list, k, e);
      assert keys[k] in keys && lv[keys[k]] == list[c..e];
      ConcatFrom(side, keys, lv, list, k + 1, e);
      ConcatCons(keys, lv, k);
      assert list[c..] == list[c..e] + list[e..];
    }
  }

  lemma ConcatCons(keys: seq<int>, lv: map<int, seq<OrderInBook>>, k: nat)
    requires k < |keys| && keys[k] in lv
    ensures Concat(keys[k..], lv) == lv[keys[k]] + Concat(keys[k + 1..], lv)
  {
    assert keys[k..][1..] == keys[k + 1..];
  }

  // Past the orders at keys[k] come those at keys[k + 1].
  lemma NextSegment(side: Side, keys: seq<int>, lv: map<int, seq<OrderInBook>>, list: seq<OrderInBook>, k: nat, e: nat)
    requires Holds(keys, lv, list) && BestFirst(side, keys) && k < |keys| && Behind(side, list, keys[k], e)
    ensures if k + 1 < |keys| then Boundary(side, list, keys[k + 1], e) else e == |list|
  {
    forall j | e <= j < |list|
      ensures k + 1 < |keys| && Rank(side, list[j].price) >= Rank(side, keys[k + 1])
    {
      OrderHasLevel(keys, lv, list, j);
      var m :| 0 <= m < |keys| && keys[m] == list[j].price;
    }
  }

  lemma FlatListIsLevels(side: Side, keys: seq<int>, lv: map<int, seq<OrderInBook>>, list: seq<OrderInBook>)
    requires Holds(keys, lv, list) && Ranked(side, list) && BestFirst(side, keys)
    ensures Concat(keys, lv) == list
  {
    forall j | 0 <= j < |list| ensures |keys| > 0 && Rank(side, list[j].price) >= Rank(side, keys[0]) {
      OrderHasLevel(keys, lv, list, j);
      var m :| 0 <= m < |keys| && keys[m] == list[j].price;
    }
    ConcatFrom(side, keys, lv, list, 0, 0);
    assert keys[0..] == keys && list[0..] == list;
  }
}
