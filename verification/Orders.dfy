// Orders and price levels as the book holds them: mutable objects, and the
// lists of them the book keeps.
module Orders {
  import opened Matching

  // What never changes about an order is `const`; matching writes the rest.
  class OrderInBook {
    const id: int
    const orderId: string
    const userId: int
    const side: Side
    const orderType: OrderType
    const price: int
    const quantity: int
    const createdAt: int
    var filledQuantity: int
    var remainingQty: int
    var unfilledQty: int
    var status: Status

    constructor (id: int, orderId: string, userId: int, side: Side, orderType: OrderType,
                 price: int, quantity: int, now: int)
      ensures Value() == NewOrder(id, orderId, userId, side, orderType, price, quantity, now)
    {
      this.id, this.orderId, this.userId := id, orderId, userId;
      this.side, this.orderType, this.price, this.quantity := side, orderType, price, quantity;
      this.createdAt := now;
      filledQuantity, remainingQty, unfilledQty, status := 0, quantity, 0, Pending;
    }

    // An order as a snapshot saved it.
    constructor FromState(o: Order)
      ensures Value() == o.(unfilled := 0)
    {
      id, orderId, userId := o.id, o.orderId, o.userId;
      side, orderType, price, quantity := o.side, o.orderType, o.price, o.quantity;
      createdAt := o.createdAt;
      filledQuantity, remainingQty, unfilledQty, status := o.filled, o.remaining, 0, o.status;
    }

    function Value(): (o: Order)
      reads this
    {
      Order(id, orderId, userId, side, orderType, price, quantity,
            filledQuantity, remainingQty, unfilledQty, status, createdAt)
    }

    method Fill(qty: int)
      modifies this
      ensures Value() == old(Value()).Fill(qty)
    {
      filledQuantity := filledQuantity + qty;
      remainingQty := remainingQty - qty;
      if remainingQty == 0 {
        status := Filled;
      } else {
        status := PartialFilled;
      }
    }

    predicate CanMatch(p: int) {
      match side
      case Buy => price >= p
      case Sell => price <= p
    }

    predicate IsFilled()
      reads this
    {
      remainingQty == 0
    }

    predicate IsActive()
      reads this
    {
      status == Pending || status == PartialFilled
    }
  }

  class PriceLevel {
    const price: int
    var orders: seq<OrderInBook>

    constructor (price: int)
      ensures this.price == price && orders == []
    {
      this.price := price;
      orders := [];
    }
  }

  // ---- Lists of orders; prices and times are constants, so no heap is read ----

  ghost function Values(s: seq<OrderInBook>): (r: seq<Order>)
    reads s
    ensures |r| == |s| && forall k :: 0 <= k < |s| ==> r[k] == s[k].Value()
  {
    seq(|s|, k requires 0 <= k < |s| reads s => s[k].Value())
  }

  ghost predicate Ranked(side: Side, s: seq<OrderInBook>) {
    forall i, j :: 0 <= i < j < |s| ==>
      Rank(side, s[i].price) < Rank(side, s[j].price) || (s[i].price == s[j].price && s[i].createdAt < s[j].createdAt)
  }

  ghost predicate DistinctOrders(s: seq<OrderInBook>) {
    forall i, j :: 0 <= i < j < |s| ==> s[i].orderId != s[j].orderId
  }

  // The orders of a list at one price, in list order.
  ghost function AtPrice(s: seq<OrderInBook>, p: int): seq<OrderInBook> {
    if s == [] then []
    else AtPrice(s[..|s| - 1], p) + if s[|s| - 1].price == p then [s[|s| - 1]] else []
  }

  lemma {:induction false} AtPriceMember(s: seq<OrderInBook>, p: int, o: OrderInBook)
    ensures o in AtPrice(s, p) <==> o in s && o.price == p
  {
    if s != [] {
      AtPriceMember(s[..|s| - 1], p, o);
      assert s == s[..|s| - 1] + [s[|s| - 1]];
    }
  }

  lemma {:induction false} AllAtPrice(s: seq<OrderInBook>, p: int)
    ensures (forall j :: 0 <= j < |s| ==> s[j].price == p) ==> AtPrice(s, p) == s
    ensures (forall j :: 0 <= j < |s| ==> s[j].price != p) ==> AtPrice(s, p) == []
  {
    if s != [] {
      AllAtPrice(s[..|s| - 1], p);
      assert s == s[..|s| - 1] + [s[|s| - 1]];
    }
  }

  lemma {:induction false} AtPriceConcat(a: seq<OrderInBook>, b: seq<OrderInBook>, p: int)
    ensures AtPrice(a + b, p) == AtPrice(a, p) + AtPrice(b, p)
  {
    if b == [] {
      assert a + b == a;
    } else {
      var b' := b[..|b| - 1];
      AtPriceConcat(a, b', p);
      assert (a + b)[..|a + b| - 1] == a + b';
    }
  }

  // The first position from c on whose order is at a worse price than p.
  ghost function EndOf(side: Side, s: seq<OrderInBook>, p: int, c: nat): (e: nat)
    requires c <= |s|
    ensures c <= e <= |s|
    ensures forall j :: c <= j < e ==> Rank(side, s[j].price) <= Rank(side, p)
    ensures e < |s| ==> Rank(side, s[e].price) > Rank(side, p)
    decreases |s| - c
  {
    if c < |s| && Rank(side, s[c].price) <= Rank(side, p) then EndOf(side, s, p, c + 1) else c
  }

  // In a ranked list the orders of one price stand together, from c on.
  lemma AtPriceIsSegment(side: Side, s: seq<OrderInBook>, p: int, c: nat)
    requires Ranked(side, s) && Boundary(side, s, p, c)
    ensures
      var e := EndOf(side, s, p, c);
      && AtPrice(s, p) == s[c..e]
      && forall j :: e <= j < |s| ==> Rank(side, s[j].price) > Rank(side, p)
  {
    var e := EndOf(side, s, p, c);
    forall j | e <= j < |s| ensures Rank(side, s[j].price) > Rank(side, p) {
      if e < j { assert Rank(side, s[e].price) <= Rank(side, s[j].price); }
    }
    AtPriceOfThree(s, p, c, e);
  }

  lemma AtPriceOfThree(s: seq<OrderInBook>, p: int, c: nat, e: nat)
    requires c <= e <= |s|
    requires forall j :: 0 <= j < c ==> s[j].price != p
    requires forall j :: c <= j < e ==> s[j].price == p
    requires forall j :: e <= j < |s| ==> s[j].price != p
    ensures AtPrice(s, p) == s[c..e]
  {
    hide AtPrice;
    var upTo := s[..e];
    AtPriceSplit(s, p, e);
    AtPriceSplit(upTo, p, c);
    AllAtPrice(s[e..], p);
    AllAtPrice(upTo[..c], p);
    AllAtPrice(upTo[c..], p);
    assert upTo[c..] == s[c..e];
  }

  lemma AtPriceSplit(s: seq<OrderInBook>, p: int, i: nat)
    requires i <= |s|
    ensures AtPrice(s, p) == AtPrice(s[..i], p) + AtPrice(s[i..], p)
  {
    AtPriceConcat(s[..i], s[i..], p);
    assert s == s[..i] + s[i..];
  }

  // The first c orders are at p or better, the others are worse.
  ghost predicate Behind(side: Side, s: seq<OrderInBook>, p: int, c: nat) {
    && c <= |s|
    && (forall j :: 0 <= j < c ==> Rank(side, s[j].price) <= Rank(side, p))
    && (forall j :: c <= j < |s| ==> Rank(side, s[j].price) > Rank(side, p))
  }

  // The first c orders are at better prices than p, the others are not.
  ghost predicate Boundary(side: Side, s: seq<OrderInBook>, p: int, c: nat) {
    && c <= |s|
    && (forall j :: 0 <= j < c ==> Rank(side, s[j].price) < Rank(side, p))
    && (forall j :: c <= j < |s| ==> Rank(side, s[j].price) >= Rank(side, p))
  }

  // `level` is the part of the flat list at one price, in time order.
  ghost predicate IsSegment(level: seq<OrderInBook>, opps: seq<OrderInBook>, c: nat, price: int) {
    && c + |level| <= |opps| && level == opps[c..c + |level|]
    && (forall i :: 0 <= i < |level| ==> level[i].price == price)
    && (forall i, j :: 0 <= i < j < |level| ==> level[i].createdAt < level[j].createdAt)
  }

  // ---- Taking one order out of a list ----

  ghost function WithoutId(s: seq<OrderInBook>, orderId: string): seq<OrderInBook> {
    if s == [] then []
    else WithoutId(s[..|s| - 1], orderId) + if s[|s| - 1].orderId != orderId then [s[|s| - 1]] else []
  }

  ghost function DropAt(s: seq<OrderInBook>, k: nat): seq<OrderInBook>
    requires k < |s|
  {
    s[..k] + s[k + 1..]
  }

  // At the price of the dropped order one order is gone; elsewhere none is.
  lemma {:induction false} AtPriceWithout(s: seq<OrderInBook>, k: nat, p: int)
    requires k < |s| && DistinctOrders(s)
    ensures AtPrice(DropAt(s, k), p) ==
      if p == s[k].price then WithoutId(AtPrice(s, p), s[k].orderId) else AtPrice(s, p)
  {
    var s', last := s[..|s| - 1], s[|s| - 1];
    assert s == s' + [last];
    if k == |s| - 1 {
      assert DropAt(s, k) == s';
      forall o | o in AtPrice(s', p) ensures o.orderId != last.orderId { AtPriceMember(s', p, o); }
      NoSuchId(AtPrice(s', p), last.orderId);
      WithoutIdLast(AtPrice(s', p), last);
    } else {
      AtPriceWithout(s', k, p);
      AtPriceWithoutPush(s', last, k, p);
    }
  }

  lemma AtPriceWithoutPush(s: seq<OrderInBook>, last: OrderInBook, k: nat, p: int)
    requires k < |s| && last.orderId != s[k].orderId
    requires AtPrice(DropAt(s, k), p) ==
      if p == s[k].price then WithoutId(AtPrice(s, p), s[k].orderId) else AtPrice(s, p)
    ensures AtPrice(DropAt(s + [last], k), p) ==
      if p == s[k].price then WithoutId(AtPrice(s + [last], p), s[k].orderId) else AtPrice(s + [last], p)
  {
    hide AtPrice, WithoutId, DropAt;
    DropAtPush(s, last, k);
    AtPricePush(DropAt(s, k), last, p);
    AtPricePush(s, last, p);
    if last.price == p {
      WithoutIdOther(AtPrice(s, p), last, s[k].orderId);
    } else {
      assert AtPrice(s, p) + [] == AtPrice(s, p);
      assert AtPrice(DropAt(s, k), p) + [] == AtPrice(DropAt(s, k), p);
    }
  }

  lemma {:induction false} NoSuchId(r: seq<OrderInBook>, orderId: string)
    requires forall o :: o in r ==> o.orderId != orderId
    ensures WithoutId(r, orderId) == r
  {
    if r != [] { NoSuchId(r[..|r| - 1], orderId); }
  }

  lemma DropAtPush(s: seq<OrderInBook>, o: OrderInBook, k: nat)
    requires k < |s|
    ensures DropAt(s + [o], k) == DropAt(s, k) + [o]
  {
  }

  lemma AtPricePush(s: seq<OrderInBook>, o: OrderInBook, p: int)
    ensures AtPrice(s + [o], p) == AtPrice(s, p) + if o.price == p then [o] else []
  {
    assert (s + [o])[..|s|] == s;
  }

  lemma WithoutIdLast(r: seq<OrderInBook>, o: OrderInBook)
    ensures WithoutId(r + [o], o.orderId) == WithoutId(r, o.orderId)
  {
    assert (r + [o])[..|r|] == r;
  }

  lemma WithoutIdOther(r: seq<OrderInBook>, o: OrderInBook, orderId: string)
    requires o.orderId != orderId
    ensures WithoutId(r + [o], orderId) == WithoutId(r, orderId) + [o]
  {
    assert (r + [o])[..|r|] == r;
  }

  method FilterOut(s: seq<OrderInBook>, orderId: string) returns (r: seq<OrderInBook>)
    ensures r == WithoutId(s, orderId)
  {
    r := [];
    for i := 0 to |s|
      invariant r == WithoutId(s[..i], orderId)
    {
      assert s[..i + 1][..i] == s[..i];
      if s[i].orderId != orderId {
        r := r + [s[i]];
      }
    }
    assert s[..|s|] == s;
  }

  // ---- Keeping the active orders of a list ----

  ghost function ActiveOnly(s: seq<OrderInBook>): (r: seq<OrderInBook>)
    reads s
  {
    if s == [] then []
    else ActiveOnly(s[..|s| - 1]) + if s[|s| - 1].IsActive() then [s[|s| - 1]] else []
  }

  lemma NothingActive(s: seq<OrderInBook>)
    ensures ActiveOnly(s[..0]) == []
  {
  }

  lemma ActiveOnlyPush(s: seq<OrderInBook>, i: nat)
    requires i < |s|
    ensures ActiveOnly(s[..i + 1]) == ActiveOnly(s[..i]) + if s[i].IsActive() then [s[i]] else []
  {
    assert s[..i + 1][..i] == s[..i];
  }

  lemma {:induction false} ActiveOnlyValues(s: seq<OrderInBook>)
    ensures Values(ActiveOnly(s)) == Actives(Values(s))
  {
    if s != [] {
      ActiveOnlyValues(s[..|s| - 1]);
      assert Values(s)[..|s| - 1] == Values(s[..|s| - 1]);
    }
  }

  lemma DropHead(kept: seq<OrderInBook>, s: seq<OrderInBook>, i: nat)
    requires i < |s|
    ensures (kept + s[i..])[|kept|] == s[i]
    ensures DropAt(kept + s[i..], |kept|) == kept + s[i + 1..]
    ensures DistinctOrders(kept + s[i..]) ==> DistinctOrders(kept + s[i + 1..])
  {
    var a, b := kept + s[i..], kept + s[i + 1..];
    assert forall k :: 0 <= k < |b| ==> b[k] == a[if k < |kept| then k else k + 1];
  }

  lemma {:induction false} ActiveOnlyMembers(s: seq<OrderInBook>)
    ensures forall o :: o in ActiveOnly(s) ==> o in s
  {
    if s != [] { ActiveOnlyMembers(s[..|s| - 1]); }
  }
}
