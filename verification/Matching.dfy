// The order book as a value: two flat lists of resting orders, and what one
// command does to them. Prices and quantities are integer ticks.
module Matching {

  datatype Side = Buy | Sell

  datatype OrderType = Limit | Market | IOC | FOK

  datatype Status = Pending | PartialFilled | Filled | Cancelled | Rejected

  datatype Order = Order(
    id: int,
    orderId: string,
    userId: int,
    side: Side,
    orderType: OrderType,
    price: int,
    quantity: int,
    filled: int,
    remaining: int,
    unfilled: int,
    status: Status,
    createdAt: int)
  {
    predicate IsActive() {
      status == Pending || status == PartialFilled
    }

    predicate CanMatch(p: int) {
      match side
      case Buy => price >= p
      case Sell => price <= p
    }

    // A market order ignores its price.
    predicate Accepts(p: int) {
      orderType == Market || CanMatch(p)
    }

    function Fill(qty: int): (o: Order) {
      this.(filled := filled + qty,
            remaining := remaining - qty,
            status := if remaining - qty == 0 then Filled else PartialFilled)
    }
  }

  function NewOrder(id: int, orderId: string, userId: int, side: Side, orderType: OrderType,
                    price: int, quantity: int, now: int): Order
  {
    Order(id, orderId, userId, side, orderType, price, quantity, 0, quantity, 0, Pending, now)
  }

  datatype Trade = Trade(
    buyOrderId: string,
    sellOrderId: string,
    buyUserId: int,
    sellUserId: int,
    price: int,
    quantity: int)

  function TradeOf(taker: Order, opp: Order, qty: int): Trade {
    if taker.side == Buy
    then Trade(taker.orderId, opp.orderId, taker.userId, opp.userId, opp.price, qty)
    else Trade(opp.orderId, taker.orderId, opp.userId, taker.userId, opp.price, qty)
  }

  function Min(a: int, b: int): int { if a < b then a else b }

  // ---- Greedy matching over the flat opposite list ----

  datatype Outcome = Outcome(taker: Order, resting: seq<Order>, trades: seq<Trade>)

  // The taker meets one resting order.
  function Meet(out: Outcome, opp: Order): (r: Outcome) {
    if out.taker.remaining > 0 && opp.IsActive() && out.taker.Accepts(opp.price) then
      var qty := Min(out.taker.remaining, opp.remaining);
      Outcome(out.taker.Fill(qty), out.resting + [opp.Fill(qty)], out.trades + [TradeOf(out.taker, opp, qty)])
    else
      Outcome(out.taker, out.resting + [opp], out.trades)
  }

  // The taker meets the resting orders one after the other, in list order.
  function Greedy(taker: Order, opps: seq<Order>): (r: Outcome)
    ensures |r.resting| == |opps|
  {
    if opps == [] then Outcome(taker, [], [])
    else Meet(Greedy(taker, opps[..|opps| - 1]), opps[|opps| - 1])
  }

  // ---- The book ----

  datatype Book = Book(bids: seq<Order>, asks: seq<Order>)
  {
    function On(side: Side): seq<Order> {
      if side == Buy then bids else asks
    }

    function With(side: Side, s: seq<Order>): Book {
      if side == Buy then this.(bids := s) else this.(asks := s)
    }
  }

  const EMPTY_BOOK := Book([], [])

  function Opposite(side: Side): Side {
    if side == Buy then Sell else Buy
  }

  // Smaller rank, better price.
  function Rank(side: Side, price: int): int {
    if side == Sell then price else -price
  }

  function Actives(s: seq<Order>): (r: seq<Order>) {
    if s == [] then []
    else Actives(s[..|s| - 1]) + if s[|s| - 1].IsActive() then [s[|s| - 1]] else []
  }

  // Where an order of this price rests: before the first worse one.
  function Slot(side: Side, s: seq<Order>, price: int): (i: nat)
    ensures i <= |s|
    ensures forall k :: 0 <= k < i ==> Rank(side, s[k].price) <= Rank(side, price)
    ensures i < |s| ==> Rank(side, s[i].price) > Rank(side, price)
  {
    if s == [] || Rank(side, s[0].price) > Rank(side, price) then 0
    else 1 + Slot(side, s[1..], price)
  }

  function Rest(s: seq<Order>, o: Order): seq<Order> {
    var i := Slot(o.side, s, o.price);
    s[..i] + [o] + s[i..]
  }

  datatype Reply = Reply(book: Book, taker: Order, trades: seq<Trade>, ok: bool)

  // After matching and dropping the filled orders: what is left of a limit
  // order rests; a market or IOC order gives it up.
  function Finish(clean: Book, u: Order, trades: seq<Trade>): (r: Reply) {
    match u.orderType
    case Limit =>
      if u.remaining != 0 && u.IsActive()
      then Reply(clean.With(u.side, Rest(clean.On(u.side), u)), u, trades, true)
      else Reply(clean, u, trades, true)
    case FOK => Reply(clean, u, trades, true)
    case _ =>
      Reply(clean, u.(unfilled := if u.remaining > 0 then u.remaining else u.unfilled, status := Filled), trades, true)
  }

  // Submitting an order: match it against the opposite side, roll back a short
  // FOK, or else drop the filled orders and finish.
  function Submit(b: Book, o: Order): (r: Reply) {
    var opp := Opposite(o.side);
    var m := Greedy(o, b.On(opp));
    if o.orderType == FOK && m.taker.remaining > 0 then
      Reply(b, m.taker.(unfilled := m.taker.remaining, status := Rejected), [], false)
    else
      var met := b.With(opp, m.resting);
      Finish(Book(Actives(met.bids), Actives(met.asks)), m.taker, m.trades)
  }

  // The position of the first order with this ID, |s| if there is none.
  function Find(s: seq<Order>, orderId: string): (i: nat)
    ensures i <= |s|
    ensures forall k :: 0 <= k < i ==> s[k].orderId != orderId
    ensures i < |s| ==> s[i].orderId == orderId
  {
    if s == [] || s[0].orderId == orderId then 0 else 1 + Find(s[1..], orderId)
  }

  function Drop(s: seq<Order>, i: nat): (r: seq<Order>)
    requires i < |s|
  {
    s[..i] + s[i + 1..]
  }

  datatype CancelReply = CancelReply(book: Book, found: bool)

  function Cancel(b: Book, orderId: string): CancelReply {
    var i, j := Find(b.bids, orderId), Find(b.asks, orderId);
    if i < |b.bids| then CancelReply(b.(bids := Drop(b.bids, i)), true)
    else if j < |b.asks| then CancelReply(b.(asks := Drop(b.asks, j)), true)
    else CancelReply(b, false)
  }

  // ---- What every reachable book satisfies ----

  // A resting order: live, with something left, its quantities adding up, and
  // a price other than the skip-list header's key 0.
  predicate Live(o: Order) {
    && o.price != 0
    && o.remaining > 0 && o.filled >= 0 && o.filled + o.remaining == o.quantity
    && o.unfilled == 0
    && o.status == (if o.filled == 0 then Pending else PartialFilled)
  }

  // Price priority, then time priority.
  predicate InPriority(side: Side, s: seq<Order>) {
    forall i, j :: 0 <= i < j < |s| ==> Before(side, s[i], s[j])
  }

  predicate Before(side: Side, a: Order, b: Order) {
    || Rank(side, a.price) < Rank(side, b.price)
    || (a.price == b.price && a.createdAt < b.createdAt)
  }

  ghost predicate Uncrossed(b: Book) {
    forall x, y :: x in b.bids && y in b.asks ==> x.price < y.price
  }

  ghost predicate OneSided(side: Side, s: seq<Order>) {
    forall x :: x in s ==> x.side == side && Live(x)
  }

  predicate DistinctIds(s: seq<Order>) {
    forall i, j :: 0 <= i < j < |s| ==> s[i].orderId != s[j].orderId
  }

  ghost predicate Wf(b: Book) {
    && OneSided(Buy, b.bids) && OneSided(Sell, b.asks)
    && InPriority(Buy, b.bids) && InPriority(Sell, b.asks)
    && DistinctIds(b.bids) && DistinctIds(b.asks)
    && (forall x, y :: x in b.bids && y in b.asks ==> x.orderId != y.orderId)
    && Uncrossed(b)
  }

  ghost predicate Newer(s: seq<Order>, o: Order) {
    forall x :: x in s ==> x.orderId != o.orderId && x.createdAt < o.createdAt
  }

  // What the book asks of a new order: a positive quantity, a nonzero price if
  // it may rest, an ID that is not resting, and a later timestamp than theirs.
  ghost predicate Fresh(b: Book, o: Order) {
    && o == NewOrder(o.id, o.orderId, o.userId, o.side, o.orderType, o.price, o.quantity, o.createdAt)
    && o.quantity > 0 && (o.orderType == Limit ==> o.price != 0)
    && Newer(b.bids, o) && Newer(b.asks, o)
  }
}
