// What greedy matching means: price-time priority, and how much is filled.
module Priority {
  import opened Matching
  import opened MatchingLaws

  // ---- Price-time priority ----

  // A trade at the maker's price, between these two users, for no more than the
  // maker has and within the taker's limit.
  ghost predicate FairTrade(o: Order, opp: Order, trade: Trade) {
    && trade.price == opp.price && !BeyondLimit(o, trade.price)
    && 0 < trade.quantity <= opp.remaining
    && (o.side == Buy ==>
          && trade.buyOrderId == o.orderId && trade.buyUserId == o.userId
          && trade.sellOrderId == opp.orderId && trade.sellUserId == opp.userId)
    && (o.side == Sell ==>
          && trade.sellOrderId == o.orderId && trade.sellUserId == o.userId
          && trade.buyOrderId == opp.orderId && trade.buyUserId == opp.userId)
  }

  // A buyer pays no more than its price, a seller takes no less; market orders
  // have no limit.
  predicate BeyondLimit(o: Order, price: int) {
    && o.orderType != Market
    && (o.side == Buy ==> price > o.price) && (o.side == Sell ==> price < o.price)
  }

  // The trades consume a prefix of the priority order: best price first, oldest
  // first within a price, every maker but perhaps the last completely, each at
  // its own price, all within the taker's limit; and matching stops only when
  // the taker is filled or the next maker is not acceptable.
  ghost predicate IsPriceTime(t: Order, s: seq<Order>, out: Outcome) {
    var n := |out.trades|;
    && n <= |s| == |out.resting|
    && (forall k :: 0 <= k < n ==>
          && FairTrade(t, s[k], out.trades[k])
          && out.resting[k] == s[k].Fill(out.trades[k].quantity))
    && (forall k :: 0 <= k < n - 1 ==> out.trades[k].quantity == s[k].remaining)
    && (forall k :: n <= k < |s| ==> out.resting[k] == s[k])
    && (out.taker.remaining > 0 ==>
          && (n > 0 ==> out.trades[n - 1].quantity == s[n - 1].remaining)
          && (n < |s| ==> BeyondLimit(t, s[n].price)))
  }

  lemma {:induction false} GreedyIsPriceTime(t: Order, s: seq<Order>)
    requires t.remaining > 0 && AllLive(s) && InPriority(Opposite(t.side), s)
    ensures IsPriceTime(t, s, Greedy(t, s))
  {
    if s != [] {
      hide IsPriceTime, InPriority, AllLive, Live, Meet;
      var pre, last := s[..|s| - 1], s[|s| - 1];
      assert s == pre + [last];
      PrefixFacts(Opposite(t.side), s);
      GreedyIsPriceTime(t, pre);
      GreedyTaker(t, pre);
      var out := Greedy(t, pre);
      if out.taker.remaining > 0 && t.Accepts(last.price) {
        AcceptedBefore(t, s);
        PriceTimeTrade(t, pre, last, out);
      } else {
        PriceTimeSkip(t, pre, last, out);
      }
    }
  }

  lemma PrefixFacts(side: Side, s: seq<Order>)
    requires s != [] && AllLive(s) && InPriority(side, s)
    ensures AllLive(s[..|s| - 1]) && InPriority(side, s[..|s| - 1]) && Live(s[|s| - 1])
  {
  }

  // An acceptable order comes only after acceptable ones.
  lemma AcceptedBefore(t: Order, s: seq<Order>)
    requires s != [] && InPriority(Opposite(t.side), s) && t.Accepts(s[|s| - 1].price)
    ensures forall k :: 0 <= k < |s| ==> t.Accepts(s[k].price)
  {
    forall k | 0 <= k < |s| - 1 ensures t.Accepts(s[k].price) {
      assert Before(Opposite(t.side), s[k], s[|s| - 1]);
    }
  }

  lemma PriceTimeTrade(t: Order, pre: seq<Order>, last: Order, out: Outcome)
    requires IsPriceTime(t, pre, out) && Live(last)
    requires forall k :: 0 <= k < |pre| ==> t.Accepts(pre[k].price)
    requires SameIdentity(t, out.taker) && out.taker.remaining > 0 && t.Accepts(last.price)
    ensures IsPriceTime(t, pre + [last], Meet(out, last))
  {
  }

  lemma PriceTimeSkip(t: Order, pre: seq<Order>, last: Order, out: Outcome)
    requires IsPriceTime(t, pre, out)
    requires SameIdentity(t, out.taker) && !(out.taker.remaining > 0 && t.Accepts(last.price))
    ensures IsPriceTime(t, pre + [last], Meet(out, last))
  {
  }

  // ---- How much is filled ----

  // The quantity resting within the taker's limit.
  function Matchable(t: Order, s: seq<Order>): int {
    if s == [] then 0
    else Matchable(t, s[..|s| - 1]) + if BeyondLimit(t, s[|s| - 1].price) then 0 else s[|s| - 1].remaining
  }

  function TotalQuantity(trades: seq<Trade>): int {
    if trades == [] then 0
    else TotalQuantity(trades[..|trades| - 1]) + trades[|trades| - 1].quantity
  }

  lemma TotalPush(trades: seq<Trade>, t: Trade)
    ensures TotalQuantity(trades + [t]) == TotalQuantity(trades) + t.quantity
  {
    assert (trades + [t])[..|trades|] == trades;
  }

  // The taker gets all that is matchable, up to what it wants.
  lemma {:induction false} GreedyFills(t: Order, s: seq<Order>)
    requires t.remaining >= 0 && AllLive(s)
    ensures Matchable(t, s) >= 0
    ensures Greedy(t, s).taker.remaining == t.remaining - Min(t.remaining, Matchable(t, s))
    ensures TotalQuantity(Greedy(t, s).trades) == Min(t.remaining, Matchable(t, s))
  {
    if s != [] {
      var pre, last := s[..|s| - 1], s[|s| - 1];
      GreedyFills(t, pre);
      GreedyTaker(t, pre);
      MeetFills(Greedy(t, pre), last);
    }
  }

  lemma MeetFills(out: Outcome, last: Order)
    requires out.taker.remaining >= 0 && Live(last)
    ensures
      var m := Meet(out, last);
      var qty := if out.taker.Accepts(last.price) then Min(out.taker.remaining, last.remaining) else 0;
      m.taker.remaining == out.taker.remaining - qty && TotalQuantity(m.trades) == TotalQuantity(out.trades) + qty
  {
    if out.taker.remaining > 0 && out.taker.Accepts(last.price) {
      TotalPush(out.trades, TradeOf(out.taker, last, Min(out.taker.remaining, last.remaining)));
    }
  }

  // FOK is all or nothing: it succeeds exactly when enough is resting within
  // its limit, and then trades all of its quantity; otherwise nothing changes.
  lemma FillOrKill(b: Book, o: Order)
    requires Wf(b) && Fresh(b, o) && o.orderType == FOK
    ensures
      var r := Submit(b, o);
      && (r.ok <==> Matchable(o, b.On(Opposite(o.side))) >= o.quantity)
      && (r.ok ==> TotalQuantity(r.trades) == o.quantity && r.taker.status == Filled)
      && (!r.ok ==> r.book == b && r.trades == [] && r.taker.status == Rejected)
  {
    var opp := Opposite(o.side);
    SideIsLive(b.On(opp), opp);
    GreedyFills(o, b.On(opp));
    GreedyTaker(o, b.On(opp));
  }

  // A rejected FOK order leaves no mark on the book, but its own fields still
  // say what it had filled: all that was matchable, so nothing exactly when
  // nothing was.
  lemma RejectedKeepsFill(b: Book, o: Order)
    requires Wf(b) && Fresh(b, o) && !Submit(b, o).ok
    ensures
      var r, there := Submit(b, o), Matchable(o, b.On(Opposite(o.side)));
      && r.taker.filled == there < o.quantity && r.taker.remaining == r.taker.unfilled == o.quantity - there
      && (r.taker.filled == 0 <==> there == 0)
  {
    hide Greedy, Matchable;
    var opp := Opposite(o.side);
    WfSide(b, opp);
    SideIsLive(b.On(opp), opp);
    GreedyFills(o, b.On(opp));
    GreedyTaker(o, b.On(opp));
  }

  // A FOK buyer of 5 meets a seller of 3: nothing trades and the book is as it
  // was, but the rejected order says that 3 are filled.
  lemma RejectedFokIsMarked()
    ensures
      var seller := NewOrder(1, "SELL1", 1, Sell, Limit, 100, 3, 1);
      var r := Submit(Book([], [seller]), NewOrder(2, "FOK1", 2, Buy, FOK, 100, 5, 2));
      && !r.ok && r.trades == [] && r.book == Book([], [seller])
      && r.taker.status == Rejected && r.taker.filled == 3 && r.taker.remaining == 2
  {
    var seller, o := NewOrder(1, "SELL1", 1, Sell, Limit, 100, 3, 1), NewOrder(2, "FOK1", 2, Buy, FOK, 100, 5, 2);
    hide Submit, Greedy, Wf, Fresh, Matchable;
    var b := Book([], [seller]);
    LoneSeller(seller, o);
    FillOrKill(b, o);
    RejectedKeepsFill(b, o);
  }

  lemma LoneSeller(seller: Order, o: Order)
    requires seller == NewOrder(1, "SELL1", 1, Sell, Limit, 100, 3, 1) && o == NewOrder(2, "FOK1", 2, Buy, FOK, 100, 5, 2)
    ensures Wf(Book([], [seller])) && Fresh(Book([], [seller]), o) && Matchable(o, [seller]) == 3
  {
    assert [seller][..0] == [];
    assert "SELL1"[0] != "FOK1"[0];
  }

  // For the other types: what was matchable trades, the rest of a limit order
  // rests, and the rest of a market or IOC order is reported as unfilled.
  lemma OtherTypes(b: Book, o: Order)
    requires Wf(b) && Fresh(b, o) && o.orderType != FOK
    ensures
      var r, m := Submit(b, o), Min(o.quantity, Matchable(o, b.On(Opposite(o.side))));
      && r.ok && TotalQuantity(r.trades) == m && r.taker.remaining == o.quantity - m
      && (o.orderType == Limit ==> (r.taker in r.book.On(o.side) <==> m < o.quantity))
      && (o.orderType != Limit ==> r.taker.unfilled == o.quantity - m && r.taker.status == Filled && r.book == Matched(b, o))
  {
    var opp := Opposite(o.side);
    SideIsLive(b.On(opp), opp);
    GreedyFills(o, b.On(opp));
    GreedyTaker(o, b.On(opp));
    MatchedWf(b, o);
    MatchedNewer(b, o);
    var u := Greedy(o, b.On(opp)).taker;
    RestMembers(Matched(b, o).On(o.side), u);
  }

  // ---- Cancelling ----

  // A cancellation succeeds exactly for a resting ID, and takes out that order
  // and nothing else.
  lemma CancelExact(b: Book, orderId: string)
    requires Wf(b)
    ensures
      var r := Cancel(b, orderId);
      && (r.found <==> exists x :: (x in b.bids || x in b.asks) && x.orderId == orderId)
      && (forall x :: x in r.book.bids <==> x in b.bids && x.orderId != orderId)
      && (forall x :: x in r.book.asks <==> x in b.asks && x.orderId != orderId)
  {
    var i, j := Find(b.bids, orderId), Find(b.asks, orderId);
    FindMembers(b.bids, orderId);
    FindMembers(b.asks, orderId);
    if i < |b.bids| {
      DropKeeps(b.bids, i, Buy);
      assert b.bids[i] in b.bids;
    } else if j < |b.asks| {
      DropKeeps(b.asks, j, Sell);
      assert b.asks[j] in b.asks;
    }
  }

  lemma FindMembers(s: seq<Order>, orderId: string)
    requires DistinctIds(s)
    ensures Find(s, orderId) == |s| <==> forall x :: x in s ==> x.orderId != orderId
    ensures Find(s, orderId) < |s| ==> forall x :: x in s && x.orderId == orderId ==> x == s[Find(s, orderId)]
  {
    var i := Find(s, orderId);
    assert i < |s| ==> s[i] in s;
  }

  // An order nothing on the other side matches leaves that side alone.
  lemma {:induction false} GreedyUnmatched(t: Order, s: seq<Order>)
    requires forall j :: 0 <= j < |s| ==> !t.Accepts(s[j].price)
    ensures Greedy(t, s) == Outcome(t, s, [])
  {
    if s != [] {
      GreedyUnmatched(t, s[..|s| - 1]);
      assert s == s[..|s| - 1] + [s[|s| - 1]];
    }
  }

  lemma RestsUnmatched(b: Book, o: Order)
    requires AllLive(b.bids) && AllLive(b.asks)
    requires o.orderType == Limit && o.remaining != 0 && o.IsActive()
    requires forall j :: 0 <= j < |b.On(Opposite(o.side))| ==> !o.CanMatch(b.On(Opposite(o.side))[j].price)
    ensures Submit(b, o) == Reply(b.With(o.side, Rest(b.On(o.side), o)), o, [], true)
  {
    GreedyUnmatched(o, b.On(Opposite(o.side)));
    ActivesOfLive(b.bids);
    ActivesOfLive(b.asks);
  }

  // Resting a limit order that matches nothing and cancelling it again gives
  // the book back exactly.
  lemma RestThenCancel(b: Book, o: Order)
    requires Wf(b) && Fresh(b, o) && o.orderType == Limit
    requires forall y :: y in b.On(Opposite(o.side)) ==> !o.CanMatch(y.price)
    ensures Submit(b, o) == Reply(b.With(o.side, Rest(b.On(o.side), o)), o, [], true)
    ensures Cancel(Submit(b, o).book, o.orderId) == CancelReply(b, true)
  {
    var opp, own := Opposite(o.side), b.On(o.side);
    forall j | 0 <= j < |b.On(opp)| ensures !o.CanMatch(b.On(opp)[j].price) { assert b.On(opp)[j] in b.On(opp); }
    SideIsLive(b.bids, Buy);
    SideIsLive(b.asks, Sell);
    RestsUnmatched(b, o);
    DropRested(own, o, Slot(o.side, own, o.price));
    FindMembers(b.bids, o.orderId);
    FindMembers(b.asks, o.orderId);
  }

  lemma DropRested(s: seq<Order>, o: Order, i: nat)
    requires i == Slot(o.side, s, o.price) && forall x :: x in s ==> x.orderId != o.orderId
    ensures Find(Rest(s, o), o.orderId) == i && Drop(Rest(s, o), i) == s
  {
    var r := Rest(s, o);
    assert forall k :: 0 <= k < i ==> r[k] == s[k] && s[k] in s;
    assert r[i] == o;
    assert Find(r, o.orderId) >= i;
  }
}
