// Accounting: every fill is the sum of its trades, over whole runs.
module Conservation {
  import opened Matching
  import opened MatchingLaws
  import opened Priority

  // What the trades filled of the order with this ID on this side.
  function FilledBy(trades: seq<Trade>, side: Side, orderId: string): int {
    if trades == [] then 0
    else
      var t := trades[|trades| - 1];
      FilledBy(trades[..|trades| - 1], side, orderId)
      + if (if side == Buy then t.buyOrderId else t.sellOrderId) == orderId then t.quantity else 0
  }

  lemma FilledByPush(trades: seq<Trade>, t: Trade, side: Side, orderId: string)
    ensures FilledBy(trades + [t], side, orderId) ==
      FilledBy(trades, side, orderId) + if (if side == Buy then t.buyOrderId else t.sellOrderId) == orderId then t.quantity else 0
  {
    assert (trades + [t])[..|trades|] == trades;
  }

  lemma {:induction false} FilledByConcat(a: seq<Trade>, b: seq<Trade>, side: Side, orderId: string)
    ensures FilledBy(a + b, side, orderId) == FilledBy(a, side, orderId) + FilledBy(b, side, orderId)
  {
    if b == [] {
      assert a + b == a;
    } else {
      FilledByConcat(a, b[..|b| - 1], side, orderId);
      FilledByPush(a + b[..|b| - 1], b[|b| - 1], side, orderId);
      assert a + b == a + b[..|b| - 1] + [b[|b| - 1]];
    }
  }

  lemma {:induction false} TotalConcat(a: seq<Trade>, b: seq<Trade>)
    ensures TotalQuantity(a + b) == TotalQuantity(a) + TotalQuantity(b)
  {
    if b == [] {
      assert a + b == a;
    } else {
      TotalConcat(a, b[..|b| - 1]);
      TotalPush(a + b[..|b| - 1], b[|b| - 1]);
      assert a + b == a + b[..|b| - 1] + [b[|b| - 1]];
    }
  }

  // ---- One match ----

  // The taker's own fill is what its trades say, and no other order on its
  // side is named.
  lemma {:induction false} TakerAccounted(t: Order, s: seq<Order>, orderId: string)
    requires t.remaining >= 0 && AllLive(s)
    ensures FilledBy(Greedy(t, s).trades, t.side, orderId) ==
      if orderId == t.orderId then Greedy(t, s).taker.filled - t.filled else 0
  {
    if s != [] {
      var pre, last := s[..|s| - 1], s[|s| - 1];
      TakerAccounted(t, pre, orderId);
      GreedyTaker(t, pre);
      var out := Greedy(t, pre);
      if out.taker.remaining > 0 && out.taker.Accepts(last.price) {
        FilledByPush(out.trades, TradeOf(out.taker, last, Min(out.taker.remaining, last.remaining)), t.side, orderId);
      }
    }
  }

  // A resting order's fill is what its trades say ...
  lemma {:induction false} RestingAccounted(t: Order, s: seq<Order>, j: nat)
    requires t.remaining >= 0 && AllLive(s) && DistinctIds(s) && j < |s|
    ensures FilledBy(Greedy(t, s).trades, Opposite(t.side), s[j].orderId) == Greedy(t, s).resting[j].filled - s[j].filled
  {
    var pre, last := s[..|s| - 1], s[|s| - 1];
    GreedyTaker(t, pre);
    var out := Greedy(t, pre);
    if out.taker.remaining > 0 && out.taker.Accepts(last.price) {
      FilledByPush(out.trades, TradeOf(out.taker, last, Min(out.taker.remaining, last.remaining)), Opposite(t.side), s[j].orderId);
    }
    if j < |s| - 1 {
      RestingAccounted(t, pre, j);
    } else {
      StrangerUnnamed(t, pre, last.orderId);
    }
  }

  // ... and an order that is not there is not named.
  lemma {:induction false} StrangerUnnamed(t: Order, s: seq<Order>, orderId: string)
    requires t.remaining >= 0 && AllLive(s) && forall j :: 0 <= j < |s| ==> s[j].orderId != orderId
    ensures FilledBy(Greedy(t, s).trades, Opposite(t.side), orderId) == 0
  {
    if s != [] {
      var pre, last := s[..|s| - 1], s[|s| - 1];
      StrangerUnnamed(t, pre, orderId);
      GreedyTaker(t, pre);
      var out := Greedy(t, pre);
      if out.taker.remaining > 0 && out.taker.Accepts(last.price) {
        FilledByPush(out.trades, TradeOf(out.taker, last, Min(out.taker.remaining, last.remaining)), Opposite(t.side), orderId);
      }
    }
  }

  // ---- Whole runs ----

  datatype Command = Place(order: Order) | Withdraw(orderId: string)

  // The book, the orders that left it or never rested, and all trades so far.
  datatype Ledger = Ledger(book: Book, gone: seq<Order>, trades: seq<Trade>)

  function Inactives(s: seq<Order>): (r: seq<Order>) {
    if s == [] then []
    else Inactives(s[..|s| - 1]) + if s[|s| - 1].IsActive() then [] else [s[|s| - 1]]
  }

  predicate Rests(u: Order) {
    u.orderType == Limit && u.remaining != 0 && u.IsActive()
  }

  function Step(l: Ledger, c: Command): Ledger {
    match c
    case Place(o) =>
      var r, m := Submit(l.book, o), Greedy(o, l.book.On(Opposite(o.side)));
      var filled := if r.ok then Inactives(m.resting) else [];
      var taker := if Rests(r.taker) then [] else [r.taker];
      Ledger(r.book, l.gone + filled + taker, l.trades + r.trades)
    case Withdraw(id) =>
      var i, j := Find(l.book.bids, id), Find(l.book.asks, id);
      var out :=
        if i < |l.book.bids| then [l.book.bids[i].(status := Cancelled)]
        else if j < |l.book.asks| then [l.book.asks[j].(status := Cancelled)]
        else [];
      Ledger(Cancel(l.book, id).book, l.gone + out, l.trades)
  }

  ghost predicate Listed(l: Ledger, x: Order) {
    x in l.book.bids || x in l.book.asks || x in l.gone
  }

  // Every order ever submitted is used only once.
  ghost predicate Admissible(l: Ledger, c: Command) {
    match c
    case Place(o) => Fresh(l.book, o) && forall x :: x in l.gone ==> x.orderId != o.orderId
    case Withdraw(_) => true
  }

  function Run(l: Ledger, cs: seq<Command>): Ledger {
    if cs == [] then l else Step(Run(l, cs[..|cs| - 1]), cs[|cs| - 1])
  }

  ghost predicate AllAdmissible(l: Ledger, cs: seq<Command>) {
    forall k :: 0 <= k < |cs| ==> Admissible(Run(l, cs[..k]), cs[k])
  }

  const START := Ledger(EMPTY_BOOK, [], [])

  // Fill plus remainder is the quantity, and the fill is the sum of the order's
  // trades. A rejected FOK taker is excluded: its own fields are not rolled back.
  ghost predicate Accounted(x: Order, trades: seq<Trade>) {
    && x.filled >= 0 && x.remaining >= 0 && x.filled + x.remaining == x.quantity
    && (x.status != Rejected ==> x.filled == FilledBy(trades, x.side, x.orderId))
    && (x.status == Rejected ==> 0 == FilledBy(trades, x.side, x.orderId))
  }

  ghost predicate Balanced(l: Ledger) {
    && Wf(l.book)
    && (forall x :: Listed(l, x) ==> Accounted(x, l.trades))
    && (forall x, y :: x in l.gone && (y in l.book.bids || y in l.book.asks) ==> x.orderId != y.orderId)
    && (forall id, side :: (forall x :: Listed(l, x) ==> x.orderId != id) ==> FilledBy(l.trades, side, id) == 0)
    && Total(l, Buy) == TotalQuantity(l.trades) == Total(l, Sell)
  }

  lemma {:induction false} InactivesAre(s: seq<Order>, x: Order)
    ensures x in Inactives(s) <==> x in s && !x.IsActive()
  {
    if s != [] {
      InactivesAre(s[..|s| - 1], x);
      assert s == s[..|s| - 1] + [s[|s| - 1]];
    }
  }

  // ---- One submission ----

  // The taker after the switch on its type, when it is not rejected.
  lemma TakerAfter(b: Book, o: Order)
    requires Wf(b) && Fresh(b, o)
    ensures
      var r, u := Submit(b, o), Greedy(o, b.On(Opposite(o.side))).taker;
      && r.taker.orderId == o.orderId && r.taker.side == o.side && r.taker.quantity == o.quantity
      && r.taker.filled == u.filled && r.taker.remaining == u.remaining
      && u.filled >= 0 && u.remaining >= 0 && u.filled + u.remaining == o.quantity
      && (r.taker.status == Rejected <==> !r.ok)
      && r.trades == (if r.ok then Greedy(o, b.On(Opposite(o.side))).trades else [])
      && (!r.ok ==> r.book == b && !Rests(r.taker))
      && (Rests(r.taker) ==> r.ok && r.book == Matched(b, o).With(o.side, Rest(b.On(o.side), r.taker)))
      && (!Rests(r.taker) && r.ok ==> r.book == Matched(b, o))
  {
    hide Greedy, Wf, Newer, Rest, Actives;
    var opp := Opposite(o.side);
    WfSide(b, opp);
    SideIsLive(b.On(opp), opp);
    GreedyTaker(o, b.On(opp));
    MatchedWf(b, o);
  }

  // Where an order listed after a successful submission comes from.
  lemma Origin(l: Ledger, o: Order, x: Order)
    requires Wf(l.book) && Fresh(l.book, o) && Submit(l.book, o).ok && Listed(Step(l, Place(o)), x)
    ensures x in l.gone || x in l.book.On(o.side) || x == Submit(l.book, o).taker
         || x in Greedy(o, l.book.On(Opposite(o.side))).resting
  {
    var r, m := Submit(l.book, o), Greedy(o, l.book.On(Opposite(o.side)));
    TakerAfter(l.book, o);
    InactivesAre(m.resting, x);
    ActivesAre(m.resting, x);
    RestMembers(l.book.On(o.side), r.taker);
  }

  lemma StillListed(l: Ledger, o: Order, x: Order)
    requires Wf(l.book) && Fresh(l.book, o) && Submit(l.book, o).ok
    requires x in l.gone || x in l.book.On(o.side) || x == Submit(l.book, o).taker
          || x in Greedy(o, l.book.On(Opposite(o.side))).resting
    ensures Listed(Step(l, Place(o)), x)
  {
    var r, m := Submit(l.book, o), Greedy(o, l.book.On(Opposite(o.side)));
    TakerAfter(l.book, o);
    InactivesAre(m.resting, x);
    ActivesAre(m.resting, x);
    RestMembers(l.book.On(o.side), r.taker);
  }

  // An order that took no part keeps its account.
  lemma BystanderAccounted(b: Book, o: Order, x: Order, trades: seq<Trade>)
    requires Wf(b) && Fresh(b, o) && Accounted(x, trades) && x.orderId != o.orderId
    requires x.side == o.side || forall y :: y in b.On(Opposite(o.side)) ==> y.orderId != x.orderId
    ensures Accounted(x, trades + Greedy(o, b.On(Opposite(o.side))).trades)
  {
    var s := b.On(Opposite(o.side));
    SideIsLive(s, Opposite(o.side));
    var new_ := Greedy(o, s).trades;
    FilledByConcat(trades, new_, x.side, x.orderId);
    if x.side == o.side {
      TakerAccounted(o, s, x.orderId);
    } else {
      forall j | 0 <= j < |s| ensures s[j].orderId != x.orderId { assert s[j] in s; }
      StrangerUnnamed(o, s, x.orderId);
    }
  }

  lemma MakerAccounted(b: Book, o: Order, j: nat, trades: seq<Trade>)
    requires Wf(b) && Fresh(b, o) && j < |b.On(Opposite(o.side))| && Accounted(b.On(Opposite(o.side))[j], trades)
    ensures Accounted(Greedy(o, b.On(Opposite(o.side))).resting[j], trades + Greedy(o, b.On(Opposite(o.side))).trades)
  {
    var s := b.On(Opposite(o.side));
    SideIsLive(s, Opposite(o.side));
    var out := Greedy(o, s);
    assert s[j] in s;
    GreedyResting(o, s, j);
    RestingAccounted(o, s, j);
    FilledByConcat(trades, out.trades, Opposite(o.side), s[j].orderId);
  }

  lemma NewcomerAccounted(b: Book, o: Order, trades: seq<Trade>)
    requires Wf(b) && Fresh(b, o) && FilledBy(trades, o.side, o.orderId) == 0
    ensures Accounted(Submit(b, o).taker, trades + Submit(b, o).trades)
  {
    var s := b.On(Opposite(o.side));
    SideIsLive(s, Opposite(o.side));
    hide Submit, Greedy, Wf, Fresh;
    TakerAfter(b, o);
    TakerAccounted(o, s, o.orderId);
    FilledByConcat(trades, Submit(b, o).trades, o.side, o.orderId);
  }

  lemma PlaceAccounts(l: Ledger, o: Order, x: Order)
    requires Balanced(l) && Admissible(l, Place(o)) && Listed(Step(l, Place(o)), x)
    ensures Accounted(x, Step(l, Place(o)).trades)
  {
    hide Greedy, Submit, TotalQuantity, FilledOn, InPriority;
    var b, r := l.book, Submit(l.book, o);
    var s, m := b.On(Opposite(o.side)), Greedy(o, b.On(Opposite(o.side)));
    assert FilledBy(l.trades, o.side, o.orderId) == 0;
    TakerAfter(b, o);
    NewcomerAccounted(b, o, l.trades);
    if r.ok {
      Origin(l, o, x);
      if x in m.resting {
        var j :| 0 <= j < |m.resting| && m.resting[j] == x;
        assert s[j] in s;
        MakerAccounted(b, o, j, l.trades);
      } else if x != r.taker {
        BystanderAccounted(b, o, x, l.trades);
      }
    } else {
      assert l.trades + [] == l.trades;
    }
  }

  // Orders keep their IDs apart, and IDs that were never used are not named.
  lemma PlaceApart(l: Ledger, o: Order)
    requires Balanced(l) && Admissible(l, Place(o))
    ensures
      var n := Step(l, Place(o));
      && forall x, y :: x in n.gone && (y in n.book.bids || y in n.book.asks) ==> x.orderId != y.orderId
  {
    hide Greedy, Submit, Accounted, FilledBy, Uncrossed, InPriority;
    var b, n, r := l.book, Step(l, Place(o)), Submit(l.book, o);
    var s, m := b.On(Opposite(o.side)), Greedy(o, b.On(Opposite(o.side)));
    TakerAfter(b, o);
    if r.ok {
      forall x, y | x in n.gone && (y in n.book.bids || y in n.book.asks)
        ensures x.orderId != y.orderId
      {
        SideIsLive(s, Opposite(o.side));
        Origin(l, o, y);
        InactivesAre(m.resting, x);
        ActivesAre(m.resting, y);
        RestMembers(b.On(o.side), r.taker);
        MakersApart(o, s, x, y);
      }
    }
  }

  // Resting orders match keep their IDs, which stay distinct.
  lemma MakersApart(o: Order, s: seq<Order>, x: Order, y: Order)
    requires o.remaining >= 0 && AllLive(s) && DistinctIds(s)
    ensures x in Greedy(o, s).resting ==> exists j :: 0 <= j < |s| && s[j].orderId == x.orderId
    ensures y in Greedy(o, s).resting ==> exists j :: 0 <= j < |s| && s[j].orderId == y.orderId
    ensures x in Greedy(o, s).resting && y in Greedy(o, s).resting && x != y ==> x.orderId != y.orderId
  {
    var r := Greedy(o, s).resting;
    forall j | 0 <= j < |s| ensures r[j].orderId == s[j].orderId { GreedyResting(o, s, j); }
  }

  lemma PlaceUnnamed(l: Ledger, o: Order, id: string, side: Side)
    requires Balanced(l) && Admissible(l, Place(o))
    requires forall x :: Listed(Step(l, Place(o)), x) ==> x.orderId != id
    ensures FilledBy(Step(l, Place(o)).trades, side, id) == 0
  {
    hide Greedy, Submit;
    var b, r := l.book, Submit(l.book, o);
    var s, m := b.On(Opposite(o.side)), Greedy(o, b.On(Opposite(o.side)));
    TakerAfter(b, o);
    FilledByConcat(l.trades, r.trades, side, id);
    if r.ok {
      SideIsLive(s, Opposite(o.side));
      StillListed(l, o, r.taker);
      TakerAccounted(o, s, id);
      forall j | 0 <= j < |s| ensures s[j].orderId != id {
        GreedyResting(o, s, j);
        assert m.resting[j] in m.resting;
        StillListed(l, o, m.resting[j]);
      }
      StrangerUnnamed(o, s, id);
      forall x | Listed(l, x) ensures x.orderId != id {
        if x in s {
          var j :| 0 <= j < |s| && s[j] == x;
        } else {
          StillListed(l, o, x);
        }
      }
    }
    assert FilledBy(l.trades, side, id) == 0;
  }

  // ---- Totals ----

  // What the orders of one side have been filled, rejected takers excluded.
  function FilledOn(side: Side, s: seq<Order>): int {
    if s == [] then 0
    else
      var x := s[|s| - 1];
      FilledOn(side, s[..|s| - 1]) + if x.side == side && x.status != Rejected then x.filled else 0
  }

  function Total(l: Ledger, side: Side): int {
    FilledOn(side, l.book.bids) + FilledOn(side, l.book.asks) + FilledOn(side, l.gone)
  }

  lemma {:induction false} FilledOnConcat(side: Side, a: seq<Order>, b: seq<Order>)
    ensures FilledOn(side, a + b) == FilledOn(side, a) + FilledOn(side, b)
  {
    if b == [] {
      assert a + b == a;
    } else {
      FilledOnConcat(side, a, b[..|b| - 1]);
      assert (a + b)[..|a + b| - 1] == a + b[..|b| - 1];
    }
  }

  lemma FilledOnOne(side: Side, x: Order)
    ensures FilledOn(side, [x]) == if x.side == side && x.status != Rejected then x.filled else 0
  {
    assert [x][..0] == [];
  }

  lemma {:induction false} FilledOnSplit(side: Side, s: seq<Order>)
    ensures FilledOn(side, s) == FilledOn(side, Actives(s)) + FilledOn(side, Inactives(s))
  {
    if s != [] {
      var pre, x := s[..|s| - 1], s[|s| - 1];
      FilledOnSplit(side, pre);
      FilledOnOne(side, x);
      FilledOnConcat(side, Actives(pre), [x]);
      FilledOnConcat(side, Inactives(pre), [x]);
      assert Actives(pre) + [] == Actives(pre) && Inactives(pre) + [] == Inactives(pre);
    }
  }

  lemma FilledOnRest(side: Side, s: seq<Order>, o: Order)
    ensures FilledOn(side, Rest(s, o)) == FilledOn(side, s) + FilledOn(side, [o])
  {
    var i := Slot(o.side, s, o.price);
    assert s == s[..i] + s[i..];
    FilledOnConcat(side, s[..i], s[i..]);
    FilledOnConcat(side, s[..i] + [o], s[i..]);
    FilledOnConcat(side, s[..i], [o]);
  }

  lemma FilledOnDrop(side: Side, s: seq<Order>, i: nat)
    requires i < |s|
    ensures FilledOn(side, s) == FilledOn(side, Drop(s, i)) + FilledOn(side, [s[i]])
  {
    assert s == s[..i] + [s[i]] + s[i + 1..];
    FilledOnConcat(side, s[..i] + [s[i]], s[i + 1..]);
    FilledOnConcat(side, s[..i], [s[i]]);
    FilledOnConcat(side, s[..i], s[i + 1..]);
  }

  // The makers together are filled by what traded, and the taker as well.
  lemma {:induction false} GreedyTotals(t: Order, s: seq<Order>, opp: Side)
    requires t.remaining >= 0 && AllLive(s) && forall j :: 0 <= j < |s| ==> s[j].side == opp
    ensures FilledOn(opp, Greedy(t, s).resting) == FilledOn(opp, s) + TotalQuantity(Greedy(t, s).trades)
    ensures FilledOn(Opposite(opp), Greedy(t, s).resting) == FilledOn(Opposite(opp), s)
    ensures Greedy(t, s).taker.filled == t.filled + TotalQuantity(Greedy(t, s).trades)
  {
    if s != [] {
      var pre, last := s[..|s| - 1], s[|s| - 1];
      GreedyTotals(t, pre, opp);
      GreedyTaker(t, pre);
      MeetTotals(Greedy(t, pre), last, opp);
    }
  }

  lemma MeetTotals(out: Outcome, last: Order, opp: Side)
    requires Live(last) && last.side == opp
    ensures
      var m := Meet(out, last);
      var traded := TotalQuantity(m.trades) - TotalQuantity(out.trades);
      && FilledOn(opp, m.resting) == FilledOn(opp, out.resting) + last.filled + traded
      && FilledOn(Opposite(opp), m.resting) == FilledOn(Opposite(opp), out.resting)
      && m.taker.filled == out.taker.filled + traded
  {
    hide FilledOn, TotalQuantity;
    var m := Meet(out, last);
    var met := m.resting[|out.resting|];
    assert m.resting == out.resting + [met];
    FilledOnConcat(opp, out.resting, [met]);
    FilledOnConcat(Opposite(opp), out.resting, [met]);
    FilledOnOne(opp, met);
    FilledOnOne(Opposite(opp), met);
    if out.taker.remaining > 0 && out.taker.Accepts(last.price) {
      TotalPush(out.trades, TradeOf(out.taker, last, Min(out.taker.remaining, last.remaining)));
    }
  }

  lemma PlaceTotals(l: Ledger, o: Order, side: Side)
    requires Balanced(l) && Admissible(l, Place(o))
    ensures Total(Step(l, Place(o)), side) == Total(l, side) + TotalQuantity(Submit(l.book, o).trades)
    ensures TotalQuantity(Step(l, Place(o)).trades) == TotalQuantity(l.trades) + TotalQuantity(Submit(l.book, o).trades)
  {
    hide Greedy, Submit, Balanced;
    var b, r := l.book, Submit(l.book, o);
    var s, m := b.On(Opposite(o.side)), Greedy(o, b.On(Opposite(o.side)));
    assert Wf(b) && Fresh(b, o) by { BalancedFacts(l, o); }
    TotalConcat(l.trades, r.trades);
    TakerAfter(b, o);
    FilledOnOne(side, r.taker);
    if r.ok {
      SideIsLive(s, Opposite(o.side));
      forall j | 0 <= j < |s| ensures s[j].side == Opposite(o.side) { assert s[j] in s; }
      GreedyTotals(o, s, Opposite(o.side));
      FilledOnSplit(side, m.resting);
      FilledOnRest(side, b.On(o.side), r.taker);
    }
    var filled := if r.ok then Inactives(m.resting) else [];
    var taker := if Rests(r.taker) then [] else [r.taker];
    FilledOnConcat(side, l.gone + filled, taker);
    FilledOnConcat(side, l.gone, filled);
  }

  lemma BalancedFacts(l: Ledger, o: Order)
    requires Balanced(l) && Admissible(l, Place(o))
    ensures Wf(l.book) && Fresh(l.book, o)
  {
  }

  lemma PlaceBalanced(l: Ledger, o: Order)
    requires Balanced(l) && Admissible(l, Place(o))
    ensures Balanced(Step(l, Place(o)))
  {
    hide Step, Submit, Accounted, FilledBy, Wf, Total;
    var n := Step(l, Place(o));
    PlaceWf(l, o);
    PlaceApart(l, o);
    PlaceTotals(l, o, Buy);
    PlaceTotals(l, o, Sell);
    forall x | Listed(n, x) ensures Accounted(x, n.trades) { PlaceAccounts(l, o, x); }
    forall id, side | forall x :: Listed(n, x) ==> x.orderId != id ensures FilledBy(n.trades, side, id) == 0 {
      PlaceUnnamed(l, o, id, side);
    }
  }

  lemma PlaceWf(l: Ledger, o: Order)
    requires Balanced(l) && Admissible(l, Place(o))
    ensures Wf(Step(l, Place(o)).book)
  {
    SubmitWf(l.book, o);
  }

  // ---- One cancellation ----

  lemma WithdrawListed(l: Ledger, id: string, x: Order)
    requires Wf(l.book)
    ensures Listed(Step(l, Withdraw(id)), x) ==>
      Listed(l, x) || exists y :: Listed(l, y) && x == y.(status := Cancelled) && y.status != Rejected
    ensures Listed(l, x) ==> exists y :: Listed(Step(l, Withdraw(id)), y) && y.orderId == x.orderId
  {
    var b := l.book;
    var i, j := Find(b.bids, id), Find(b.asks, id);
    if i < |b.bids| {
      DropKeeps(b.bids, i, Buy);
      assert b.bids[i] in b.bids && Listed(l, b.bids[i]);
      assert Listed(Step(l, Withdraw(id)), b.bids[i].(status := Cancelled));
      assert Listed(l, x) && x != b.bids[i] ==> Listed(Step(l, Withdraw(id)), x);
    } else if j < |b.asks| {
      DropKeeps(b.asks, j, Sell);
      assert b.asks[j] in b.asks && Listed(l, b.asks[j]);
      assert Listed(Step(l, Withdraw(id)), b.asks[j].(status := Cancelled));
      assert Listed(l, x) && x != b.asks[j] ==> Listed(Step(l, Withdraw(id)), x);
    } else {
      assert l.gone + [] == l.gone;
    }
  }

  lemma WithdrawTotals(l: Ledger, id: string, side: Side)
    requires Wf(l.book)
    ensures Total(Step(l, Withdraw(id)), side) == Total(l, side)
  {
    hide FilledOn, Drop, Find, Uncrossed, InPriority, DistinctIds;
    var b := l.book;
    var i, j := Find(b.bids, id), Find(b.asks, id);
    if i < |b.bids| {
      var x := b.bids[i];
      assert x in b.bids && Live(x);
      FilledOnDrop(side, b.bids, i);
      FilledOnConcat(side, l.gone, [x.(status := Cancelled)]);
      FilledOnOne(side, x);
      FilledOnOne(side, x.(status := Cancelled));
    } else if j < |b.asks| {
      var x := b.asks[j];
      assert x in b.asks && Live(x);
      FilledOnDrop(side, b.asks, j);
      FilledOnConcat(side, l.gone, [x.(status := Cancelled)]);
      FilledOnOne(side, x);
      FilledOnOne(side, x.(status := Cancelled));
    } else {
      assert l.gone + [] == l.gone;
    }
  }

  lemma WithdrawApart(l: Ledger, id: string)
    requires Balanced(l)
    ensures
      var n := Step(l, Withdraw(id));
      && forall x, y :: x in n.gone && (y in n.book.bids || y in n.book.asks) ==> x.orderId != y.orderId
  {
    hide Accounted, FilledBy, Uncrossed, InPriority, Total, Find, Drop, DistinctIds, OneSided;
    var b := l.book;
    var i, j := Find(b.bids, id), Find(b.asks, id);
    if i < |b.bids| {
      DropApart(b.bids, i);
    } else if j < |b.asks| {
      DropApart(b.asks, j);
    }
  }

  lemma DropApart(s: seq<Order>, i: nat)
    requires i < |s| && DistinctIds(s)
    ensures s[i] in s && forall y :: y in Drop(s, i) ==> y in s && y.orderId != s[i].orderId
  {
    var d := Drop(s, i);
    assert forall k :: 0 <= k < |d| ==> d[k] == s[if k < i then k else k + 1];
  }

  lemma WithdrawBalanced(l: Ledger, id: string)
    requires Balanced(l)
    ensures Balanced(Step(l, Withdraw(id)))
  {
    hide FilledBy, Total, Wf;
    var n := Step(l, Withdraw(id));
    CancelWf(l.book, id);
    WithdrawApart(l, id);
    WithdrawTotals(l, id, Buy);
    WithdrawTotals(l, id, Sell);
    forall x | Listed(n, x) ensures Accounted(x, n.trades) { WithdrawListed(l, id, x); }
    forall i, side | forall x :: Listed(n, x) ==> x.orderId != i ensures FilledBy(n.trades, side, i) == 0 {
      forall x | Listed(l, x) ensures x.orderId != i { WithdrawListed(l, id, x); }
    }
  }

  // ---- Every run ----

  // From an empty book, after any admissible run of submissions and
  // cancellations: the book is well-formed and uncrossed, every order's fill is
  // the sum of its trades, and buyers and sellers have been filled alike.
  lemma {:induction false} RunBalanced(cs: seq<Command>)
    requires AllAdmissible(START, cs)
    ensures Balanced(Run(START, cs))
  {
    if cs == [] {
      assert forall x :: !Listed(START, x);
    } else {
      var pre, c := cs[..|cs| - 1], cs[|cs| - 1];
      forall k | 0 <= k < |pre| ensures Admissible(Run(START, pre[..k]), pre[k]) {
        assert pre[..k] == cs[..k];
      }
      RunBalanced(pre);
      assert cs[..|cs| - 1] == pre && Admissible(Run(START, pre), c);
      match c
      case Place(o) => PlaceBalanced(Run(START, pre), o);
      case Withdraw(id) => WithdrawBalanced(Run(START, pre), id);
    }
  }
}
