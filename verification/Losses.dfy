// A command that was logged and never executed, because its caller gave up
// before it was sent (internal/matching/engine/engine.go:427-433, 566-574): when
// replaying it after all makes a difference.
module Losses {
  import opened Matching
  import opened MatchingLaws
  import opened Priority
  import opened Recovery

  // What comes and goes without a trace: a FOK order with too little to match, a
  // market or IOC order with nothing to match, the cancellation of an ID that
  // does not rest.
  ghost predicate Harmless(b: Book, e: Entry, s: Stamp) {
    match e
    case CommandEntry(_, _, _, _, _, _) => NoTrace(b, OrderOf(e, s))
    case CancelEntry(id) => Absent(b, id)
    case TradeEntry(_) => true
  }

  ghost predicate Absent(b: Book, id: string) {
    forall x :: x in b.bids || x in b.asks ==> x.orderId != id
  }

  predicate NoTrace(b: Book, o: Order) {
    var there := Matchable(o, b.On(Opposite(o.side)));
    match o.orderType
    case Limit => false
    case FOK => there < o.quantity
    case _ => there == 0
  }

  // The same orders side by side, up to their stamps.
  ghost predicate SameOrders(a: Book, b: Book) {
    AlikeSide(a.bids, b.bids) && AlikeSide(a.asks, b.asks)
  }

  // Executing a command leaves the book as it is, to the last stamp or up to
  // stamps, exactly when it is harmless.
  lemma ExecuteHarmless(b: Book, e: Entry, s: Stamp)
    requires Wf(b) && (e.CommandEntry? ==> Fresh(b, OrderOf(e, s)))
    ensures Execute(b, e, s) == b <==> Harmless(b, e, s)
    ensures SameOrders(b, Execute(b, e, s)) <==> Harmless(b, e, s)
  {
    hide Submit, Cancel, Wf, Fresh, NoTrace, Absent, AlikeSide;
    SameItself(b);
    match e
    case CommandEntry(_, _, _, _, _, _) => SubmitTrace(b, OrderOf(e, s));
    case CancelEntry(id) => CancelTrace(b, id);
    case TradeEntry(_) =>
  }

  lemma SameItself(b: Book)
    ensures SameOrders(b, b)
  {
  }

  // A book like another is like a third one exactly when those two are.
  lemma SameAsAlike(a: Book, b: Book, c: Book)
    requires Alike(b, c)
    ensures SameOrders(a, b) <==> SameOrders(a, c)
  {
    SameSides(a.bids, b.bids, c.bids);
    SameSides(a.asks, b.asks, c.asks);
  }

  lemma SameSides(s: seq<Order>, t: seq<Order>, u: seq<Order>)
    requires AlikeSide(t, u)
    ensures AlikeSide(s, t) <==> AlikeSide(s, u)
  {
  }

  lemma CancelTrace(b: Book, id: string)
    requires Wf(b)
    ensures if Absent(b, id) then Cancel(b, id).book == b else !SameOrders(b, Cancel(b, id).book)
  {
    hide Uncrossed, InPriority, OneSided;
    FindMembers(b.bids, id);
    FindMembers(b.asks, id);
  }

  lemma SubmitTrace(b: Book, o: Order)
    requires Wf(b) && Fresh(b, o)
    ensures if NoTrace(b, o) then Submit(b, o).book == b else !SameOrders(b, Submit(b, o).book)
  {
    hide Wf, Fresh, Matchable, Greedy, Actives, Rest, AlikeSide;
    var opp := Opposite(o.side);
    var s := b.On(opp);
    OppositeSide(b, opp);
    SideIsLive(b.bids, Buy);
    SideIsLive(b.asks, Sell);
    FreshOrder(b, o);
    GreedyFills(o, s);
    GreedyTaker(o, s);
    ActivesOfLive(b.bids);
    ActivesOfLive(b.asks);
    if o.orderType == FOK && Matchable(o, s) < o.quantity {
    } else if Matchable(o, s) > 0 {
      TradedChanges(o, s);
    } else if o.orderType == Limit {
      NothingMatchable(o, s);
      GreedyUnmatched(o, s);
      RestGrows(b.On(o.side), o);
    } else {
      NothingMatchable(o, s);
      GreedyUnmatched(o, s);
    }
  }

  lemma OppositeSide(b: Book, side: Side)
    requires Wf(b)
    ensures OneSided(Buy, b.bids) && OneSided(Sell, b.asks)
    ensures AllLive(b.On(side)) && InPriority(side, b.On(side)) && DistinctIds(b.On(side))
  {
    WfSide(b, side);
    SideIsLive(b.On(side), side);
  }

  lemma FreshOrder(b: Book, o: Order)
    requires Fresh(b, o)
    ensures o.remaining == o.quantity > 0 && o.IsActive()
  {
  }

  lemma RestGrows(s: seq<Order>, o: Order)
    ensures !AlikeSide(s, Rest(s, o))
  {
  }

  // After a trade the first maker is gone or has more filled.
  lemma TradedChanges(t: Order, s: seq<Order>)
    requires t.remaining > 0 && AllLive(s) && InPriority(Opposite(t.side), s) && DistinctIds(s)
    requires Matchable(t, s) > 0
    ensures !AlikeSide(s, Actives(Greedy(t, s).resting))
  {
    hide Greedy, Actives, Matchable, AllLive, InPriority;
    var out := Greedy(t, s);
    GreedyFills(t, s);
    GreedyIsPriceTime(t, s);
    var c := Actives(out.resting);
    if c != [] { ActivesAre(out.resting, c[0]); }
  }

  lemma {:induction false} NothingMatchable(t: Order, s: seq<Order>)
    requires AllLive(s) && Matchable(t, s) == 0
    ensures forall j :: 0 <= j < |s| ==> !t.Accepts(s[j].price)
  {
    if s != [] {
      var pre := s[..|s| - 1];
      GreedyFills(t.(remaining := 0), pre);
      MatchableSame(t, t.(remaining := 0), pre);
      NothingMatchable(t, pre);
    }
  }

  lemma {:induction false} MatchableSame(t: Order, u: Order, s: seq<Order>)
    requires u == t.(remaining := u.remaining)
    ensures Matchable(t, s) == Matchable(u, s)
  {
    if s != [] { MatchableSame(t, u, s[..|s| - 1]); }
  }
}
