// What greedy matching does to the taker and to each resting order, and what
// every command keeps of the book.
module MatchingLaws {
  import opened Matching

  // The fields matching never writes.
  predicate SameIdentity(a: Order, b: Order) {
    && a.id == b.id && a.orderId == b.orderId && a.userId == b.userId
    && a.side == b.side && a.orderType == b.orderType && a.price == b.price
    && a.quantity == b.quantity && a.unfilled == b.unfilled && a.createdAt == b.createdAt
  }

  predicate AllLive(s: seq<Order>) {
    forall j :: 0 <= j < |s| ==> Live(s[j])
  }

  // A resting order is untouched, filled completely, or filled in part by a
  // taker that is thereby done.
  predicate Touched(before: Order, after: Order, taker: Order) {
    || after == before
    || after == before.Fill(before.remaining)
    || (taker.remaining == 0 && 0 < after.filled - before.filled < before.remaining
        && after == before.Fill(after.filled - before.filled))
  }

  lemma {:induction false} GreedyTaker(t: Order, s: seq<Order>)
    requires t.remaining >= 0 && AllLive(s)
    ensures
      var u := Greedy(t, s).taker;
      && SameIdentity(t, u) && u.filled + u.remaining == t.filled + t.remaining
      && 0 <= u.remaining <= t.remaining
      && u.status == (if u.filled == t.filled then t.status else if u.remaining == 0 then Filled else PartialFilled)
  {
    if s != [] { GreedyTaker(t, s[..|s| - 1]); }
  }

  lemma {:induction false} GreedyResting(t: Order, s: seq<Order>, j: nat)
    requires t.remaining >= 0 && AllLive(s) && j < |s|
    ensures
      var out := Greedy(t, s);
      && Touched(s[j], out.resting[j], out.taker)
      && (out.taker.remaining > 0 && t.Accepts(s[j].price) ==> out.resting[j] == s[j].Fill(s[j].remaining))
      && (!t.Accepts(s[j].price) ==> out.resting[j] == s[j])
  {
    var pre := s[..|s| - 1];
    GreedyTaker(t, pre);
    if j < |s| - 1 { GreedyResting(t, pre, j); }
  }

  // ---- Dropping the filled orders ----

  lemma {:induction false} ActivesAre(s: seq<Order>, x: Order)
    ensures x in Actives(s) <==> x in s && x.IsActive()
  {
    if s != [] {
      ActivesAre(s[..|s| - 1], x);
      assert s == s[..|s| - 1] + [s[|s| - 1]];
    }
  }

  lemma {:induction false} ActivesKeep(side: Side, s: seq<Order>)
    ensures InPriority(side, s) ==> InPriority(side, Actives(s))
    ensures DistinctIds(s) ==> DistinctIds(Actives(s))
  {
    if s != [] {
      var pre := s[..|s| - 1];
      ActivesKeep(side, pre);
      forall i | 0 <= i < |Actives(pre)|
        ensures Actives(pre)[i] in pre
      {
        ActivesAre(pre, Actives(pre)[i]);
      }
    }
  }

  lemma {:induction false} ActivesOfLive(s: seq<Order>)
    requires AllLive(s)
    ensures Actives(s) == s
  {
    if s != [] { ActivesOfLive(s[..|s| - 1]); }
  }

  // ---- One side of the book through a match ----

  // The resting orders after a match, filled ones dropped, are in priority,
  // live, on the same side, and among the old prices and IDs.
  lemma CleanedSide(t: Order, s: seq<Order>, side: Side)
    requires t.remaining >= 0 && OneSided(side, s) && InPriority(side, s) && DistinctIds(s)
    ensures
      var c := Actives(Greedy(t, s).resting);
      && OneSided(side, c) && InPriority(side, c) && DistinctIds(c)
      && forall y :: y in c ==> exists j :: 0 <= j < |s| && SameIdentity(s[j], y)
  {
    hide Greedy, Actives, Before;
    var r := Greedy(t, s).resting;
    forall j | 0 <= j < |s|
      ensures SameIdentity(s[j], r[j]) && (r[j].IsActive() ==> Live(r[j]))
    {
      assert s[j] in s;
      GreedyResting(t, s, j);
    }
    SamePriority(side, s, r);
    ActivesKeep(side, r);
    forall y | y in Actives(r)
      ensures y.side == side && Live(y) && exists j :: 0 <= j < |s| && SameIdentity(s[j], y)
    {
      ActivesAre(r, y);
      var j :| 0 <= j < |r| && r[j] == y;
      assert s[j] in s && SameIdentity(s[j], y);
    }
  }

  lemma SamePriority(side: Side, s: seq<Order>, r: seq<Order>)
    requires |r| == |s| && forall j :: 0 <= j < |s| ==> SameIdentity(s[j], r[j])
    requires InPriority(side, s) && DistinctIds(s)
    ensures InPriority(side, r) && DistinctIds(r)
  {
  }

  // What is left after a taker with something left: nothing it could match.
  lemma LeftoverUnmatched(t: Order, s: seq<Order>, y: Order)
    requires t.remaining >= 0 && AllLive(s)
    requires Greedy(t, s).taker.remaining > 0 && y in Actives(Greedy(t, s).resting)
    ensures !t.Accepts(y.price)
  {
    var r := Greedy(t, s).resting;
    ActivesAre(r, y);
    var j :| 0 <= j < |r| && r[j] == y;
    GreedyResting(t, s, j);
  }

  // ---- Resting ----

  lemma RestMembers(s: seq<Order>, o: Order)
    ensures forall x :: x in Rest(s, o) <==> x in s || x == o
  {
    var i := Slot(o.side, s, o.price);
    var r := Rest(s, o);
    assert s == s[..i] + s[i..];
    assert r[i] == o;
  }

  // Resting behind everything older keeps priority; IDs play no part in it.
  lemma RestLater(s: seq<Order>, o: Order)
    requires InPriority(o.side, s) && forall x :: x in s ==> x.createdAt < o.createdAt
    ensures InPriority(o.side, Rest(s, o)) && multiset(Rest(s, o)) == multiset(s) + multiset{o}
  {
    RestAdds(s, o);
    var i := Slot(o.side, s, o.price);
    var r := Rest(s, o);
    forall k | 0 <= k < |s|
      ensures k < i ==> Before(o.side, s[k], o)
      ensures k >= i ==> Before(o.side, o, s[k])
    {
      assert s[k] in s;
      if i < k { assert Before(o.side, s[i], s[k]); }
    }
    forall x, y | 0 <= x < y < |r| ensures Before(o.side, r[x], r[y]) {
      SplitRest(s, o, i, x);
      SplitRest(s, o, i, y);
    }
  }

  lemma RestAdds(s: seq<Order>, o: Order)
    ensures multiset(Rest(s, o)) == multiset(s) + multiset{o}
  {
    var i := Slot(o.side, s, o.price);
    assert s == s[..i] + s[i..];
  }

  lemma RestDistinct(s: seq<Order>, o: Order)
    requires DistinctIds(s) && Newer(s, o)
    ensures DistinctIds(Rest(s, o))
  {
    var i := Slot(o.side, s, o.price);
    assert forall k :: 0 <= k < |s| ==> s[k] in s;
    forall x, y | 0 <= x < y < |Rest(s, o)| ensures Rest(s, o)[x].orderId != Rest(s, o)[y].orderId {
      SplitRest(s, o, i, x);
      SplitRest(s, o, i, y);
    }
  }

  lemma SplitRest(s: seq<Order>, o: Order, i: nat, x: nat)
    requires i <= |s| && x <= |s|
    ensures (s[..i] + [o] + s[i..])[x] == if x < i then s[x] else if x == i then o else s[x - 1]
  {
  }

  lemma RestKeeps(s: seq<Order>, o: Order)
    requires OneSided(o.side, s) && Live(o) && InPriority(o.side, s) && DistinctIds(s) && Newer(s, o)
    ensures OneSided(o.side, Rest(s, o)) && InPriority(o.side, Rest(s, o)) && DistinctIds(Rest(s, o))
    ensures forall x :: x in Rest(s, o) <==> x in s || x == o
  {
    RestMembers(s, o);
    RestLater(s, o);
    RestDistinct(s, o);
  }

  // ---- Whole commands keep the book well-formed ----

  lemma WithSideWf(b: Book, side: Side, c: seq<Order>)
    requires Wf(b)
    requires OneSided(side, c) && InPriority(side, c) && DistinctIds(c)
    requires forall y :: y in c ==> exists j :: 0 <= j < |b.On(side)| && SameIdentity(b.On(side)[j], y)
    ensures Wf(b.With(side, c))
  {
    forall y | y in c
      ensures exists x :: x in b.On(side) && x.price == y.price && x.orderId == y.orderId
    {
      var j :| 0 <= j < |b.On(side)| && SameIdentity(b.On(side)[j], y);
      assert b.On(side)[j] in b.On(side);
    }
  }

  // Filling and dropping, before anything rests.
  function Matched(b: Book, o: Order): Book {
    b.With(Opposite(o.side), Actives(Greedy(o, b.On(Opposite(o.side))).resting))
  }

  lemma MatchedWf(b: Book, o: Order)
    requires Wf(b) && o.remaining >= 0
    ensures Wf(Matched(b, o))
    ensures Matched(b, o) ==
      var w := b.With(Opposite(o.side), Greedy(o, b.On(Opposite(o.side))).resting);
      Book(Actives(w.bids), Actives(w.asks))
  {
    var opp := Opposite(o.side);
    assert b.On(opp) == if opp == Buy then b.bids else b.asks;
    CleanedSide(o, b.On(opp), opp);
    WithSideWf(b, opp, Actives(Greedy(o, b.On(opp)).resting));
    SideIsLive(b.On(o.side), o.side);
    ActivesOfLive(b.On(o.side));
  }

  lemma WfSide(b: Book, side: Side)
    requires Wf(b)
    ensures OneSided(side, b.On(side))
  {
  }

  lemma SideIsLive(s: seq<Order>, side: Side)
    requires OneSided(side, s)
    ensures AllLive(s)
  {
    forall j | 0 <= j < |s| ensures Live(s[j]) { assert s[j] in s; }
  }

  lemma RestWf(b: Book, o: Order)
    requires Wf(b) && Live(o) && Newer(b.bids, o) && Newer(b.asks, o)
    requires forall y :: y in b.On(Opposite(o.side)) ==> !o.CanMatch(y.price)
    ensures Wf(b.With(o.side, Rest(b.On(o.side), o)))
  {
    RestKeeps(b.On(o.side), o);
  }

  lemma MatchedNewer(b: Book, o: Order)
    requires Wf(b) && o.remaining >= 0 && Newer(b.bids, o) && Newer(b.asks, o)
    ensures Newer(Matched(b, o).bids, o) && Newer(Matched(b, o).asks, o)
  {
    var opp := Opposite(o.side);
    CleanedSide(o, b.On(opp), opp);
    forall y | y in Actives(Greedy(o, b.On(opp)).resting)
      ensures y.orderId != o.orderId && y.createdAt < o.createdAt
    {
      var j :| 0 <= j < |b.On(opp)| && SameIdentity(b.On(opp)[j], y);
      assert b.On(opp)[j] in b.On(opp);
    }
  }

  // A limit order that has something left can rest: nothing on the other side
  // still matches it.
  lemma Restable(b: Book, o: Order)
    requires Wf(b) && Fresh(b, o) && o.orderType == Limit
    ensures
      var c, u := Matched(b, o), Greedy(o, b.On(Opposite(o.side))).taker;
      && Wf(c) && u.side == o.side && u.price == o.price && u.orderType == Limit
      && (u.remaining != 0 ==>
            && Live(u) && u.IsActive() && Newer(c.bids, u) && Newer(c.asks, u)
            && forall y :: y in c.On(Opposite(u.side)) ==> !u.CanMatch(y.price))
  {
    var opp := Opposite(o.side);
    MatchedWf(b, o);
    MatchedNewer(b, o);
    SideIsLive(b.On(opp), opp);
    var u := Greedy(o, b.On(opp)).taker;
    GreedyTaker(o, b.On(opp));
    if u.remaining != 0 {
      forall y | y in Matched(b, o).On(opp) ensures !u.CanMatch(y.price) {
        LeftoverUnmatched(o, b.On(opp), y);
      }
    }
  }

  // Submitting a fresh order keeps every invariant of the book; above all the
  // book stays uncrossed.
  lemma SubmitWf(b: Book, o: Order)
    requires Wf(b) && Fresh(b, o)
    ensures Wf(Submit(b, o).book)
  {
    hide Wf, Greedy, Actives, Newer, Rest;
    MatchedWf(b, o);
    WfSide(b, Opposite(o.side));
    var u := Greedy(o, b.On(Opposite(o.side))).taker;
    SideIsLive(b.On(Opposite(o.side)), Opposite(o.side));
    GreedyTaker(o, b.On(Opposite(o.side)));
    if o.orderType == Limit {
      Restable(b, o);
      if u.remaining != 0 {
        RestWf(Matched(b, o), u);
      }
    }
  }

  lemma DropKeeps(s: seq<Order>, i: nat, side: Side)
    requires i < |s| && OneSided(side, s) && InPriority(side, s) && DistinctIds(s)
    ensures OneSided(side, Drop(s, i)) && InPriority(side, Drop(s, i)) && DistinctIds(Drop(s, i))
    ensures forall x :: x in Drop(s, i) <==> x in s && x != s[i]
  {
    var d := Drop(s, i);
    assert forall k :: 0 <= k < i ==> d[k] == s[k];
    assert forall k :: i <= k < |d| ==> d[k] == s[k + 1];
    forall x | x in s && x != s[i] ensures x in d {
      var k :| 0 <= k < |s| && s[k] == x;
      assert d[if k < i then k else k - 1] == x;
    }
  }

  lemma DropWf(b: Book, side: Side, i: nat)
    requires Wf(b) && i < |b.On(side)|
    ensures Wf(b.With(side, Drop(b.On(side), i)))
  {
    DropKeeps(b.On(side), i, side);
  }

  lemma CancelWf(b: Book, orderId: string)
    requires Wf(b)
    ensures Wf(Cancel(b, orderId).book)
  {
    var i, j := Find(b.bids, orderId), Find(b.asks, orderId);
    if i < |b.bids| { DropWf(b, Buy, i); }
    else if j < |b.asks| { DropWf(b, Sell, j); }
  }
}
