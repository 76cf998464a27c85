// Recovery of one symbol's book through its actor
// (internal/matching/engine/actor.go, internal/matching/engine/engine.go:859-954,
// internal/matching/snapshot/snapshot.go:78-111, 215-245).
module Engine {
  import opened Matching
  import opened Batch
  import opened Options
  import opened WalReads
  import opened Wals
  import opened Recovery
  import opened Snapshots
  import opened Orders
  import opened Sorting
  import opened OrderBooks
  import opened Terms

  // handleCommand on the actor's book.
  method HandleCommand(book: OrderBook, e: Entry, s: Stamp) returns (trades: seq<Trade>, ok: bool, taker: OrderInBook)
    requires book.Valid() && e.CommandEntry? && Fresh(book.Contents(), OrderOf(e, s))
    modifies book, book.bids, book.asks, book.bids.nodes, book.asks.nodes, book.priceLevels.Values, book.buyOrders, book.sellOrders
    ensures book.Valid() && fresh(taker)
    ensures Reply(book.Contents(), taker.Value(), trades, ok) == Submit(old(book.Contents()), OrderOf(e, s))
    ensures Settles(old(book.Contents()),
                    Order(s.id, e.orderId, e.userId, e.side, e.orderType, e.price, e.quantity, 0, e.quantity, 0, Pending, s.at),
                    Reply(book.Contents(), taker.Value(), trades, ok))
    ensures forall k :: 0 <= k < |book.bids.nodes| ==> book.bids.nodes[k] in old(book.bids.nodes) || fresh(book.bids.nodes[k])
    ensures forall k :: 0 <= k < |book.asks.nodes| ==> book.asks.nodes[k] in old(book.asks.nodes) || fresh(book.asks.nodes[k])
    ensures forall l :: l in book.priceLevels.Values ==> l in old(book.priceLevels.Values) || fresh(l)
    ensures forall k :: 0 <= k < |book.buyOrders| ==> book.buyOrders[k] in old(book.buyOrders) || fresh(book.buyOrders[k])
    ensures forall k :: 0 <= k < |book.sellOrders| ==> book.sellOrders[k] in old(book.sellOrders) || fresh(book.sellOrders[k])
  {
    hide OrderBook.Valid, OrderBook.Contents, Submit, Fresh, Settles;
    taker := new OrderInBook(s.id, e.orderId, e.userId, e.side, e.orderType, e.price, e.quantity, s.at);
    trades, ok := book.AddOrder(taker);
  }

  // ---- Restoring a snapshot ----

  // The orders a side's saved states stand for.
  method OrdersFrom(states: seq<OrderState>) returns (orders: seq<OrderInBook>)
    ensures Values(orders) == FromStates(states) && forall k :: 0 <= k < |orders| ==> fresh(orders[k])
  {
    orders := [];
    for i := 0 to |states|
      invariant |orders| == i && forall k :: 0 <= k < i ==> fresh(orders[k]) && orders[k].Value() == FromState(states[k])
    {
      var o := new OrderInBook.FromState(FromState(states[i]));
      orders := orders + [o];
    }
  }

  method SavedOrders(snap: Snapshot) returns (orders: seq<OrderInBook>)
    ensures Values(orders) == Saved(snap) && forall o :: o in orders ==> fresh(o)
  {
    var bids := OrdersFrom(snap.bids);
    var asks := OrdersFrom(snap.asks);
    orders := bids + asks;
  }

  // The orders of a well-formed book can be restored as a batch.
  lemma ReadyFromWf(b: Book, orders: seq<OrderInBook>)
    requires Wf(b) && Values(orders) == b.bids + b.asks
    ensures OrderBook.BatchReady(orders)
  {
    var vs := Values(orders);
    forall i | 0 <= i < |orders|
      ensures Live(vs[i]) && (vs[i].side == Buy <==> i < |b.bids|) && vs[i] in (if i < |b.bids| then b.bids else b.asks)
    {
      assert vs[i] == if i < |b.bids| then b.bids[i] else b.asks[i - |b.bids|];
    }
    forall i, j | 0 <= i < j < |orders|
      ensures Differ(orders[i], orders[j])
    {
      if j < |b.bids| {
        assert Before(Buy, b.bids[i], b.bids[j]);
      } else if |b.bids| <= i {
        assert Before(Sell, b.asks[i - |b.bids|], b.asks[j - |b.bids|]);
      }
      assert vs[i].orderId != vs[j].orderId;
    }
  }

  // A well-formed book is what sorting its orders gives back.
  lemma RestoredIs(s: Snapshot, c: Book)
    requires Wf(Restored(s)) && IsSorted(c, Saved(s))
    ensures c == Restored(s)
  {
    var b := Restored(s);
    SidesFixed(c, b, Saved(s));
    PriorityIsUnique(Buy, c.bids, b.bids);
    PriorityIsUnique(Sell, c.asks, b.asks);
  }

  // Restore, into an empty book.
  method Restore(snap: Snapshot, book: OrderBook)
    requires book.Valid() && book.Contents() == EMPTY_BOOK && Wf(Restored(snap))
    modifies book, book.bids, book.asks, book.bids.nodes, book.asks.nodes, book.priceLevels.Values
    ensures book.Valid() && book.Contents() == Restored(snap)
    ensures forall k :: 0 <= k < |book.buyOrders| ==> fresh(book.buyOrders[k])
    ensures forall k :: 0 <= k < |book.sellOrders| ==> fresh(book.sellOrders[k])
    ensures forall k :: 0 <= k < |book.bids.nodes| ==> book.bids.nodes[k] in old(book.bids.nodes) || fresh(book.bids.nodes[k])
    ensures forall k :: 0 <= k < |book.asks.nodes| ==> book.asks.nodes[k] in old(book.asks.nodes) || fresh(book.asks.nodes[k])
    ensures forall l :: l in book.priceLevels.Values ==> l in old(book.priceLevels.Values) || fresh(l)
  {
    hide OrderBook.Valid, OrderBook.Contents, Wf, IsSorted, Values, OrderBook.BatchReady;
    var orders := SavedOrders(snap);
    ghost var saved := Values(orders);
    ReadyFromWf(Restored(snap), orders);
    book.BatchAddOrders(orders);
    assert Values(orders) == saved;
    assert forall k :: 0 <= k < |book.buyOrders| ==> book.buyOrders[k] in book.buyOrders;
    assert forall k :: 0 <= k < |book.sellOrders| ==> book.sellOrders[k] in book.sellOrders;
    RestoredIs(snap, book.Contents());
  }

  // ---- Replaying the log ----

  // One replayed entry, through the actor; n stamps were handed out before it.
  method ExecuteEntry(book: OrderBook, e: Entry, s: Stamp)
    requires book.Valid() && (e.CommandEntry? ==> Fresh(book.Contents(), OrderOf(e, s)))
    modifies book, book.bids, book.asks, book.bids.nodes, book.asks.nodes, book.priceLevels.Values, book.buyOrders, book.sellOrders
    ensures book.Valid() && book.Contents() == Execute(old(book.Contents()), e, s)
    ensures forall k :: 0 <= k < |book.bids.nodes| ==> book.bids.nodes[k] in old(book.bids.nodes) || fresh(book.bids.nodes[k])
    ensures forall k :: 0 <= k < |book.asks.nodes| ==> book.asks.nodes[k] in old(book.asks.nodes) || fresh(book.asks.nodes[k])
    ensures forall l :: l in book.priceLevels.Values ==> l in old(book.priceLevels.Values) || fresh(l)
    ensures forall k :: 0 <= k < |book.buyOrders| ==> book.buyOrders[k] in old(book.buyOrders) || fresh(book.buyOrders[k])
    ensures forall k :: 0 <= k < |book.sellOrders| ==> book.sellOrders[k] in old(book.sellOrders) || fresh(book.sellOrders[k])
  {
    hide OrderBook.Valid, OrderBook.Contents, Submit, Fresh, Cancel;
    match e
    case CommandEntry(_, _, _, _, _, _) =>
      var trades, ok, taker := HandleCommand(book, e, s);
    case CancelEntry(id) =>
      ghost var o;
      var found;
      found, o := book.CancelOrder(id);
    case TradeEntry(_) =>
  }

  // The replay loop: the entries in order, each waited for.
  method ExecuteLog(book: OrderBook, es: seq<Entry>, clock: nat -> Stamp) returns (n: nat)
    requires book.Valid() && Executable(book.Contents(), es, clock)
    modifies book, book.bids, book.asks, book.bids.nodes, book.asks.nodes, book.priceLevels.Values, book.buyOrders, book.sellOrders
    ensures book.Valid() && book.Contents() == Replay(old(book.Contents()), es, clock) && n == |Commands(es)|
  {
    hide OrderBook.Valid, OrderBook.Contents, Fresh, Execute;
    ghost var b := book.Contents();
    n := 0;
    for i := 0 to |es|
      invariant n == |Commands(es[..i])|
      invariant book.Valid() && book.Contents() == Replay(b, es[..i], clock)
      invariant forall k :: 0 <= k < |book.bids.nodes| ==> book.bids.nodes[k] in old(book.bids.nodes) || fresh(book.bids.nodes[k])
      invariant forall k :: 0 <= k < |book.asks.nodes| ==> book.asks.nodes[k] in old(book.asks.nodes) || fresh(book.asks.nodes[k])
      invariant forall l :: l in book.priceLevels.Values ==> l in old(book.priceLevels.Values) || fresh(l)
      invariant forall k :: 0 <= k < |book.buyOrders| ==> book.buyOrders[k] in old(book.buyOrders) || fresh(book.buyOrders[k])
      invariant forall k :: 0 <= k < |book.sellOrders| ==> book.sellOrders[k] in old(book.sellOrders) || fresh(book.sellOrders[k])
    {
      ExecutablePrefix(b, es, clock, i + 1);
      assert es[..i + 1][..i] == es[..i];
      ExecuteEntry(book, es[i], clock(n));
      if !es[i].TradeEntry? {
        n := n + 1;
      }
    }
    assert es[..|es|] == es;
  }

  // What recovery starts from.
  function BaseOf(snap: Option<Snapshot>): Book {
    if snap.Some? then Restored(snap.value) else EMPTY_BOOK
  }

  function StartOf(snap: Option<Snapshot>): nat {
    if snap.Some? then snap.value.endingLsn else 0
  }

  // Recover, for one symbol: a new actor's book, the snapshot if there is one,
  // then the log past the snapshot's LSN. n stamps are handed out.
  method Recover(snap: Option<Snapshot>, w: Wal, c: Codec, clock: nat -> Stamp) returns (book: OrderBook, n: nat)
    requires Wf(BaseOf(snap))
    requires Executable(BaseOf(snap), EntriesOf(Deliver(Loose(w.file), StartOf(snap), c.dec)), clock)
    ensures fresh(book) && book.Valid() && n == |Commands(EntriesOf(Deliver(Loose(w.file), StartOf(snap), c.dec)))|
    ensures book.Contents() == Replay(BaseOf(snap), EntriesOf(Deliver(Loose(w.file), StartOf(snap), c.dec)), clock)
  {
    hide OrderBook.Valid, OrderBook.Contents, Wf, Executable, Replay, Loose, Deliver, EntriesOf, Restored;
    var delivered := w.Replay(StartOf(snap), c.dec);
    var entries := EntriesOf(delivered);
    book := new OrderBook();
    if snap.Some? {
      Restore(snap.value, book);
    }
    n := ExecuteLog(book, entries, clock);
  }
}
