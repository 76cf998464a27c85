// Snapshots and what recovery from one finds in the log afterwards
// (internal/matching/snapshot/snapshot.go, internal/matching/engine/engine.go:859-954, 982-1021).
module Snapshots {
  import opened Matching
  import opened Batch
  import opened Framing
  import opened Options
  import opened WalReads
  import opened Wals
  import opened Recovery
  import opened Priority
  import opened TornTails

  // ---- Saving and restoring orders ----

  // What a snapshot saves of an order: all but the unfilled quantity.
  datatype OrderState = OrderState(
    id: int, orderId: string, userId: int, side: Side, orderType: OrderType,
    price: int, quantity: int, filled: int, remaining: int, status: Status, createdAt: int)

  function ToState(o: Order): OrderState {
    OrderState(o.id, o.orderId, o.userId, o.side, o.orderType, o.price, o.quantity, o.filled, o.remaining, o.status, o.createdAt)
  }

  function FromState(s: OrderState): Order {
    Order(s.id, s.orderId, s.userId, s.side, s.orderType, s.price, s.quantity, s.filled, s.remaining, 0, s.status, s.createdAt)
  }

  function ToStates(s: seq<Order>): (r: seq<OrderState>)
    ensures |r| == |s| && forall k :: 0 <= k < |s| ==> r[k] == ToState(s[k])
  {
    seq(|s|, k requires 0 <= k < |s| => ToState(s[k]))
  }

  function FromStates(s: seq<OrderState>): (r: seq<Order>)
    ensures |r| == |s| && forall k :: 0 <= k < |s| ==> r[k] == FromState(s[k])
  {
    seq(|s|, k requires 0 <= k < |s| => FromState(s[k]))
  }

  datatype Snapshot = Snapshot(endingLsn: nat, bids: seq<OrderState>, asks: seq<OrderState>)

  const DEPTH: nat := 10

  // Take asks for depth 0, which the book reads as its default depth.
  function Top(s: seq<Order>): (r: seq<Order>)
    ensures r <= s && |r| == Min(DEPTH, |s|)
  {
    if |s| < DEPTH then s else s[..DEPTH]
  }

  function Take(b: Book, lsn: nat): Snapshot {
    Snapshot(lsn, ToStates(Top(b.bids)), ToStates(Top(b.asks)))
  }

  function Saved(s: Snapshot): seq<Order> {
    FromStates(s.bids) + FromStates(s.asks)
  }

  function Restored(s: Snapshot): Book {
    Book(FromStates(s.bids), FromStates(s.asks))
  }

  // What a snapshot stands for: the best orders of each side, a well-formed
  // book themselves.
  lemma RestoredOfTake(b: Book, lsn: nat)
    requires Wf(b)
    ensures Restored(Take(b, lsn)) == Book(Top(b.bids), Top(b.asks)) && Wf(Restored(Take(b, lsn)))
    ensures |b.bids| <= DEPTH && |b.asks| <= DEPTH ==> Restored(Take(b, lsn)) == b
  {
    forall k | 0 <= k < |b.bids| ensures Live(b.bids[k]) { assert b.bids[k] in b.bids; }
    forall k | 0 <= k < |b.asks| ensures Live(b.asks[k]) { assert b.asks[k] in b.asks; }
    assert FromStates(ToStates(Top(b.bids))) == Top(b.bids);
    assert FromStates(ToStates(Top(b.asks))) == Top(b.asks);
    assert forall x :: x in Top(b.bids) ==> x in b.bids;
    assert forall x :: x in Top(b.asks) ==> x in b.asks;
  }

  // Restoring a snapshot gives back the best orders of each side, and so the
  // whole book exactly when neither side has more than the default depth.
  lemma RestoreOfTake(b: Book, lsn: nat, c: Book)
    requires Wf(b) && IsSorted(c, Saved(Take(b, lsn)))
    ensures c == Book(Top(b.bids), Top(b.asks))
    ensures c == b <==> |b.bids| <= DEPTH && |b.asks| <= DEPTH
  {
    RestoredOfTake(b, lsn);
    var d := Book(Top(b.bids), Top(b.asks));
    forall x | x in d.bids ensures x.side == Buy { assert x in b.bids; }
    forall x | x in d.asks ensures x.side == Sell { assert x in b.asks; }
    assert InPriority(Buy, d.bids) && InPriority(Sell, d.asks);
    SidesFixed(c, d, Saved(Take(b, lsn)));
    PriorityIsUnique(Buy, c.bids, d.bids);
    PriorityIsUnique(Sell, c.asks, d.asks);
  }

  // ---- The log after a snapshot ----

  // Payload bytes stand for entries through a codec whose decoding undoes its
  // encoding.
  datatype Codec = Codec(enc: Entry -> seq<byte>, dec: (byte, seq<byte>) -> Option<Entry>)
  {
    ghost predicate Inverse() {
      forall e :: dec(KindOfEntry(e), enc(e)) == Some(e) && HEADER + |enc(e)| < TWO_32
    }
  }

  function KindOfEntry(e: Entry): byte {
    match e
    case CommandEntry(_, _, _, _, _, _) => 0
    case CancelEntry(_) => 1
    case TradeEntry(_) => 2
  }

  // The log file's records carry these entries.
  ghost predicate Carries(c: Codec, rs: seq<Record>, es: seq<Entry>) {
    && |rs| == |es|
    && forall k :: 0 <= k < |es| ==> rs[k].kind == KindOfEntry(es[k]) && rs[k].payload == c.enc(es[k])
  }

  function EntriesOf(out: seq<Delivered<Entry>>): seq<Entry> {
    if out == [] then []
    else (if out[0].payload.Some? then [out[0].payload.value] else []) + EntriesOf(out[1..])
  }

  // The entries past an LSN.
  function Past(rs: seq<Record>, es: seq<Entry>, from: nat): seq<Entry>
    requires |rs| == |es|
  {
    if rs == [] then [] else (if rs[0].lsn > from then [es[0]] else []) + Past(rs[1..], es[1..], from)
  }

  lemma {:induction false} EntriesDelivered(c: Codec, rs: seq<Record>, es: seq<Entry>, from: nat)
    requires c.Inverse() && Carries(c, rs, es)
    ensures EntriesOf(Deliver(rs, from, c.dec)) == Past(rs, es, from)
  {
    if rs != [] {
      EntriesDelivered(c, rs[1..], es[1..], from);
      var one, more := DeliverOne(rs[0], from, c.dec), Deliver(rs[1..], from, c.dec);
      assert c.dec(KindOfEntry(es[0]), c.enc(es[0])) == Some(es[0]);
      if one != [] {
        assert (one + more)[1..] == more;
      } else {
        assert one + more == more;
      }
    }
  }

  // Replay past an LSN delivers what follows the records up to it.
  lemma {:induction false} PastSplit(rs: seq<Record>, es: seq<Entry>, from: nat, m: nat)
    requires |rs| == |es| && m <= |rs| && forall k :: 0 <= k < |rs| ==> (rs[k].lsn > from <==> k >= m)
    ensures Past(rs, es, from) == es[m..]
  {
    if rs != [] {
      PastSplit(rs[1..], es[1..], from, if m == 0 then 0 else m - 1);
      assert es == [es[0]] + es[1..];
    }
  }

  // When truncation emptied the log and the counter restarted, replay skips
  // exactly the first `from` entries appended since.
  lemma PastReset(rs: seq<Record>, es: seq<Entry>, from: nat, base: nat)
    requires |rs| == |es| && forall k :: 0 <= k < |rs| ==> rs[k].lsn == base + k + 1
    ensures Past(rs, es, from) == es[Min(if from <= base then 0 else from - base, |es|)..]
  {
    var m := Min(if from <= base then 0 else from - base, |es|);
    PastSplit(rs, es, from, m);
  }

  // ---- Snapshot, then recovery ----

  // A snapshot after the first m entries of a log that still holds them: with no
  // more than the default depth on either side, and every later LSN past the
  // snapshot's, recovery rebuilds the live book up to later stamps.
  lemma SnapshotRecovers(b: Book, lsn: nat, restored: Book, c: Codec, rs: seq<Record>, es: seq<Entry>, m: nat,
                         clock: nat -> Stamp, clock': nat -> Stamp, i: int, t: int)
    requires Wf(b) && |b.bids| <= DEPTH && |b.asks| <= DEPTH && IsSorted(restored, Saved(Take(b, lsn)))
    requires c.Inverse() && Carries(c, rs, es)
    requires m <= |rs| && forall k :: 0 <= k < |rs| ==> (rs[k].lsn > lsn <==> k >= m)
    requires StampedUpTo(b.bids, i, t) && StampedUpTo(b.asks, i, t) && Ticks(clock, t) && Ticks(clock', t)
    ensures
      var found := EntriesOf(Deliver(rs, lsn, c.dec));
      && found == es[m..]
      && (Executable(b, es[m..], clock) <==> Executable(restored, found, clock'))
      && Alike(Replay(b, es[m..], clock), Replay(restored, found, clock'))
  {
    RestoreOfTake(b, lsn, restored);
    EntriesDelivered(c, rs, es, lsn);
    PastSplit(rs, es, lsn, m);
    ReplaysAlike(b, es[m..], es[m..], clock, clock', i, t);
  }

  // But a snapshot that emptied the log restarts the counter, and then recovery
  // misses the first `lsn` entries: it delivers all of them exactly when the
  // snapshot's LSN is 0 or nothing was appended since.
  lemma SnapshotSkips(b: Book, lsn: nat, restored: Book, c: Codec, rs: seq<Record>, es: seq<Entry>,
                      clock: nat -> Stamp, clock': nat -> Stamp, i: int, t: int)
    requires Wf(b) && |b.bids| <= DEPTH && |b.asks| <= DEPTH && IsSorted(restored, Saved(Take(b, lsn)))
    requires c.Inverse() && Carries(c, rs, es) && forall k :: 0 <= k < |rs| ==> rs[k].lsn == k + 1
    requires StampedUpTo(b.bids, i, t) && StampedUpTo(b.asks, i, t) && Ticks(clock, t) && Ticks(clock', t)
    ensures
      var delivered := EntriesOf(Deliver(rs, lsn, c.dec));
      && delivered == es[Min(lsn, |es|)..]
      && (delivered == es <==> lsn == 0 || es == [])
      && (Executable(b, delivered, clock) <==> Executable(restored, delivered, clock'))
      && Alike(Replay(b, delivered, clock), Replay(restored, delivered, clock'))
  {
    RestoreOfTake(b, lsn, restored);
    EntriesDelivered(c, rs, es, lsn);
    PastReset(rs, es, lsn, 0);
    var delivered := es[Min(lsn, |es|)..];
    ReplaysAlike(b, delivered, delivered, clock, clock', i, t);
  }

  // So two orders rest, a snapshot is taken, and with it the log is emptied; a
  // third order is logged under LSN 1 and rests; and recovery does not find it.
  function SellEntry(orderId: string, price: int, quantity: int): Entry {
    CommandEntry(orderId, 1, Sell, Limit, price, quantity)
  }

  lemma SnapshotLosesAnOrder(c: Codec, clock: nat -> Stamp, clock': nat -> Stamp, t: int)
    requires c.Inverse() && Ticks(clock, t)
    ensures
      var first, second, third := SellEntry("SELL1", 50000, 5), SellEntry("SELL2", 50100, 3), SellEntry("SELL3", 50200, 2);
      var b, live := Replay(EMPTY_BOOK, [first, second], clock), Replay(EMPTY_BOOK, [first, second, third], clock);
      var snap, log := Take(b, 2), FrameAll([Record(1, KindOfEntry(third), c.enc(third))]);
      var found := EntriesOf(Deliver(Loose(log), snap.endingLsn, c.dec));
      && |live.asks| == 3 && |Replay(Restored(snap), found, clock').asks| == 2
  {
    hide Replay, Loose, Deliver, EntriesOf, Executable;
    var first, second, third := SellEntry("SELL1", 50000, 5), SellEntry("SELL2", 50100, 3), SellEntry("SELL3", 50200, 2);
    var b, rs := Replay(EMPTY_BOOK, [first, second], clock), [Record(1, KindOfEntry(third), c.enc(third))];
    ThreeSells(clock, t);
    RestoredOfTake(b, 2);
    assert c.dec(KindOfEntry(third), c.enc(third)) == Some(third);
    LooseFrames(rs, []);
    assert FrameAll(rs) + [] == FrameAll(rs) && rs + Loose([]) == rs by { NothingIsRead(); }
    EntriesDelivered(c, rs, [third], 2);
    PastReset(rs, [third], 2, 0);
    assert [third][1..] == [];
    assert Replay(b, [], clock') == b by { NothingReplayed(b, clock'); }
  }

  lemma NothingReplayed(b: Book, clock: nat -> Stamp)
    ensures Replay(b, [], clock) == b
  {
  }

  lemma ThreeSells(clock: nat -> Stamp, t: int)
    requires Ticks(clock, t)
    ensures
      var first, second, third := SellEntry("SELL1", 50000, 5), SellEntry("SELL2", 50100, 3), SellEntry("SELL3", 50200, 2);
      var b, live := Replay(EMPTY_BOOK, [first, second], clock), Replay(EMPTY_BOOK, [first, second, third], clock);
      && Wf(b) && b.bids == [] && |b.asks| == 2 && |live.asks| == 3
  {
    hide Replay, Commands, Submit, Wf, Live;
    var first, second, third := SellEntry("SELL1", 50000, 5), SellEntry("SELL2", 50100, 3), SellEntry("SELL3", 50200, 2);
    var o1, o2, o3 := OrderOf(first, clock(0)), OrderOf(second, clock(1)), OrderOf(third, clock(2));
    NothingReplayed(EMPTY_BOOK, clock);
    CommandsOf(first, second);
    ReplayPush(EMPTY_BOOK, [], first, clock);
    ReplayPush(EMPTY_BOOK, [first], second, clock);
    ReplayPush(EMPTY_BOOK, [first, second], third, clock);
    assert [] + [first] == [first] && [first] + [second] == [first, second] && [first, second] + [third] == [first, second, third];
    assert Live(o1) && Live(o2) by { NewIsLive(first, clock(0)); NewIsLive(second, clock(1)); }
    RestsLast([], o1);
    RestsLast([o1], o2);
    RestsLast([o1, o2], o3);
    assert [] + [o1] == [o1] && [o1] + [o2] == [o1, o2];
    TwoSellsWf(o1, o2);
  }

  lemma CommandsOf(first: Entry, second: Entry)
    requires first.CommandEntry? && second.CommandEntry?
    ensures Commands([]) == [] && Commands([first]) == [first] && Commands([first, second]) == [first, second]
  {
    assert [first][..0] == [] && [first, second][..1] == [first];
  }

  lemma NewIsLive(e: Entry, s: Stamp)
    requires e.CommandEntry? && e.price != 0 && e.quantity > 0
    ensures Live(OrderOf(e, s))
  {
  }

  // A sell order at a price above all others rests behind them.
  lemma RestsLast(asks: seq<Order>, o: Order)
    requires MatchingLaws.AllLive(asks) && forall k :: 0 <= k < |asks| ==> asks[k].price <= o.price
    requires o.side == Sell && o.orderType == Limit && o.remaining != 0 && o.IsActive()
    ensures Submit(Book([], asks), o).book == Book([], asks + [o])
  {
    RestsUnmatched(Book([], asks), o);
    assert Slot(Sell, asks, o.price) == |asks|;
  }

  lemma TwoSellsWf(a: Order, b: Order)
    requires Live(a) && Live(b) && a.side == b.side == Sell && a.price < b.price && a.orderId != b.orderId
    ensures Wf(Book([], [a, b]))
  {
  }

  // And a book with 11 orders on one side does not survive a snapshot.
  function Ladder(n: nat): Book {
    Book([], seq(n, k requires 0 <= k < n => NewOrder(k, seq(k, _ => 'x'), 1, Sell, Limit, 100 + k, 1, k)))
  }

  lemma EleventhOrderIsLost(lsn: nat)
    ensures Wf(Ladder(11)) && |Ladder(11).asks| == 11 && |Restored(Take(Ladder(11), lsn)).asks| == 10
  {
    var asks := Ladder(11).asks;
    assert forall i, j :: 0 <= i < j < |asks| ==> |asks[i].orderId| != |asks[j].orderId|;
    RestoredOfTake(Ladder(11), lsn);
  }
}
