// One symbol of the live engine: every command is logged and then executed
// (internal/matching/engine/engine.go:445-596), and a snapshot truncates the log
// (internal/matching/engine/engine.go:982-1021).
module Symbols {
  import opened Matching
  import opened Framing
  import opened Options
  import opened WalReads
  import opened TornTails
  import opened Wals
  import opened Recovery
  import opened Losses
  import opened Sessions
  import opened Snapshots
  import opened Orders
  import opened OrderBooks
  import opened Engine
  import opened Terms

  // Consecutive LSNs after `first`.
  ghost predicate Numbered(rs: seq<Record>, first: nat) {
    forall k :: 0 <= k < |rs| ==> rs[k].lsn == first + k + 1
  }

  class Symbol {
    const book: OrderBook
    const wal: Wal
    const codec: Codec
    const clock: nat -> Stamp          // the counter and the time, command by command
    var started: bool                  // the symbol has an actor
    var ticks: nat
    ghost var base: Book               // the book at the last snapshot
    ghost var since: nat
    ghost var logged: seq<Entry>       // what the log holds
    ghost var first: nat               // the LSN before its first record
    ghost var skipped: nat             // how many of its records a restart skipped
    ghost var recovered: nat           // how many of the entries lie before a torn tail

    ghost function State(): Session
      reads this, book, book.buyOrders, book.sellOrders
    {
      Session(started, base, since, logged, book.Contents(), ticks)
    }

    // The log carries what was logged, consecutively numbered.
    ghost predicate Logs()
      reads this`logged, this`first, this`skipped, this`recovered, wal
    {
      && wal.Valid() && !wal.closed && codec.Inverse()
      && recovered <= |logged| && (wal.torn == [] ==> recovered == 0)
      && skipped <= |wal.records| && Carries(codec, wal.records[skipped..], logged[recovered..])
      && Numbered(wal.records, first) && wal.lsn == first + |wal.records|
    }

    ghost predicate Valid()
      reads this, wal, book, book.bids, book.asks, book.bids.nodes, book.asks.nodes,
            book.priceLevels.Values, book.buyOrders, book.sellOrders
    {
      Logs() && book.Valid()
    }

    // The book is the whole log replayed from nothing: no snapshot was taken.
    ghost predicate Replayable()
      reads this, book, book.buyOrders, book.sellOrders
    {
      Coherent(State(), clock) && base == EMPTY_BOOK && since == 0 && skipped == 0
    }

    // A symbol nobody has used yet: an empty book and an empty log.
    constructor (mode: SyncMode, codec: Codec, clock: nat -> Stamp, now: int)
      requires codec.Inverse()
      ensures Valid() && State() == OPENED && Replayable() && first == 0 && wal.mode == mode
      ensures this.codec == codec && this.clock == clock
    {
      hide OrderBook.Valid, OrderBook.Contents, Wal.Valid, Coherent, FrameAll, Torn;
      NothingYet(clock);
      Wal.NothingFramed([]);
      book := new OrderBook();
      wal := new Wal(mode, [], now, [], []);
      this.codec, this.clock := codec, clock;
      started, ticks := false, 0;
      base, since, logged, first, skipped, recovered := EMPTY_BOOK, 0, [], 0, 0, 0;
    }

    static lemma NothingYet(clock: nat -> Stamp)
      ensures Coherent(OPENED, clock)
    {
    }

    // A symbol as a restart finds it: its log reopened, perhaps with a torn tail,
    // its book recovered from a snapshot, if there is one, and from what the
    // plain reads make of the log past it. From here on it is live again, under
    // the new clock.
    constructor Restarted(mode: SyncMode, codec: Codec, clock: nat -> Stamp, now: int, snap: Option<Snapshot>, data: seq<byte>,
                          ghost rs: seq<Record>, ghost es: seq<Entry>, ghost from: nat, ghost tail: seq<byte>)
      requires codec.Inverse() && (forall k :: 0 <= k < |rs| ==> Framable(rs[k]))
      requires data == FrameAll(rs) + tail && (tail == [] || Torn(tail))
      requires Carries(codec, rs, es) && Numbered(rs, from) && (rs == [] ==> from == 0)
      requires Wf(BaseOf(snap)) && Executable(BaseOf(snap), EntriesOf(Deliver(Loose(data), StartOf(snap), codec.dec)), clock)
      ensures Valid() && Coherent(State(), clock) && base == BaseOf(snap) && since == 0
      ensures logged == EntriesOf(Deliver(Loose(data), StartOf(snap), codec.dec))
      ensures wal.torn == tail && wal.file == data && wal.mode == mode && wal.syncsSucceeded
      ensures tail == [] ==> wal.records == rs && first == from && skipped == Missed(StartOf(snap), from, |es|)
      ensures tail == [] ==> logged == es[skipped..]
      ensures snap == None ==> Replayable()
      ensures this.codec == codec && this.clock == clock
    {
      hide OrderBook.Valid, OrderBook.Contents, Wal.Valid, Executable, Replay, Commands, Loose, Deliver, EntriesOf, Torn, FrameAll, Wf, Restored,
        BaseOf, StartOf, Missed, Carries, Numbered;
      ghost var k := if tail == [] then Missed(StartOf(snap), from, |es|) else 0;
      Reopened(codec, rs, es, from, k);
      var w := new Wal(mode, data, now, rs, tail);
      if tail == [] {
        PastDelivered(codec, rs, es, from, StartOf(snap));
        assert FrameAll(rs) + [] == FrameAll(rs);
      }
      var b, n := Recover(snap, w, codec, clock);
      ghost var found := EntriesOf(Deliver(Loose(data), StartOf(snap), codec.dec));
      book, wal, ticks, started := b, w, n, true;
      this.codec, this.clock := codec, clock;
      base, since, logged := BaseOf(snap), 0, found;
      first, recovered := if tail == [] then from else LastLsn(rs), if tail == [] then 0 else |found|;
      skipped := k;
      new;
      ReplayIsCoherent(BaseOf(snap), found, clock);
      assert logged[|found|..] == [] && logged[0..] == logged;
      if snap == None { assert BaseOf(snap) == EMPTY_BOOK && skipped == 0 by { FromNothing(from, |es|); } }
    }

    static lemma Reopened(codec: Codec, rs: seq<Record>, es: seq<Entry>, from: nat, k: nat)
      requires Carries(codec, rs, es) && Numbered(rs, from) && (rs == [] ==> from == 0) && k <= |es|
      ensures |rs| == |es| && Increasing(rs) && LastLsn(rs) == from + |rs| && Carries(codec, rs[k..], es[k..])
      ensures Carries(codec, [], []) && Numbered([], LastLsn(rs))
    {
    }

    static lemma FromNothing(first: nat, n: nat)
      ensures BaseOf(None) == EMPTY_BOOK && StartOf(None) == 0 && Missed(0, first, n) == 0
    {
    }

    // How many of n entries numbered after `first` a replay past an LSN skips.
    static function Missed(from: nat, first: nat, n: nat): (m: nat)
      ensures m <= n
    {
      Min(if from <= first then 0 else from - first, n)
    }

    // One entry reaches the log.
    method Log(e: Entry, now: int, fsyncOk: bool)
      requires Logs() && wal.lsn + 1 < TWO_64
      modifies this`logged, wal
      ensures Logs() && logged == old(logged) + [e] && wal.lsn == old(wal.lsn) + 1 && first == old(first)
      ensures skipped == old(skipped) && recovered == old(recovered) && wal.torn == old(wal.torn)
      ensures
        var kind := if e.CommandEntry? then 0 else if e.CancelEntry? then 1 else 2;
        wal.records == old(wal.records) + [Record(wal.lsn, kind, codec.enc(e))]
      ensures wal.times == old(wal.times) + [now]
      ensures wal.mode.SyncByDuration? && fsyncOk && now - old(wal.lastSyncTime) >= wal.mode.interval ==>
        wal.syncedRecords == |wal.records| && wal.lastSyncTime == now
      ensures old(wal.syncsSucceeded) && fsyncOk ==> wal.syncsSucceeded
    {
      hide Wal.Valid;
      assert codec.dec(KindOfEntry(e), codec.enc(e)) == Some(e);
      var lsn := wal.Append(KindOfEntry(e), Some(codec.enc(e)), now, fsyncOk);
      assert wal.records[skipped..] == old(wal.records)[skipped..] + [wal.records[|wal.records| - 1]];
      logged := logged + [e];
    }

    static lemma ServedCoherent(l: Session, q: Request, clock: nat -> Stamp)
      requires Admits(l, q, clock) && !q.LostRequest?
      ensures Coherent(l, clock) ==> Coherent(Serve(l, q, clock), clock)
    {
      hide Coherent, Admits, Serve;
      if Coherent(l, clock) { ServeCoherent(l, q, clock); }
    }

    // SubmitOrder
    method SubmitOrder(e: Entry, now: int, fsyncOk: bool) returns (trades: seq<Trade>, ok: bool, taker: OrderInBook)
      requires Valid() && wal.lsn + 1 < TWO_64
      requires e.CommandEntry? && Fresh(book.Contents(), OrderOf(e, clock(ticks)))
      modifies this, wal, book, book.bids, book.asks, book.bids.nodes, book.asks.nodes,
               book.priceLevels.Values, book.buyOrders, book.sellOrders
      ensures Valid() && State() == Serve(old(State()), SubmitRequest(e), clock) && (old(Coherent(State(), clock)) ==> Coherent(State(), clock))
      ensures first == old(first) && skipped == old(skipped) && wal.torn == old(wal.torn)
      ensures started && logged == old(logged) + [e]
      ensures Reply(book.Contents(), taker.Value(), trades, ok) == Submit(old(book.Contents()), OrderOf(e, old(clock(ticks))))
      ensures
        var s := old(clock(ticks));
        Settles(old(book.Contents()),
                Order(s.id, e.orderId, e.userId, e.side, e.orderType, e.price, e.quantity, 0, e.quantity, 0, Pending, s.at),
                Reply(book.Contents(), taker.Value(), trades, ok))
      ensures old(wal.syncsSucceeded) && fsyncOk ==> wal.syncsSucceeded
    {
      hide OrderBook.Valid, OrderBook.Contents, Logs, Submit, Fresh, Coherent, Settles, OrderOf;
      ServedCoherent(State(), SubmitRequest(e), clock);
      Log(e, now, fsyncOk);
      started := true;
      trades, ok, taker := HandleCommand(book, e, clock(ticks));
      ticks := ticks + 1;
    }

    // CancelOrder: refused, and not logged, while there is no actor.
    method CancelOrder(orderId: string, now: int, fsyncOk: bool) returns (found: bool)
      requires Valid() && wal.lsn + 1 < TWO_64
      modifies this, wal, book, book.bids, book.asks, book.bids.nodes, book.asks.nodes,
               book.priceLevels.Values, book.buyOrders, book.sellOrders
      ensures Valid() && State() == Serve(old(State()), CancelRequest(orderId), clock) && (old(Coherent(State(), clock)) ==> Coherent(State(), clock))
      ensures first == old(first) && skipped == old(skipped) && wal.torn == old(wal.torn)
      ensures logged == old(logged) + if old(started) then [CancelEntry(orderId)] else []
      ensures found == (old(started) && Cancel(old(book.Contents()), orderId).found)
      ensures found == (old(started) && exists x :: (x in old(book.Contents()).bids || x in old(book.Contents()).asks) && x.orderId == orderId)
      ensures old(wal.syncsSucceeded) && fsyncOk ==> wal.syncsSucceeded
    {
      hide OrderBook.Valid, OrderBook.Contents, Logs, Cancel, Coherent;
      ServedCoherent(State(), CancelRequest(orderId), clock);
      if !started {
        return false;
      }
      Log(CancelEntry(orderId), now, fsyncOk);
      ghost var o;
      found, o := book.CancelOrder(orderId);
      ticks := ticks + 1;
    }

    // SubmitOrder or CancelOrder, when the caller gives up before its command is
    // sent: it was logged, and is never executed.
    method LoseCommand(e: Entry, now: int, fsyncOk: bool)
      requires Valid() && wal.lsn + 1 < TWO_64 && !e.TradeEntry?
      modifies this, wal
      ensures Valid() && State() == Serve(old(State()), LostRequest(e), clock)
      ensures old(Coherent(State(), clock)) && Admits(old(State()), LostRequest(e), clock) ==>
        (Coherent(State(), clock) <==> !Spoils(old(State()), LostRequest(e), clock))
      ensures first == old(first) && skipped == old(skipped) && wal.torn == old(wal.torn)
      ensures logged == old(logged) + if e.CancelEntry? && !old(started) then [] else [e]
      ensures old(wal.syncsSucceeded) && fsyncOk ==> wal.syncsSucceeded
    {
      hide OrderBook.Valid, OrderBook.Contents, Logs, Coherent, Admits, Spoils;
      ghost var l := State();
      if Coherent(l, clock) && Admits(l, LostRequest(e), clock) { ServeCoherent(l, LostRequest(e), clock); }
      if e.CancelEntry? && !started {
        return;
      }
      Log(e, now, fsyncOk);
      started := true;
      ticks := ticks + 1;
    }

    // The notification loop logs one trade.
    method LogTrade(trade: Trade, now: int, fsyncOk: bool)
      requires Valid() && wal.lsn + 1 < TWO_64
      modifies this`logged, wal
      ensures Valid() && State() == Serve(old(State()), TradesRequest(trade), clock) && (old(Coherent(State(), clock)) ==> Coherent(State(), clock))
      ensures first == old(first) && skipped == old(skipped) && wal.torn == old(wal.torn)
      ensures logged == old(logged) + [TradeEntry(trade)]
      ensures old(wal.syncsSucceeded) && fsyncOk ==> wal.syncsSucceeded
    {
      hide OrderBook.Valid, OrderBook.Contents, Logs, Coherent;
      ServedCoherent(State(), TradesRequest(trade), clock);
      Log(TradeEntry(trade), now, fsyncOk);
    }

    // TakeSnapshot, with no command in flight: the log is emptied, and its
    // counter with it.
    method TakeSnapshot() returns (snap: Option<Snapshot>)
      requires Valid()
      modifies this`base, this`since, this`logged, this`first, this`skipped, this`recovered, wal
      ensures old(wal.torn) == [] ==> Valid() && wal.torn == []
      ensures State() == Serve(old(State()), SnapshotRequest, clock)
      ensures snap.Some? <==> started
      ensures snap.Some? ==> logged == [] && base == book.Contents() == old(book.Contents()) && since == ticks
      ensures snap.Some? ==> snap.value == Take(old(book.Contents()), old(wal.lsn))
      ensures snap.Some? && old(wal.torn) == [] ==> wal.lsn == 0 && first == 0 && skipped == 0
      ensures snap.Some? ==> wal.file == FrameAll(Keep(Loose(old(wal.file)), old(wal.lsn)))
      ensures snap.None? ==> wal.lsn == old(wal.lsn) && first == old(first) && skipped == old(skipped) && wal.file == old(wal.file)
    {
      hide OrderBook.Valid, OrderBook.Contents, Logs, Take, FrameAll, Keep, Loose;
      if !started {
        return None;
      }
      var lsn := wal.SnapshotLsn();
      var taken := Capture(lsn);
      EmptyLog();
      base, since := book.Contents(), ticks;
      snap := Some(taken);
    }

    // Truncating at the counter leaves no record of a whole log, and restarts
    // the counter.
    method EmptyLog()
      requires Logs()
      modifies this`logged, this`first, this`skipped, this`recovered, wal
      ensures logged == [] && first == 0 && skipped == 0
      ensures old(wal.torn) == [] ==> Logs() && wal.lsn == 0 && wal.torn == []
      ensures wal.file == FrameAll(Keep(Loose(old(wal.file)), old(wal.lsn)))
    {
      hide Wal.Valid, Keep, Loose;
      if wal.torn == [] { NothingPast(); }
      wal.Truncate(wal.lsn);
      logged, first, skipped, recovered := [], 0, 0, 0;
    }

    // Take: the states of the orders at the default depth.
    method Capture(lsn: nat) returns (snap: Snapshot)
      ensures snap == Take(book.Contents(), lsn)
    {
      var depth := book.GetDepth(0);
      TopOfBook();
      var bids := StatesOf(depth.0);
      var asks := StatesOf(depth.1);
      snap := Snapshot(lsn, bids, asks);
    }

    static method StatesOf(orders: seq<OrderInBook>) returns (states: seq<OrderState>)
      ensures states == ToStates(Values(orders))
    {
      states := [];
      for i := 0 to |orders|
        invariant |states| == i && forall k :: 0 <= k < i ==> states[k] == ToState(orders[k].Value())
      {
        var o := orders[i];
        states := states + [OrderState(o.id, o.orderId, o.userId, o.side, o.orderType, o.price, o.quantity,
                                       o.filledQuantity, o.remainingQty, o.status, o.createdAt)];
      }
    }

    lemma TopOfBook()
      ensures Values(book.GetDepth(0).0) == Top(book.Contents().bids)
      ensures Values(book.GetDepth(0).1) == Top(book.Contents().asks)
    {
    }

    lemma NothingPast()
      requires wal.Valid() && wal.torn == []
      ensures Keep(wal.records, wal.lsn) == [] && Keep(Loose(wal.file), wal.lsn) == [] && LastLsn([]) == 0
    {
      wal.LooseIsWhole();
      Wal.LastIsBound(wal.records);
      Wal.KeepNone(wal.records, wal.lsn);
    }

    // ---- What recovery finds ----

    // Of a whole log, replay past 0 delivers every entry.
    static lemma AllDelivered(codec: Codec, rs: seq<Record>, es: seq<Entry>, first: nat)
      requires codec.Inverse() && Carries(codec, rs, es) && Numbered(rs, first)
      requires forall k :: 0 <= k < |rs| ==> Framable(rs[k])
      ensures EntriesOf(Deliver(Loose(FrameAll(rs)), 0, codec.dec)) == es
    {
      hide FrameAll, Carries, Numbered, Deliver, EntriesOf, Framable;
      LooseFrames(rs, []);
      NothingIsRead();
      assert FrameAll(rs) + [] == FrameAll(rs) && rs + Loose([]) == rs;
      PastZero(codec, rs, es, first);
    }

    // Past any LSN, those numbered after it.
    static lemma PastDelivered(codec: Codec, rs: seq<Record>, es: seq<Entry>, first: nat, from: nat)
      requires codec.Inverse() && Carries(codec, rs, es) && Numbered(rs, first)
      requires forall k :: 0 <= k < |rs| ==> Framable(rs[k])
      ensures EntriesOf(Deliver(Loose(FrameAll(rs)), from, codec.dec)) == es[Missed(from, first, |es|)..]
    {
      hide FrameAll, Deliver, EntriesOf, Framable;
      LooseFrames(rs, []);
      NothingIsRead();
      assert FrameAll(rs) + [] == FrameAll(rs) && rs + Loose([]) == rs;
      EntriesDelivered(codec, rs, es, from);
      PastReset(rs, es, from, first);
    }

    // A whole log holds its records and nothing else, and they carry every entry.
    lemma WholeLog()
      requires Logs() && wal.torn == [] && skipped == 0
      ensures Loose(wal.file) == wal.records && wal.file == FrameAll(wal.records)
      ensures codec.Inverse() && Carries(codec, wal.records, logged) && Numbered(wal.records, first)
      ensures forall k :: 0 <= k < |wal.records| ==> Framable(wal.records[k])
    {
      hide Loose, FrameAll, Torn;
      assert logged[recovered..] == logged && wal.records[skipped..] == wal.records;
      wal.LooseIsWhole();
    }

    // Every run without a snapshot is replayable, and was at every moment, exactly
    // when it lost no command that would have made a difference.
    lemma RunIsReplayable(qs: seq<Request>)
      requires Admitted(qs, clock) && State() == ServeAll(qs, clock) && SnapshotRequest !in qs && skipped == 0
      ensures StaysCoherent(qs, clock) <==> Spared(qs, clock)
      ensures Spared(qs, clock) ==> Replayable()
    {
      NoSnapshotYet(qs, clock);
      ServeAllCoherent(qs, clock);
    }

    // From the first m entries of a whole log, recovery can run, and gives the
    // book the live engine had after them. Restarted runs on from there.
    lemma RecoverIsLive(m: nat, clock': nat -> Stamp, t: int)
      requires Valid() && Replayable() && wal.torn == []
      requires Ticks(clock, t) && Ticks(clock', t) && m <= |logged|
      ensures
        var found := EntriesOf(Deliver(Loose(FrameAll(wal.records[..m])), 0, codec.dec));
        && found == logged[..m]
        && Executable(EMPTY_BOOK, found, clock')
        && Alike(Replay(EMPTY_BOOK, logged[..m], From(clock, 0)), Replay(EMPTY_BOOK, found, clock'))
        && (m == |logged| ==> Alike(book.Contents(), Replay(EMPTY_BOOK, found, clock')))
    {
      hide Deliver, EntriesOf, Loose, FrameAll, Executable, Replay, Commands, Alike, OrderBook.Valid, OrderBook.Contents, Logs;
      WholeLog();
      AllDelivered(codec, wal.records[..m], logged[..m], first);
      ExecutablePrefix(EMPTY_BOOK, logged, From(clock, 0), m);
      ReplaysAlike(EMPTY_BOOK, logged[..m], logged[..m], From(clock, 0), clock', 0, t);
      assert logged[..|logged|] == logged;
    }

    // When the last command logged was lost, and all was well before it, recovery
    // finds it too, and gives the live book exactly when it makes no difference.
    lemma RecoverAfterLoss(e: Entry, clock': nat -> Stamp, t: int)
      requires Valid() && wal.torn == [] && skipped == 0 && base == EMPTY_BOOK && since == 0
      requires logged != [] && logged[|logged| - 1] == e && ticks > 0
      requires
        var l := State().(logged := logged[..|logged| - 1], ticks := ticks - 1);
        Coherent(l, clock) && Admits(l, LostRequest(e), clock)
      requires Ticks(clock, t) && Ticks(clock', t)
      ensures
        var found := EntriesOf(Deliver(Loose(wal.file), 0, codec.dec));
        && found == logged && Executable(EMPTY_BOOK, found, clock')
        && (SameOrders(book.Contents(), Replay(EMPTY_BOOK, found, clock')) <==> Harmless(book.Contents(), e, clock(ticks - 1)))
    {
      hide Deliver, EntriesOf, Loose, FrameAll, Executable, Replay, Commands, OrderBook.Valid, OrderBook.Contents, Logs,
        Coherent, Admits, SameOrders, Harmless;
      WholeLog();
      AllDelivered(codec, wal.records, logged, first);
      var pre := logged[..|logged| - 1];
      assert logged == pre + [e];
      LossIsReplayed(State().(logged := pre, ticks := ticks - 1), e, clock, logged, clock', 0, t);
    }

    // Some whole records and n bytes of one more: recovery finds the records'
    // entries, and one more exactly when the torn record haunts it.
    static lemma TornDelivers(codec: Codec, rs: seq<Record>, es: seq<Entry>, first: nat, r: Record, n: nat)
      requires codec.Inverse() && Carries(codec, rs, es) && Numbered(rs, first)
      requires (forall k :: 0 <= k < |rs| ==> Framable(rs[k])) && Framable(r) && n < |Frame(r)|
      ensures EntriesOf(Deliver(Loose(FrameAll(rs) + Frame(r)[..n]), 0, codec.dec)) ==
        es + if Haunts(r, n, 0, codec.dec) then [codec.dec(Phantom(r, n).kind, Phantom(r, n).payload).value] else []
    {
      hide Deliver, Loose, FrameAll, Frame, Haunts, EntriesOf, Phantom, Framable;
      var torn := Frame(r)[..n];
      LooseFrames(rs, torn);
      DeliverConcat(rs, Loose(torn), 0, codec.dec);
      EntriesConcat(Deliver(rs, 0, codec.dec), Deliver(Loose(torn), 0, codec.dec));
      PastZero(codec, rs, es, first);
      TornEntry(r, n, codec.dec);
    }

    static lemma PastZero(codec: Codec, rs: seq<Record>, es: seq<Entry>, first: nat)
      requires codec.Inverse() && Carries(codec, rs, es) && Numbered(rs, first)
      ensures EntriesOf(Deliver(rs, 0, codec.dec)) == es
    {
      hide EntriesOf, Deliver;
      EntriesDelivered(codec, rs, es, 0);
      PastSplit(rs, es, 0, 0);
    }

    static lemma TornEntry(r: Record, n: nat, dec: (byte, seq<byte>) -> Option<Entry>)
      requires Framable(r) && n < |Frame(r)|
      ensures EntriesOf(Deliver(Loose(Frame(r)[..n]), 0, dec)) ==
        if Haunts(r, n, 0, dec) then [dec(Phantom(r, n).kind, Phantom(r, n).payload).value] else []
    {
      hide Vanishes, Phantom, Deliver, Loose;
      TornIsDelivered(r, n, 0, dec);
    }

    static lemma {:induction false} EntriesConcat(a: seq<Delivered<Entry>>, b: seq<Delivered<Entry>>)
      ensures EntriesOf(a + b) == EntriesOf(a) + EntriesOf(b)
    {
      if a == [] {
        assert a + b == b;
      } else {
        EntriesConcat(a[1..], b);
        assert (a + b)[1..] == a[1..] + b;
        Regroup(if a[0].payload.Some? then [a[0].payload.value] else [], EntriesOf(a[1..]), EntriesOf(b));
      }
    }

    // A crash that leaves k bytes of a whole log, all that was synced among
    // them, when every fsync succeeded: syncing every N, at most the last N - 1
    // log entries are lost; syncing always, none; syncing by time, only such as
    // were logged within one interval of the last sync. Recovery finds the others, and
    // gives the book the live engine had after them, exactly when the record
    // torn after n bytes, if there is one, does not haunt it.
    lemma CrashRecovers(k: nat, clock': nat -> Stamp, t: int) returns (m: nat, n: nat)
      requires Valid() && Replayable() && wal.torn == []
      requires Ticks(clock, t) && Ticks(clock', t) && wal.syncsSucceeded
      requires |FrameAll(wal.records[..wal.syncedRecords])| <= k <= |wal.file|
      ensures m <= |logged| == |wal.records| && k == |FrameAll(wal.records[..m])| + n
      ensures if m == |logged| then n == 0 else n < |Frame(wal.records[m])|
      ensures wal.mode.SyncByCount? && wal.mode.every > 0 ==> |logged| - m <= wal.mode.every - 1
      ensures wal.mode == SyncAlways ==> m == |logged|
      ensures |wal.times| == |logged|
      ensures wal.mode.SyncByDuration? ==> forall j :: m <= j < |logged| ==> wal.times[j] - wal.lastSyncTime < wal.mode.interval
      ensures
        var found := EntriesOf(Deliver(Loose(wal.file[..k]), 0, codec.dec));
        && (found == logged[..m] <==> m == |logged| || !Haunts(wal.records[m], n, 0, codec.dec))
        && (found == logged[..m] ==>
              Executable(EMPTY_BOOK, found, clock') && Alike(Replay(EMPTY_BOOK, logged[..m], From(clock, 0)), Replay(EMPTY_BOOK, found, clock')))
    {
      hide Deliver, EntriesOf, Loose, Executable, Replay, Alike, OrderBook.Valid, OrderBook.Contents, Scan, FrameAll, Frame, Haunts, Torn, Coherent,
        Wal.Valid, Carries, Numbered;
      WholeLog();
      m := wal.CrashLoss(k);
      n := k - |FrameAll(wal.records[..m])|;
      AllCarried(codec, wal.records, logged);
      RecoverIsLive(m, clock', t);
      if m == |logged| { assert wal.records[..m] == wal.records; }
      CrashFinds(codec, wal.records, logged, first, m, n);
    }

    static lemma AllCarried(codec: Codec, rs: seq<Record>, es: seq<Entry>)
      requires Carries(codec, rs, es)
      ensures |rs| == |es|
    {
    }

    // What recovery finds in the first m whole records and n bytes of the next.
    static lemma CrashFinds(codec: Codec, rs: seq<Record>, es: seq<Entry>, first: nat, m: nat, n: nat)
      requires codec.Inverse() && Carries(codec, rs, es) && Numbered(rs, first)
      requires forall k :: 0 <= k < |rs| ==> Framable(rs[k])
      requires m <= |rs| && if m == |rs| then n == 0 else n < |Frame(rs[m])|
      ensures |FrameAll(rs[..m])| + n <= |FrameAll(rs)|
      ensures EntriesOf(Deliver(Loose(FrameAll(rs)[..|FrameAll(rs[..m])| + n]), 0, codec.dec)) == es[..m] +
        if m < |rs| && Haunts(rs[m], n, 0, codec.dec) then [codec.dec(Phantom(rs[m], n).kind, Phantom(rs[m], n).payload).value] else []
    {
      hide Deliver, EntriesOf, Loose, FrameAll, Frame, Haunts, Phantom;
      if m == |rs| {
        assert rs[..m] == rs && es[..m] == es;
        assert FrameAll(rs)[..|FrameAll(rs)|] == FrameAll(rs) && es + [] == es;
        AllDelivered(codec, rs, es, first);
      } else {
        TornFile(rs, m, n);
        TornDelivers(codec, rs[..m], es[..m], first, rs[m], n);
      }
    }

    static lemma TornFile(rs: seq<Record>, m: nat, n: nat)
      requires m < |rs| && n < |Frame(rs[m])|
      ensures |FrameAll(rs[..m])| + n <= |FrameAll(rs)|
      ensures FrameAll(rs)[..|FrameAll(rs[..m])| + n] == FrameAll(rs[..m]) + Frame(rs[m])[..n]
    {
      hide Frame;
      FrameAllConcat(rs[..m], rs[m..]);
      assert rs[..m] + rs[m..] == rs;
      assert rs[m..][0] == rs[m];
    }

    // Behind a torn tail restarts do not compose: what is logged first after
    // reopening is read again, by scan or replay, exactly when there is none.
    lemma FirstLoggedIsFound()
      requires Logs() && wal.records != []
      ensures
        var at := |FrameAll(wal.prior)| + |wal.torn|;
        && (ScanReads(wal.file, at) <==> wal.torn == [])
        && (LooseReads(wal.file, at) <==> wal.torn == [])
    {
      hide ScanReads, LooseReads, Frame, FrameAll;
      assert FrameAll(wal.records) == Frame(wal.records[0]) + FrameAll(wal.records[1..]) by { FirstFramed(wal.records); }
      if wal.torn == [] {
        NextIsFound(wal.prior, wal.records[0], 0, wal.records[0], FrameAll(wal.records[1..]));
        assert Frame(wal.records[0])[..0] == wal.torn;
      } else {
        var r :| Framable(r) && |wal.torn| < |Frame(r)| && wal.torn == Frame(r)[..|wal.torn|];
        NextIsFound(wal.prior, r, |wal.torn|, wal.records[0], FrameAll(wal.records[1..]));
      }
    }

    static lemma FirstFramed(rs: seq<Record>)
      requires rs != []
      ensures FrameAll(rs) == Frame(rs[0]) + FrameAll(rs[1..])
    {
    }

    // ---- Snapshots ----

    // A log numbered after `first`, without what a restart skipped: recovery from
    // a snapshot past those finds exactly what is numbered after its LSN. So what
    // was logged since is found exactly when the LSN is not past the records
    // skipped, or nothing was logged. After a snapshot taken by a running engine
    // the log starts again from LSN 1, and the first `endingLsn` entries are lost.
    lemma RecoverAfterSnapshot(snap: Snapshot)
      requires Valid() && wal.torn == [] && (skipped == 0 || first + skipped <= snap.endingLsn)
      ensures
        var found := EntriesOf(Deliver(Loose(wal.file), snap.endingLsn, codec.dec));
        && found == logged[Missed(snap.endingLsn, first + skipped, |logged|)..]
        && (found == logged <==> snap.endingLsn <= first + skipped || logged == [])
    {
      hide Deliver, EntriesOf, OrderBook.Valid, OrderBook.Contents, Loose, Logs;
      FoundSince(snap.endingLsn);
    }

    lemma FoundSince(from: nat)
      requires Logs() && wal.torn == [] && (skipped == 0 || first + skipped <= from)
      ensures EntriesOf(Deliver(Loose(wal.file), from, codec.dec)) == logged[Missed(from, first + skipped, |logged|)..]
    {
      hide Deliver, EntriesOf, Loose, Wal.Laid, Wal.Durable;
      wal.LooseIsWhole();
      assert logged[recovered..] == logged;
      PastSkipped(codec, wal.records, skipped, logged, first, from);
    }

    static lemma PastSkipped(codec: Codec, rs: seq<Record>, n: nat, es: seq<Entry>, first: nat, from: nat)
      requires codec.Inverse() && n <= |rs| && Carries(codec, rs[n..], es) && Numbered(rs, first)
      requires n == 0 || first + n <= from
      ensures EntriesOf(Deliver(rs, from, codec.dec)) == es[Missed(from, first + n, |es|)..]
    {
      hide Deliver, EntriesOf;
      Undelivered(rs, n, from, codec.dec);
      EntriesDelivered(codec, rs[n..], es, from);
      PastReset(rs[n..], es, from, first + n);
    }

    // Records up to the LSN deliver nothing.
    static lemma {:induction false} Undelivered(rs: seq<Record>, n: nat, from: nat, dec: (byte, seq<byte>) -> Option<Entry>)
      requires n <= |rs| && forall k :: 0 <= k < n ==> rs[k].lsn <= from
      ensures Deliver(rs, from, dec) == Deliver(rs[n..], from, dec)
    {
      if n > 0 {
        Undelivered(rs[1..], n - 1, from, dec);
        assert rs[1..][n - 1..] == rs[n..];
      }
    }

    // When it finds all that was logged since, and starts from the same book,
    // recovery can run and rebuilds the live book: after a snapshot, or after a
    // restart from one, and whatever was served since.
    lemma RecoverFrom(snap: Snapshot, clock': nat -> Stamp, i: int, t: int)
      requires Valid() && wal.torn == [] && Coherent(State(), clock) && Restored(snap) == base
      requires (skipped == 0 || first + skipped <= snap.endingLsn) && (snap.endingLsn <= first + skipped || logged == [])
      requires StampedUpTo(base.bids, i, t) && StampedUpTo(base.asks, i, t) && Ticks(From(clock, since), t) && Ticks(clock', t)
      ensures
        var found := EntriesOf(Deliver(Loose(wal.file), snap.endingLsn, codec.dec));
        && Executable(BaseOf(Some(snap)), found, clock')
        && Alike(book.Contents(), Replay(BaseOf(Some(snap)), found, clock'))
    {
      hide Deliver, EntriesOf, Loose, Executable, Replay, Alike, OrderBook.Valid, OrderBook.Contents, Wf, Restored, Ticks, StampedUpTo, Logs;
      RecoverAfterSnapshot(snap);
      ReplaysAlike(base, logged, logged, From(clock, since), clock', i, t);
    }

    // So with at most 10 orders a side, a snapshot taken of the base will do.
    lemma SnapshotThenRecover(e: nat, clock': nat -> Stamp, i: int, t: int)
      requires Valid() && wal.torn == [] && first == 0 && skipped == 0 && Coherent(State(), clock)
      requires |base.bids| <= DEPTH && |base.asks| <= DEPTH && (e == 0 || logged == [])
      requires StampedUpTo(base.bids, i, t) && StampedUpTo(base.asks, i, t) && Ticks(From(clock, since), t) && Ticks(clock', t)
      ensures
        var snap := Take(base, e);
        var found := EntriesOf(Deliver(Loose(wal.file), e, codec.dec));
        && Wf(BaseOf(Some(snap))) && StartOf(Some(snap)) == e
        && Executable(BaseOf(Some(snap)), found, clock')
        && Alike(book.Contents(), Replay(BaseOf(Some(snap)), found, clock'))
    {
      hide Deliver, EntriesOf, Loose, Executable, Replay, Alike, OrderBook.Valid, OrderBook.Contents, Wf, Take, Restored, Ticks,
        StampedUpTo, Logs;
      TakenAt(base, e);
      RestoredOfTake(base, e);
      RecoverFrom(Take(base, e), clock', i, t);
    }

    static lemma ReplayedFrom(base: Book, es: seq<Entry>, clock: nat -> Stamp, clock': nat -> Stamp, e: nat, i: int, t: int)
      requires Wf(base) && Executable(base, es, clock) && |base.bids| <= DEPTH && |base.asks| <= DEPTH
      requires StampedUpTo(base.bids, i, t) && StampedUpTo(base.asks, i, t) && Ticks(clock, t) && Ticks(clock', t)
      ensures
        var snap := Take(base, e);
        && Wf(BaseOf(Some(snap))) && StartOf(Some(snap)) == e
        && Executable(BaseOf(Some(snap)), es, clock')
        && Alike(Replay(base, es, clock), Replay(BaseOf(Some(snap)), es, clock'))
    {
      hide Executable, Replay, Alike, Wf, Take, Restored, StampedUpTo, Ticks, Commands;
      TakenAt(base, e);
      RestoredOfTake(base, e);
      ReplaysAlike(base, es, es, clock, clock', i, t);
    }

    static lemma TakenAt(b: Book, e: nat)
      ensures Take(b, e).endingLsn == e
    {
    }

    // A snapshot saved after the first m entries, whose truncation a crash
    // prevented: the log still holds them, recovery skips exactly those, and it
    // rebuilds the live book.
    lemma SnapshotBeforeTruncation(m: nat, clock': nat -> Stamp, i: int, t: int)
      requires Valid() && wal.torn == [] && Coherent(State(), clock) && m <= |logged|
      requires
        var b := Replay(base, logged[..m], From(clock, since));
        && |b.bids| <= DEPTH && |b.asks| <= DEPTH && StampedUpTo(b.bids, i, t) && StampedUpTo(b.asks, i, t)
      requires Ticks(From(From(clock, since), |Commands(logged[..m])|), t) && Ticks(clock', t)
      ensures
        var snap := Take(Replay(base, logged[..m], From(clock, since)), first + skipped + m);
        var found := EntriesOf(Deliver(Loose(wal.file), first + skipped + m, codec.dec));
        && Wf(BaseOf(Some(snap))) && StartOf(Some(snap)) == first + skipped + m
        && found == logged[m..] && Executable(BaseOf(Some(snap)), found, clock')
        && Alike(book.Contents(), Replay(BaseOf(Some(snap)), found, clock'))
    {
      hide Deliver, EntriesOf, Loose, Executable, Replay, Alike, OrderBook.Valid, OrderBook.Contents, Wf, Take, Restored, Commands;
      FoundPast(m);
      ReplayedInTwo(base, logged, m, From(clock, since), clock', first + skipped + m, i, t);
    }

    // Past the LSN of the m-th entry, a whole log holds the others.
    lemma FoundPast(m: nat)
      requires Logs() && wal.torn == [] && m <= |logged|
      ensures EntriesOf(Deliver(Loose(wal.file), first + skipped + m, codec.dec)) == logged[m..]
    {
      hide Deliver, EntriesOf, Loose, Logs;
      FoundSince(first + skipped + m);
      assert m <= |logged|;
    }

    static lemma ReplayedInTwo(base: Book, es: seq<Entry>, m: nat, clock: nat -> Stamp, clock': nat -> Stamp, e: nat, i: int, t: int)
      requires Wf(base) && Executable(base, es, clock) && m <= |es|
      requires
        var b := Replay(base, es[..m], clock);
        && |b.bids| <= DEPTH && |b.asks| <= DEPTH && StampedUpTo(b.bids, i, t) && StampedUpTo(b.asks, i, t)
      requires Ticks(From(clock, |Commands(es[..m])|), t) && Ticks(clock', t)
      ensures
        var snap := Take(Replay(base, es[..m], clock), e);
        && Wf(BaseOf(Some(snap))) && StartOf(Some(snap)) == e
        && Executable(BaseOf(Some(snap)), es[m..], clock')
        && Alike(Replay(base, es, clock), Replay(BaseOf(Some(snap)), es[m..], clock'))
    {
      hide Executable, Replay, Alike, Wf, Take, Restored, Commands, StampedUpTo, Ticks;
      var b, later := Replay(base, es[..m], clock), From(clock, |Commands(es[..m])|);
      ExecutablePrefix(base, es, clock, m);
      ReplayWf(base, es[..m], clock);
      ReplaySplit(base, es, clock, m);
      ReplayedFrom(b, es[m..], later, clock', e, i, t);
    }
  }
}
