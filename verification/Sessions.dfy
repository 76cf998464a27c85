// One symbol's life in the engine, as a state machine: what is logged, what is
// executed, and what a recovery would start from
// (internal/matching/engine/engine.go:311-372, 445-596, 982-1021).
module Sessions {
  import opened Matching
  import opened Losses
  import opened Recovery

  datatype Request =
    | SubmitRequest(entry: Entry)
    | CancelRequest(orderId: string)
    | LostRequest(command: Entry)     // logged, and then its caller gave up sending it
    | TradesRequest(trade: Trade)     // the notification loop logs a trade
    | SnapshotRequest

  // `base` is the book at the last snapshot and `logged` what the log holds
  // since; `ticks` counts the stamps handed out, `since` those before the
  // snapshot.
  datatype Session = Session(started: bool, base: Book, since: nat, logged: seq<Entry>, book: Book, ticks: nat)
  {
    // A command is logged, then executed.
    function Run(e: Entry, clock: nat -> Stamp): Session {
      Session(true, base, since, logged + [e], Execute(book, e, clock(ticks)), ticks + 1)
    }

    // A command is logged, and that is all.
    function Lose(e: Entry): Session {
      Session(true, base, since, logged + [e], book, ticks + 1)
    }

    predicate Refuses(e: Entry) { e.CancelEntry? && !started }
  }

  // A symbol has an actor once something was submitted; until then its cancels
  // are refused and not logged, and it takes no snapshot. A snapshot truncates
  // the whole log.
  function Serve(l: Session, q: Request, clock: nat -> Stamp): Session {
    match q
    case SubmitRequest(e) => l.Run(e, clock)
    case CancelRequest(id) => if l.started then l.Run(CancelEntry(id), clock) else l
    case LostRequest(e) => if l.Refuses(e) then l else l.Lose(e)
    case TradesRequest(t) => l.(logged := l.logged + [TradeEntry(t)])
    case SnapshotRequest => if l.started then l.(base := l.book, since := l.ticks, logged := []) else l
  }

  const OPENED: Session := Session(false, EMPTY_BOOK, 0, [], EMPTY_BOOK, 0)

  function ServeAll(qs: seq<Request>, clock: nat -> Stamp): Session {
    if qs == [] then OPENED else Serve(ServeAll(qs[..|qs| - 1], clock), qs[|qs| - 1], clock)
  }

  // Every submitted order is fresh when it is submitted, whether or not it is
  // lost then.
  ghost predicate Admits(l: Session, q: Request, clock: nat -> Stamp) {
    && (q.SubmitRequest? ==> q.entry.CommandEntry? && Fresh(l.book, OrderOf(q.entry, clock(l.ticks))))
    && (q.LostRequest? ==> !q.command.TradeEntry?)
    && (q.LostRequest? && q.command.CommandEntry? ==> Fresh(l.book, OrderOf(q.command, clock(l.ticks))))
  }

  ghost predicate Admitted(qs: seq<Request>, clock: nat -> Stamp) {
    qs == [] ||
    (Admitted(qs[..|qs| - 1], clock) && Admits(ServeAll(qs[..|qs| - 1], clock), qs[|qs| - 1], clock))
  }

  // The log since the last snapshot, replayed on the book then, is the book now.
  ghost predicate Coherent(l: Session, clock: nat -> Stamp) {
    && l.book == Replay(l.base, l.logged, From(clock, l.since))
    && l.ticks == l.since + |Commands(l.logged)|
    && Executable(l.base, l.logged, From(clock, l.since))
    && Wf(l.base) && Wf(l.book)
  }

  // A command is lost on the book as it is, and makes a difference to it.
  ghost predicate Spoils(l: Session, q: Request, clock: nat -> Stamp) {
    q.LostRequest? && !l.Refuses(q.command) && !Harmless(l.book, q.command, clock(l.ticks))
  }

  predicate Truncates(l: Session, q: Request) { q.SnapshotRequest? && l.started }

  // Whatever is served, the log stays coherent, unless a command is lost that
  // would have made a difference; then it does not.
  lemma ServeCoherent(l: Session, q: Request, clock: nat -> Stamp)
    requires Coherent(l, clock) && Admits(l, q, clock)
    ensures Coherent(Serve(l, q, clock), clock) <==> !Spoils(l, q, clock)
  {
    hide Coherent, Admits, Spoils;
    if !q.LostRequest? { NotLost(l, q, clock); }
    match q
    case SubmitRequest(e) => SubmitCoherent(l, q, clock);
    case CancelRequest(id) => RunCoherent(l, CancelEntry(id), clock);
    case LostRequest(e) => LoseCoherent(l, q, clock);
    case TradesRequest(t) => TradesCoherent(l, q, clock);
    case SnapshotRequest => SnapshotCoherent(l, q, clock);
  }

  lemma NotLost(l: Session, q: Request, clock: nat -> Stamp)
    requires !q.LostRequest?
    ensures !Spoils(l, q, clock)
  {
  }

  lemma SubmitCoherent(l: Session, q: Request, clock: nat -> Stamp)
    requires Coherent(l, clock) && Admits(l, q, clock) && q.SubmitRequest?
    ensures Coherent(l.Run(q.entry, clock), clock)
  {
    hide Coherent, Fresh;
    RunCoherent(l, q.entry, clock);
  }

  lemma RunCoherent(l: Session, e: Entry, clock: nat -> Stamp)
    requires Coherent(l, clock) && !e.TradeEntry?
    requires e.CommandEntry? ==> Fresh(l.book, OrderOf(e, clock(l.ticks)))
    ensures Coherent(l.Run(e, clock), clock)
  {
    hide Wf, Fresh, Execute, Replay, Commands;
    ReplayPush(l.base, l.logged, e, From(clock, l.since));
    ExecuteWf(l.book, e, clock(l.ticks));
    assert (l.logged + [e])[..|l.logged|] == l.logged;
  }

  lemma LoseCoherent(l: Session, q: Request, clock: nat -> Stamp)
    requires Coherent(l, clock) && Admits(l, q, clock) && q.LostRequest?
    ensures Coherent(Serve(l, q, clock), clock) <==> !Spoils(l, q, clock)
  {
    hide Wf, Fresh, Execute, Replay, Commands, Harmless;
    var e := q.command;
    if !l.Refuses(e) {
      ReplayPush(l.base, l.logged, e, From(clock, l.since));
      ExecuteHarmless(l.book, e, clock(l.ticks));
      assert (l.logged + [e])[..|l.logged|] == l.logged;
    }
  }

  lemma TradesCoherent(l: Session, q: Request, clock: nat -> Stamp)
    requires Coherent(l, clock) && q.TradesRequest?
    ensures Coherent(Serve(l, q, clock), clock)
  {
    hide Wf, Fresh, Replay, Commands;
    ReplayPush(l.base, l.logged, TradeEntry(q.trade), From(clock, l.since));
    assert (l.logged + [TradeEntry(q.trade)])[..|l.logged|] == l.logged;
  }

  lemma SnapshotCoherent(l: Session, q: Request, clock: nat -> Stamp)
    requires q.SnapshotRequest? && (Coherent(l, clock) || (Truncates(l, q) && Wf(l.book)))
    ensures Coherent(Serve(l, q, clock), clock)
  {
    hide Wf;
  }

  // Since the last snapshot no command was lost that would have made a
  // difference.
  ghost predicate Spared(qs: seq<Request>, clock: nat -> Stamp) {
    qs == [] ||
    var pre, q := qs[..|qs| - 1], qs[|qs| - 1];
    var l := ServeAll(pre, clock);
    Truncates(l, q) || (Spared(pre, clock) && !Spoils(l, q, clock))
  }

  // The log was coherent at every moment since the last snapshot.
  ghost predicate StaysCoherent(qs: seq<Request>, clock: nat -> Stamp) {
    && Coherent(ServeAll(qs, clock), clock)
    && (qs != [] ==>
          || Truncates(ServeAll(qs[..|qs| - 1], clock), qs[|qs| - 1])
          || StaysCoherent(qs[..|qs| - 1], clock))
  }

  lemma {:induction false} ServeAllCoherent(qs: seq<Request>, clock: nat -> Stamp)
    requires Admitted(qs, clock)
    ensures StaysCoherent(qs, clock) <==> Spared(qs, clock)
  {
    hide Coherent, Serve, Spoils, Truncates, Admits;
    if qs == [] {
      OpenedCoherent(clock);
    } else {
      var pre, q := qs[..|qs| - 1], qs[|qs| - 1];
      var l := ServeAll(pre, clock);
      ServeAllCoherent(pre, clock);
      if Truncates(l, q) {
        ServeAllWf(pre, clock);
        assert q.SnapshotRequest? by { IsSnapshot(l, q); }
        SnapshotCoherent(l, q, clock);
      } else if Coherent(l, clock) {
        ServeCoherent(l, q, clock);
      }
    }
  }

  lemma IsSnapshot(l: Session, q: Request)
    requires Truncates(l, q)
    ensures q.SnapshotRequest?
  {
  }

  lemma OpenedCoherent(clock: nat -> Stamp)
    ensures Coherent(OPENED, clock)
  {
  }

  // Lost commands or not, the live book is well formed.
  lemma {:induction false} ServeAllWf(qs: seq<Request>, clock: nat -> Stamp)
    requires Admitted(qs, clock)
    ensures Wf(ServeAll(qs, clock).book)
  {
    hide Wf, Fresh, Execute;
    if qs == [] {
      NothingWf();
    } else {
      var l, q := ServeAll(qs[..|qs| - 1], clock), qs[|qs| - 1];
      ServeAllWf(qs[..|qs| - 1], clock);
      if q.SubmitRequest? { ExecuteWf(l.book, q.entry, clock(l.ticks)); }
      if q.CancelRequest? { ExecuteWf(l.book, CancelEntry(q.orderId), clock(l.ticks)); }
    }
  }

  lemma NothingWf()
    ensures Wf(EMPTY_BOOK)
  {
  }

  // An executable log, replayed on a well-formed book, is a coherent start.
  lemma ReplayIsCoherent(b: Book, es: seq<Entry>, clock: nat -> Stamp)
    requires Wf(b) && Executable(b, es, clock)
    ensures Coherent(Session(true, b, 0, es, Replay(b, es, clock), |Commands(es)|), clock)
  {
    hide Replay, Executable, Commands, Wf;
    ReplayCongruent(b, es, clock, From(clock, 0));
    ReplayWf(b, es, clock);
  }

  // Until a snapshot is taken the base is the empty book.
  lemma {:induction false} NoSnapshotYet(qs: seq<Request>, clock: nat -> Stamp)
    requires SnapshotRequest !in qs
    ensures ServeAll(qs, clock).base == EMPTY_BOOK && ServeAll(qs, clock).since == 0
  {
    hide Execute;
    if qs != [] {
      NoSnapshotYet(qs[..|qs| - 1], clock);
      assert qs[|qs| - 1] in qs;
    }
  }

  // ---- Stamps ----

  // t is a time by which the first n stamps were handed out, and no later one.
  ghost predicate Separates(clock: nat -> Stamp, n: nat, t: int) {
    && Ticks(From(clock, n), t)
    && forall m: nat :: m < n ==> clock(m).at <= t
  }

  lemma {:induction false} BookStamps(qs: seq<Request>, clock: nat -> Stamp, t: int) returns (i: int)
    requires forall m: nat :: m < ServeAll(qs, clock).ticks ==> clock(m).at <= t
    ensures StampedUpTo(ServeAll(qs, clock).book.bids, i, t) && StampedUpTo(ServeAll(qs, clock).book.asks, i, t)
  {
    i := 0;
    if qs != [] {
      var l, q := ServeAll(qs[..|qs| - 1], clock), qs[|qs| - 1];
      i := BookStamps(qs[..|qs| - 1], clock, t);
      if q.SubmitRequest? || (q.CancelRequest? && l.started) {
        var s := clock(l.ticks);
        i := if s.id > i then s.id else i;
        ExecuteStamps(l.book, if q.SubmitRequest? then q.entry else CancelEntry(q.orderId), s, i, t);
      }
    }
  }

  lemma {:induction false} BaseStamps(qs: seq<Request>, clock: nat -> Stamp, t: int) returns (i: int)
    requires forall m: nat :: m < ServeAll(qs, clock).since ==> clock(m).at <= t
    ensures StampedUpTo(ServeAll(qs, clock).base.bids, i, t) && StampedUpTo(ServeAll(qs, clock).base.asks, i, t)
  {
    i := 0;
    if qs != [] {
      var l := ServeAll(qs[..|qs| - 1], clock);
      if qs[|qs| - 1] == SnapshotRequest && l.started {
        i := BookStamps(qs[..|qs| - 1], clock, t);
      } else {
        i := BaseStamps(qs[..|qs| - 1], clock, t);
      }
    }
  }

  // ---- Recovery ----

  // Replaying the log on the book of the last snapshot gives the live book, up
  // to an order-preserving renaming of timestamps, wherever trade entries stand.
  lemma ReplayIsLive(qs: seq<Request>, clock: nat -> Stamp, log: seq<Entry>, clock': nat -> Stamp, t: int)
    requires Admitted(qs, clock) && Spared(qs, clock) && Commands(log) == Commands(ServeAll(qs, clock).logged)
    requires Separates(clock, ServeAll(qs, clock).since, t) && Ticks(clock', t)
    ensures
      var l := ServeAll(qs, clock);
      Executable(l.base, log, clock') && Alike(l.book, Replay(l.base, log, clock'))
  {
    var l := ServeAll(qs, clock);
    ServeAllCoherent(qs, clock);
    var i := BaseStamps(qs, clock, t);
    ReplaysAlike(l.base, l.logged, log, From(clock, l.since), clock', i, t);
  }

  // Without a snapshot, the empty book and the whole log are enough.
  lemma ReplayFromEmpty(qs: seq<Request>, clock: nat -> Stamp, log: seq<Entry>, clock': nat -> Stamp, t: int)
    requires Admitted(qs, clock) && Spared(qs, clock) && Commands(log) == Commands(ServeAll(qs, clock).logged)
    requires SnapshotRequest !in qs && Ticks(clock, t) && Ticks(clock', t)
    ensures Executable(EMPTY_BOOK, log, clock') && Alike(ServeAll(qs, clock).book, Replay(EMPTY_BOOK, log, clock'))
  {
    NoSnapshotYet(qs, clock);
    ReplayIsLive(qs, clock, log, clock', t);
  }

  // A command is lost while the log is coherent: replaying the log, with it,
  // still gives the live book exactly when it would have made no difference.
  lemma LossIsReplayed(l: Session, e: Entry, clock: nat -> Stamp, log: seq<Entry>, clock': nat -> Stamp, i: int, t: int)
    requires Coherent(l, clock) && Admits(l, LostRequest(e), clock) && Commands(log) == Commands(l.logged + [e])
    requires StampedUpTo(l.base.bids, i, t) && StampedUpTo(l.base.asks, i, t)
    requires Ticks(From(clock, l.since), t) && Ticks(clock', t)
    ensures Executable(l.base, log, clock')
    ensures SameOrders(l.book, Replay(l.base, log, clock')) <==> Harmless(l.book, e, clock(l.ticks))
  {
    hide Commands, Replay, Execute, Executable, Harmless, SameOrders, Alike, Ticks, Wf, Fresh, StampedUpTo;
    ReplayPush(l.base, l.logged, e, From(clock, l.since));
    ExecutablePush(l.base, l.logged, e, From(clock, l.since));
    ReplaysAlike(l.base, l.logged + [e], log, From(clock, l.since), clock', i, t);
    ExecuteHarmless(l.book, e, clock(l.ticks));
    SameAsAlike(l.book, Execute(l.book, e, clock(l.ticks)), Replay(l.base, log, clock'));
  }
}
