// Recovering a book by replaying the log: what replay computes, and why it
// agrees with the live book (internal/matching/engine/engine.go:445-596, 859-954).
module Recovery {
  import opened Matching
  import opened MatchingLaws

  // What the engine logs: commands before they run, trades afterwards.
  datatype Entry =
    | CommandEntry(orderId: string, userId: int, side: Side, orderType: OrderType, price: int, quantity: int)
    | CancelEntry(orderId: string)
    | TradeEntry(trade: Trade)

  // What an execution stamps its n-th command with: the engine's counter and
  // the clock. Neither is logged, so replay stamps afresh.
  datatype Stamp = Stamp(id: int, at: int)

  function OrderOf(e: Entry, s: Stamp): Order
    requires e.CommandEntry?
  {
    NewOrder(s.id, e.orderId, e.userId, e.side, e.orderType, e.price, e.quantity, s.at)
  }

  // One logged entry, as the actor executes it; trades are no-ops.
  function Execute(b: Book, e: Entry, s: Stamp): Book {
    match e
    case CommandEntry(_, _, _, _, _, _) => Submit(b, OrderOf(e, s)).book
    case CancelEntry(id) => Cancel(b, id).book
    case TradeEntry(_) => b
  }

  // The n-th command gets the n-th stamp; trade entries take none.
  function Commands(es: seq<Entry>): (r: seq<Entry>) {
    if es == [] then []
    else Commands(es[..|es| - 1]) + if es[|es| - 1].TradeEntry? then [] else [es[|es| - 1]]
  }

  function Replay(b: Book, es: seq<Entry>, clock: nat -> Stamp): Book {
    if es == [] then b
    else Execute(Replay(b, es[..|es| - 1], clock), es[|es| - 1], clock(|Commands(es[..|es| - 1])|))
  }

  lemma ReplayPush(b: Book, es: seq<Entry>, e: Entry, clock: nat -> Stamp)
    ensures Replay(b, es + [e], clock) == Execute(Replay(b, es, clock), e, clock(|Commands(es)|))
    ensures Commands(es + [e]) == Commands(es) + if e.TradeEntry? then [] else [e]
  {
    assert (es + [e])[..|es|] == es;
  }

  // Trade entries may be interleaved anywhere.
  lemma {:induction false} TradesAreNoOps(b: Book, es: seq<Entry>, clock: nat -> Stamp)
    ensures Replay(b, Commands(es), clock) == Replay(b, es, clock)
    ensures Commands(Commands(es)) == Commands(es)
  {
    hide Submit, Cancel;
    if es != [] {
      var pre, e := es[..|es| - 1], es[|es| - 1];
      TradesAreNoOps(b, pre, clock);
      if !e.TradeEntry? {
        assert Commands(es)[..|Commands(es)| - 1] == Commands(pre);
      } else {
        assert Commands(es) == Commands(pre);
      }
    }
  }

  // What executing a log asks of it: every submitted order is fresh when its
  // turn comes.
  ghost predicate Executable(b: Book, es: seq<Entry>, clock: nat -> Stamp) {
    es == [] ||
    var pre, e := es[..|es| - 1], es[|es| - 1];
    && Executable(b, pre, clock)
    && (e.CommandEntry? ==> Fresh(Replay(b, pre, clock), OrderOf(e, clock(|Commands(pre)|))))
  }

  lemma {:induction false} ExecutablePrefix(b: Book, es: seq<Entry>, clock: nat -> Stamp, i: nat)
    requires Executable(b, es, clock) && i <= |es|
    ensures Executable(b, es[..i], clock)
  {
    if i < |es| {
      ExecutablePrefix(b, es[..|es| - 1], clock, i);
      assert es[..|es| - 1][..i] == es[..i];
    } else {
      assert es[..i] == es;
    }
  }

  lemma {:induction false} ExecutableCommands(b: Book, es: seq<Entry>, clock: nat -> Stamp)
    ensures Executable(b, Commands(es), clock) <==> Executable(b, es, clock)
  {
    hide Submit, Cancel, Fresh, Execute;
    if es != [] {
      var pre, e := es[..|es| - 1], es[|es| - 1];
      ExecutableCommands(b, pre, clock);
      TradesAreNoOps(b, pre, clock);
      if !e.TradeEntry? {
        assert Commands(es)[..|Commands(es)| - 1] == Commands(pre);
      } else {
        assert Commands(es) == Commands(pre);
      }
    }
  }

  function From(clock: nat -> Stamp, k: nat): nat -> Stamp {
    (n: nat) => clock(k + n)
  }

  // A log replayed in two parts.
  lemma {:induction false} ReplaySplit(b: Book, es: seq<Entry>, clock: nat -> Stamp, m: nat)
    requires m <= |es|
    ensures
      var done, later := Replay(b, es[..m], clock), From(clock, |Commands(es[..m])|);
      && Replay(b, es, clock) == Replay(done, es[m..], later)
      && Commands(es) == Commands(es[..m]) + Commands(es[m..])
      && (Executable(b, es, clock) ==> Executable(done, es[m..], later))
  {
    hide Replay, Commands, Executable;
    if m == |es| {
      SplitNothing(b, es, clock);
    } else {
      ReplaySplit(b, es[..|es| - 1], clock, m);
      assert es[..|es| - 1] + [es[|es| - 1]] == es;
      SplitPush(b, es[..|es| - 1], es[|es| - 1], clock, m);
    }
  }

  lemma SplitNothing(b: Book, es: seq<Entry>, clock: nat -> Stamp)
    ensures es[..|es|] == es && es[|es|..] == []
    ensures forall c, d: nat -> Stamp :: Replay(c, [], d) == c && Executable(c, [], d)
    ensures Commands(es) == Commands(es) + Commands([])
  {
    assert Commands(es) + [] == Commands(es);
  }

  lemma SplitPush(b: Book, es: seq<Entry>, e: Entry, clock: nat -> Stamp, m: nat)
    requires m <= |es|
    requires
      var done, later := Replay(b, es[..m], clock), From(clock, |Commands(es[..m])|);
      && Replay(b, es, clock) == Replay(done, es[m..], later)
      && Commands(es) == Commands(es[..m]) + Commands(es[m..])
      && (Executable(b, es, clock) ==> Executable(done, es[m..], later))
    ensures
      var all := es + [e];
      var done, later := Replay(b, all[..m], clock), From(clock, |Commands(all[..m])|);
      && Replay(b, all, clock) == Replay(done, all[m..], later)
      && Commands(all) == Commands(all[..m]) + Commands(all[m..])
      && (Executable(b, all, clock) ==> Executable(done, all[m..], later))
  {
    hide Replay, Commands, Executable, Execute, Fresh, OrderOf;
    var all := es + [e];
    assert all[..m] == es[..m] && all[m..] == es[m..] + [e];
    var done, later := Replay(b, es[..m], clock), From(clock, |Commands(es[..m])|);
    ReplayPush(b, es, e, clock);
    ReplayPush(done, es[m..], e, later);
    ExecutablePush(b, es, e, clock);
    ExecutablePush(done, es[m..], e, later);
  }

  lemma ExecutablePush(b: Book, es: seq<Entry>, e: Entry, clock: nat -> Stamp)
    ensures Executable(b, es + [e], clock) <==>
      Executable(b, es, clock) && (e.CommandEntry? ==> Fresh(Replay(b, es, clock), OrderOf(e, clock(|Commands(es)|))))
  {
    assert (es + [e])[..|es|] == es;
  }

  // Only the stamps handed out matter.
  lemma {:induction false} ReplayCongruent(b: Book, es: seq<Entry>, c: nat -> Stamp, d: nat -> Stamp)
    requires forall n: nat :: n < |Commands(es)| ==> c(n) == d(n)
    ensures Replay(b, es, c) == Replay(b, es, d)
    ensures Executable(b, es, c) <==> Executable(b, es, d)
  {
    hide Submit, Cancel, Fresh;
    if es != [] { ReplayCongruent(b, es[..|es| - 1], c, d); }
  }

  // An executable log keeps the book well-formed.
  lemma {:induction false} ReplayWf(b: Book, es: seq<Entry>, clock: nat -> Stamp)
    requires Wf(b) && Executable(b, es, clock)
    ensures Wf(Replay(b, es, clock))
  {
    if es != [] {
      var pre, e := es[..|es| - 1], es[|es| - 1];
      ReplayWf(b, pre, clock);
      ExecuteWf(Replay(b, pre, clock), e, clock(|Commands(pre)|));
    }
  }

  lemma ExecuteWf(b: Book, e: Entry, s: Stamp)
    requires Wf(b) && (e.CommandEntry? ==> Fresh(b, OrderOf(e, s)))
    ensures Wf(Execute(b, e, s))
  {
    match e
    case CommandEntry(_, _, _, _, _, _) => SubmitWf(b, OrderOf(e, s));
    case CancelEntry(id) => CancelWf(b, id);
    case TradeEntry(_) =>
  }

  // ---- Renaming stamps ----

  datatype Renaming = Renaming(id: int -> int, at: int -> int)

  function RenameOrder(r: Renaming, o: Order): Order {
    o.(id := r.id(o.id), createdAt := r.at(o.createdAt))
  }

  function RenameAll(r: Renaming, s: seq<Order>): (t: seq<Order>)
    ensures |t| == |s| && forall k :: 0 <= k < |s| ==> t[k] == RenameOrder(r, s[k])
  {
    seq(|s|, k requires 0 <= k < |s| => RenameOrder(r, s[k]))
  }

  function RenameBook(r: Renaming, b: Book): Book {
    Book(RenameAll(r, b.bids), RenameAll(r, b.asks))
  }

  lemma RenameSplit(r: Renaming, a: seq<Order>, b: seq<Order>)
    ensures RenameAll(r, a + b) == RenameAll(r, a) + RenameAll(r, b)
  {
  }

  // Matching never looks at a stamp.
  lemma {:induction false} GreedyNatural(r: Renaming, t: Order, s: seq<Order>)
    ensures Greedy(RenameOrder(r, t), RenameAll(r, s)) ==
      var out := Greedy(t, s);
      Outcome(RenameOrder(r, out.taker), RenameAll(r, out.resting), out.trades)
  {
    if s == [] {
      assert RenameAll(r, s) == [];
    } else {
      var pre, last := s[..|s| - 1], s[|s| - 1];
      GreedyNatural(r, t, pre);
      assert RenameAll(r, s)[..|s| - 1] == RenameAll(r, pre);
      MeetNatural(r, Greedy(t, pre), last);
    }
  }

  lemma MeetNatural(r: Renaming, out: Outcome, opp: Order)
    ensures
      var m := Meet(out, opp);
      Meet(Outcome(RenameOrder(r, out.taker), RenameAll(r, out.resting), out.trades), RenameOrder(r, opp)) ==
        Outcome(RenameOrder(r, m.taker), RenameAll(r, m.resting), m.trades)
  {
    var m := Meet(out, opp);
    RenameSplit(r, out.resting, [m.resting[|out.resting|]]);
    assert m.resting == out.resting + [m.resting[|out.resting|]];
    assert RenameAll(r, [m.resting[|out.resting|]]) == [RenameOrder(r, m.resting[|out.resting|])];
  }

  lemma {:induction false} ActivesNatural(r: Renaming, s: seq<Order>)
    ensures Actives(RenameAll(r, s)) == RenameAll(r, Actives(s))
  {
    if s != [] {
      var pre, x := s[..|s| - 1], s[|s| - 1];
      ActivesNatural(r, pre);
      assert RenameAll(r, s)[..|s| - 1] == RenameAll(r, pre);
      RenameSplit(r, Actives(pre), if x.IsActive() then [x] else []);
    }
  }

  lemma {:induction false} SlotNatural(r: Renaming, side: Side, s: seq<Order>, price: int)
    ensures Slot(side, RenameAll(r, s), price) == Slot(side, s, price)
  {
    if s != [] {
      SlotNatural(r, side, s[1..], price);
      assert RenameAll(r, s)[1..] == RenameAll(r, s[1..]);
    }
  }

  lemma RestNatural(r: Renaming, s: seq<Order>, o: Order)
    ensures Rest(RenameAll(r, s), RenameOrder(r, o)) == RenameAll(r, Rest(s, o))
  {
    SlotNatural(r, o.side, s, o.price);
  }

  lemma {:induction false} FindNatural(r: Renaming, s: seq<Order>, orderId: string)
    ensures Find(RenameAll(r, s), orderId) == Find(s, orderId)
  {
    if s != [] {
      FindNatural(r, s[1..], orderId);
      assert RenameAll(r, s)[1..] == RenameAll(r, s[1..]);
    }
  }

  function RenameReply(r: Renaming, reply: Reply): Reply {
    Reply(RenameBook(r, reply.book), RenameOrder(r, reply.taker), reply.trades, reply.ok)
  }

  lemma FinishNatural(r: Renaming, b: Book, u: Order, trades: seq<Trade>)
    ensures Finish(RenameBook(r, b), RenameOrder(r, u), trades) == RenameReply(r, Finish(b, u, trades))
  {
    RestNatural(r, b.On(u.side), u);
  }

  lemma SubmitNatural(r: Renaming, b: Book, o: Order)
    ensures Submit(RenameBook(r, b), RenameOrder(r, o)) == RenameReply(r, Submit(b, o))
  {
    var opp := Opposite(o.side);
    GreedyNatural(r, o, b.On(opp));
    var m := Greedy(o, b.On(opp));
    var met := b.With(opp, m.resting);
    ActivesNatural(r, met.bids);
    ActivesNatural(r, met.asks);
    FinishNatural(r, Book(Actives(met.bids), Actives(met.asks)), m.taker, m.trades);
  }

  lemma CancelNatural(r: Renaming, b: Book, orderId: string)
    ensures Cancel(RenameBook(r, b), orderId).book == RenameBook(r, Cancel(b, orderId).book)
    ensures Cancel(RenameBook(r, b), orderId).found == Cancel(b, orderId).found
  {
    hide Find, Drop, RenameOrder;
    FindNatural(r, b.bids, orderId);
    FindNatural(r, b.asks, orderId);
    var i, j := Find(b.bids, orderId), Find(b.asks, orderId);
    if i < |b.bids| {
      DropNatural(r, b.bids, i);
    } else if j < |b.asks| {
      DropNatural(r, b.asks, j);
    }
  }

  lemma DropNatural(r: Renaming, s: seq<Order>, i: nat)
    requires i < |s|
    ensures Drop(RenameAll(r, s), i) == RenameAll(r, Drop(s, i))
  {
  }

  // Two clocks that agree up to a renaming give books that do.
  lemma {:induction false} ReplayNatural(r: Renaming, b: Book, es: seq<Entry>, clock: nat -> Stamp, renamed: nat -> Stamp)
    requires forall n: nat :: renamed(n) == Stamp(r.id(clock(n).id), r.at(clock(n).at))
    ensures Replay(RenameBook(r, b), es, renamed) == RenameBook(r, Replay(b, es, clock))
  {
    if es != [] {
      var pre, e := es[..|es| - 1], es[|es| - 1];
      ReplayNatural(r, b, pre, clock, renamed);
      var before := Replay(b, pre, clock);
      match e
      case CommandEntry(_, _, _, _, _, _) =>
        SubmitNatural(r, before, OrderOf(e, clock(|Commands(pre)|)));
      case CancelEntry(id) =>
        CancelNatural(r, before, id);
      case TradeEntry(_) =>
    }
  }

  lemma FreshNatural(r: Renaming, b: Book, o: Order)
    requires Monotone(r.at)
    ensures Fresh(RenameBook(r, b), RenameOrder(r, o)) <==> Fresh(b, o)
  {
    NewerNatural(r, b.bids, o);
    NewerNatural(r, b.asks, o);
  }

  lemma NewerNatural(r: Renaming, s: seq<Order>, o: Order)
    requires Monotone(r.at)
    ensures Newer(RenameAll(r, s), RenameOrder(r, o)) <==> Newer(s, o)
  {
    var t := RenameAll(r, s);
    assert forall k :: 0 <= k < |s| ==> s[k] in s && t[k] in t;
    assert forall k :: 0 <= k < |s| ==> (t[k].createdAt < r.at(o.createdAt) <==> s[k].createdAt < o.createdAt);
  }

  lemma {:induction false} ExecutableNatural(r: Renaming, b: Book, es: seq<Entry>, clock: nat -> Stamp, renamed: nat -> Stamp)
    requires forall n: nat :: renamed(n) == Stamp(r.id(clock(n).id), r.at(clock(n).at))
    requires Monotone(r.at)
    ensures Executable(RenameBook(r, b), es, renamed) <==> Executable(b, es, clock)
  {
    if es != [] {
      var pre, e := es[..|es| - 1], es[|es| - 1];
      ExecutableNatural(r, b, pre, clock, renamed);
      ReplayNatural(r, b, pre, clock, renamed);
      if e.CommandEntry? {
        FreshNatural(r, Replay(b, pre, clock), OrderOf(e, clock(|Commands(pre)|)));
      }
    }
  }

  ghost predicate Monotone(f: int -> int) {
    forall x, y :: x < y ==> f(x) < f(y)
  }

  // ---- Books that differ only in stamps ----

  // Position by position the same orders up to their stamps, with timestamps in
  // the same order.
  ghost predicate Alike(a: Book, b: Book) {
    && AlikeSide(a.bids, b.bids) && AlikeSide(a.asks, b.asks)
    && (forall side, side', i, j :: 0 <= i < |a.On(side)| && 0 <= j < |a.On(side')| ==>
          (a.On(side)[i].createdAt < a.On(side')[j].createdAt <==> b.On(side)[i].createdAt < b.On(side')[j].createdAt))
  }

  predicate AlikeSide(s: seq<Order>, t: seq<Order>) {
    |s| == |t| && forall k :: 0 <= k < |s| ==> t[k] == s[k].(id := t[k].id, createdAt := t[k].createdAt)
  }

  lemma RenamedAlike(r: Renaming, q: Renaming, b: Book)
    requires Monotone(r.at) && Monotone(q.at)
    ensures Alike(RenameBook(r, b), RenameBook(q, b))
  {
    var c, d := RenameBook(r, b), RenameBook(q, b);
    forall side: Side, side': Side, i, j | 0 <= i < |c.On(side)| && 0 <= j < |c.On(side')|
      ensures c.On(side)[i].createdAt < c.On(side')[j].createdAt <==> d.On(side)[i].createdAt < d.On(side')[j].createdAt
    {
      var x, y := b.On(side)[i].createdAt, b.On(side')[j].createdAt;
      assert c.On(side)[i].createdAt == r.at(x) && c.On(side')[j].createdAt == r.at(y);
      assert d.On(side)[i].createdAt == q.at(x) && d.On(side')[j].createdAt == q.at(y);
    }
  }

  // ---- A run that continues from a book, stamped by two clocks ----

  // Stamps handed out after time t: later and later.
  ghost predicate Ticks(clock: nat -> Stamp, t: int) {
    && (forall n: nat :: clock(n).at > t)
    && (forall m: nat, n: nat :: m < n ==> clock(m).at < clock(n).at)
  }

  // Stamps up to i and t stay; the n-th later one becomes clock(n).
  function Later(clock: nat -> Stamp, i: int, t: int): Renaming {
    Renaming(x => if x <= i then x else clock(x - i - 1).id,
             x => if x <= t then x else clock(x - t - 1).at)
  }

  ghost predicate StampedUpTo(s: seq<Order>, i: int, t: int) {
    forall k :: 0 <= k < |s| ==> s[k].id <= i && s[k].createdAt <= t
  }

  lemma LaterIsMonotone(clock: nat -> Stamp, i: int, t: int)
    requires Ticks(clock, t)
    ensures Monotone(Later(clock, i, t).at)
  {
  }

  lemma LaterKeeps(clock: nat -> Stamp, i: int, t: int, s: seq<Order>)
    requires StampedUpTo(s, i, t)
    ensures RenameAll(Later(clock, i, t), s) == s
  {
  }

  // A run under any later clock is the run under the canonical one, renamed.
  lemma ReplayFrom(b: Book, es: seq<Entry>, clock: nat -> Stamp, i: int, t: int)
    requires StampedUpTo(b.bids, i, t) && StampedUpTo(b.asks, i, t)
    ensures
      var r, canon := Later(clock, i, t), Canonical(i, t);
      && Replay(b, es, clock) == RenameBook(r, Replay(b, es, canon))
      && (Ticks(clock, t) ==> (Executable(b, es, clock) <==> Executable(b, es, canon)))
  {
    var r, canon := Later(clock, i, t), Canonical(i, t);
    LaterKeeps(clock, i, t, b.bids);
    LaterKeeps(clock, i, t, b.asks);
    forall n: nat ensures clock(n) == Stamp(r.id(canon(n).id), r.at(canon(n).at)) {
      assert i + 1 + n - i - 1 == n && t + 1 + n - t - 1 == n;
    }
    ReplayNatural(r, b, es, canon, clock);
    if Ticks(clock, t) {
      LaterIsMonotone(clock, i, t);
      ExecutableNatural(r, b, es, canon, clock);
    }
  }

  function Canonical(i: int, t: int): nat -> Stamp {
    n => Stamp(i + 1 + n, t + 1 + n)
  }

  // From one book, the same commands under two clocks give books that differ
  // only in stamps, wherever trade entries stand between them; and a log that
  // one of them can execute, the other can.
  lemma ReplaysAlike(b: Book, es: seq<Entry>, es': seq<Entry>, clock: nat -> Stamp, clock': nat -> Stamp, i: int, t: int)
    requires StampedUpTo(b.bids, i, t) && StampedUpTo(b.asks, i, t)
    requires Ticks(clock, t) && Ticks(clock', t) && Commands(es) == Commands(es')
    ensures Alike(Replay(b, es, clock), Replay(b, es', clock'))
    ensures Executable(b, es, clock) <==> Executable(b, es', clock')
  {
    var canon := Canonical(i, t);
    TradesAreNoOps(b, es, canon);
    TradesAreNoOps(b, es', canon);
    ExecutableCommands(b, es, canon);
    ExecutableCommands(b, es', canon);
    ReplayFrom(b, es, clock, i, t);
    ReplayFrom(b, es', clock', i, t);
    LaterIsMonotone(clock, i, t);
    LaterIsMonotone(clock', i, t);
    RenamedAlike(Later(clock, i, t), Later(clock', i, t), Replay(b, es, canon));
  }

  // ---- Stamps of a book ----

  // Stamps past i and t move; a book that does not move has none.
  function Above(i: int, t: int): Renaming {
    Renaming(x => if x <= i then x else x + 1, x => if x <= t then x else x + 1)
  }

  lemma FixedStamps(s: seq<Order>, i: int, t: int)
    ensures RenameAll(Above(i, t), s) == s <==> StampedUpTo(s, i, t)
  {
    var r := RenameAll(Above(i, t), s);
    assert forall k :: 0 <= k < |s| ==> (r[k] == s[k] <==> s[k].id <= i && s[k].createdAt <= t);
  }

  // Executing a command brings no stamp but its own: what is natural in the
  // stamps cannot invent one.
  lemma ExecuteStamps(b: Book, e: Entry, s: Stamp, i: int, t: int)
    requires StampedUpTo(b.bids, i, t) && StampedUpTo(b.asks, i, t) && s.id <= i && s.at <= t
    ensures StampedUpTo(Execute(b, e, s).bids, i, t) && StampedUpTo(Execute(b, e, s).asks, i, t)
  {
    var r := Above(i, t);
    FixedStamps(b.bids, i, t);
    FixedStamps(b.asks, i, t);
    FixedStamps(Execute(b, e, s).bids, i, t);
    FixedStamps(Execute(b, e, s).asks, i, t);
    match e
    case CommandEntry(_, _, _, _, _, _) => SubmitNatural(r, b, OrderOf(e, s));
    case CancelEntry(id) => CancelNatural(r, b, id);
    case TradeEntry(_) =>
  }
}
