// Commands are logged when they are issued, wait to be sent into one of two
// queues, and are executed when the actor takes them from there
// (internal/matching/engine/engine.go:411-487, 549-579, internal/matching/engine/actor.go:39-56):
// when the log has the order of execution, and when it need not.
module LogOrder {
  import opened Matching
  import opened Recovery
  import opened Actors
  import Priority

  // ---- States ----

  function Executed(a: Actor): seq<Entry> { Entries(Jobs(a.done)) }

  function Pending(a: Actor): seq<Entry> { Entries(a.cmds) + Entries(a.cancels) }

  // The log is what was executed, then what is queued, in one queue only, then
  // what callers still try to send.
  ghost predicate LogFollows(a: Actor) {
    && (a.cmds == [] || a.cancels == [])
    && a.logged == Executed(a) + Pending(a) + Entries(a.entering)
  }

  predicate Idle(a: Actor) { a.cmds == [] && a.cancels == [] }

  ghost predicate AllTakes(cs: seq<Step>) {
    forall k :: 0 <= k < |cs| ==> cs[k].TakeCommand? || cs[k].TakeCancel?
  }

  function RunFrom(a: Actor, cs: seq<Step>): Actor {
    if cs == [] then a else StepActor(RunFrom(a, cs[..|cs| - 1]), cs[|cs| - 1])
  }

  // However the select drains the queues, the log turns out to be what was
  // executed and what is yet to be sent.
  ghost predicate AlwaysAgrees(a: Actor) {
    forall cs :: AllTakes(cs) && Idle(RunFrom(a, cs)) ==>
      var b := RunFrom(a, cs);
      Executed(b) + Entries(b.entering) == a.logged
  }

  lemma ThenMore(a: seq<Entry>, b: seq<Entry>, c: seq<Entry>)
    ensures a + b + c == a + (b + c)
  {
  }

  lemma JoinNothing(es: seq<Entry>)
    ensures es + [] == es && [] + es == es
  {
  }

  lemma NoEntries()
    ensures Entries([]) == []
  {
  }

  // One command taken from the head of its queue.
  lemma TakeOne(a: Actor, st: Step)
    requires (st.TakeCommand? && a.cmds != []) || (st.TakeCancel? && a.cancels != [])
    ensures
      var b := StepActor(a, st);
      && b.cmds == (if st.TakeCancel? then a.cmds else a.cmds[1..]) && b.cancels == (if st.TakeCancel? then a.cancels[1..] else a.cancels)
      && Executed(b) == Executed(a) + [if st.TakeCancel? then a.cancels[0].entry else a.cmds[0].entry]
      && b.logged == a.logged && b.entering == a.entering
  {
    hide Execute, AnswerTo;
    var b := StepActor(a, st);
    OneMoreDone(a.done, if st.TakeCancel? then a.cancels[0] else a.cmds[0], b.done);
  }

  lemma OneMoreDone(ds: seq<Done>, j: Job, ds': seq<Done>)
    requires |ds'| == |ds| + 1 && ds'[..|ds|] == ds && ds'[|ds|].job == j
    ensures Entries(Jobs(ds')) == Entries(Jobs(ds)) + [j.entry]
  {
    assert forall k :: 0 <= k < |ds| ==> ds'[k] == ds[k];
  }

  lemma Joined(done: seq<Entry>, js: seq<Job>)
    requires js != []
    ensures done + [js[0].entry] + Entries(js[1..]) == done + Entries(js)
  {
    var rest := Entries(js[1..]);
    assert Entries(js) == [js[0].entry] + rest;
    assert done + [js[0].entry] + rest == done + ([js[0].entry] + rest);
  }

  lemma TakeFollows(a: Actor, st: Step)
    requires LogFollows(a) && (st.TakeCommand? || st.TakeCancel?)
    ensures LogFollows(StepActor(a, st)) && StepActor(a, st).logged == a.logged
  {
    hide StepActor, Executed, Entries;
    var a' := StepActor(a, st);
    NoEntries();
    JoinNothing(Entries(a.cmds));
    JoinNothing(Entries(a.cancels));
    JoinNothing(Entries(a'.cmds));
    JoinNothing(Entries(a'.cancels));
    if st.TakeCommand? && a.cmds != [] {
      TakeOne(a, st);
      Joined(Executed(a), a.cmds);
    } else if st.TakeCancel? && a.cancels != [] {
      TakeOne(a, st);
      Joined(Executed(a), a.cancels);
    } else {
      NothingTaken(a, st);
    }
  }

  lemma NothingTaken(a: Actor, st: Step)
    requires (st.TakeCommand? && a.cmds == []) || (st.TakeCancel? && a.cancels == [])
    ensures StepActor(a, st) == a
  {
  }

  lemma {:induction false} DrainFollows(a: Actor, cs: seq<Step>)
    requires LogFollows(a) && AllTakes(cs)
    ensures LogFollows(RunFrom(a, cs)) && RunFrom(a, cs).logged == a.logged
  {
    hide LogFollows, StepActor;
    if cs != [] {
      DrainFollows(a, cs[..|cs| - 1]);
      TakeFollows(RunFrom(a, cs[..|cs| - 1]), cs[|cs| - 1]);
    }
  }

  function Takes(cancel: bool, n: nat): (cs: seq<Step>)
    ensures |cs| == n && AllTakes(cs)
  {
    seq(n, _ => if cancel then TakeCancel("", 0) else TakeCommand("", 0))
  }

  // Draining one queue first.
  lemma {:induction false} DrainOne(a: Actor, cancel: bool, n: nat)
    requires n <= |if cancel then a.cancels else a.cmds|
    ensures
      var b := RunFrom(a, Takes(cancel, n));
      && b.cmds == (if cancel then a.cmds else a.cmds[n..]) && b.cancels == (if cancel then a.cancels[n..] else a.cancels)
      && b.entering == a.entering && Executed(b) == Executed(a) + Entries(if cancel then a.cancels[..n] else a.cmds[..n])
  {
    hide StepActor, Entries, Executed;
    var js := if cancel then a.cancels else a.cmds;
    if n == 0 {
      assert Entries(js[..0]) == [] && js[0..] == js;
      JoinNothing(Executed(a));
    } else {
      DrainOne(a, cancel, n - 1);
      assert Takes(cancel, n)[..n - 1] == Takes(cancel, n - 1);
      TakeOne(RunFrom(a, Takes(cancel, n - 1)), Takes(cancel, n)[n - 1]);
      EntriesPush(js, n - 1, Executed(a));
    }
  }

  lemma EntriesPush(js: seq<Job>, k: nat, done: seq<Entry>)
    requires k < |js|
    ensures js[k..][1..] == js[k + 1..] && js[k..][0] == js[k]
    ensures done + Entries(js[..k]) + [js[k].entry] == done + Entries(js[..k + 1])
  {
  }

  lemma {:induction false} RunFromConcat(a: Actor, cs: seq<Step>, ds: seq<Step>)
    ensures RunFrom(a, cs + ds) == RunFrom(RunFrom(a, cs), ds)
  {
    hide StepActor;
    if ds == [] {
      assert cs + ds == cs;
    } else {
      RunFromConcat(a, cs, ds[..|ds| - 1]);
      assert (cs + ds)[..|cs + ds| - 1] == cs + ds[..|ds| - 1];
    }
  }

  // Both queues drained, the cancels first or the commands first.
  lemma DrainBoth(a: Actor, cancelsFirst: bool) returns (cs: seq<Step>)
    ensures AllTakes(cs) && Idle(RunFrom(a, cs)) && RunFrom(a, cs).entering == a.entering
    ensures Executed(RunFrom(a, cs)) == Executed(a) +
      if cancelsFirst then Entries(a.cancels) + Entries(a.cmds) else Entries(a.cmds) + Entries(a.cancels)
  {
    hide RunFrom, Entries, Executed;
    var one, two := if cancelsFirst then a.cancels else a.cmds, if cancelsFirst then a.cmds else a.cancels;
    var first, second := Takes(cancelsFirst, |one|), Takes(!cancelsFirst, |two|);
    DrainOne(a, cancelsFirst, |one|);
    assert one[..|one|] == one && two[..|two|] == two;
    var b := RunFrom(a, first);
    DrainOne(b, !cancelsFirst, |two|);
    RunFromConcat(a, first, second);
    cs := first + second;
    ThenMore(Executed(a), Entries(one), Entries(two));
  }

  // The log is sure to agree exactly when it is what was executed, what is
  // queued, in at most one of the queues, and what is yet to be sent.
  lemma AgreesIffFollows(a: Actor)
    requires HoldsKinds(a)
    ensures AlwaysAgrees(a) <==> LogFollows(a)
  {
    hide RunFrom, HoldsKinds, Executed;
    if LogFollows(a) {
      forall cs | AllTakes(cs) && Idle(RunFrom(a, cs))
        ensures Executed(RunFrom(a, cs)) + Entries(RunFrom(a, cs).entering) == a.logged
      {
        DrainFollows(a, cs);
        JoinNothing(Executed(RunFrom(a, cs)));
      }
    }
    if AlwaysAgrees(a) {
      var cs := DrainBoth(a, false);
      var ds := DrainBoth(a, true);
      NotBoth(a, Executed(a));
    }
  }

  lemma NotBoth(a: Actor, done: seq<Entry>)
    requires HoldsKinds(a)
    requires
      done + (Entries(a.cmds) + Entries(a.cancels)) + Entries(a.entering) ==
      done + (Entries(a.cancels) + Entries(a.cmds)) + Entries(a.entering)
    ensures a.cmds == [] || a.cancels == []
  {
    var s, t := done + (Entries(a.cmds) + Entries(a.cancels)), done + (Entries(a.cancels) + Entries(a.cmds));
    assert a.cmds != [] ==> (s + Entries(a.entering))[|done|] == s[|done|] == a.cmds[0].entry;
    assert a.cancels != [] ==> (t + Entries(a.entering))[|done|] == t[|done|] == a.cancels[0].entry;
  }

  // ---- Runs ----

  // No caller gives up on a command it has logged; and one enters when the other
  // queue is empty and every command logged earlier that is yet to be sent is
  // the same.
  predicate InTurn(a: Actor, st: Step) {
    match st
    case Enter(_, i) => CanEnter(a, i) ==> OtherQueue(a, i) == [] && Oldest(a.entering, i)
    case GiveUp(_, i) => i >= |a.entering|
    case _ => true
  }

  function OtherQueue(a: Actor, i: nat): seq<Job>
    requires i < |a.entering|
  {
    if a.entering[i].entry.CancelEntry? then a.cmds else a.cancels
  }

  predicate Oldest(js: seq<Job>, i: nat)
    requires i < |js|
  {
    forall k :: 0 <= k < i ==> js[k].entry == js[i].entry
  }

  ghost predicate Orderly(steps: seq<Step>) {
    steps != [] ==>
      Orderly(steps[..|steps| - 1]) && InTurn(RunOne(steps[..|steps| - 1]), steps[|steps| - 1])
  }

  // Exactly the steps in turn keep the log in step.
  lemma StepFollows(a: Actor, st: Step)
    requires LogFollows(a)
    ensures LogFollows(StepActor(a, st)) <==> InTurn(a, st)
  {
    hide LogFollows, StepActor, CanEnter, EnterAt;
    match st
    case Submit(_, _, _, _) => IssueFollows(a, st);
    case Cancel(_, _, _) => IssueFollows(a, st);
    case Enter(_, i) => EnterFollows(a, st);
    case GiveUp(_, i) => GiveUpFollows(a, st);
    case TakeCommand(_, _) => TakeFollows(a, st);
    case TakeCancel(_, _) => TakeFollows(a, st);
    case Open(_) => NothingLogged(a, st);
    case Receive(_, _) => NothingLogged(a, st);
  }

  lemma NothingLogged(a: Actor, st: Step)
    requires LogFollows(a) && (st.Open? || st.Receive?)
    ensures LogFollows(StepActor(a, st))
  {
  }

  lemma IssueFollows(a: Actor, st: Step)
    requires LogFollows(a) && st.Issues()
    ensures LogFollows(StepActor(a, st))
  {
    hide Executed, Pending;
    var a' := StepActor(a, st);
    assert Entries(a.entering + [st.Issued()]) == Entries(a.entering) + [st.Content()];
    SamePending(a, a');
    ThenMore(Executed(a) + Pending(a), Entries(a.entering), [st.Content()]);
  }

  lemma SamePending(a: Actor, a': Actor)
    requires a'.cmds == a.cmds && a'.cancels == a.cancels && a'.done == a.done
    ensures Pending(a') == Pending(a) && Executed(a') == Executed(a)
  {
  }

  lemma GiveUpFollows(a: Actor, st: Step)
    requires LogFollows(a) && st.GiveUp?
    ensures LogFollows(StepActor(a, st)) <==> st.i >= |a.entering|
  {
    if st.i < |a.entering| { Removed(a.entering, st.i); }
  }

  lemma EnterFollows(a: Actor, st: Step)
    requires LogFollows(a) && st.Enter?
    ensures LogFollows(StepActor(a, st)) <==> InTurn(a, st)
  {
    hide Executed, RemoveAt, Entries, Oldest;
    var a', i := StepActor(a, st), st.i;
    if CanEnter(a, i) {
      var e := a.entering[i].entry;
      assert a'.cmds != [] || a'.cancels != [];
      if OtherQueue(a, i) == [] {
        EnterPending(a, i);
        SameExecuted(a, a');
        Overtaking(a.entering, i);
        ThenMore(Executed(a), Pending(a), [e]);
        ThenMore(Executed(a) + Pending(a), [e], Entries(a'.entering));
        SameRest(Executed(a) + Pending(a), Entries(a.entering), [e] + Entries(a'.entering));
      }
    }
  }

  lemma SameExecuted(a: Actor, a': Actor)
    requires a'.done == a.done
    ensures Executed(a') == Executed(a)
  {
  }

  lemma EnterPending(a: Actor, i: nat)
    requires i < |a.entering| && OtherQueue(a, i) == []
    ensures Pending(EnterAt(a, i)) == Pending(a) + [a.entering[i].entry]
  {
    hide RemoveAt;
  }

  lemma SameRest(a: seq<Entry>, b: seq<Entry>, c: seq<Entry>)
    ensures a + b == a + c <==> b == c
  {
    if a + b == a + c {
      assert b == (a + b)[|a|..] && c == (a + c)[|a|..];
    }
  }

  // Sending the i-th command first leaves the order as it is exactly when the
  // ones before it are the same.
  lemma Overtaking(js: seq<Job>, i: nat)
    requires i < |js|
    ensures Entries(js) == [js[i].entry] + Entries(RemoveAt(js, i)) <==> Oldest(js, i)
  {
    hide Entries, RemoveAt;
    var es, x := Entries(js), js[i].entry;
    TakenOut(js, i);
    ThenMore([x], es[..i], es[i + 1..]);
    SameStart(es[..i] + [x], [x] + es[..i], es[i + 1..]);
    Commutes(es[..i], x);
  }

  lemma TakenOut(js: seq<Job>, i: nat)
    requires i < |js|
    ensures
      var es := Entries(js);
      && es == es[..i] + [js[i].entry] + es[i + 1..] && Entries(RemoveAt(js, i)) == es[..i] + es[i + 1..]
      && (Oldest(js, i) <==> forall k :: 0 <= k < i ==> es[..i][k] == js[i].entry)
  {
  }

  lemma SameStart(a: seq<Entry>, b: seq<Entry>, c: seq<Entry>)
    requires |a| == |b|
    ensures a + c == b + c <==> a == b
  {
    if a + c == b + c {
      assert a == (a + c)[..|a|] && b == (b + c)[..|a|];
    }
  }

  // Only a repetition of x is the same with x in front and behind.
  lemma {:induction false} Commutes(p: seq<Entry>, x: Entry)
    ensures p + [x] == [x] + p <==> forall k :: 0 <= k < |p| ==> p[k] == x
  {
    if p == [] {
      assert p + [x] == [x] + p;
    } else {
      var q := p[1..];
      Commutes(q, x);
      assert p + [x] == [p[0]] + (q + [x]) && [x] + p == [x] + ([p[0]] + q);
      FirstAndRest(p[0], q + [x], x, [p[0]] + q);
    }
  }

  lemma FirstAndRest(d: Entry, s: seq<Entry>, e: Entry, t: seq<Entry>)
    ensures [d] + s == [e] + t <==> d == e && s == t
  {
    if [d] + s == [e] + t {
      assert ([d] + s)[0] == d && ([e] + t)[0] == e && ([d] + s)[1..] == s && ([e] + t)[1..] == t;
    }
  }

  lemma {:induction false} OrderlyFollows(steps: seq<Step>)
    requires Orderly(steps)
    ensures LogFollows(RunOne(steps))
  {
    hide LogFollows, StepActor, InTurn;
    if steps == [] {
      NothingYet();
    } else {
      OrderlyFollows(steps[..|steps| - 1]);
      StepFollows(RunOne(steps[..|steps| - 1]), steps[|steps| - 1]);
    }
  }

  lemma NothingYet()
    ensures LogFollows(UNUSED)
  {
  }

  lemma {:induction false} OrderlyPrefix(steps: seq<Step>, n: nat)
    requires Orderly(steps) && n <= |steps|
    ensures Orderly(steps[..n])
  {
    hide InTurn, RunOne;
    if n == |steps| {
      assert steps[..n] == steps;
    } else {
      OrderlyPrefix(steps[..|steps| - 1], n);
      assert steps[..|steps| - 1][..n] == steps[..n];
    }
  }

  // At every moment of a run, that is after each of its prefixes, the log is
  // sure to agree with execution.
  ghost predicate NeverAtRisk(steps: seq<Step>) {
    forall n :: 0 <= n <= |steps| ==> AlwaysAgrees(RunOne(steps[..n]))
  }

  // The log has the order of execution, whatever the select chooses, exactly in
  // the runs whose every step is in turn.
  lemma LogAgreesIffOrderly(steps: seq<Step>)
    requires WellIssued(steps)
    ensures NeverAtRisk(steps) <==> Orderly(steps)
  {
    hide WellIssued, RunOne, AlwaysAgrees, LogFollows, Orderly;
    if Orderly(steps) {
      forall n | 0 <= n <= |steps| ensures AlwaysAgrees(RunOne(steps[..n])) {
        OrderlyPrefix(steps, n);
        OrderlyFollows(steps[..n]);
        PrefixHoldsKinds(steps, n);
        AgreesIffFollows(RunOne(steps[..n]));
      }
    }
    if NeverAtRisk(steps) { OnlyIfOrderly(steps); }
  }

  lemma PrefixHoldsKinds(steps: seq<Step>, n: nat)
    requires WellIssued(steps) && n <= |steps|
    ensures HoldsKinds(RunOne(steps[..n]))
  {
    hide WellIssued, RunOne;
    WellIssuedPrefix(steps, n);
    ActorIsSound(steps[..n]);
  }

  lemma {:induction false} OnlyIfOrderly(steps: seq<Step>)
    requires WellIssued(steps) && NeverAtRisk(steps)
    ensures Orderly(steps)
  {
    hide WellIssued, AlwaysAgrees, LogFollows, InTurn, StepActor, HoldsKinds;
    if steps != [] {
      var pre, st := steps[..|steps| - 1], steps[|steps| - 1];
      RiskOfPrefix(steps);
      WellIssuedPrefix(steps, |pre|);
      OnlyIfOrderly(pre);
      OrderlyFollows(pre);
      assert steps[..|steps|] == steps;
      PrefixHoldsKinds(steps, |steps|);
      AgreesIffFollows(RunOne(steps));
      StepFollows(RunOne(pre), st);
    }
  }

  lemma RiskOfPrefix(steps: seq<Step>)
    requires steps != [] && NeverAtRisk(steps)
    ensures NeverAtRisk(steps[..|steps| - 1])
  {
    hide AlwaysAgrees, RunOne;
    var pre := steps[..|steps| - 1];
    forall n | 0 <= n <= |pre| ensures AlwaysAgrees(RunOne(pre[..n])) {
      assert pre[..n] == steps[..n];
    }
  }

  // ---- The log and the book ----

  // Then an actor's book is always what replaying as much of the log as was
  // executed gives; so when nothing is pending recovery rebuilds it.
  lemma OrderlyLogIsBook(steps: seq<Step>)
    requires WellIssued(steps) && Orderly(steps)
    ensures
      var a := RunOne(steps);
      && |a.done| <= |a.logged| && a.book == Replay(EMPTY_BOOK, a.logged[..|a.done|], StampsOf(a.done))
      && (Idle(a) && a.entering == [] ==> a.book == Replay(EMPTY_BOOK, a.logged, StampsOf(a.done)))
  {
    hide RunOne, Orderly, WellIssued, Replay;
    var a := RunOne(steps);
    OrderlyFollows(steps);
    ActorIsSound(steps);
    DoneIsReplay(a.done);
    assert a.logged[..|a.done|] == Executed(a);
    assert Idle(a) && a.entering == [] ==> a.logged[..|a.done|] == a.logged;
  }

  function StampsOf(ds: seq<Done>): nat -> Stamp {
    (n: nat) => if n < |ds| then ds[n].stamp else Stamp(0, 0)
  }

  lemma {:induction false} DoneIsReplay(ds: seq<Done>)
    requires forall k :: 0 <= k < |ds| ==> !ds[k].job.entry.TradeEntry?
    ensures AfterAll(ds) == Replay(EMPTY_BOOK, Entries(Jobs(ds)), StampsOf(ds)) && |Commands(Entries(Jobs(ds)))| == |ds|
  {
    hide Execute;
    if ds != [] {
      var pre := ds[..|ds| - 1];
      DoneIsReplay(pre);
      assert Entries(Jobs(ds))[..|ds| - 1] == Entries(Jobs(pre));
      ReplayCongruent(EMPTY_BOOK, Entries(Jobs(pre)), StampsOf(pre), StampsOf(ds));
    }
  }
  // ---- Three ways to fall out of step ----

  const SELL1: Entry := CommandEntry("SELL1", 1, Sell, Limit, 50000, 5)
  const SELL2: Entry := CommandEntry("SELL2", 1, Sell, Limit, 50000, 5)

  // An order and its cancellation are logged and queued in that order, and the
  // select takes the cancellation first: the order rests in the live book but
  // not in the recovered one.
  function RacingCancel(): seq<Step> {
    [Step.Submit("BTC/USDT", 0, 1, SELL1), Open("BTC/USDT"), Enter("BTC/USDT", 0),
     Step.Cancel("BTC/USDT", 1, "SELL1"), Enter("BTC/USDT", 0), TakeCancel("BTC/USDT", 0), TakeCommand("BTC/USDT", 1)]
  }

  // One caller alone logs an order, and its context ends before it is sent: the
  // order never rests, but recovery finds it.
  function GivenUp(): seq<Step> {
    [Step.Submit("BTC/USDT", 0, 1, SELL1), Open("BTC/USDT"), GiveUp("BTC/USDT", 0)]
  }

  // Two orders at one price are logged in one order and sent in the other: the
  // time priority between them is lost.
  function Overtaken(): seq<Step> {
    [Step.Submit("BTC/USDT", 0, 1, SELL1), Step.Submit("BTC/USDT", 1, 2, SELL2), Open("BTC/USDT"),
     Enter("BTC/USDT", 1), Enter("BTC/USDT", 0), TakeCommand("BTC/USDT", 1), TakeCommand("BTC/USDT", 2)]
  }

  ghost predicate Settled(a: Actor, logged: seq<Entry>, book: Book) {
    Idle(a) && a.entering == [] && a.logged == logged && a.book == book
  }

  lemma RacingCancelDiverges(clock: nat -> Stamp)
    ensures WellIssued(RacingCancel())
    ensures
      var a := RunOne(RacingCancel());
      && Settled(a, [SELL1, CancelEntry("SELL1")], Book([], [OrderOf(SELL1, Stamp(1, 1))]))
      && Replay(EMPTY_BOOK, a.logged, clock) == EMPTY_BOOK
  {
    hide RunOne, WellIssued, Execute, Replay;
    RacingRun(RacingCancel());
    OneOrderRests(SELL1, Stamp(1, 1));
    NothingToCancel();
    var cancel := CancelEntry("SELL1");
    OneReplayed(SELL1, clock);
    CancelsLoneOrder(OrderOf(SELL1, clock(0)), clock(1));
    ReplayPush(EMPTY_BOOK, [SELL1], cancel, clock);
    assert [SELL1] + [cancel] == [SELL1, cancel];
  }

  lemma GivenUpIsReplayed(clock: nat -> Stamp)
    ensures WellIssued(GivenUp())
    ensures
      var a := RunOne(GivenUp());
      Settled(a, [SELL1], EMPTY_BOOK) && Replay(EMPTY_BOOK, a.logged, clock) == Book([], [OrderOf(SELL1, clock(0))])
  {
    hide RunOne, WellIssued, Replay;
    GivenUpRun(GivenUp());
    OneReplayed(SELL1, clock);
  }

  lemma OvertakenLosesPriority(clock: nat -> Stamp)
    ensures WellIssued(Overtaken())
    ensures
      var a := RunOne(Overtaken());
      && Settled(a, [SELL1, SELL2], Book([], [OrderOf(SELL2, Stamp(2, 1)), OrderOf(SELL1, Stamp(1, 2))]))
      && Replay(EMPTY_BOOK, a.logged, clock) == Book([], [OrderOf(SELL1, clock(0)), OrderOf(SELL2, clock(1))])
  {
    hide RunOne, WellIssued, Execute, Replay;
    OvertakenRun(Overtaken());
    OneOrderRests(SELL2, Stamp(2, 1));
    TwoOrdersRest(SELL2, SELL1, Stamp(2, 1), Stamp(1, 2));
    OneReplayed(SELL1, clock);
    TwoOrdersRest(SELL1, SELL2, clock(0), clock(1));
    ReplayPush(EMPTY_BOOK, [SELL1], SELL2, clock);
    assert [SELL1] + [SELL2] == [SELL1, SELL2];
  }

  lemma Next(steps: seq<Step>, n: nat)
    requires n < |steps|
    ensures RunOne(steps[..n + 1]) == StepActor(RunOne(steps[..n]), steps[n])
    ensures RunOne(steps[..0]) == UNUSED && RunOne(steps[..|steps|]) == RunOne(steps)
  {
    hide StepActor;
    assert steps[..n + 1] == steps[..n] + [steps[n]] && steps[..|steps|] == steps;
    RunOnePush(steps[..n], steps[n]);
  }

  // An order logged and queued.
  lemma FirstQueued(steps: seq<Step>)
    requires |steps| >= 3 && steps[..3] == RacingCancel()[..3]
    ensures
      var a := RunOne(steps[..3]);
      && a.open && a.entering == [] && a.cmds == [Job(0, 1, SELL1)] && a.cancels == [] && a.logged == [SELL1]
      && a.book == EMPTY_BOOK && a.channels == map[0 := []]
  {
    hide RunOne, Execute;
    assert steps[0] == steps[..3][0] && steps[1] == steps[..3][1] && steps[2] == steps[..3][2];
    Next(steps, 0);
    Next(steps, 1);
    Next(steps, 2);
  }

  lemma RacingRun(steps: seq<Step>)
    requires steps == RacingCancel()
    ensures WellIssued(steps)
    ensures
      Settled(RunOne(steps), [SELL1, CancelEntry("SELL1")],
              Execute(Execute(EMPTY_BOOK, CancelEntry("SELL1"), Stamp(0, 0)), SELL1, Stamp(1, 1)))
  {
    hide RunOne, Execute, AnswerTo;
    FirstQueued(steps);
    Next(steps, 3);
    Next(steps, 4);
    Next(steps, 5);
    Next(steps, 6);
  }

  lemma GivenUpRun(steps: seq<Step>)
    requires steps == GivenUp()
    ensures WellIssued(steps) && Settled(RunOne(steps), [SELL1], EMPTY_BOOK)
  {
    hide RunOne;
    Next(steps, 0);
    Next(steps, 1);
    Next(steps, 2);
  }

  lemma OvertakenRun(steps: seq<Step>)
    requires steps == Overtaken()
    ensures WellIssued(steps)
    ensures Settled(RunOne(steps), [SELL1, SELL2], Execute(Execute(EMPTY_BOOK, SELL2, Stamp(2, 1)), SELL1, Stamp(1, 2)))
  {
    hide RunOne, Execute, AnswerTo;
    Next(steps, 0);
    Next(steps, 1);
    Next(steps, 2);
    Next(steps, 3);
    Next(steps, 4);
    Next(steps, 5);
    Next(steps, 6);
  }

  lemma OneReplayed(e: Entry, clock: nat -> Stamp)
    requires e.CommandEntry? && e.orderType == Limit && e.side == Sell && e.price != 0 && e.quantity > 0
    ensures Replay(EMPTY_BOOK, [e], clock) == Book([], [OrderOf(e, clock(0))]) && |Commands([e])| == 1
  {
    hide Execute;
    OneOrderRests(e, clock(0));
    ReplayPush(EMPTY_BOOK, [], e, clock);
    assert [] + [e] == [e];
  }

  lemma CancelsLoneOrder(o: Order, s: Stamp)
    ensures Execute(Book([], [o]), CancelEntry(o.orderId), s) == EMPTY_BOOK
  {
  }

  lemma NothingToCancel()
    ensures Execute(EMPTY_BOOK, CancelEntry("SELL1"), Stamp(0, 0)) == EMPTY_BOOK
  {
  }

  lemma OneOrderRests(e: Entry, s: Stamp)
    requires e.CommandEntry? && e.orderType == Limit && e.side == Sell && e.price != 0 && e.quantity > 0
    ensures Execute(EMPTY_BOOK, e, s) == Book([], [OrderOf(e, s)])
  {
    Priority.RestsUnmatched(EMPTY_BOOK, OrderOf(e, s));
    assert Rest([], OrderOf(e, s)) == [OrderOf(e, s)];
  }

  // The one that comes later rests behind.
  lemma TwoOrdersRest(d: Entry, e: Entry, s: Stamp, t: Stamp)
    requires d.CommandEntry? && d.orderType == Limit && d.side == Sell && d.price != 0 && d.quantity > 0
    requires e.CommandEntry? && e.orderType == Limit && e.side == Sell && e.price == d.price && e.quantity > 0
    ensures Execute(Book([], [OrderOf(d, s)]), e, t) == Book([], [OrderOf(d, s), OrderOf(e, t)])
  {
    hide Matching.Submit;
    var x, y := OrderOf(d, s), OrderOf(e, t);
    Priority.RestsUnmatched(Book([], [x]), y);
    assert Rest([x], y) == [x, y];
  }
}
