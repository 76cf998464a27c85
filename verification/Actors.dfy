// The actors of the matching engine, one per symbol. A caller logs its command
// and then waits to send it into one of two queues, or gives up; a select takes
// from either queue; and every command has a reply channel
// (internal/matching/engine/actor.go:39-120, internal/matching/engine/engine.go:375-596).
module Actors {
  import opened Matching
  import opened Recovery
  import opened Terms

  // An issued command, the reply channel made for it, and the ID the engine's
  // counter gave it; a cancellation has none.
  datatype Job = Job(channel: nat, id: int, entry: Entry)

  datatype Answer = Matched(taker: Order, trades: seq<Trade>, ok: bool) | Found(found: bool)

  // A command that was executed, when, and what was answered.
  datatype Done = Done(job: Job, stamp: Stamp, answer: Answer)

  // `entering` are the commands logged whose callers still try to send them.
  // `logged` and `done` are histories: what reached the log, and what ran.
  datatype Actor = Actor(
    open: bool, entering: seq<Job>, cmds: seq<Job>, cancels: seq<Job>, book: Book,
    channels: map<nat, seq<Answer>>, dropped: nat,
    logged: seq<Entry>, done: seq<Done>)

  const QUEUE: nat := 1000   // the capacity of either queue

  // A symbol nobody has used: no actor runs yet.
  const UNUSED: Actor := Actor(false, [], [], [], EMPTY_BOOK, map[], 0, [], [])

  datatype Step =
    | Submit(symbol: string, channel: nat, id: int, entry: Entry)   // logged ...
    | Cancel(symbol: string, channel: nat, orderId: string)         // ... unless no actor runs
    | Open(symbol: string)                    // getOrCreateActor, at the start of dispatch
    | Enter(symbol: string, i: nat)           // the i-th caller's send goes through ...
    | GiveUp(symbol: string, i: nat)          // ... or its context or its timeout is first
    | TakeCommand(symbol: string, at: int)    // the select takes from cmdCh ...
    | TakeCancel(symbol: string, at: int)     // ... or from cancelCh
    | Receive(symbol: string, channel: nat)   // a caller still waiting gets its answer
  {
    predicate Issues() { Submit? || Cancel? }
    function Content(): Entry
      requires Issues()
    {
      if Submit? then entry else CancelEntry(orderId)
    }
    function Issued(): Job
      requires Issues()
    {
      Job(channel, if Submit? then id else 0, Content())
    }
  }

  function AnswerTo(b: Book, e: Entry, s: Stamp): Answer {
    match e
    case CommandEntry(_, _, _, _, _, _) =>
      var r := Matching.Submit(b, OrderOf(e, s));
      Matched(r.taker, r.trades, r.ok)
    case CancelEntry(id) => Found(Matching.Cancel(b, id).found)
    case TradeEntry(_) => Found(false)
  }

  // handleCommand and handleCancelCommand: execute, then send without waiting;
  // a full channel (they hold one answer) loses it.
  function Handle(a: Actor, j: Job, at: int): Actor {
    var s := Stamp(j.id, at);
    var answer := AnswerTo(a.book, j.entry, s);
    var full := j.channel in a.channels && a.channels[j.channel] != [];
    a.(book := Execute(a.book, j.entry, s),
       channels := if full then a.channels else a.channels[j.channel := [answer]],
       dropped := a.dropped + if full then 1 else 0,
       done := a.done + [Done(j, s, answer)])
  }

  function RemoveAt(js: seq<Job>, i: nat): (r: seq<Job>)
    requires i < |js|
  {
    js[..i] + js[i + 1..]
  }

  // A send goes through when the queue has room; a submit's needs a running
  // actor, a cancel has seen one.
  predicate CanEnter(a: Actor, i: nat) {
    i < |a.entering| && if a.entering[i].entry.CancelEntry? then |a.cancels| < QUEUE else a.open && |a.cmds| < QUEUE
  }

  function EnterAt(a: Actor, i: nat): Actor
    requires i < |a.entering|
  {
    var j, b := a.entering[i], a.(entering := RemoveAt(a.entering, i));
    if j.entry.CancelEntry? then b.(cancels := a.cancels + [j]) else b.(cmds := a.cmds + [j])
  }

  function StepActor(a: Actor, st: Step): (r: Actor) {
    match st
    case Submit(_, channel, _, _) =>
      a.(logged := a.logged + [st.Content()], channels := a.channels[channel := []], entering := a.entering + [st.Issued()])
    case Cancel(_, channel, _) =>
      if !a.open then a else
      a.(logged := a.logged + [st.Content()], channels := a.channels[channel := []], entering := a.entering + [st.Issued()])
    case Open(_) => a.(open := true)
    case Enter(_, i) => if CanEnter(a, i) then EnterAt(a, i) else a
    case GiveUp(_, i) => if i < |a.entering| then a.(entering := RemoveAt(a.entering, i)) else a
    case TakeCommand(_, at) =>
      if a.cmds == [] then a else Handle(a.(cmds := a.cmds[1..]), a.cmds[0], at)
    case TakeCancel(_, at) =>
      if a.cancels == [] then a else Handle(a.(cancels := a.cancels[1..]), a.cancels[0], at)
    case Receive(_, channel) =>
      if channel !in a.channels then a else a.(channels := a.channels[channel := []])
  }

  function RunOne(steps: seq<Step>): Actor {
    if steps == [] then UNUSED else StepActor(RunOne(steps[..|steps| - 1]), steps[|steps| - 1])
  }

  lemma RunOnePush(steps: seq<Step>, st: Step)
    ensures RunOne(steps + [st]) == StepActor(RunOne(steps), st)
  {
    assert (steps + [st])[..|steps|] == steps;
  }

  // ---- What one actor guarantees ----

  function Entries(js: seq<Job>): (r: seq<Entry>)
    ensures |r| == |js| && forall k :: 0 <= k < |js| ==> r[k] == js[k].entry
  {
    seq(|js|, k requires 0 <= k < |js| => js[k].entry)
  }

  function Jobs(ds: seq<Done>): (r: seq<Job>)
    ensures |r| == |ds| && forall k :: 0 <= k < |ds| ==> r[k] == ds[k].job
  {
    seq(|ds|, k requires 0 <= k < |ds| => ds[k].job)
  }

  // The submits among some jobs, or the cancels.
  function Kind(js: seq<Job>, cancel: bool): seq<Job> {
    if js == [] then []
    else Kind(js[..|js| - 1], cancel) + if js[|js| - 1].entry.CancelEntry? == cancel then [js[|js| - 1]] else []
  }

  // What entered the command queue, or the cancel queue, in order.
  function Entered(steps: seq<Step>, cancel: bool): seq<Job> {
    if steps == [] then []
    else Entered(steps[..|steps| - 1], cancel) + EnteredBy(RunOne(steps[..|steps| - 1]), steps[|steps| - 1], cancel)
  }

  function EnteredBy(a: Actor, st: Step, cancel: bool): seq<Job> {
    if st.Enter? && CanEnter(a, st.i) && a.entering[st.i].entry.CancelEntry? == cancel then [a.entering[st.i]] else []
  }

  // Submits carry commands, and every command gets a new reply channel.
  ghost predicate WellIssued(steps: seq<Step>) {
    && (forall k :: 0 <= k < |steps| && steps[k].Submit? ==> steps[k].entry.CommandEntry?)
    && (forall j, k :: 0 <= j < k < |steps| && steps[j].Issues() && steps[k].Issues() ==> steps[j].channel != steps[k].channel)
  }

  // The book after some commands, one after the other.
  function AfterAll(ds: seq<Done>): Book {
    if ds == [] then EMPTY_BOOK
    else Execute(AfterAll(ds[..|ds| - 1]), ds[|ds| - 1].job.entry, ds[|ds| - 1].stamp)
  }

  ghost predicate IssuedOn(steps: seq<Step>, channel: nat) {
    exists k :: 0 <= k < |steps| && steps[k].Issues() && steps[k].channel == channel
  }

  ghost predicate Received(steps: seq<Step>, channel: nat) {
    exists k :: 0 <= k < |steps| && steps[k].Receive? && steps[k].channel == channel
  }

  // Each command was executed on the book the earlier ones left, and answered
  // from it.
  ghost predicate InOrder(a: Actor) {
    && a.book == AfterAll(a.done)
    && forall k :: 0 <= k < |a.done| ==>
         a.done[k].answer == AnswerTo(AfterAll(a.done[..k]), a.done[k].job.entry, a.done[k].stamp)
  }

  // Each queue holds, in order, what entered it and is not yet executed.
  ghost predicate Queued(a: Actor, steps: seq<Step>) {
    && Kind(Jobs(a.done), false) + a.cmds == Entered(steps, false)
    && Kind(Jobs(a.done), true) + a.cancels == Entered(steps, true)
  }

  ghost predicate HoldsKinds(a: Actor) {
    && (forall k :: 0 <= k < |a.entering| ==> !a.entering[k].entry.TradeEntry?)
    && (forall k :: 0 <= k < |a.cmds| ==> a.cmds[k].entry.CommandEntry?)
    && (forall k :: 0 <= k < |a.cancels| ==> a.cancels[k].entry.CancelEntry?)
    && (forall k :: 0 <= k < |a.done| ==> !a.done[k].job.entry.TradeEntry?)
  }

  // Every pending command has a channel of its own, and nothing in it.
  ghost predicate Awaited(a: Actor) {
    && Waiting(a.entering, a.channels) && Waiting(a.cmds, a.channels) && Waiting(a.cancels, a.channels)
    && Apart(a.entering, a.cmds) && Apart(a.entering, a.cancels) && Apart(a.cmds, a.cancels)
  }

  ghost predicate Waiting(js: seq<Job>, channels: map<nat, seq<Answer>>) {
    && (forall k :: 0 <= k < |js| ==> js[k].channel in channels && channels[js[k].channel] == [])
    && (forall j, k :: 0 <= j < k < |js| ==> js[j].channel != js[k].channel)
  }

  ghost predicate Apart(js: seq<Job>, ks: seq<Job>) {
    forall j, k :: 0 <= j < |js| && 0 <= k < |ks| ==> js[j].channel != ks[k].channel
  }

  // Every executed command's answer waits in its channel until it is received;
  // none was lost.
  ghost predicate Delivered(a: Actor, steps: seq<Step>) {
    && a.dropped == 0
    && (forall k :: 0 <= k < |a.done| ==>
          var c := a.done[k].job.channel;
          c in a.channels && (a.channels[c] == [a.done[k].answer] || Received(steps, c)))
    && (forall c :: c in a.channels ==> IssuedOn(steps, c))
  }

  ghost predicate Sound(a: Actor, steps: seq<Step>) {
    InOrder(a) && Queued(a, steps) && HoldsKinds(a) && Awaited(a) && Delivered(a, steps)
  }

  lemma Grows(pre: seq<Step>, st: Step)
    ensures forall c :: IssuedOn(pre, c) ==> IssuedOn(pre + [st], c)
    ensures forall c :: Received(pre, c) ==> Received(pre + [st], c)
    ensures st.Issues() ==> IssuedOn(pre + [st], st.channel)
    ensures st.Receive? ==> Received(pre + [st], st.channel)
    ensures forall c :: Entered(pre + [st], c) == Entered(pre, c) + EnteredBy(RunOne(pre), st, c)
  {
    hide EnteredBy, RunOne;
    var steps := pre + [st];
    assert steps[..|pre|] == pre && steps[|pre|] == st;
    forall c | IssuedOn(pre, c) ensures IssuedOn(steps, c) {
      var k :| 0 <= k < |pre| && pre[k].Issues() && pre[k].channel == c;
      assert steps[k] == pre[k];
    }
    forall c | Received(pre, c) ensures Received(steps, c) {
      var k :| 0 <= k < |pre| && pre[k].Receive? && pre[k].channel == c;
      assert steps[k] == pre[k];
    }
  }

  // Whatever step leaves the book, the queues and the executed commands alone.
  lemma SameOrder(a: Actor, a': Actor, pre: seq<Step>, st: Step)
    requires InOrder(a) && Queued(a, pre) && !(st.Enter? && CanEnter(RunOne(pre), st.i))
    requires a'.book == a.book && a'.done == a.done && a'.cmds == a.cmds && a'.cancels == a.cancels
    ensures InOrder(a') && Queued(a', pre + [st])
  {
    hide Entered, Kind, RunOne, Execute, AnswerTo;
    Grows(pre, st);
    assert Entered(pre, false) + [] == Entered(pre, false) && Entered(pre, true) + [] == Entered(pre, true);
  }

  lemma StillDelivered(a: Actor, a': Actor, pre: seq<Step>, st: Step)
    requires Delivered(a, pre) && a'.done == a.done && a'.dropped == a.dropped && a'.channels == a.channels
    ensures Delivered(a', pre + [st])
  {
    hide Entered, EnteredBy;
    Grows(pre, st);
  }

  // A new command has a new channel.
  lemma IssueKeeps(a: Actor, pre: seq<Step>, st: Step)
    requires Sound(a, pre) && a == RunOne(pre) && WellIssued(pre + [st]) && st.Issues()
    requires st.Submit? || a.open
    ensures Sound(StepActor(a, st), pre + [st])
  {
    hide InOrder, Awaited, Delivered, Queued, WellIssued;
    var a', j := StepActor(a, st), st.Issued();
    NewChannel(a, pre, st);
    SameOrder(a, a', pre, st);
    IssueAwaited(a, a', j);
    IssueDelivered(a, a', pre, st);
    IssueKinds(pre, st);
  }

  lemma IssueKinds(pre: seq<Step>, st: Step)
    requires WellIssued(pre + [st]) && st.Issues()
    ensures !st.Content().TradeEntry?
  {
    assert (pre + [st])[|pre|] == st;
  }

  lemma NewChannel(a: Actor, pre: seq<Step>, st: Step)
    requires WellIssued(pre + [st]) && st.Issues() && Delivered(a, pre)
    ensures st.channel !in a.channels
  {
    hide AnswerTo;
    var steps := pre + [st];
    forall k | 0 <= k < |pre| && pre[k].Issues() ensures pre[k].channel != st.channel {
      assert steps[k] == pre[k] && steps[|pre|] == st;
    }
  }

  lemma IssueAwaited(a: Actor, a': Actor, j: Job)
    requires Awaited(a) && j.channel !in a.channels && a'.channels == a.channels[j.channel := []]
    requires a'.cmds == a.cmds && a'.cancels == a.cancels && a'.entering == a.entering + [j]
    ensures Awaited(a')
  {
  }

  lemma IssueDelivered(a: Actor, a': Actor, pre: seq<Step>, st: Step)
    requires st.Issues() && Delivered(a, pre) && st.channel !in a.channels && a'.channels == a.channels[st.channel := []]
    requires a'.done == a.done && a'.dropped == a.dropped
    ensures Delivered(a', pre + [st])
  {
    hide Entered, EnteredBy;
    Grows(pre, st);
  }

  // A command leaves the callers for the end of its queue, or for good.
  lemma EnterKeeps(a: Actor, pre: seq<Step>, st: Step)
    requires Sound(a, pre) && a == RunOne(pre) && st.Enter? && CanEnter(a, st.i)
    ensures Sound(StepActor(a, st), pre + [st])
  {
    hide InOrder, Awaited, Delivered, Queued, RunOne;
    var a' := StepActor(a, st);
    EnterAwaited(a, a', st.i);
    StillDelivered(a, a', pre, st);
    EnterQueued(a, a', pre, st);
  }

  lemma EnterQueued(a: Actor, a': Actor, pre: seq<Step>, st: Step)
    requires InOrder(a) && Queued(a, pre) && a == RunOne(pre) && st.Enter? && CanEnter(a, st.i) && a' == EnterAt(a, st.i)
    ensures InOrder(a') && Queued(a', pre + [st])
  {
    hide Kind, Entered, RunOne, Execute, AnswerTo;
    Grows(pre, st);
    var j, ds := a.entering[st.i], Jobs(a.done);
    if j.entry.CancelEntry? {
      assert Kind(ds, true) + (a.cancels + [j]) == (Kind(ds, true) + a.cancels) + [j];
      assert Entered(pre, false) + [] == Entered(pre, false);
    } else {
      assert Kind(ds, false) + (a.cmds + [j]) == (Kind(ds, false) + a.cmds) + [j];
      assert Entered(pre, true) + [] == Entered(pre, true);
    }
  }

  lemma EnterAwaited(a: Actor, a': Actor, i: nat)
    requires Awaited(a) && i < |a.entering| && a'.channels == a.channels && a'.entering == RemoveAt(a.entering, i)
    requires
      || (a'.cmds == a.cmds && a'.cancels == a.cancels)
      || (a'.cmds == a.cmds + [a.entering[i]] && a'.cancels == a.cancels)
      || (a'.cancels == a.cancels + [a.entering[i]] && a'.cmds == a.cmds)
    ensures Awaited(a')
  {
    hide RemoveAt;
    Removed(a.entering, i);
  }

  lemma Removed(js: seq<Job>, i: nat)
    requires i < |js|
    ensures |RemoveAt(js, i)| == |js| - 1
    ensures forall k :: 0 <= k < |js| - 1 ==> RemoveAt(js, i)[k] == js[if k < i then k else k + 1]
  {
  }

  lemma GiveUpKeeps(a: Actor, pre: seq<Step>, st: Step)
    requires Sound(a, pre) && a == RunOne(pre) && st.GiveUp? && st.i < |a.entering|
    ensures Sound(StepActor(a, st), pre + [st])
  {
    hide InOrder, Awaited, Delivered, Queued, RunOne;
    var a' := StepActor(a, st);
    SameOrder(a, a', pre, st);
    EnterAwaited(a, a', st.i);
    StillDelivered(a, a', pre, st);
  }

  // The head of a queue is executed, and its answer fits its channel.
  lemma HandleKeeps(a: Actor, pre: seq<Step>, st: Step)
    requires Sound(a, pre) && a == RunOne(pre)
    requires (st.TakeCommand? && a.cmds != []) || (st.TakeCancel? && a.cancels != [])
    ensures Sound(StepActor(a, st), pre + [st])
  {
    hide InOrder, Awaited, Delivered, Queued, Execute, AnswerTo, RunOne;
    var a' := StepActor(a, st);
    var j := if st.TakeCommand? then a.cmds[0] else a.cancels[0];
    var d := Done(j, Stamp(j.id, st.at), AnswerTo(a.book, j.entry, Stamp(j.id, st.at)));
    HeadAwaits(a, j);
    HandleInOrder(a, a', d);
    HandleAwaited(a, a', d);
    HandleDelivered(a, a', pre, st, d);
    HandleQueued(a, a', pre, st, d);
  }

  lemma HeadAwaits(a: Actor, j: Job)
    requires Awaited(a) && ((a.cmds != [] && j == a.cmds[0]) || (a.cancels != [] && j == a.cancels[0]))
    ensures j.channel in a.channels && a.channels[j.channel] == []
  {
  }

  lemma HandleAwaited(a: Actor, a': Actor, d: Done)
    requires Awaited(a) && a'.channels == a.channels[d.job.channel := [d.answer]] && a'.entering == a.entering
    requires
      || (a.cmds != [] && d.job == a.cmds[0] && a'.cmds == a.cmds[1..] && a'.cancels == a.cancels)
      || (a.cancels != [] && d.job == a.cancels[0] && a'.cancels == a.cancels[1..] && a'.cmds == a.cmds)
    ensures Awaited(a')
  {
  }

  lemma HandleDelivered(a: Actor, a': Actor, pre: seq<Step>, st: Step, d: Done)
    requires Delivered(a, pre) && d.job.channel in a.channels && a.channels[d.job.channel] == []
    requires a'.channels == a.channels[d.job.channel := [d.answer]] && a'.done == a.done + [d] && a'.dropped == a.dropped
    ensures Delivered(a', pre + [st])
  {
    hide Entered, EnteredBy;
    Grows(pre, st);
  }

  lemma HandleQueued(a: Actor, a': Actor, pre: seq<Step>, st: Step, d: Done)
    requires !st.Enter? && Queued(a, pre) && a'.done == a.done + [d]
    requires d.job.entry.CancelEntry? == (a'.cmds == a.cmds && a'.cancels != a.cancels)
    requires
      || (a.cmds != [] && d.job == a.cmds[0] && a'.cmds == a.cmds[1..] && a'.cancels == a.cancels)
      || (a.cancels != [] && d.job == a.cancels[0] && a'.cancels == a.cancels[1..] && a'.cmds == a.cmds)
    ensures Queued(a', pre + [st])
  {
    hide Kind, Entered, RunOne;
    Grows(pre, st);
    var j, ds := d.job, Jobs(a.done);
    assert Jobs(a'.done) == ds + [j];
    KindPush(ds, j, false);
    KindPush(ds, j, true);
    assert Entered(pre, false) + [] == Entered(pre, false) && Entered(pre, true) + [] == Entered(pre, true);
    if a'.cancels == a.cancels {
      assert (Kind(ds, false) + [j]) + a'.cmds == Kind(ds, false) + a.cmds;
    } else {
      assert (Kind(ds, true) + [j]) + a'.cancels == Kind(ds, true) + a.cancels;
    }
  }

  lemma HandleInOrder(a: Actor, a': Actor, d: Done)
    requires InOrder(a) && a'.done == a.done + [d] && d.answer == AnswerTo(a.book, d.job.entry, d.stamp)
    requires a'.book == Execute(a.book, d.job.entry, d.stamp)
    ensures InOrder(a')
  {
    assert a'.done[..|a.done|] == a.done;
    forall k | 0 <= k < |a'.done|
      ensures a'.done[k].answer == AnswerTo(AfterAll(a'.done[..k]), a'.done[k].job.entry, a'.done[k].stamp)
    {
      assert k < |a.done| ==> a'.done[..k] == a.done[..k];
    }
  }

  lemma KindPush(js: seq<Job>, j: Job, cancel: bool)
    ensures Kind(js + [j], cancel) == Kind(js, cancel) + if j.entry.CancelEntry? == cancel then [j] else []
  {
    assert (js + [j])[..|js|] == js;
  }

  // A step that finds nothing to do changes nothing, opening runs the actor, and
  // receiving empties one channel, which no pending command relies on being full.
  lemma IdleKeeps(a: Actor, pre: seq<Step>, st: Step)
    requires Sound(a, pre) && a == RunOne(pre)
    requires StepActor(a, st) == a || st.Open? || st.Receive?
    requires !(st.Enter? && CanEnter(a, st.i))
    ensures Sound(StepActor(a, st), pre + [st])
  {
    hide InOrder, Awaited, Queued, Delivered, RunOne;
    var a' := StepActor(a, st);
    SameOrder(a, a', pre, st);
    if st.Receive? && st.channel in a.channels {
      ReceiveKeeps(a, a', pre, st);
    } else {
      StillDelivered(a, a', pre, st);
      StillAwaited(a, a');
    }
  }

  lemma StillAwaited(a: Actor, a': Actor)
    requires Awaited(a) && a' == a.(open := a'.open)
    ensures Awaited(a')
  {
  }

  lemma ReceiveKeeps(a: Actor, a': Actor, pre: seq<Step>, st: Step)
    requires st.Receive? && Awaited(a) && Delivered(a, pre)
    requires st.channel in a.channels && a' == a.(channels := a.channels[st.channel := []])
    ensures Awaited(a') && Delivered(a', pre + [st])
  {
    hide Entered, EnteredBy;
    Grows(pre, st);
  }

  // ---- What the answers say ----

  // Every order was fresh when it was executed.
  ghost predicate Admissible(ds: seq<Done>) {
    forall k :: 0 <= k < |ds| && ds[k].job.entry.CommandEntry? ==>
      Fresh(AfterAll(ds[..k]), OrderOf(ds[k].job.entry, ds[k].stamp))
  }

  // The answer to a command that found one book and left another: of an order,
  // what the terms of its submission leave; of a cancellation, whether the order
  // was resting, and is now gone.
  ghost predicate Right(b: Book, d: Done, b': Book) {
    match d.job.entry
    case CommandEntry(orderId, userId, side, orderType, price, quantity) =>
      && d.answer.Matched?
      && Settles(b, Order(d.stamp.id, orderId, userId, side, orderType, price, quantity, 0, quantity, 0, Pending, d.stamp.at),
                 Reply(b', d.answer.taker, d.answer.trades, d.answer.ok))
    case CancelEntry(id) =>
      && d.answer == Found(exists x :: (x in b.bids || x in b.asks) && x.orderId == id)
      && b' == Book(Others(b.bids, id), Others(b.asks, id))
    case TradeEntry(_) => b' == b
  }

  ghost predicate AnsweredRight(ds: seq<Done>) {
    forall k :: 0 <= k < |ds| ==> Right(AfterAll(ds[..k]), ds[k], AfterAll(ds[..k + 1]))
  }

  lemma ExecuteIsRight(b: Book, d: Done)
    requires Wf(b) && (d.job.entry.CommandEntry? ==> Fresh(b, OrderOf(d.job.entry, d.stamp)))
    requires d.answer == AnswerTo(b, d.job.entry, d.stamp)
    ensures Right(b, d, Execute(b, d.job.entry, d.stamp))
  {
    hide Wf, Fresh, Settles, Matching.Submit, Matching.Cancel, Others;
    match d.job.entry
    case CommandEntry(_, _, _, _, _, _) => SubmitSettles(b, OrderOf(d.job.entry, d.stamp));
    case CancelEntry(id) => CancelWithdraws(b, id);
    case TradeEntry(_) =>
  }

  lemma AfterOne(ds: seq<Done>, k: nat)
    requires k < |ds|
    ensures AfterAll(ds[..k + 1]) == Execute(AfterAll(ds[..k]), ds[k].job.entry, ds[k].stamp)
  {
    assert ds[..k + 1][..k] == ds[..k];
  }

  lemma EmptyWf()
    ensures Wf(EMPTY_BOOK)
  {
  }

  lemma {:induction false} AfterWf(ds: seq<Done>, k: nat)
    requires Admissible(ds) && k <= |ds|
    ensures Wf(AfterAll(ds[..k]))
  {
    hide Wf, Fresh, Execute;
    if k == 0 {
      EmptyWf();
    } else {
      AfterWf(ds, k - 1);
      AfterOne(ds, k - 1);
      ExecuteWf(AfterAll(ds[..k - 1]), ds[k - 1].job.entry, ds[k - 1].stamp);
    }
  }

  lemma AnswersAreRight(a: Actor)
    requires InOrder(a) && Admissible(a.done)
    ensures AnsweredRight(a.done)
  {
    hide Wf, Fresh, Execute, AnswerTo, Right, AfterAll;
    forall k | 0 <= k < |a.done| ensures Right(AfterAll(a.done[..k]), a.done[k], AfterAll(a.done[..k + 1])) {
      AfterWf(a.done, k);
      AfterOne(a.done, k);
      ExecuteIsRight(AfterAll(a.done[..k]), a.done[k]);
    }
  }

  // Any run of one actor: submits run in the order they entered their queue, and
  // so do cancels; every command is executed and answered as if it ran alone
  // after the earlier ones, and, if the orders are fresh, the answers are right;
  // and no answer is ever dropped.
  lemma {:induction false} ActorIsSound(steps: seq<Step>)
    requires WellIssued(steps)
    ensures Sound(RunOne(steps), steps)
    ensures Admissible(RunOne(steps).done) ==> AnsweredRight(RunOne(steps).done)
  {
    hide Admissible, AnsweredRight;
    if steps == [] {
      UnusedIsSound();
    } else {
      var pre, st := steps[..|steps| - 1], steps[|steps| - 1];
      assert steps == pre + [st];
      WellIssuedPrefix(steps, |pre|);
      ActorIsSound(pre);
      StepKeeps(RunOne(pre), pre, st);
    }
    if Admissible(RunOne(steps).done) { AnswersAreRight(RunOne(steps)); }
  }

  // ---- What is executed was issued ----

  // A step issued this command, under this ID and with this reply channel.
  ghost predicate FromStep(steps: seq<Step>, j: Job) {
    exists k :: 0 <= k < |steps| && MadeBy(steps[k], j)
  }

  ghost predicate MadeBy(st: Step, j: Job) {
    || (st.Submit? && j.channel == st.channel && j.id == st.id && j.entry == st.entry)
    || (st.Cancel? && j.channel == st.channel && j.id == 0 && j.entry == CancelEntry(st.orderId))
  }

  ghost predicate AllFrom(steps: seq<Step>, js: seq<Job>) {
    forall j :: j in js ==> FromStep(steps, j)
  }

  // Whatever waits, is queued or was executed was issued by some step, and an
  // order is stamped with the ID it was issued under.
  lemma {:induction false} ExecutesWhatWasIssued(steps: seq<Step>)
    ensures
      var a := RunOne(steps);
      && AllFrom(steps, a.entering) && AllFrom(steps, a.cmds) && AllFrom(steps, a.cancels) && AllFrom(steps, Jobs(a.done))
      && forall k :: 0 <= k < |a.done| ==> a.done[k].stamp.id == a.done[k].job.id
  {
    hide AllFrom, Execute, AnswerTo, RemoveAt;
    if steps == [] {
      NoneFrom();
    } else {
      var pre, st := steps[..|steps| - 1], steps[|steps| - 1];
      var a := RunOne(pre);
      ExecutesWhatWasIssued(pre);
      StillFrom(steps, a.entering);
      StillFrom(steps, a.cmds);
      StillFrom(steps, a.cancels);
      StillFrom(steps, Jobs(a.done));
      if st.Issues() { IssuedFrom(steps, a.entering); }
      match st
      case Enter(_, i) => if i < |a.entering| { MovedFrom(steps, a, i); }
      case GiveUp(_, i) => if i < |a.entering| { MovedFrom(steps, a, i); }
      case TakeCommand(_, at) => if a.cmds != [] { TakenFrom(steps, a.cmds, a.done, RunOne(steps).done); }
      case TakeCancel(_, at) => if a.cancels != [] { TakenFrom(steps, a.cancels, a.done, RunOne(steps).done); }
      case _ =>
    }
  }

  lemma NoneFrom()
    ensures AllFrom([], []) && Jobs([]) == []
  {
  }

  lemma StillFrom(steps: seq<Step>, js: seq<Job>)
    requires steps != [] && AllFrom(steps[..|steps| - 1], js)
    ensures AllFrom(steps, js)
  {
    hide MadeBy;
    var pre := steps[..|steps| - 1];
    forall j | j in js ensures FromStep(steps, j) {
      var k :| 0 <= k < |pre| && MadeBy(pre[k], j);
      assert MadeBy(steps[k], j);
    }
  }

  lemma IssuedFrom(steps: seq<Step>, js: seq<Job>)
    requires steps != [] && steps[|steps| - 1].Issues() && AllFrom(steps, js)
    ensures AllFrom(steps, js + [steps[|steps| - 1].Issued()])
  {
    assert MadeBy(steps[|steps| - 1], steps[|steps| - 1].Issued());
  }

  lemma MovedFrom(steps: seq<Step>, a: Actor, i: nat)
    requires i < |a.entering| && AllFrom(steps, a.entering) && AllFrom(steps, a.cmds) && AllFrom(steps, a.cancels)
    ensures AllFrom(steps, RemoveAt(a.entering, i))
    ensures AllFrom(steps, a.cmds + [a.entering[i]]) && AllFrom(steps, a.cancels + [a.entering[i]])
  {
    hide FromStep;
  }

  lemma TakenFrom(steps: seq<Step>, js: seq<Job>, ds: seq<Done>, ds': seq<Done>)
    requires js != [] && AllFrom(steps, js) && AllFrom(steps, Jobs(ds))
    requires |ds'| == |ds| + 1 && ds'[..|ds|] == ds && ds'[|ds|].job == js[0]
    ensures AllFrom(steps, js[1..]) && AllFrom(steps, Jobs(ds'))
  {
    hide FromStep;
    assert Jobs(ds') == Jobs(ds) + [js[0]];
  }

  // A queue holds at most 1000 commands, and a caller waits exactly while it is
  // full, or, for a submit, while there is no actor.
  lemma {:induction false} QueuesAreBounded(steps: seq<Step>)
    ensures |RunOne(steps).cmds| <= 1000 && |RunOne(steps).cancels| <= 1000
  {
    hide Execute, AnswerTo;
    if steps != [] { QueuesAreBounded(steps[..|steps| - 1]); }
  }

  lemma SendsUnlessFull(a: Actor, i: nat)
    requires i < |a.entering|
    ensures
      var b, j := StepActor(a, Enter("", i)), a.entering[i];
      if j.entry.CancelEntry? then
        if |a.cancels| < 1000 then b.cancels == a.cancels + [j] && |b.entering| == |a.entering| - 1 else b == a
      else
        if a.open && |a.cmds| < 1000 then b.cmds == a.cmds + [j] && |b.entering| == |a.entering| - 1 else b == a
  {
    Removed(a.entering, i);
  }

  lemma UnusedIsSound()
    ensures Sound(UNUSED, [])
  {
    assert Jobs([]) == [];
  }

  lemma WellIssuedPrefix(steps: seq<Step>, n: nat)
    requires WellIssued(steps) && n <= |steps|
    ensures WellIssued(steps[..n])
  {
  }

  lemma StepKeeps(a: Actor, pre: seq<Step>, st: Step)
    requires Sound(a, pre) && a == RunOne(pre) && WellIssued(pre + [st])
    ensures Sound(StepActor(a, st), pre + [st])
  {
    hide Sound, RunOne, WellIssued, Handle;
    if st.Submit? || (st.Cancel? && a.open) {
      IssueKeeps(a, pre, st);
    } else if st.Enter? && CanEnter(a, st.i) {
      EnterKeeps(a, pre, st);
    } else if st.GiveUp? && st.i < |a.entering| {
      GiveUpKeeps(a, pre, st);
    } else if (st.TakeCommand? && a.cmds != []) || (st.TakeCancel? && a.cancels != []) {
      HandleKeeps(a, pre, st);
    } else {
      IdleKeeps(a, pre, st);
    }
  }
}
