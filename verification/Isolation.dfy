// All symbols together: their actors share the engine's ID counter, which a
// submit increments before it is logged (internal/matching/engine/engine.go:452),
// and nothing else.
module Isolation {
  import opened Matching
  import opened Recovery
  import opened Actors

  datatype System = System(counter: int, actors: map<string, Actor>)
  {
    function Lookup(symbol: string): Actor {
      if symbol in actors then actors[symbol] else UNUSED
    }

    // A submit gets the next ID, whatever it came with.
    function Stamped(st: Step): Step {
      if st.Submit? then st.(id := counter + 1) else st
    }

    function Step(st: Step): System {
      System(if st.Submit? then counter + 1 else counter,
             actors[st.symbol := StepActor(Lookup(st.symbol), Stamped(st))])
    }
  }

  function RunAll(steps: seq<Step>): System {
    if steps == [] then System(0, map[]) else RunAll(steps[..|steps| - 1]).Step(steps[|steps| - 1])
  }

  function StepsOf(steps: seq<Step>, symbol: string): seq<Step> {
    if steps == [] then []
    else
      StepsOf(steps[..|steps| - 1], symbol)
      + if steps[|steps| - 1].symbol == symbol then [steps[|steps| - 1]] else []
  }

  // The steps with the IDs they got.
  function AllStamped(steps: seq<Step>): seq<Step> {
    if steps == [] then []
    else AllStamped(steps[..|steps| - 1]) + [RunAll(steps[..|steps| - 1]).Stamped(steps[|steps| - 1])]
  }

  // One symbol's part of the system is one actor's run.
  lemma {:induction false} OneOfAll(steps: seq<Step>, symbol: string)
    ensures RunAll(steps).Lookup(symbol) == RunOne(StepsOf(AllStamped(steps), symbol))
  {
    hide System.Step, System.Lookup, System.Stamped, RunOne;
    if steps == [] {
      NothingYet(x => x, symbol);
    } else {
      var pre, st := steps[..|steps| - 1], steps[|steps| - 1];
      OneOfAll(pre, symbol);
      var done, last := AllStamped(pre), RunAll(pre).Stamped(st);
      assert AllStamped(steps)[..|done|] == done;
      StepOfOne(RunAll(pre), st, symbol);
      if st.symbol == symbol {
        assert StepsOf(AllStamped(steps), symbol) == StepsOf(done, symbol) + [last];
        RunOnePush(StepsOf(done, symbol), last);
      } else {
        assert StepsOf(AllStamped(steps), symbol) == StepsOf(done, symbol);
      }
    }
  }

  lemma StepOfOne(all: System, st: Step, symbol: string)
    ensures all.Stamped(st).symbol == st.symbol
    ensures all.Step(st).Lookup(symbol) ==
      if st.symbol == symbol then StepActor(all.Lookup(symbol), all.Stamped(st)) else all.Lookup(symbol)
  {
    hide StepActor;
  }

  // So whatever holds of one actor holds of each of them.
  lemma EveryActorIsSound(steps: seq<Step>, symbol: string)
    requires WellIssued(StepsOf(AllStamped(steps), symbol))
    ensures Sound(RunAll(steps).Lookup(symbol), StepsOf(AllStamped(steps), symbol))
    ensures Admissible(RunAll(steps).Lookup(symbol).done) ==> AnsweredRight(RunAll(steps).Lookup(symbol).done)
  {
    OneOfAll(steps, symbol);
    ActorIsSound(StepsOf(AllStamped(steps), symbol));
  }

  // ---- Renaming IDs ----

  function Renames(f: int -> int): Renaming {
    Renaming(f, x => x)
  }

  function RenameJobs(f: int -> int, js: seq<Job>): (r: seq<Job>)
    ensures |r| == |js| && forall k :: 0 <= k < |js| ==> r[k] == js[k].(id := f(js[k].id))
  {
    seq(|js|, k requires 0 <= k < |js| => js[k].(id := f(js[k].id)))
  }

  function RenameAnswer(f: int -> int, a: Answer): Answer {
    match a
    case Matched(taker, trades, ok) => Matched(RenameOrder(Renames(f), taker), trades, ok)
    case Found(found) => a
  }

  function RenameAnswers(f: int -> int, s: seq<Answer>): (r: seq<Answer>)
    ensures |r| == |s| && forall k :: 0 <= k < |s| ==> r[k] == RenameAnswer(f, s[k])
  {
    seq(|s|, k requires 0 <= k < |s| => RenameAnswer(f, s[k]))
  }

  function RenameDone(f: int -> int, d: Done): Done {
    Done(d.job.(id := f(d.job.id)), Stamp(f(d.stamp.id), d.stamp.at), RenameAnswer(f, d.answer))
  }

  function RenameAllDone(f: int -> int, ds: seq<Done>): (r: seq<Done>)
    ensures |r| == |ds| && forall k :: 0 <= k < |ds| ==> r[k] == RenameDone(f, ds[k])
  {
    seq(|ds|, k requires 0 <= k < |ds| => RenameDone(f, ds[k]))
  }

  function RenameChannels(f: int -> int, m: map<nat, seq<Answer>>): map<nat, seq<Answer>> {
    map c | c in m :: RenameAnswers(f, m[c])
  }

  function RenameActor(f: int -> int, a: Actor): Actor {
    Actor(a.open, RenameJobs(f, a.entering), RenameJobs(f, a.cmds), RenameJobs(f, a.cancels),
          RenameBook(Renames(f), a.book), RenameChannels(f, a.channels), a.dropped, a.logged, RenameAllDone(f, a.done))
  }

  lemma ExecuteRenamed(f: int -> int, b: Book, e: Entry, s: Stamp)
    ensures
      var c, u := RenameBook(Renames(f), b), Stamp(f(s.id), s.at);
      && Execute(c, e, u) == RenameBook(Renames(f), Execute(b, e, s))
      && AnswerTo(c, e, u) == RenameAnswer(f, AnswerTo(b, e, s))
  {
    match e
    case CommandEntry(_, _, _, _, _, _) => SubmitNatural(Renames(f), b, OrderOf(e, s));
    case CancelEntry(id) => CancelNatural(Renames(f), b, id);
    case TradeEntry(_) =>
  }

  lemma HandleRenamed(f: int -> int, a: Actor, j: Job, at: int)
    ensures Handle(RenameActor(f, a), j.(id := f(j.id)), at) == RenameActor(f, Handle(a, j, at))
  {
    hide Execute, AnswerTo, RenameBook;
    ExecuteRenamed(f, a.book, j.entry, Stamp(j.id, at));
    var d := Done(j, Stamp(j.id, at), AnswerTo(a.book, j.entry, Stamp(j.id, at)));
    assert RenameAllDone(f, a.done + [d]) == RenameAllDone(f, a.done) + [RenameDone(f, d)];
    AnswerRenamed(f, a.channels, j.channel, d.answer);
    SameChannels(f, a.channels, j.channel);
  }

  lemma AnswerRenamed(f: int -> int, m: map<nat, seq<Answer>>, c: nat, answer: Answer)
    ensures RenameChannels(f, m[c := [answer]]) == RenameChannels(f, m)[c := [RenameAnswer(f, answer)]]
  {
    assert RenameAnswers(f, [answer]) == [RenameAnswer(f, answer)];
  }

  lemma PushRenamed(f: int -> int, js: seq<Job>, j: Job)
    ensures RenameJobs(f, js + [j]) == RenameJobs(f, js) + [j.(id := f(j.id))]
  {
  }

  lemma RemoveRenamed(f: int -> int, js: seq<Job>, i: nat)
    requires i < |js|
    ensures RenameJobs(f, RemoveAt(js, i)) == RemoveAt(RenameJobs(f, js), i)
  {
  }

  lemma EmptyRenamed(f: int -> int, m: map<nat, seq<Answer>>, c: nat)
    ensures RenameChannels(f, m[c := []]) == RenameChannels(f, m)[c := []]
  {
  }

  lemma EnterRenamed(f: int -> int, a: Actor, i: nat)
    ensures CanEnter(RenameActor(f, a), i) <==> CanEnter(a, i)
    ensures i < |a.entering| ==> EnterAt(RenameActor(f, a), i) == RenameActor(f, EnterAt(a, i))
  {
    hide RenameBook, RenameChannels, RemoveAt;
    if i < |a.entering| {
      RemoveRenamed(f, a.entering, i);
      PushRenamed(f, a.cmds, a.entering[i]);
      PushRenamed(f, a.cancels, a.entering[i]);
    }
  }

  // One step of an actor commutes with renaming IDs.
  lemma StepRenamed(f: int -> int, a: Actor, st: Step)
    requires f(0) == 0
    ensures
      var u := if st.Submit? then st.(id := f(st.id)) else st;
      StepActor(RenameActor(f, a), u) == RenameActor(f, StepActor(a, st))
  {
    hide Handle, RenameChannels, RemoveAt, RenameBook, EnterAt, CanEnter;
    match st
    case Submit(_, channel, _, _) =>
      EmptyRenamed(f, a.channels, channel);
      PushRenamed(f, a.entering, st.Issued());
    case Cancel(_, channel, _) =>
      EmptyRenamed(f, a.channels, channel);
      PushRenamed(f, a.entering, st.Issued());
    case Open(_) =>
    case Enter(_, i) =>
      EnterRenamed(f, a, i);
      assert CanEnter(a, i) ==> i < |a.entering| by { MayEnter(a, i); }
    case GiveUp(_, i) => if i < |a.entering| { RemoveRenamed(f, a.entering, i); }
    case TakeCommand(_, at) =>
      if a.cmds != [] {
        HandleRenamed(f, a.(cmds := a.cmds[1..]), a.cmds[0], at);
        assert RenameJobs(f, a.cmds)[1..] == RenameJobs(f, a.cmds[1..]);
      }
    case TakeCancel(_, at) =>
      if a.cancels != [] {
        HandleRenamed(f, a.(cancels := a.cancels[1..]), a.cancels[0], at);
        assert RenameJobs(f, a.cancels)[1..] == RenameJobs(f, a.cancels[1..]);
      }
    case Receive(_, channel) =>
      EmptyRenamed(f, a.channels, channel);
      SameChannels(f, a.channels, channel);
  }

  lemma MayEnter(a: Actor, i: nat)
    ensures CanEnter(a, i) ==> i < |a.entering|
  {
  }

  lemma SameChannels(f: int -> int, m: map<nat, seq<Answer>>, c: nat)
    ensures c in RenameChannels(f, m) <==> c in m
    ensures c in m ==> (RenameChannels(f, m)[c] == [] <==> m[c] == [])
  {
  }

  // ---- Isolation ----

  // The IDs one symbol's submits get.
  function Ids(steps: seq<Step>, symbol: string): seq<int> {
    if steps == [] then []
    else
      var pre, st := steps[..|steps| - 1], steps[|steps| - 1];
      Ids(pre, symbol) + if st.Submit? && st.symbol == symbol then [RunAll(pre).counter + 1] else []
  }

  lemma {:induction false} IdsIncrease(steps: seq<Step>, symbol: string)
    ensures RunAll(steps).counter >= 0
    ensures forall k :: 0 <= k < |Ids(steps, symbol)| ==> 1 <= Ids(steps, symbol)[k] <= RunAll(steps).counter
    ensures forall j, k :: 0 <= j < k < |Ids(steps, symbol)| ==> Ids(steps, symbol)[j] < Ids(steps, symbol)[k]
  {
    hide StepActor;
    if steps != [] { IdsIncrease(steps[..|steps| - 1], symbol); }
  }

  // The k-th submit of a symbol run alone gets ID k; among the others it gets
  // ids[k - 1].
  function Among(ids: seq<int>): int -> int {
    x => if x <= 0 then x
         else if x <= |ids| then ids[x - 1]
         else x + if ids == [] then 0 else ids[|ids| - 1]
  }

  lemma AmongIsMonotone(ids: seq<int>)
    requires forall k :: 0 <= k < |ids| ==> ids[k] >= 1
    requires forall j, k :: 0 <= j < k < |ids| ==> ids[j] < ids[k]
    ensures Monotone(Among(ids)) && Among(ids)(0) == 0
  {
    var f := Among(ids);
    forall x, y | x < y ensures f(x) < f(y) {
      if 0 < x <= |ids| < y { assert ids[x - 1] <= ids[|ids| - 1]; }
    }
  }

  lemma {:induction false} IsolatedUpTo(steps: seq<Step>, symbol: string, f: int -> int)
    requires f(0) == 0 && forall k :: 0 <= k < |Ids(steps, symbol)| ==> f(k + 1) == Ids(steps, symbol)[k]
    ensures RunAll(StepsOf(steps, symbol)).counter == |Ids(steps, symbol)|
    ensures RunAll(steps).Lookup(symbol) == RenameActor(f, RunAll(StepsOf(steps, symbol)).Lookup(symbol))
  {
    hide System.Step, System.Lookup, System.Stamped, RenameActor, RunOne, RunAll, Ids, StepsOf;
    if steps == [] {
      NothingYet(f, symbol);
    } else {
      var pre, st := steps[..|steps| - 1], steps[|steps| - 1];
      var own := StepsOf(pre, symbol);
      OneMore(steps, symbol);
      EarlierIds(steps, symbol, f);
      IsolatedUpTo(pre, symbol, f);
      if st.symbol == symbol {
        OwnStep(RunAll(pre), RunAll(own), st, f);
      } else {
        StepOfOne(RunAll(pre), st, symbol);
      }
    }
  }

  // What the last step adds to the run, to one symbol's steps and to its IDs.
  lemma OneMore(steps: seq<Step>, symbol: string)
    requires steps != []
    ensures
      var pre, st := steps[..|steps| - 1], steps[|steps| - 1];
      var own := StepsOf(pre, symbol);
      && RunAll(steps) == RunAll(pre).Step(st)
      && RunAll(StepsOf(steps, symbol)) == (if st.symbol == symbol then RunAll(own).Step(st) else RunAll(own))
      && Ids(steps, symbol) == Ids(pre, symbol) + if st.Submit? && st.symbol == symbol then [RunAll(pre).counter + 1] else []
  {
    hide System.Step;
    var own, st := StepsOf(steps[..|steps| - 1], symbol), steps[|steps| - 1];
    assert (own + [st])[..|own|] == own && own + [] == own;
  }

  lemma EarlierIds(steps: seq<Step>, symbol: string, f: int -> int)
    requires steps != [] && forall k :: 0 <= k < |Ids(steps, symbol)| ==> f(k + 1) == Ids(steps, symbol)[k]
    ensures
      var pre, st := steps[..|steps| - 1], steps[|steps| - 1];
      && (forall k :: 0 <= k < |Ids(pre, symbol)| ==> f(k + 1) == Ids(pre, symbol)[k])
      && (st.Submit? && st.symbol == symbol ==> f(|Ids(pre, symbol)| + 1) == RunAll(pre).counter + 1)
  {
    hide RunAll, Ids, System.Step;
    OneMore(steps, symbol);
    var ids, before := Ids(steps, symbol), Ids(steps[..|steps| - 1], symbol);
    assert forall k :: 0 <= k < |before| ==> before[k] == ids[k];
    if |ids| > |before| { assert f(|before| + 1) == ids[|before|]; }
  }

  lemma NothingYet(f: int -> int, symbol: string)
    ensures RunAll([]).Lookup(symbol) == RunOne([]) == RenameActor(f, RunAll([]).Lookup(symbol))
    ensures RunAll([]).counter == 0 && Ids([], symbol) == [] && StepsOf([], symbol) == []
  {
  }

  lemma OwnStep(all: System, alone: System, st: Step, f: int -> int)
    requires f(0) == 0 && (st.Submit? ==> f(alone.counter + 1) == all.counter + 1)
    requires all.Lookup(st.symbol) == RenameActor(f, alone.Lookup(st.symbol))
    ensures all.Step(st).Lookup(st.symbol) == RenameActor(f, alone.Step(st).Lookup(st.symbol))
    ensures alone.Step(st).counter == alone.counter + if st.Submit? then 1 else 0
  {
    hide StepActor, RenameActor;
    StepRenamed(f, alone.Lookup(st.symbol), alone.Stamped(st));
  }

  // However the steps of all symbols interleave, each symbol's book, queues,
  // answers and log are those of its own steps run alone, up to an
  // order-preserving renaming of the IDs.
  lemma SymbolsAreIsolated(steps: seq<Step>, symbol: string) returns (f: int -> int)
    ensures Monotone(f)
    ensures RunAll(steps).Lookup(symbol) == RenameActor(f, RunAll(StepsOf(steps, symbol)).Lookup(symbol))
  {
    f := Among(Ids(steps, symbol));
    IdsIncrease(steps, symbol);
    AmongIsMonotone(Ids(steps, symbol));
    IsolatedUpTo(steps, symbol, f);
  }
}
