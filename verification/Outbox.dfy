// The outbox worker (internal/order/outbox/outbox.go:132-245, 258-428): one
// worker, atomic status writes, and crashes only while a handler runs.
module Outbox {
  import opened Options

  datatype Status = Pending | Processing | Done | Failed | DeadLetter

  // What the handler does; a crash takes the worker with it.
  datatype Outcome = Succeeds | Fails | Crashes

  datatype Entry = Entry(action: string, status: Status, retryCount: nat, nextRetryAt: Option<int>, createdAt: int)
  {
    predicate Settled() { status == Done || status == Failed || status == DeadLetter }
    predicate Ready(now: int) { status == Pending && (nextRetryAt.None? || nextRetryAt.value <= now) }
    predicate Due(now: int) { Settled() || nextRetryAt.None? || nextRetryAt.value <= now }
    predicate Stale(cutoff: int) { (status == Pending || status == Processing) && createdAt < cutoff }
  }

  // ---- Backoff, in nanoseconds ----

  const MAX_DELAY: int := 300_000_000_000
  const INT64_MAX: int := 0x7FFF_FFFF_FFFF_FFFF

  // base * 2^k
  function Doubled(base: nat, k: nat): (d: nat) {
    if k == 0 then base else 2 * Doubled(base, k - 1)
  }

  function Backoff(base: nat, k: nat): nat {
    if Doubled(base, k) < MAX_DELAY then Doubled(base, k) else MAX_DELAY
  }

  lemma {:induction false} DoubledGrows(base: nat, i: nat, k: nat)
    requires i <= k
    ensures Doubled(base, i) <= Doubled(base, k)
  {
    if i < k { DoubledGrows(base, i, k - 1); }
  }

  // CalculateNextRetry: within a quarter of the capped backoff, and no
  // intermediate value leaves 64 bits.
  method CalculateNextRetry(retryCount: nat, baseDelay: nat, now: int) returns (at: int)
    requires baseDelay <= INT64_MAX
    ensures
      var b := Backoff(baseDelay, retryCount);
      if b < 4 then at == now + b else now + b - b / 4 <= at < now + b + b / 4
  {
    var delay := baseDelay;
    var i := 0;
    while i < retryCount && delay < MAX_DELAY
      invariant 0 <= i <= retryCount && delay == Doubled(baseDelay, i)
      invariant delay <= INT64_MAX
    {
      delay := delay * 2;
      i := i + 1;
    }
    DoubledGrows(baseDelay, i, retryCount);
    if delay > MAX_DELAY {
      delay := MAX_DELAY;
    }
    var jitter := 0;
    var jitterRange := delay / 4;
    if jitterRange > 0 {
      var r :| 0 <= r < jitterRange * 2;   // rand.Int63n
      jitter := r - jitterRange;
    }
    at := now + (delay + jitter);
  }

  // No retry is scheduled later than this.
  const LONGEST: int := MAX_DELAY + MAX_DELAY / 4

  // The backoff starts at the base delay, at most 5 minutes, and doubles up to
  // that.
  lemma BackoffDoubles(base: nat, k: nat)
    ensures Backoff(base, 0) == if base < 300_000_000_000 then base else 300_000_000_000
    ensures
      var twice := 2 * Backoff(base, k);
      Backoff(base, k + 1) == if twice < 300_000_000_000 then twice else 300_000_000_000
  {
    DoubledGrows(base, k, k + 1);
  }

  // ---- The table and the worker ----

  class Worker {
    const handlers: set<string>     // the action types that have one
    const maxRetries: int
    const retryDelay: nat
    const staleTimeout: int
    var entries: seq<Entry>         // the table, by ID; created_at never decreases
    ghost var failures: seq<nat>    // how often each entry's handler returned an error,
    ghost var crashes: seq<nat>     // was cut short by a crash,
    ghost var calls: seq<nat>       // and was called at all

    // The failure that sends an entry to the dead letters.
    ghost function Last(): nat {
      if maxRetries < 1 then 1 else maxRetries
    }

    // An entry is a dead letter exactly when its handler has failed maxRetries
    // times, and no entry failed more often.
    ghost predicate Valid()
      reads this
    {
      retryDelay <= INT64_MAX && Counted(entries, failures) && Tallied(entries, failures, crashes, calls)
    }

    // Every call ended in one of the three ways.
    ghost predicate Tallied(es: seq<Entry>, failures: seq<nat>, crashes: seq<nat>, calls: seq<nat>) {
      && |failures| == |crashes| == |calls| == |es|
      && (forall id :: 0 <= id < |es| ==> calls[id] == failures[id] + crashes[id] + if es[id].status == Done then 1 else 0)
    }

    ghost predicate Counted(es: seq<Entry>, fs: seq<nat>) {
      && |fs| == |es|
      && (forall id :: 0 <= id < |es| ==>
            && es[id].retryCount == fs[id] <= Last()
            && (es[id].status == DeadLetter <==> fs[id] == Last()))
    }

    lemma RecoveredCounted(es: seq<Entry>, fs: seq<nat>, crashes: seq<nat>, calls: seq<nat>, cutoff: int)
      requires Counted(es, fs) && Tallied(es, fs, crashes, calls)
      ensures Counted(Recovered(es, cutoff), fs) && Tallied(Recovered(es, cutoff), fs, crashes, calls)
    {
    }

    lemma UpdatedCounted(es: seq<Entry>, fs: seq<nat>, crashes: seq<nat>, calls: seq<nat>, id: nat, e: Entry, f: nat, crash: nat, call: nat)
      requires Counted(es, fs) && Tallied(es, fs, crashes, calls) && id < |es|
      requires e.retryCount == f <= Last() && (e.status == DeadLetter <==> f == Last())
      requires call == f + crash + if e.status == Done then 1 else 0
      ensures Counted(es[id := e], fs[id := f]) && Tallied(es[id := e], fs[id := f], crashes[id := crash], calls[id := call])
    {
    }

    lemma EntryCounted(es: seq<Entry>, fs: seq<nat>, crashes: seq<nat>, calls: seq<nat>, id: nat)
      requires Counted(es, fs) && Tallied(es, fs, crashes, calls) && id < |es|
      ensures |fs| == |crashes| == |calls| == |es| && es[id].retryCount == fs[id] <= Last()
      ensures es[id].status == DeadLetter <==> fs[id] == Last()
      ensures calls[id] == fs[id] + crashes[id] + if es[id].status == Done then 1 else 0
    {
    }

    constructor (handlers: set<string>, maxRetries: int, retryDelay: nat, staleTimeout: int)
      requires retryDelay <= INT64_MAX
      ensures Valid() && entries == []
    {
      this.handlers, this.maxRetries, this.retryDelay, this.staleTimeout := handlers, maxRetries, retryDelay, staleTimeout;
      entries, failures, crashes, calls := [], [], [], [];
    }

    method Create(action: string, now: int) returns (id: nat)
      requires Valid()
      modifies this
      ensures Valid() && id == |old(entries)|
      ensures entries == old(entries) + [Entry(action, Pending, 0, None, now)]
    {
      id := |entries|;
      entries := entries + [Entry(action, Pending, 0, None, now)];
      failures, crashes, calls := failures + [0], crashes + [0], calls + [0];
    }

    method UpdateStatus(id: nat, status: Status)
      requires id < |entries|
      modifies this`entries
      ensures entries == old(entries)[id := old(entries[id]).(status := status)]
    {
      entries := entries[id := entries[id].(status := status)];
    }

    // What one attempt makes of an entry, when a failure schedules a retry at
    // `retryAt`.
    ghost function Attempted(e: Entry, outcome: Outcome, retryAt: Option<int>): Entry {
      if e.action !in handlers then e.(status := Failed)
      else match outcome
        case Succeeds => e.(status := Done)
        case Crashes => e.(status := Processing)
        case Fails =>
          if e.retryCount + 1 >= maxRetries then e.(status := DeadLetter, retryCount := e.retryCount + 1)
          else e.(status := Pending, retryCount := e.retryCount + 1, nextRetryAt := retryAt)
    }

    // A retry is due when the backoff, within a quarter, is over.
    ghost predicate Rescheduled(e: Entry, now: int) {
      var b := Backoff(retryDelay, e.retryCount);
      e.nextRetryAt.Some? && now + b - b / 4 <= e.nextRetryAt.value <= now + b + b / 4
    }

    // processEntry, on an entry as the query returned it.
    method ProcessEntry(id: nat, entry: Entry, outcome: Outcome, now: int) returns (crashed: bool, ghost retryAt: Option<int>)
      requires Valid() && id < |entries| && entry == entries[id] && entry.status == Pending
      modifies this
      ensures Valid() && entries == old(entries)[id := Attempted(entry, outcome, retryAt)]
      ensures crashed <==> entry.action in handlers && outcome == Crashes
      ensures calls == old(calls)[id := old(calls[id]) + if entry.action in handlers then 1 else 0]
      ensures crashes == old(crashes)[id := old(crashes[id]) + if crashed then 1 else 0]
      ensures entries[id].status == Pending ==> Rescheduled(entries[id], now)
      ensures if crashed then entries[id] == entry.(status := Processing) else Advanced(entry, entries[id]) && entries[id].Due(now + LONGEST)
    {
      hide Counted, Tallied;
      EntryCounted(entries, failures, crashes, calls, id);
      crashed, retryAt := false, None;
      ghost var es, fs, cs, ls := entries, failures, crashes, calls;
      if entry.action !in handlers {
        UpdateStatus(id, Failed);
      } else {
        UpdateStatus(id, Processing);
        calls := calls[id := calls[id] + 1];
        match outcome
        case Crashes =>
          crashed := true;
          crashes := crashes[id := crashes[id] + 1];
        case Fails =>
          entries := entries[id := entries[id].(retryCount := entries[id].retryCount + 1)];   // IncrementRetry
          failures := failures[id := failures[id] + 1];
          var newRetryCount := entry.retryCount + 1;
          if newRetryCount >= maxRetries {
            UpdateStatus(id, DeadLetter);
          } else {
            var nextRetryAt := CalculateNextRetry(newRetryCount, retryDelay, now);
            entries := entries[id := entries[id].(nextRetryAt := Some(nextRetryAt))];         // UpdateNextRetry
            UpdateStatus(id, Pending);
            retryAt := Some(nextRetryAt);
          }
        case Succeeds =>
          UpdateStatus(id, Done);
      }
      UpdatedCounted(es, fs, cs, ls, id, entries[id], failures[id], crashes[id], calls[id]);
      assert entries == es[id := entries[id]] && failures == fs[id := failures[id]];
      assert crashes == cs[id := crashes[id]] && calls == ls[id := calls[id]];
    }

    // GetPendingReady: of the ready entries those with fewer than 100 ready ones
    // before them, oldest first, as they are.
    method GetPendingReady(now: int) returns (ids: seq<nat>, batch: seq<Entry>)
      ensures |batch| == |ids| <= LIMIT
      ensures forall k :: 0 <= k < |ids| ==> ids[k] < |entries| && batch[k] == entries[ids[k]]
      ensures forall j, k :: 0 <= j < k < |ids| ==> ids[j] < ids[k]
      ensures forall id: nat :: id in ids <==> InBatch(entries, now, id)
      ensures forall e :: e in batch ==> e.status == Pending && (e.nextRetryAt == None || e.nextRetryAt.value <= now)
      ensures forall id: nat :: id < |entries| && id !in ids ==>
        var e := entries[id];
        e.status == Pending && (e.nextRetryAt == None || e.nextRetryAt.value <= now) ==>
          |ids| == 100 && forall k :: 0 <= k < 100 ==> ids[k] < id
    {
      ids, batch := [], [];
      var id: nat := 0;
      while id < |entries| && |ids| < LIMIT
        invariant 0 <= id <= |entries| && |batch| == |ids| <= LIMIT && |ids| == Preceding(entries, IsReady(now), id)
        invariant forall k :: 0 <= k < |ids| ==> ids[k] < id && batch[k] == entries[ids[k]]
        invariant forall j, k :: 0 <= j < k < |ids| ==> ids[j] < ids[k]
        invariant forall i: nat :: i in ids <==> i < id && InBatch(entries, now, i)
        invariant forall k :: 0 <= k < |batch| ==> batch[k].Ready(now)
        invariant forall i: nat :: i < id && entries[i].Ready(now) ==> i in ids
      {
        if entries[id].Ready(now) {
          ids, batch := ids + [id], batch + [entries[id]];
        }
        id := id + 1;
      }
      forall i: nat | id <= i <= |entries| ensures Preceding(entries, IsReady(now), i) >= |ids| {
        PrecedingGrows(entries, IsReady(now), id, i);
      }
    }

    // recoverStaleProcessing: of the old entries left pending or processing, the
    // oldest 100 are pending again, and nothing else changes.
    method RecoverStaleProcessing(now: int)
      requires Valid()
      modifies this`entries
      ensures Valid() && entries == Recovered(old(entries), now - staleTimeout)
      ensures Unstuck(old(entries), entries, now - staleTimeout)
    {
      hide Counted, Tallied, Unstuck;
      var id: nat, n: nat := 0, 0;
      ghost var before, cutoff := entries, now - staleTimeout;
      while id < |entries| && n < LIMIT
        invariant 0 <= id <= |entries| == |before|
        invariant n == Preceding(before, IsStale(cutoff), id) <= LIMIT
        invariant forall i :: 0 <= i < id ==> entries[i] == Recovered(before, cutoff)[i]
        invariant forall i :: id <= i < |entries| ==> entries[i] == before[i]
      {
        if entries[id].Stale(now - staleTimeout) {
          UpdateStatus(id, Pending);
          n := n + 1;
        }
        id := id + 1;
      }
      forall i: nat | id <= i < |entries| ensures entries[i] == Recovered(before, cutoff)[i] {
        PrecedingGrows(before, IsStale(cutoff), id, i);
      }
      assert entries == Recovered(before, cutoff);
      RecoveredIs(before, cutoff);
      RecoveredCounted(before, failures, crashes, calls, cutoff);
    }

    // processEntries: one poll. The ready entries, once the stale ones are
    // recovered, are attempted in turn; each attempt settles the entry or uses up
    // a failure. A crash leaves the entry it hits processing and ends the poll; so
    // does stopping the worker, before its `stop`-th entry. No other entry changes,
    // and settled ones never do; above all none whose retry is not due, whose
    // handler is not called. So whatever the polls, no handler is called more often
    // than it may fail, but once more for every crash.
    method ProcessEntries(now: int, outcome: nat -> Outcome, stop: nat) returns (crashed: bool, ghost ids: seq<nat>, ghost n: nat)
      requires Valid()
      modifies this
      ensures Valid() && |entries| == |old(entries)|
      ensures forall id: nat :: id in ids <==> InBatch(Recovered(old(entries), now - staleTimeout), now, id)
      ensures n <= |ids| && (!crashed ==> n == if stop < |ids| then stop else |ids|) && (crashed ==> n < |ids|)
      ensures
        var found := Recovered(old(entries), now - staleTimeout);
        && (crashed ==> ids[n] < |entries| && entries[ids[n]] == found[ids[n]].(status := Processing))
        && UpTo(found, if crashed then entries[ids[n] := found[ids[n]]] else entries, ids, n, now)
      ensures forall id :: 0 <= id < |entries| && old(entries[id]).Settled() ==> entries[id] == old(entries[id])
      ensures AllRescheduled(entries, ids, n, now)
      ensures Called(old(entries), old(calls), calls, ids, if crashed then n + 1 else n)
      ensures Patient(old(entries), entries, old(calls), calls, now)
      ensures Unspent(entries, Last()) && (n == |ids| ==> Polled(old(entries), entries, now, staleTimeout))
      ensures crashes == if crashed then old(crashes)[ids[n] := old(crashes[ids[n]]) + 1] else old(crashes)
      ensures |calls| == |crashes| == |entries| && forall id :: 0 <= id < |entries| ==> calls[id] <= Last() + crashes[id]
    {
      hide Recovered, InBatch, Counted, Tallied, Attempted, Advanced, Backoff, Polled, UpTo, Unspent, Called, AllRescheduled,
        Rescheduled, Patient, Unstuck;
      CallsBounded();
      RecoverStaleProcessing(now);
      ghost var found := entries;
      var queried, batch := GetPendingReady(now);
      ids, crashed, n := queried, false, 0;
      BatchIsReady(found, now, ids);
      SettledStay(old(entries), now - staleTimeout, now, ids);
      NoneYet(found, ids, now);
      NoneCalled(old(entries), calls, ids, now);
      for k := 0 to |queried|
        invariant Valid() && |entries| == |found| == |crashes| && n == k <= stop && crashes == old(crashes)
        invariant UpTo(found, entries, ids, k, now)
        invariant forall id :: 0 <= id < |entries| && old(entries[id]).Settled() ==> entries[id] == old(entries[id])
        invariant AllRescheduled(entries, ids, k, now) && Called(old(entries), old(calls), calls, ids, k)
      {
        NextUp(found, entries, ids, k, now);
        ghost var before, called := entries, calls;
        if k == stop {
          CallsBounded();
          PatientPoll(old(entries), entries, old(calls), calls, now - staleTimeout, now, ids, k, k);
          return;
        }
        ghost var at;
        crashed, at := ProcessEntry(queried[k], batch[k], outcome(queried[k]), now);
        OneCalled(old(entries), old(calls), called, ids, k);
        OneRescheduled(before, ids, k, now, entries[ids[k]]);
        if crashed {
          CallsBounded();
          assert entries[ids[k] := found[ids[k]]] == before;
          PatientPoll(old(entries), before, old(calls), calls, now - staleTimeout, now, ids, k, k + 1);
          PatientCrash(old(entries), before, old(calls), calls, now, ids, k, entries[ids[k]]);
          return;
        }
        OneMore(found, before, ids, k, now, entries[ids[k]]);
        n := n + 1;
      }
      CallsBounded();
      PatientPoll(old(entries), entries, old(calls), calls, now - staleTimeout, now, ids, n, n);
      AllPolled(old(entries), entries, now, staleTimeout, ids);
    }

    // Of a batch the handlers of the first n entries were called, once each.
    ghost predicate Called(es: seq<Entry>, before: seq<nat>, after: seq<nat>, ids: seq<nat>, n: nat) {
      && |before| == |after| == |es| && n <= |ids|
      && forall id: nat :: id < |es| ==>
           after[id] == before[id] + if id in ids[..n] && es[id].action in handlers then 1 else 0
    }

    ghost predicate AllRescheduled(es: seq<Entry>, ids: seq<nat>, n: nat, now: int) {
      n <= |ids| && forall k :: 0 <= k < n && ids[k] < |es| && es[ids[k]].status == Pending ==> Rescheduled(es[ids[k]], now)
    }

    lemma NoneCalled(es: seq<Entry>, calls: seq<nat>, ids: seq<nat>, now: int)
      requires |calls| == |es|
      ensures Called(es, calls, calls, ids, 0)
      ensures forall es' :: AllRescheduled(es', ids, 0, now)
    {
    }

    lemma OneCalled(es: seq<Entry>, before: seq<nat>, calls: seq<nat>, ids: seq<nat>, k: nat)
      requires Called(es, before, calls, ids, k) && k < |ids| && ids[k] < |es| && forall i, j :: 0 <= i < j < |ids| ==> ids[i] < ids[j]
      ensures Called(es, before, calls[ids[k] := calls[ids[k]] + if es[ids[k]].action in handlers then 1 else 0], ids, k + 1)
    {
      assert ids[..k + 1] == ids[..k] + [ids[k]];
      assert ids[k] !in ids[..k];
    }

    lemma OneRescheduled(es: seq<Entry>, ids: seq<nat>, k: nat, now: int, e: Entry)
      requires AllRescheduled(es, ids, k, now) && k < |ids| && ids[k] < |es| && forall i, j :: 0 <= i < j < |ids| ==> ids[i] < ids[j]
      ensures AllRescheduled(es[ids[k] := e], ids, k, now)
      ensures (e.status == Pending ==> Rescheduled(e, now)) ==> AllRescheduled(es[ids[k] := e], ids, k + 1, now)
    {
      hide Rescheduled;
    }

    // No handler is called before the retry is due, and the entry stays as it is,
    // unless a crash left it processing and it is pending again.
    ghost predicate Patient(es: seq<Entry>, es': seq<Entry>, calls: seq<nat>, calls': seq<nat>, now: int) {
      && |es'| == |es| == |calls| == |calls'|
      && forall id: nat :: id < |es| && es[id].nextRetryAt.Some? && es[id].nextRetryAt.value > now ==>
           && calls'[id] == calls[id]
           && (es'[id] == es[id] || (es[id].status == Processing && es'[id] == es[id].(status := Pending)))
    }

    lemma PatientPoll(es: seq<Entry>, es': seq<Entry>, calls: seq<nat>, calls': seq<nat>, cutoff: int, now: int, ids: seq<nat>, n: nat, m: nat)
      requires forall id: nat :: id in ids <==> InBatch(Recovered(es, cutoff), now, id)
      requires UpTo(Recovered(es, cutoff), es', ids, n, now) && Called(es, calls, calls', ids, m)
      ensures Patient(es, es', calls, calls', now)
      ensures forall id: nat :: id < |es| && es[id].nextRetryAt.Some? && es[id].nextRetryAt.value > now ==> id !in ids
    {
      hide Preceding, Advanced;
      assert forall id: nat :: id in ids[..m] ==> id in ids;
    }

    lemma PatientCrash(es: seq<Entry>, es': seq<Entry>, calls: seq<nat>, calls': seq<nat>, now: int, ids: seq<nat>, k: nat, e: Entry)
      requires Patient(es, es', calls, calls', now) && k < |ids| && ids[k] < |es|
      requires forall id: nat :: id < |es| && es[id].nextRetryAt.Some? && es[id].nextRetryAt.value > now ==> id !in ids
      ensures Patient(es, es'[ids[k] := e], calls, calls', now)
    {
      assert ids[k] in ids;
    }

    lemma CallsBounded()
      requires Valid()
      ensures Unspent(entries, Last())
      ensures |calls| == |crashes| == |entries| && forall id :: 0 <= id < |entries| ==> calls[id] <= Last() + crashes[id]
    {
    }
  }

  // An attempt that ended has settled the entry or used up one failure.
  ghost predicate Advanced(before: Entry, after: Entry) {
    after.Settled() || (after.status == Pending && after.retryCount == before.retryCount + 1)
  }

  // Of a poll's batch exactly the first n entries were attempted.
  ghost predicate UpTo(found: seq<Entry>, es: seq<Entry>, ids: seq<nat>, n: nat, now: int) {
    && |es| == |found| && n <= |ids| && (forall k :: 0 <= k < |ids| ==> ids[k] < |es|)
    && (forall k :: 0 <= k < n ==> Advanced(found[ids[k]], es[ids[k]]) && es[ids[k]].Due(now + LONGEST))
    && (forall k :: n <= k < |ids| ==> es[ids[k]] == found[ids[k]])
    && (forall id :: 0 <= id < |es| && id !in ids ==> es[id] == found[id])
  }

  lemma NoneYet(found: seq<Entry>, ids: seq<nat>, now: int)
    requires forall k :: 0 <= k < |ids| ==> ids[k] < |found|
    ensures UpTo(found, found, ids, 0, now)
  {
  }

  lemma NextUp(found: seq<Entry>, es: seq<Entry>, ids: seq<nat>, k: nat, now: int)
    requires UpTo(found, es, ids, k, now) && k < |ids|
    ensures |es| == |found| && ids[k] < |es| && es[ids[k]] == found[ids[k]]
  {
  }

  lemma OneMore(found: seq<Entry>, es: seq<Entry>, ids: seq<nat>, k: nat, now: int, e: Entry)
    requires UpTo(found, es, ids, k, now) && k < |ids| && forall i, j :: 0 <= i < j < |ids| ==> ids[i] < ids[j]
    requires Advanced(found[ids[k]], e) && e.Due(now + LONGEST)
    ensures UpTo(found, es[ids[k] := e], ids, k + 1, now)
  {
    hide Advanced;
  }

  // ---- What the queries select ----

  const LIMIT: nat := 100

  function IsReady(now: int): Entry -> bool { (e: Entry) => e.Ready(now) }

  function IsStale(cutoff: int): Entry -> bool { (e: Entry) => e.Stale(cutoff) }

  // How many entries of a kind are older than one.
  function Preceding(es: seq<Entry>, p: Entry -> bool, id: nat): (n: nat)
    requires id <= |es|
  {
    if id == 0 then 0 else Preceding(es, p, id - 1) + if p(es[id - 1]) then 1 else 0
  }

  lemma {:induction false} PrecedingGrows(es: seq<Entry>, p: Entry -> bool, i: nat, j: nat)
    requires i <= j <= |es|
    ensures Preceding(es, p, i) <= Preceding(es, p, j)
  {
    if i < j { PrecedingGrows(es, p, i, j - 1); }
  }

  predicate InBatch(es: seq<Entry>, now: int, id: nat) {
    id < |es| && es[id].Ready(now) && Preceding(es, IsReady(now), id) < LIMIT
  }

  function Recovered(es: seq<Entry>, cutoff: int): (r: seq<Entry>)
    ensures |r| == |es|
  {
    seq(|es|, i requires 0 <= i < |es| =>
      if es[i].Stale(cutoff) && Preceding(es, IsStale(cutoff), i) < LIMIT then es[i].(status := Pending) else es[i])
  }

  // The entries older than one that are stale.
  ghost function StaleBefore(es: seq<Entry>, cutoff: int, id: nat): (older: set<nat>)
    requires id <= |es|
  {
    set i: nat | i < id && (es[i].status == Pending || es[i].status == Processing) && es[i].createdAt < cutoff
  }

  // An entry left pending or processing and created before the cutoff becomes
  // pending when fewer than 100 such are older; nothing else changes.
  ghost predicate Unstuck(es: seq<Entry>, es': seq<Entry>, cutoff: int) {
    && |es'| == |es|
    && forall id: nat :: id < |es| ==>
         var e := es[id];
         var takes := (e.status == Pending || e.status == Processing) && e.createdAt < cutoff && |StaleBefore(es, cutoff, id)| < 100;
         es'[id] == if takes then e.(status := Pending) else e
  }

  lemma RecoveredIs(es: seq<Entry>, cutoff: int)
    ensures Unstuck(es, Recovered(es, cutoff), cutoff)
  {
    hide Preceding, StaleBefore;
    forall id: nat | id < |es| ensures Preceding(es, IsStale(cutoff), id) == |StaleBefore(es, cutoff, id)| {
      StaleCount(es, cutoff, id);
    }
  }

  lemma {:induction false} StaleCount(es: seq<Entry>, cutoff: int, id: nat)
    requires id <= |es|
    ensures Preceding(es, IsStale(cutoff), id) == |StaleBefore(es, cutoff, id)|
  {
    hide StaleBefore;
    if id == 0 {
      assert StaleBefore(es, cutoff, 0) == {} by { NoneBefore(es, cutoff); }
    } else {
      StaleCount(es, cutoff, id - 1);
      OneOlder(es, cutoff, id);
    }
  }

  lemma NoneBefore(es: seq<Entry>, cutoff: int)
    ensures StaleBefore(es, cutoff, 0) == {}
  {
  }

  lemma OneOlder(es: seq<Entry>, cutoff: int, id: nat)
    requires 0 < id <= |es|
    ensures |StaleBefore(es, cutoff, id)| == |StaleBefore(es, cutoff, id - 1)| + if es[id - 1].Stale(cutoff) then 1 else 0
  {
    var older, one: set<nat> := StaleBefore(es, cutoff, id - 1), {id - 1};
    if es[id - 1].Stale(cutoff) {
      assert StaleBefore(es, cutoff, id) == older + one && older * one == {};
    } else {
      assert StaleBefore(es, cutoff, id) == older;
    }
  }

  lemma BatchIsReady(es: seq<Entry>, now: int, ids: seq<nat>)
    requires forall id: nat :: id in ids <==> InBatch(es, now, id)
    ensures forall k :: 0 <= k < |ids| ==> ids[k] < |es| && es[ids[k]].status == Pending
  {
    assert forall k :: 0 <= k < |ids| ==> ids[k] in ids;
  }

  lemma SettledStay(es: seq<Entry>, cutoff: int, now: int, ids: seq<nat>)
    requires forall id: nat :: id in ids <==> InBatch(Recovered(es, cutoff), now, id)
    ensures forall id: nat :: id < |es| && es[id].Settled() ==> Recovered(es, cutoff)[id] == es[id]
    ensures forall k :: 0 <= k < |ids| ==> ids[k] < |es| && !es[ids[k]].Settled()
    ensures forall id: nat :: id < |es| ==> Recovered(es, cutoff)[id].action == es[id].action
  {
    assert forall k :: 0 <= k < |ids| ==> ids[k] in ids;
  }

  // ---- Runs of polls ----

  // One poll that no crash cut short.
  ghost predicate Polled(before: seq<Entry>, after: seq<Entry>, now: int, timeout: int) {
    && |after| == |before|
    && forall id :: 0 <= id < |before| ==>
         var found := Recovered(before, now - timeout);
         if InBatch(found, now, id) then Advanced(found[id], after[id]) && after[id].Due(now + LONGEST)
         else after[id] == found[id]
  }

  lemma AllPolled(es: seq<Entry>, es': seq<Entry>, now: int, timeout: int, ids: seq<nat>)
    requires forall id: nat :: id in ids <==> InBatch(Recovered(es, now - timeout), now, id)
    requires UpTo(Recovered(es, now - timeout), es', ids, |ids|, now)
    ensures Polled(es, es', now, timeout)
  {
    hide Recovered, InBatch, Advanced;
  }

  // How often the entries older than one may yet fail.
  function Left(es: seq<Entry>, last: nat, id: nat): int
    requires id <= |es|
  {
    if id == 0 then 0
    else Left(es, last, id - 1) + if es[id - 1].Settled() then 0 else last - es[id - 1].retryCount
  }

  ghost predicate Unspent(es: seq<Entry>, last: nat) {
    forall id :: 0 <= id < |es| && !es[id].Settled() ==> 0 <= es[id].retryCount < last
  }

  lemma {:induction false} LeftBounds(es: seq<Entry>, last: nat, id: nat)
    requires id <= |es| && Unspent(es, last)
    ensures 0 <= Left(es, last, id) <= last * id
  {
    if id > 0 { LeftBounds(es, last, id - 1); }
  }

  // When every retry is due, the oldest stale entries are ready after recovery.
  lemma {:induction false} StaleAreReady(es: seq<Entry>, cutoff: int, now: int, id: nat)
    requires id <= |es| && forall i :: 0 <= i < id ==> es[i].Due(now)
    ensures
      var n := Preceding(es, IsStale(cutoff), id);
      Preceding(Recovered(es, cutoff), IsReady(now), id) >= if n < LIMIT then n else LIMIT
  {
    if id > 0 { StaleAreReady(es, cutoff, now, id - 1); }
  }

  // Each older entry in the batch has one failure less to go, or none.
  lemma {:induction false} PollSpends(es: seq<Entry>, es': seq<Entry>, now: int, timeout: int, last: nat, id: nat)
    requires Polled(es, es', now, timeout) && id <= |es| && Unspent(es, last)
    ensures
      var n := Preceding(Recovered(es, now - timeout), IsReady(now), id);
      Left(es', last, id) + (if n < LIMIT then n else LIMIT) <= Left(es, last, id)
  {
    if id > 0 { PollSpends(es, es', now, timeout, last, id - 1); }
  }

  // A poll that misses a stale entry spends a whole batch on older ones.
  lemma PollMisses(es: seq<Entry>, es': seq<Entry>, now: int, timeout: int, last: nat, id: nat)
    requires Polled(es, es', now, timeout) && id < |es| && Unspent(es, last)
    requires es[id].Stale(now - timeout) && !InBatch(Recovered(es, now - timeout), now, id)
    requires forall i :: 0 <= i <= id ==> es[i].Due(now)
    ensures Left(es', last, id) + LIMIT <= Left(es, last, id)
    ensures es'[id].retryCount == es[id].retryCount && es'[id].Stale(now - timeout)
    ensures forall i :: 0 <= i <= id ==> es'[i].Due(now + LONGEST)
  {
    hide Recovered, InBatch, Left, Unspent, Polled;
    BatchIsFull(es, now, timeout, id);
    PollSpends(es, es', now, timeout, last, id);
    MissedStays(es, es', now, timeout, id);
  }

  lemma BatchIsFull(es: seq<Entry>, now: int, timeout: int, id: nat)
    requires id < |es| && es[id].Stale(now - timeout) && !InBatch(Recovered(es, now - timeout), now, id)
    requires forall i :: 0 <= i <= id ==> es[i].Due(now)
    ensures Preceding(Recovered(es, now - timeout), IsReady(now), id) >= LIMIT
  {
    hide Preceding;
    StaleAreReady(es, now - timeout, now, id);
  }

  lemma MissedStays(es: seq<Entry>, es': seq<Entry>, now: int, timeout: int, id: nat)
    requires Polled(es, es', now, timeout) && id < |es|
    requires es[id].Stale(now - timeout) && !InBatch(Recovered(es, now - timeout), now, id)
    requires forall i :: 0 <= i <= id ==> es[i].Due(now)
    ensures es'[id].retryCount == es[id].retryCount && es'[id].Stale(now - timeout)
    ensures forall i :: 0 <= i <= id ==> es'[i].Due(now + LONGEST)
  {
    hide Preceding, InBatch;
  }

  // Polls far enough apart for every retry to be due, none cut short, on entries
  // that may fail `last` times; others may be created in between.
  ghost predicate Spaced(states: seq<seq<Entry>>, times: seq<int>, timeout: int, last: nat) {
    && |states| == |times| + 1
    && (forall i :: 0 <= i < |times| ==>
          |states[i]| <= |states[i + 1]| && Polled(states[i], states[i + 1][..|states[i]|], times[i], timeout))
    && (forall i :: 0 <= i < |times| - 1 ==> times[i] + LONGEST <= times[i + 1])
    && (forall i :: 0 <= i < |states| ==> Unspent(states[i], last))
  }

  lemma FirstAttempt(es: seq<Entry>, es': seq<Entry>, now: int, timeout: int, id: nat)
    requires Polled(es, es', now, timeout) && InBatch(Recovered(es, now - timeout), now, id) && id < |es|
    ensures Advanced(es[id], es'[id])
  {
  }

  lemma SameCount(e: Entry, f: Entry, after: Entry)
    requires e.retryCount == f.retryCount && Advanced(f, after)
    ensures Advanced(e, after)
  {
  }

  lemma StaleLater(es: seq<Entry>, id: nat, now: int, times: seq<int>, timeout: int)
    requires id < |es| && es[id].Stale(now - timeout) && forall i :: 0 <= i <= id ==> es[i].Due(now + LONGEST)
    requires |times| > 1 ==> now + LONGEST <= times[1]
    ensures |times| > 1 ==> es[id].Stale(times[1] - timeout) && forall i :: 0 <= i <= id ==> es[i].Due(times[1])
  {
  }

  lemma SpacedLater(states: seq<seq<Entry>>, times: seq<int>, timeout: int, last: nat)
    requires Spaced(states, times, timeout, last) && times != []
    ensures Spaced(states[1..], times[1..], timeout, last)
    ensures |states| == |times| + 1 && |states[0]| <= |states[1]| && Unspent(states[0], last) && Unspent(states[1], last)
    ensures Polled(states[0], states[1][..|states[0]|], times[0], timeout)
    ensures |times| > 1 ==> times[0] + LONGEST <= times[1]
  {
    hide Polled, Unspent;
    assert states[0 + 1] == states[1];
  }

  lemma {:induction false} LeftPrefix(es: seq<Entry>, n: nat, last: nat, id: nat)
    requires id <= n <= |es|
    ensures Left(es[..n], last, id) == Left(es, last, id)
  {
    if id > 0 { LeftPrefix(es, n, last, id - 1); }
  }

  lemma {:induction false} AttemptedWithin(states: seq<seq<Entry>>, times: seq<int>, timeout: int, last: nat, id: nat) returns (k: nat)
    requires Spaced(states, times, timeout, last) && id < |states[0]| && times != []
    requires states[0][id].Stale(times[0] - timeout) && forall i :: 0 <= i <= id ==> states[0][i].Due(times[0])
    requires Left(states[0], last, id) < LIMIT * |times|
    ensures k < |times| && id < |states[k]| <= |states[k + 1]|
    ensures InBatch(Recovered(states[k], times[k] - timeout), times[k], id) && Advanced(states[0][id], states[k + 1][id])
  {
    hide InBatch, Recovered, Left, Unspent, Advanced, Polled, Spaced;
    SpacedLater(states, times, timeout, last);
    var es, now := states[0], times[0];
    if InBatch(Recovered(es, now - timeout), now, id) {
      k := 0;
      FirstAttempt(es, states[1][..|es|], now, timeout, id);
    } else {
      PollMisses(es, states[1][..|es|], now, timeout, last, id);
      LeftPrefix(states[1], |es|, last, id);
      LeftBounds(states[1], last, id);
      StaleLater(states[1], id, now, times, timeout);
      k := AttemptedWithin(states[1..], times[1..], timeout, last, id);
      SameCount(es[id], states[1][id], states[1..][k + 1][id]);
      k := k + 1;
    }
  }

  // An entry a crash left processing, or any other that is stale, is attempted
  // again, and thereby settled or one failure further: at the latest in the poll
  // when the older ones can have no failures left.
  lemma CrashedIsRetried(states: seq<seq<Entry>>, times: seq<int>, timeout: int, last: nat, id: nat) returns (k: nat)
    requires Spaced(states, times, timeout, last) && id < |states[0]| && times != []
    requires states[0][id].Stale(times[0] - timeout) && forall i :: 0 <= i <= id ==> states[0][i].Due(times[0])
    requires last * id < LIMIT * |times|
    ensures k < |times| && id < |states[k]| <= |states[k + 1]|
    ensures InBatch(Recovered(states[k], times[k] - timeout), times[k], id) && Advanced(states[0][id], states[k + 1][id])
  {
    LeftBounds(states[0], last, id);
    k := AttemptedWithin(states, times, timeout, last, id);
  }
}
