// The write-ahead log of one symbol (internal/matching/wal/wal.go), over a file
// that is a byte sequence with a synced prefix.
module Wals {
  import opened Framing
  import opened Options
  import opened WalReads
  import opened TornTails

  datatype SyncMode = SyncNone | SyncAlways | SyncByCount(every: nat) | SyncByDuration(interval: int)

  // One entry as replay hands it on; an unknown type carries no payload.
  datatype Delivered<+E> = Delivered(lsn: nat, payload: Option<E>)

  // What replay delivers of the records it reads past an LSN: an undecodable
  // payload is skipped.
  function Deliver<E>(rs: seq<Record>, from: nat, dec: (byte, seq<byte>) -> Option<E>): seq<Delivered<E>> {
    if rs == [] then [] else DeliverOne(rs[0], from, dec) + Deliver(rs[1..], from, dec)
  }

  function DeliverOne<E>(r: Record, from: nat, dec: (byte, seq<byte>) -> Option<E>): seq<Delivered<E>> {
    if r.lsn <= from then []
    else if r.kind > 2 then [Delivered(r.lsn, None)]
    else if dec(r.kind, r.payload).Some? then [Delivered(r.lsn, dec(r.kind, r.payload))]
    else []
  }

  // What a record past the LSN is handed on as: an unknown type without payload,
  // and a known one if its payload decodes.
  ghost predicate Handed<E>(r: Record, from: nat, dec: (byte, seq<byte>) -> Option<E>, x: Delivered<E>) {
    && r.lsn > from && x.lsn == r.lsn
    && if r.kind == 0 || r.kind == 1 || r.kind == 2 then x.payload != None && x.payload == dec(r.kind, r.payload) else x.payload == None
  }

  lemma {:induction false} DeliveredAre<E>(rs: seq<Record>, from: nat, dec: (byte, seq<byte>) -> Option<E>)
    ensures forall x :: x in Deliver(rs, from, dec) <==> exists r :: r in rs && Handed(r, from, dec, x)
  {
    if rs != [] {
      hide Handed, DeliverOne;
      DeliveredAre(rs[1..], from, dec);
      OneHanded(rs[0], from, dec);
      assert rs == [rs[0]] + rs[1..];
    }
  }

  lemma OneHanded<E>(r: Record, from: nat, dec: (byte, seq<byte>) -> Option<E>)
    ensures forall x :: x in DeliverOne(r, from, dec) <==> Handed(r, from, dec, x)
  {
  }

  lemma {:induction false} DeliverConcat<E>(a: seq<Record>, b: seq<Record>, from: nat, dec: (byte, seq<byte>) -> Option<E>)
    ensures Deliver(a + b, from, dec) == Deliver(a, from, dec) + Deliver(b, from, dec)
  {
    if a == [] {
      assert a + b == b;
    } else {
      hide DeliverOne;
      DeliverConcat(a[1..], b, from, dec);
      assert (a + b)[1..] == a[1..] + b;
      Regroup(DeliverOne(a[0], from, dec), Deliver(a[1..], from, dec), Deliver(b, from, dec));
    }
  }

  // What is left of a record torn after n bytes is delivered past an LSN exactly
  // when it does not vanish, its LSN as far as written exceeds that one, and its
  // payload, zeros for what is missing, decodes.
  predicate Haunts<E>(r: Record, n: nat, from: nat, dec: (byte, seq<byte>) -> Option<E>)
    requires n < |Frame(r)|
  {
    !Vanishes(r, n) && Phantom(r, n).lsn > from && dec(Phantom(r, n).kind, Phantom(r, n).payload).Some?
  }

  lemma TornIsDelivered<E>(r: Record, n: nat, from: nat, dec: (byte, seq<byte>) -> Option<E>)
    requires Framable(r) && n < |Frame(r)|
    ensures Deliver(Loose(Frame(r)[..n]), from, dec) ==
      if Haunts(r, n, from, dec) then [Delivered(Phantom(r, n).lsn, dec(Phantom(r, n).kind, Phantom(r, n).payload))] else []
  {
    hide Loose, Vanishes;
    TornIsRead(r, n);
    if !Vanishes(r, n) {
      var p := Phantom(r, n);
      assert Deliver([p], from, dec) == DeliverOne(p, from, dec) + Deliver([p][1..], from, dec);
    }
  }

  ghost predicate Increasing(rs: seq<Record>) {
    forall i, j :: 0 <= i < j < |rs| ==> rs[i].lsn < rs[j].lsn
  }

  class Wal {
    const mode: SyncMode
    var file: seq<byte>
    var lsn: nat
    var pendingSyncs: nat
    var lastSyncTime: int
    var closed: bool
    ghost var prior: seq<Record>      // what the file held when it was opened with a torn tail,
    ghost var torn: seq<byte>         // and that tail; both empty for a whole log
    ghost var records: seq<Record>    // what the file holds, behind the tear if there is one
    ghost var syncedRecords: nat      // how many of them are certainly on disk
    ghost var times: seq<int>         // when they were appended, of those not on disk
    ghost var syncsSucceeded: bool    // no fsync of an append has failed

    ghost predicate Valid()
      reads this
    {
      Laid() && Durable()
    }

    // The file holds the records, under increasing LSNs.
    ghost predicate Laid()
      reads this`file, this`lsn, this`prior, this`torn, this`records
    {
      && (forall k :: 0 <= k < |prior| ==> Framable(prior[k]))
      && (forall k :: 0 <= k < |records| ==> Framable(records[k]))
      && file == FrameAll(prior) + (torn + FrameAll(records))
      && (if torn == [] then prior == [] else Torn(torn))
      && Increasing(prior + records) && LastLsn(prior + records) <= lsn && lsn < TWO_64
    }

    // What may not be on disk is bounded by the sync mode.
    ghost predicate Durable()
      reads this
    {
      && syncedRecords <= |records|
      && |records| - syncedRecords <= pendingSyncs
      && (syncsSucceeded && mode.SyncByCount? && mode.every > 0 ==> pendingSyncs < mode.every)
      && (syncsSucceeded && mode == SyncAlways ==> pendingSyncs == 0)
      && |times| == |records|
      && (syncsSucceeded && mode.SyncByDuration? ==> Recent(times, syncedRecords, lastSyncTime, mode.interval))
    }

    // From the n-th on all times are within an interval of the last sync.
    static ghost predicate Recent(ts: seq<int>, n: nat, last: int, interval: int) {
      forall k :: n <= k < |ts| ==> ts[k] - last < interval
    }

    static lemma RecentPush(ts: seq<int>, n: nat, last: int, interval: int, t: int)
      ensures Recent(ts + [t], |ts| + 1, t, interval)
      ensures Recent(ts, n, last, interval) && t - last < interval ==> Recent(ts + [t], n, last, interval)
    {
    }

    // Opening finds the last LSN by scanning, and leaves a torn tail where it is.
    // What the log holds is taken to be on disk.
    constructor (mode: SyncMode, data: seq<byte>, now: int, ghost rs: seq<Record>, ghost tail: seq<byte>)
      requires (forall k :: 0 <= k < |rs| ==> Framable(rs[k])) && Increasing(rs)
      requires data == FrameAll(rs) + tail && (tail == [] || Torn(tail))
      ensures Valid() && lsn == LastLsn(rs) && torn == tail && file == data
      ensures if tail == [] then prior == [] && records == rs else prior == rs && records == []
      ensures syncedRecords == |records| && pendingSyncs == 0 && lastSyncTime == now
      ensures this.mode == mode && syncsSucceeded && !closed
    {
      hide FrameAll, Scan, Increasing, Framable, Torn;
      this.mode := mode;
      file := data;
      var last, pos := ReadLastLsn(data);
      lsn := last;
      pendingSyncs, lastSyncTime, closed := 0, now, false;
      torn := tail;
      prior, records, syncedRecords := if tail == [] then [] else rs, if tail == [] then rs else [], if tail == [] then |rs| else 0;
      syncsSucceeded := true;
      times := seq(if tail == [] then |rs| else 0, _ => now);
      new;
      TailIsSkipped(rs, tail);
      OpenedFacts(rs, tail);
      assert prior + records == rs;
    }

    static lemma OpenedFacts(rs: seq<Record>, tail: seq<byte>)
      requires forall k :: 0 <= k < |rs| ==> Framable(rs[k])
      ensures FrameAll([]) == [] && FrameAll(rs) + [] == FrameAll(rs) && [] + ([] + FrameAll(rs)) == FrameAll(rs)
      ensures FrameAll(rs) + (tail + []) == FrameAll(rs) + tail && LastLsn(rs) < TWO_64
    {
      hide Frame;
      assert tail + [] == tail;
      if rs != [] { assert Framable(rs[|rs| - 1]); }
    }

    static lemma TailIsSkipped(rs: seq<Record>, tail: seq<byte>)
      requires (forall k :: 0 <= k < |rs| ==> Framable(rs[k])) && (tail == [] || Torn(tail))
      ensures Scan(FrameAll(rs) + tail) == rs
    {
      if tail != [] { TornIncomplete(tail); }
      ScanFrames(rs, tail);
    }

    predicate ShouldSync(now: int)
      reads this
    {
      match mode
      case SyncNone => false
      case SyncAlways => true
      case SyncByCount(every) => pendingSyncs >= every
      case SyncByDuration(interval) => now - lastSyncTime >= interval
    }

    static lemma PushRecord(rs: seq<Record>, r: Record, last: nat)
      requires Increasing(rs) && LastLsn(rs) <= last && r.lsn == last + 1
      ensures Increasing(rs + [r]) && LastLsn(rs + [r]) == r.lsn
    {
      forall i | 0 <= i < |rs| ensures rs[i].lsn < r.lsn {
        if i < |rs| - 1 { assert rs[i].lsn < rs[|rs| - 1].lsn; }
      }
    }

    static lemma LastIsBound(rs: seq<Record>)
      requires Increasing(rs)
      ensures forall r :: r in rs ==> r.lsn <= LastLsn(rs)
    {
    }

    // One record at the end of the file, under the LSN just taken.
    method WriteRecord(record: Record)
      requires Laid() && LastLsn(prior + records) < lsn == record.lsn && Framable(record)
      modifies this`file, this`records
      ensures Laid() && records == old(records) + [record]
    {
      hide Frame, FrameAll, Torn, Framable, Increasing, LastLsn;
      PushRecord(prior + records, record, lsn - 1);
      FrameAllPush(records, record);
      Regroup(prior, records, [record]);
      Regroup(torn, FrameAll(records), Frame(record));
      Regroup(FrameAll(prior), torn + FrameAll(records), Frame(record));
      file := file + Frame(record);
      records := records + [record];
    }

    // The counter may move on.
    twostate lemma Counted()
      requires old(Laid()) && lsn == old(lsn) + 1 < TWO_64
      requires file == old(file) && prior == old(prior) && torn == old(torn) && records == old(records)
      ensures Laid() && LastLsn(prior + records) < lsn
    {
    }

    // Append: the LSN is taken first, and is lost when the payload cannot be
    // encoded. `fsyncOk` is what the disk answers if it is asked.
    method Append(kind: byte, payload: Option<seq<byte>>, now: int, fsyncOk: bool) returns (r: Option<nat>)
      requires Valid() && lsn + 1 < TWO_64 && kind <= 2
      requires payload.Some? ==> HEADER + |payload.value| < TWO_32
      modifies this
      ensures Valid()
      ensures r.Some? <==> !old(closed) && payload.Some?
      ensures r.Some? ==> r.value == lsn == old(lsn) + 1 && records == old(records) + [Record(lsn, kind, payload.value)]
      ensures r.None? ==> records == old(records) && lsn == old(lsn) + if old(closed) then 0 else 1
      ensures times == old(times) + if r.Some? then [now] else []
      ensures
        var asked := r.Some? && match mode
          case SyncNone => false
          case SyncAlways => true
          case SyncByCount(every) => old(pendingSyncs) + 1 >= every
          case SyncByDuration(interval) => now - old(lastSyncTime) >= interval;
        && (asked && fsyncOk ==> syncedRecords == |records| && pendingSyncs == 0 && lastSyncTime == now)
        && (!asked || !fsyncOk ==>
              && syncedRecords == old(syncedRecords) && lastSyncTime == old(lastSyncTime)
              && pendingSyncs == old(pendingSyncs) + if r.Some? then 1 else 0)
        && syncsSucceeded == (old(syncsSucceeded) && (asked ==> fsyncOk))
      ensures prior == old(prior) && torn == old(torn)
      ensures closed == old(closed)
    {
      hide Laid, Recent;
      if mode.SyncByDuration? { RecentPush(times, syncedRecords, lastSyncTime, mode.interval, now); }
      if closed {
        return None;
      }
      lsn := lsn + 1;
      Counted();
      if payload.None? {
        return None;
      }
      WriteRecord(Record(lsn, kind, payload.value));
      times := times + [now];
      pendingSyncs := pendingSyncs + 1;
      if ShouldSync(now) {
        if fsyncOk {
          pendingSyncs := 0;
          lastSyncTime := now;
          syncedRecords := |records|;
        } else {
          syncsSucceeded := false;
        }
      }
      r := Some(lsn);
    }

    // The counter, as a snapshot captures it.
    function SnapshotLsn(): nat
      reads this
    {
      lsn
    }

    // Replay past an LSN, record by record, whatever the file holds.
    method Replay<E>(from: nat, dec: (byte, seq<byte>) -> Option<E>) returns (out: seq<Delivered<E>>)
      ensures out == Deliver(Loose(file), from, dec)
      ensures forall x :: x in out <==> exists r :: r in Loose(file) && Handed(r, from, dec, x)
    {
      hide Handed, Loose, Deliver, Fill, LsnOf, LengthOf, KindOf;
      out := [];
      NothingLeft(from, dec);
      var d := file;
      while d != []
        invariant Deliver(Loose(file), from, dec) == out + Deliver(Loose(d), from, dec)
        decreases |d|
      {
        ghost var d0 := d;
        var header := Fill(d, HEADER);
        d := Skip(d, HEADER);
        var length := LengthOf(header);
        LooseStep(d0, from, dec);
        if LsnOf(header) <= from {
          d := Skip(d, length);
          continue;
        }
        if length > 0 && d == [] {
          break;
        }
        var payload := Fill(d, length);
        d := Skip(d, length);
        ghost var r := Record(LsnOf(header), KindOf(header), payload);
        assert out + (DeliverOne(r, from, dec) + Deliver(Loose(d), from, dec)) == (out + DeliverOne(r, from, dec)) + Deliver(Loose(d), from, dec);
        if KindOf(header) > 2 {
          out := out + [Delivered(LsnOf(header), None)];
        } else if dec(KindOf(header), payload).Some? {
          out := out + [Delivered(LsnOf(header), dec(KindOf(header), payload))];
        }
      }
      DeliveredAre(Loose(file), from, dec);
    }

    static lemma NothingLeft<E>(from: nat, dec: (byte, seq<byte>) -> Option<E>)
      ensures Deliver(Loose([]), from, dec) == []
    {
    }

    // What one round of the replay loop delivers.
    static lemma LooseStep<E>(d: seq<byte>, from: nat, dec: (byte, seq<byte>) -> Option<E>)
      requires d != []
      ensures
        var h, rest := Fill(d, HEADER), Skip(d, HEADER);
        Deliver(Loose(d), from, dec) ==
          if LengthOf(h) > 0 && rest == [] then []
          else DeliverOne(Record(LsnOf(h), KindOf(h), Fill(rest, LengthOf(h))), from, dec)
               + Deliver(Loose(Skip(rest, LengthOf(h))), from, dec)
    {
      var h, rest := Fill(d, HEADER), Skip(d, HEADER);
      if !(LengthOf(h) > 0 && rest == []) {
        var r := Record(LsnOf(h), KindOf(h), Fill(rest, LengthOf(h)));
        assert Loose(d)[0] == r && Loose(d)[1..] == Loose(Skip(rest, LengthOf(h)));
      }
    }

    // The rewriting loop of truncateLocked, whatever the file holds.
    static method KeepAfter(file: seq<byte>, upTo: nat) returns (kept: seq<byte>, last: nat)
      ensures kept == FrameAll(Keep(Loose(file), upTo)) && last == LastLsn(Keep(Loose(file), upTo))
    {
      hide Loose, Keep, Fill, LsnOf, LengthOf, KindOf, FrameAll, Frame;
      KeepNothing(upTo);
      kept, last := [], 0;
      ghost var seen: seq<Record> := [];
      var d := file;
      while d != []
        invariant Keep(Loose(file), upTo) == seen + Keep(Loose(d), upTo)
        invariant kept == FrameAll(seen) && last == LastLsn(seen)
        decreases |d|
      {
        ghost var d0 := d;
        var header := Fill(d, HEADER);
        d := Skip(d, HEADER);
        var length := LengthOf(header);
        KeepStep(d0, upTo);
        if length > 0 && d == [] {
          break;
        }
        var payload := Fill(d, length);
        d := Skip(d, length);
        if LsnOf(header) > upTo {
          HeaderOf(header, payload);
          FrameAllPush(seen, Record(LsnOf(header), KindOf(header), payload));
          kept := kept + (header + payload);
          last := LsnOf(header);
          seen := seen + [Record(LsnOf(header), KindOf(header), payload)];
        }
      }
      assert seen + [] == seen;
    }

    static lemma KeepNothing(upTo: nat)
      ensures Keep(Loose([]), upTo) == [] && FrameAll([]) == []
    {
    }

    static lemma KeepStep(d: seq<byte>, upTo: nat)
      requires d != []
      ensures
        var h, rest := Fill(d, HEADER), Skip(d, HEADER);
        Keep(Loose(d), upTo) ==
          if LengthOf(h) > 0 && rest == [] then []
          else (if LsnOf(h) > upTo then [Record(LsnOf(h), KindOf(h), Fill(rest, LengthOf(h)))] else [])
               + Keep(Loose(Skip(rest, LengthOf(h))), upTo)
    {
      var h, rest := Fill(d, HEADER), Skip(d, HEADER);
      if !(LengthOf(h) > 0 && rest == []) {
        var r := Record(LsnOf(h), KindOf(h), Fill(rest, LengthOf(h)));
        assert Loose(d)[0] == r && Loose(d)[1..] == Loose(Skip(rest, LengthOf(h)));
      }
    }

    // On a whole log, replay and truncation see exactly its records.
    lemma LooseIsWhole()
      requires Laid() && torn == []
      ensures Loose(file) == records && file == FrameAll(records) && prior + records == records
    {
      LooseFrames(records, []);
      assert FrameAll(records) + [] == file && records + Loose([]) == records;
    }

    static lemma {:induction false} KeepMembers(rs: seq<Record>, upTo: nat)
      ensures forall r :: r in Keep(rs, upTo) <==> r in rs && r.lsn > upTo
    {
      if rs != [] {
        KeepMembers(rs[1..], upTo);
        assert rs == [rs[0]] + rs[1..];
      }
    }

    static lemma {:induction false} KeepIncreasing(rs: seq<Record>, upTo: nat)
      requires Increasing(rs)
      ensures Increasing(Keep(rs, upTo))
    {
      if rs != [] {
        var rest := rs[1..];
        KeepIncreasing(rest, upTo);
        KeepMembers(rest, upTo);
        forall r | r in rest ensures rs[0].lsn < r.lsn {}
        if rs[0].lsn > upTo {
          ConsIncreasing(rs[0], Keep(rest, upTo));
        }
      }
    }

    // The last LSN kept is the last LSN, unless nothing was kept.
    static lemma KeepLast(rs: seq<Record>, upTo: nat)
      requires Increasing(rs)
      ensures LastLsn(Keep(rs, upTo)) == if LastLsn(rs) <= upTo then 0 else LastLsn(rs)
    {
      hide Keep;
      KeepMembers(rs, upTo);
      KeepIncreasing(rs, upTo);
      var kept := Keep(rs, upTo);
      if kept != [] {
        assert kept[|kept| - 1] in rs && kept[|kept| - 1].lsn > upTo;
        LastIsBound(rs);
        var last := rs[|rs| - 1];
        assert last in kept;
        LastIsBound(kept);
      } else if rs != [] {
        assert rs[|rs| - 1] !in kept;
      }
    }

    static lemma {:induction false} KeepNone(rs: seq<Record>, upTo: nat)
      requires forall r :: r in rs ==> r.lsn <= upTo
      ensures Keep(rs, upTo) == []
    {
      if rs != [] { KeepNone(rs[1..], upTo); }
    }

    static lemma KeepFacts(rs: seq<Record>, upTo: nat)
      requires (forall k :: 0 <= k < |rs| ==> Framable(rs[k])) && Increasing(rs)
      ensures
        var kept := Keep(rs, upTo);
        && (forall k :: 0 <= k < |kept| ==> Framable(kept[k])) && Increasing(kept)
        && LastLsn(kept) == if LastLsn(rs) <= upTo then 0 else LastLsn(rs)
    {
      hide Keep, Increasing, LastLsn;
      KeepMembers(rs, upTo);
      KeepIncreasing(rs, upTo);
      KeepLast(rs, upTo);
      forall k | 0 <= k < |Keep(rs, upTo)| ensures Framable(Keep(rs, upTo)[k]) {
        assert Keep(rs, upTo)[k] in rs;
      }
    }

    static lemma ConsIncreasing(r: Record, rs: seq<Record>)
      requires Increasing(rs) && forall x :: x in rs ==> r.lsn < x.lsn
      ensures Increasing([r] + rs)
    {
      forall i, j | 0 <= i < j < |[r] + rs| ensures ([r] + rs)[i].lsn < ([r] + rs)[j].lsn {
        assert ([r] + rs)[j] == rs[j - 1] && rs[j - 1] in rs;
      }
    }

    // Truncate keeps the records past an LSN as the plain reads find them, syncs
    // what it wrote, and sets the counter to the last LSN kept: 0 when none is.
    // On a log that was opened with a torn tail those need not be the records
    // that were written, nor in order.
    method Truncate(upTo: nat)
      requires Valid()
      modifies this
      ensures file == FrameAll(Keep(Loose(old(file)), upTo)) && lsn == LastLsn(Keep(Loose(old(file)), upTo))
      ensures prior == [] && torn == [] && records == Keep(Loose(old(file)), upTo) && syncedRecords == |records|
      ensures Orderly(records) ==> Valid()
      ensures old(torn) == [] ==> Valid() && records == Keep(old(records), upTo)
      ensures closed == old(closed) && syncsSucceeded == old(syncsSucceeded)
    {
      hide Keep, Loose, FrameAll, Laid, Orderly, Recent, LastLsn;
      if torn == [] { KeptInOrder(upTo); }
      ghost var found := Keep(Loose(file), upTo);
      var kept, last := KeepAfter(file, upTo);
      file := kept;
      prior, torn, records, times := [], [], found, Noughts(|found|);
      NoneRecent(|found|, lastSyncTime);
      syncedRecords := |records|;
      lsn := last;
      if Orderly(records) { Rewritten(); }
    }

    lemma KeptInOrder(upTo: nat)
      requires Laid() && torn == []
      ensures Loose(file) == records && Orderly(Keep(records, upTo))
    {
      hide Keep, Loose, FrameAll, Torn;
      LooseIsWhole();
      KeepFacts(records, upTo);
    }

    lemma Rewritten()
      requires prior == [] && torn == [] && file == FrameAll(records) && lsn == LastLsn(records) && Orderly(records)
      ensures Laid()
    {
      hide FrameAll;
      WholeLog(records);
    }

    static function Noughts(n: nat): (ts: seq<int>)
      ensures |ts| == n
    {
      seq(n, _ => 0)
    }

    static lemma NoneRecent(n: nat, last: int)
      ensures forall interval :: Recent(Noughts(n), n, last, interval)
    {
    }

    static ghost predicate Orderly(rs: seq<Record>) {
      (forall k :: 0 <= k < |rs| ==> Framable(rs[k])) && Increasing(rs)
    }

    static lemma WholeLog(rs: seq<Record>)
      ensures FrameAll([]) + ([] + FrameAll(rs)) == FrameAll(rs) && [] + rs == rs
      ensures Orderly(rs) ==> LastLsn(rs) < TWO_64
    {
      if rs != [] { assert Orderly(rs) ==> Framable(rs[|rs| - 1]); }
    }

    // Close syncs what is pending, unless syncing is off.
    method Close(fsyncOk: bool)
      requires Valid()
      modifies this
      ensures Valid() && closed && records == old(records) && file == old(file) && lsn == old(lsn)
      ensures fsyncOk && !old(closed) && mode != SyncNone ==> syncedRecords == |records|
      ensures !fsyncOk || old(closed) || mode == SyncNone ==> syncedRecords == old(syncedRecords)
      ensures syncsSucceeded == old(syncsSucceeded)
    {
      if closed {
        return;
      }
      closed := true;
      if pendingSyncs > 0 && mode != SyncNone && fsyncOk {
        pendingSyncs := 0;
        syncedRecords := |records|;
      }
    }

    // Replaying past an LSN gives the same entries just before and just after
    // truncating there.
    static lemma ReplayAfterTruncate<E>(rs: seq<Record>, upTo: nat, dec: (byte, seq<byte>) -> Option<E>)
      ensures Deliver(Keep(rs, upTo), upTo, dec) == Deliver(rs, upTo, dec)
    {
      if rs != [] {
        ReplayAfterTruncate(rs[1..], upTo, dec);
        if rs[0].lsn > upTo {
          assert Keep(rs, upTo)[0] == rs[0] && Keep(rs, upTo)[1..] == Keep(rs[1..], upTo);
        } else {
          assert Keep(rs, upTo) == Keep(rs[1..], upTo);
        }
      }
    }

    // ---- Durability ----

    // A crash leaves some prefix of the file that includes the synced part. What
    // reopening then finds is a prefix of the records, and with every fsync
    // successful at most N - 1 records are lost when syncing every N, none when
    // always syncing, and, when syncing by time, only such as were appended less
    // than one interval after the last sync.
    lemma CrashLoss(k: nat) returns (m: nat)
      requires Valid() && torn == [] && |FrameAll(records[..syncedRecords])| <= k <= |file|
      ensures m <= |records| && Scan(file[..k]) == records[..m] && |FrameAll(records[..m])| <= k
      ensures if m == |records| then k == |file| else k < |FrameAll(records[..m])| + |Frame(records[m])|
      ensures syncsSucceeded && mode.SyncByCount? && mode.every > 0 ==> |records| - m <= mode.every - 1
      ensures syncsSucceeded && mode == SyncAlways ==> m == |records|
      ensures |times| == |records|
      ensures syncsSucceeded && mode.SyncByDuration? ==> forall k :: m <= k < |records| ==> times[k] - lastSyncTime < mode.interval
    {
      hide FrameAll, Frame, Scan, Framable, Increasing, Torn, Loose;
      LooseIsWhole();
      m := CrashKeepsPrefix(records, syncedRecords, k);
      LostIsRecent(m);
    }

    lemma LostIsRecent(m: nat)
      requires Valid() && syncedRecords <= m
      ensures |times| == |records|
      ensures syncsSucceeded && mode.SyncByDuration? ==> forall k :: m <= k < |records| ==> times[k] - lastSyncTime < mode.interval
    {
    }

    // A crash inside a truncation leaves some prefix of what it is writing, over
    // an emptied file: the m records found are all it keeps exactly when all its
    // bytes are there, however the log syncs.
    static lemma CrashInTruncate(rs: seq<Record>, upTo: nat, k: nat) returns (m: nat)
      requires Orderly(rs) && k <= |FrameAll(Keep(rs, upTo))|
      ensures m <= |Keep(rs, upTo)| && Scan(FrameAll(Keep(rs, upTo))[..k]) == Keep(rs, upTo)[..m]
      ensures m == |Keep(rs, upTo)| <==> k == |FrameAll(Keep(rs, upTo))|
      ensures k == 0 ==> m == 0
    {
      hide Keep, FrameAll, Scan, Increasing;
      KeepFacts(rs, upTo);
      var kept := Keep(rs, upTo);
      assert |FrameAll(kept[..0])| == 0 by { NothingFramed(kept); }
      m := CrashKeepsPrefix(kept, 0, k);
      assert kept[..|kept|] == kept;
      if 0 < m { FrameAllGrows(kept, 0, m); }
      if m < |kept| { FrameAllGrows(kept, m, |kept|); }
    }

    static lemma NothingFramed(rs: seq<Record>)
      ensures FrameAll(rs[..0]) == []
    {
    }
  }
}
