// What a crash in the middle of a record does to the log: what the plain reads
// make of the torn record, and what appending behind it does.
module TornTails {
  import opened Framing
  import opened WalReads

  // ---- Reading a torn record ----

  // n with its low w bytes cleared.
  function Clear(n: nat, w: nat): nat {
    if w == 0 then n else 256 * Clear(n / 256, w - 1)
  }

  lemma {:induction false} ClearLeaves(n: nat, w: nat)
    ensures Clear(n, w) > 0 <==> n >= Pow256(w)
    ensures Clear(n, w) <= n
  {
    if w > 0 { ClearLeaves(n / 256, w - 1); }
  }

  // Big-endian bytes whose last w were never written and read as zeros.
  lemma {:induction false} GetTorn(n: nat, width: nat, w: nat)
    requires n < Pow256(width) && w <= width
    ensures GetBE(PutBE(n, width)[..width - w] + Zeros(w)) == Clear(n, w)
  {
    var s := PutBE(n, width);
    if w == 0 {
      GetPut(n, width);
      assert s[..width] + Zeros(0) == s;
    } else {
      GetTorn(n / 256, width - 1, w - 1);
      var t := s[..width - w] + Zeros(w);
      assert s[..width - w] == PutBE(n / 256, width - 1)[..width - w];
      assert t[..|t| - 1] == s[..width - w] + Zeros(w - 1);
    }
  }

  // The header fields as read when only n bytes of it are there.
  lemma TornFields(r: Record, n: nat)
    requires Framable(r) && n <= HEADER
    ensures
      var h := Fill(Frame(r)[..n], HEADER);
      && LsnOf(h) == Clear(r.lsn, if n < 8 then 8 - n else 0)
      && KindOf(h) == (if n < 9 then 0 else r.kind)
      && LengthOf(h) == (if n < 9 then 0 else Clear(|r.payload|, HEADER - n))
  {
    Widths();
    var h := Fill(Frame(r)[..n], HEADER);
    assert Frame(r)[..n] == Header(r)[..n];
    var w := if n < 8 then 8 - n else 0;
    assert h[..8] == PutBE(r.lsn, 8)[..8 - w] + Zeros(w);
    GetTorn(r.lsn, 8, w);
    var v := if n < 9 then 4 else HEADER - n;
    assert h[9..13] == PutBE(|r.payload|, 4)[..4 - v] + Zeros(v) by {
      assert n >= 9 ==> h[9..13] == Header(r)[9..n] + Zeros(v);
    }
    GetTorn(|r.payload|, 4, v);
    ClearLeaves(|r.payload|, v);
  }

  // The plain reads make nothing of a record torn after n bytes exactly when
  // nothing is left of it, or the tear is behind the first length byte, not
  // behind the header, and what is there of the length is not zero.
  predicate Vanishes(r: Record, n: nat) {
    n == 0 || (9 < n <= HEADER && |r.payload| >= Pow256(HEADER - n))
  }

  // The record they make of it otherwise: zeros for all that is missing.
  function Phantom(r: Record, n: nat): Record
    requires n < |Frame(r)|
  {
    if n <= HEADER then Record(Clear(r.lsn, if n < 8 then 8 - n else 0), if n < 9 then 0 else r.kind, [])
    else r.(payload := r.payload[..n - HEADER] + Zeros(|r.payload| - (n - HEADER)))
  }

  lemma TornIsRead(r: Record, n: nat)
    requires Framable(r) && n < |Frame(r)|
    ensures Loose(Frame(r)[..n]) == if Vanishes(r, n) then [] else [Phantom(r, n)]
  {
    var d := Frame(r)[..n];
    if n <= HEADER {
      TornHeaderIsRead(r, n);
    } else {
      TornPayloadIsRead(r, n - HEADER);
    }
  }

  lemma TornHeaderIsRead(r: Record, n: nat)
    requires Framable(r) && n <= HEADER && n < |Frame(r)|
    ensures Loose(Frame(r)[..n]) == if Vanishes(r, n) then [] else [Phantom(r, n)]
  {
    hide LsnOf, KindOf, LengthOf, Frame, Clear, Loose, Fill;
    if n == 0 {
      NothingIsRead();
    } else {
      TornFields(r, n);
      HeaderAloneIsRead(Frame(r)[..n]);
      Widths();
      if n >= 9 { ClearLeaves(|r.payload|, HEADER - n); }
    }
  }

  lemma NothingIsRead()
    ensures Loose([]) == []
  {
  }

  lemma HeaderAloneIsRead(d: seq<byte>)
    requires 0 < |d| <= HEADER
    ensures
      var h := Fill(d, HEADER);
      Loose(d) == if LengthOf(h) > 0 then [] else [Record(LsnOf(h), KindOf(h), [])]
  {
    hide LsnOf, KindOf, LengthOf;
    assert Skip(d, HEADER) == [];
    assert Fill([], 0) == [] && Skip([], 0) == [];
  }

  lemma TornPayloadIsRead(r: Record, n: nat)
    requires Framable(r) && 0 < n < |r.payload|
    ensures Loose(Frame(r)[..HEADER + n]) == [r.(payload := r.payload[..n] + Zeros(|r.payload| - n))]
  {
    var d := Frame(r)[..HEADER + n];
    assert d == Header(r) + r.payload[..n];
    assert Fill(d, HEADER) == Header(r) && Skip(d, HEADER) == r.payload[..n];
    assert Header(r)[..HEADER] == Header(r);
    HeaderFields(r, Header(r));
  }

  // Truncation keeps the phantom like any other record, and writes it back whole.
  lemma TornIsKept(rs: seq<Record>, r: Record, n: nat, upTo: nat)
    requires (forall i :: 0 <= i < |rs| ==> Framable(rs[i])) && Framable(r) && n < |Frame(r)|
    ensures Keep(Loose(FrameAll(rs) + Frame(r)[..n]), upTo) ==
      Keep(rs, upTo) + if Vanishes(r, n) || Phantom(r, n).lsn <= upTo then [] else [Phantom(r, n)]
  {
    hide Loose, Vanishes, Phantom, Frame, FrameAll;
    LooseFrames(rs, Frame(r)[..n]);
    KeepConcat(rs, Loose(Frame(r)[..n]), upTo);
    TornIsRead(r, n);
    if !Vanishes(r, n) { assert [Phantom(r, n)][1..] == []; }
  }

  // ---- Appending behind a torn record ----

  // Scanning starts a record at offset k.
  ghost predicate ScanReads(d: seq<byte>, k: nat)
    decreases |d|
  {
    && Complete(d)
    && (k == 0 || (k >= HEADER + LengthOf(d) && ScanReads(d[HEADER + LengthOf(d)..], k - (HEADER + LengthOf(d)))))
  }

  // So do the plain reads of replay and truncation.
  ghost predicate LooseReads(d: seq<byte>, k: nat)
    decreases |d|
  {
    && d != []
    && (k == 0 ||
        var size := HEADER + LengthOf(Fill(d, HEADER));
        size <= |d| && k >= size && LooseReads(d[size..], k - size))
  }

  // Past the complete records before the tear.
  lemma {:induction false} ReadsBehind(rs: seq<Record>, d: seq<byte>, k: nat)
    requires forall i :: 0 <= i < |rs| ==> Framable(rs[i])
    ensures ScanReads(FrameAll(rs) + d, |FrameAll(rs)| + k) <==> ScanReads(d, k)
    ensures LooseReads(FrameAll(rs) + d, |FrameAll(rs)| + k) <==> LooseReads(d, k)
  {
    hide Frame, LengthOf, ScanReads, LooseReads, Header;
    if rs == [] {
      assert FrameAll(rs) + d == d;
    } else {
      var rest := FrameAll(rs[1..]) + d;
      ReadsBehind(rs[1..], d, k);
      Regroup(Frame(rs[0]), FrameAll(rs[1..]), d);
      ReadsBehindOne(rs[0], rest, |FrameAll(rs[1..])| + k);
    }
  }

  lemma ReadsBehindOne(r: Record, d: seq<byte>, k: nat)
    requires Framable(r)
    ensures ScanReads(Frame(r) + d, |Frame(r)| + k) <==> ScanReads(d, k)
    ensures LooseReads(Frame(r) + d, |Frame(r)| + k) <==> LooseReads(d, k)
  {
    hide Frame, LengthOf, First;
    FirstOfFrame(r, d);
    var all := Frame(r) + d;
    FrameLength(r, d);
    assert all[|Frame(r)|..] == d;
  }

  lemma FrameLength(r: Record, d: seq<byte>)
    requires Framable(r)
    ensures LengthOf(Frame(r) + d) == |r.payload| && Fill(Frame(r) + d, HEADER) == Header(r)
    ensures LengthOf(Header(r)) == |r.payload|
  {
    assert (Frame(r) + d)[..HEADER] == Header(r);
    assert Header(r)[..HEADER] == Header(r);
    HeaderFields(r, Frame(r) + d);
    HeaderFields(r, Header(r));
  }

  // A record appended behind a torn one is found again, by the scan and by the
  // plain reads, exactly when nothing is left of the torn one: otherwise
  // reading takes the new record's first bytes for the torn one's missing ones.
  lemma NextIsFound(rs: seq<Record>, torn: Record, n: nat, r: Record, rest: seq<byte>)
    requires (forall i :: 0 <= i < |rs| ==> Framable(rs[i])) && Framable(torn) && Framable(r) && n < |Frame(torn)|
    ensures
      var d := FrameAll(rs) + (Frame(torn)[..n] + (Frame(r) + rest));
      && (ScanReads(d, |FrameAll(rs)| + n) <==> n == 0)
      && (LooseReads(d, |FrameAll(rs)| + n) <==> n == 0)
  {
    hide ScanReads, LooseReads, FrameAll;
    var d := Frame(torn)[..n] + (Frame(r) + rest);
    ReadsBehind(rs, d, n);
    if n == 0 {
      assert d == Frame(r) + rest;
      FirstIsRead(r, rest);
    } else {
      TornSwallows(torn, n, Frame(r) + rest);
    }
  }

  lemma FirstIsRead(r: Record, rest: seq<byte>)
    requires Framable(r)
    ensures ScanReads(Frame(r) + rest, 0) && LooseReads(Frame(r) + rest, 0)
  {
    FirstOfFrame(r, rest);
  }

  lemma TornSwallows(torn: Record, n: nat, next: seq<byte>)
    requires Framable(torn) && 0 < n < |Frame(torn)|
    ensures !ScanReads(Frame(torn)[..n] + next, n) && !LooseReads(Frame(torn)[..n] + next, n)
  {
    var d := Frame(torn)[..n] + next;
    if n >= HEADER {
      assert d[..HEADER] == Header(torn) == Header(torn)[..HEADER];
      HeaderFields(torn, d);
      HeaderFields(torn, Header(torn));
    }
  }

  // What the scan finds behind the tear instead. The torn record is completed
  // with the bytes that follow it; when they do not suffice nothing more is
  // found, else scanning goes on where it ends: when that is where an appended
  // record ends, all after it are found.
  lemma AppendBehindTear(rs: seq<Record>, torn: Record, n: nat, appended: seq<Record>)
    requires (forall i :: 0 <= i < |rs| ==> Framable(rs[i])) && Framable(torn) && 0 < n < |Frame(torn)|
    requires forall i :: 0 <= i < |appended| ==> Framable(appended[i])
    ensures
      var d := Frame(torn)[..n] + FrameAll(appended);
      && (!Complete(d) ==> Scan(FrameAll(rs) + d) == rs)
      && (Complete(d) ==> Scan(FrameAll(rs) + d) == rs + [First(d)] + Scan(d[HEADER + LengthOf(d)..]))
      && (Complete(d) ==> forall j :: 0 <= j <= |appended| && HEADER + LengthOf(d) == n + |FrameAll(appended[..j])| ==>
            Scan(FrameAll(rs) + d) == rs + [First(d)] + appended[j..])
      && (n >= HEADER ==> |d| >= HEADER && LsnOf(d) == torn.lsn && KindOf(d) == torn.kind && LengthOf(d) == |torn.payload|)
  {
    hide Scan, FrameAll, First;
    var d := Frame(torn)[..n] + FrameAll(appended);
    ScanConcat(rs, d);
    if n >= HEADER {
      assert d[..HEADER] == Header(torn);
      HeaderFields(torn, d);
    }
    if !Complete(d) {
      NothingToScan(d);
      assert rs + [] == rs;
    } else {
      ScanFirst(d);
      Regroup(rs, [First(d)], Scan(d[HEADER + LengthOf(d)..]));
      forall j | 0 <= j <= |appended| && HEADER + LengthOf(d) == n + |FrameAll(appended[..j])|
        ensures Scan(d[HEADER + LengthOf(d)..]) == appended[j..]
      {
        Resumes(Frame(torn)[..n], appended, j);
      }
    }
  }

  // What reading finds from where the j-th appended record begins.
  lemma Resumes(part: seq<byte>, appended: seq<Record>, j: nat)
    requires j <= |appended| && forall i :: 0 <= i < |appended| ==> Framable(appended[i])
    ensures
      var d, at := part + FrameAll(appended), |part| + |FrameAll(appended[..j])|;
      at <= |d| && d[at..] == FrameAll(appended[j..]) && Scan(d[at..]) == appended[j..] && Loose(d[at..]) == appended[j..]
  {
    hide FrameAll, Frame, Scan, Loose;
    FrameAllConcat(appended[..j], appended[j..]);
    assert appended[..j] + appended[j..] == appended;
    ScanConcat(appended[j..], []);
    LooseFrames(appended[j..], []);
    NothingToScan([]);
    NothingIsRead();
    assert FrameAll(appended[j..]) + [] == FrameAll(appended[j..]) && appended[j..] + [] == appended[j..];
  }

  lemma ScanFirst(d: seq<byte>)
    requires Complete(d)
    ensures Scan(d) == [First(d)] + Scan(d[HEADER + LengthOf(d)..])
    ensures !Complete([])
  {
  }

  // The plain reads look neither at the type nor at how much they got: where the
  // torn record ends for them, and what they take it for.
  function Extent(d: seq<byte>): nat { HEADER + LengthOf(Fill(d, HEADER)) }

  function Merged(d: seq<byte>): Record {
    var h := Fill(d, HEADER);
    Record(LsnOf(h), KindOf(h), Fill(Skip(d, HEADER), LengthOf(h)))
  }

  // So they find that record even when it reaches past the end, unless nothing
  // is there of the payload it should have; otherwise they go on where it ends.
  lemma LooseBehindTear(rs: seq<Record>, torn: Record, n: nat, appended: seq<Record>)
    requires (forall i :: 0 <= i < |rs| ==> Framable(rs[i])) && Framable(torn) && 0 < n < |Frame(torn)|
    requires forall i :: 0 <= i < |appended| ==> Framable(appended[i])
    ensures
      var d := Frame(torn)[..n] + FrameAll(appended);
      var found := Loose(FrameAll(rs) + d);
      && (Extent(d) > |d| ==> found == rs + if |d| <= HEADER < Extent(d) then [] else [Merged(d)])
      && (Extent(d) <= |d| ==> found == rs + [Merged(d)] + Loose(d[Extent(d)..]))
      && (forall j :: 0 <= j <= |appended| && Extent(d) == n + |FrameAll(appended[..j])| ==>
            found == rs + [Merged(d)] + appended[j..])
  {
    hide Loose, FrameAll, Frame, Merged, Extent;
    var d := Frame(torn)[..n] + FrameAll(appended);
    LooseFrames(rs, d);
    LooseFirst(d);
    if Extent(d) <= |d| { Regroup(rs, [Merged(d)], Loose(d[Extent(d)..])); }
    forall j | 0 <= j <= |appended| && Extent(d) == n + |FrameAll(appended[..j])|
      ensures Extent(d) <= |d| && Loose(d[Extent(d)..]) == appended[j..]
    {
      Resumes(Frame(torn)[..n], appended, j);
    }
  }

  lemma LooseFirst(d: seq<byte>)
    requires d != []
    ensures Extent(d) > |d| ==> Loose(d) == if |d| <= HEADER < Extent(d) then [] else [Merged(d)]
    ensures Extent(d) <= |d| ==> Loose(d) == [Merged(d)] + Loose(d[Extent(d)..])
  {
    hide LsnOf, KindOf, LengthOf;
    NothingIsRead();
    var h, rest := Fill(d, HEADER), Skip(d, HEADER);
    if Extent(d) <= |d| {
      assert rest == d[HEADER..];
      assert Skip(rest, LengthOf(h)) == rest[LengthOf(h)..] == d[Extent(d)..];
    } else {
      assert Skip(rest, LengthOf(h)) == [];
    }
  }

  // So of the appended records those the torn one swallowed a part of are never
  // found, and, when it ends where the i-th begins, the i-th and all later are:
  // by the scan,
  lemma LaterIsFound(torn: Record, n: nat, appended: seq<Record>, i: nat, j: nat)
    requires Framable(torn) && 0 < n < |Frame(torn)| && i <= |appended| && j < |appended|
    requires forall k :: 0 <= k < |appended| ==> Framable(appended[k])
    ensures
      var d, at := Frame(torn)[..n] + FrameAll(appended), n + |FrameAll(appended[..j])|;
      && (!Complete(d) || at < HEADER + LengthOf(d) ==> !ScanReads(d, at))
      && (Complete(d) && HEADER + LengthOf(d) == n + |FrameAll(appended[..i])| ==> (ScanReads(d, at) <==> i <= j))
  {
    hide FrameAll, Frame, LengthOf, ScanReads, Complete;
    var d, at := Frame(torn)[..n] + FrameAll(appended), n + |FrameAll(appended[..j])|;
    ScanStep(d, at);
    Resumes(Frame(torn)[..n], appended, i);
    ScanOnwards(d, n, appended, i, j);
  }

  lemma ScanOnwards(d: seq<byte>, n: nat, appended: seq<Record>, i: nat, j: nat)
    requires n > 0 && i <= |appended| && j < |appended| && forall k :: 0 <= k < |appended| ==> Framable(appended[k])
    requires n + |FrameAll(appended[..i])| <= |d| && d[n + |FrameAll(appended[..i])|..] == FrameAll(appended[i..])
    ensures Complete(d) && HEADER + LengthOf(d) == n + |FrameAll(appended[..i])| ==>
      (ScanReads(d, n + |FrameAll(appended[..j])|) <==> i <= j)
  {
    hide FrameAll, LengthOf, ScanReads, Complete;
    ScanStep(d, n + |FrameAll(appended[..j])|);
    Onwards(appended, i, j);
  }

  lemma ScanStep(d: seq<byte>, k: nat)
    requires k > 0
    ensures Complete(d) ==> |d| >= HEADER && HEADER + LengthOf(d) <= |d|
    ensures !Complete(d) || k < HEADER + LengthOf(d) ==> !ScanReads(d, k)
    ensures Complete(d) && k >= HEADER + LengthOf(d) ==>
      (ScanReads(d, k) <==> ScanReads(d[HEADER + LengthOf(d)..], k - (HEADER + LengthOf(d))))
  {
    hide LengthOf, KindOf;
  }

  // and by the plain reads.
  lemma LaterIsRead(torn: Record, n: nat, appended: seq<Record>, i: nat, j: nat)
    requires Framable(torn) && 0 < n < |Frame(torn)| && i <= |appended| && j < |appended|
    requires forall k :: 0 <= k < |appended| ==> Framable(appended[k])
    ensures
      var d, at := Frame(torn)[..n] + FrameAll(appended), n + |FrameAll(appended[..j])|;
      && (at < Extent(d) ==> !LooseReads(d, at))
      && (Extent(d) == n + |FrameAll(appended[..i])| ==> (LooseReads(d, at) <==> i <= j))
  {
    hide FrameAll, Frame, LengthOf, Fill;
    var d, at := Frame(torn)[..n] + FrameAll(appended), n + |FrameAll(appended[..j])|;
    if Extent(d) == n + |FrameAll(appended[..i])| {
      Resumes(Frame(torn)[..n], appended, i);
      Onwards(appended, i, j);
    }
  }

  // From where the i-th record begins, the j-th is found iff it is no earlier.
  lemma Onwards(rs: seq<Record>, i: nat, j: nat)
    requires i <= |rs| && j < |rs| && forall k :: 0 <= k < |rs| ==> Framable(rs[k])
    ensures i <= j <==> |FrameAll(rs[..i])| <= |FrameAll(rs[..j])|
    ensures i <= j ==>
      var k := |FrameAll(rs[..j])| - |FrameAll(rs[..i])|;
      ScanReads(FrameAll(rs[i..]), k) && LooseReads(FrameAll(rs[i..]), k)
  {
    hide FrameAll, Frame, ScanReads, LooseReads;
    if i <= j {
      FoundAmong(rs[i..], j - i);
      assert rs[..j] == rs[..i] + rs[i..][..j - i];
      FrameAllConcat(rs[..i], rs[i..][..j - i]);
    } else {
      FrameAllGrows(rs, j, i);
    }
  }

  lemma FoundAmong(rs: seq<Record>, j: nat)
    requires j < |rs| && forall k :: 0 <= k < |rs| ==> Framable(rs[k])
    ensures ScanReads(FrameAll(rs), |FrameAll(rs[..j])|) && LooseReads(FrameAll(rs), |FrameAll(rs[..j])|)
  {
    hide ScanReads, LooseReads;
    FrameAllConcat(rs[..j], rs[j..]);
    assert rs[..j] + rs[j..] == rs;
    ReadsBehind(rs[..j], FrameAll(rs[j..]), 0);
    FirstIsRead(rs[j], FrameAll(rs[j..][1..]));
  }
}
