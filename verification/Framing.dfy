// The byte format of the write-ahead log (internal/matching/wal/wal.go):
// 8 bytes LSN, 1 byte type, 4 bytes payload length, big-endian, then the payload.
module Framing {

  newtype byte = x: int | 0 <= x < 256

  const HEADER: nat := 13
  const TWO_32: nat := 0x1_0000_0000
  const TWO_64: nat := 0x1_0000_0000_0000_0000

  // The low w bytes of n, most significant first.
  function PutBE(n: nat, w: nat): (s: seq<byte>)
    ensures |s| == w
  {
    if w == 0 then [] else PutBE(n / 256, w - 1) + [(n % 256) as byte]
  }

  function GetBE(s: seq<byte>): nat {
    if s == [] then 0 else GetBE(s[..|s| - 1]) * 256 + s[|s| - 1] as nat
  }

  function Pow256(w: nat): (p: nat)
    ensures p > 0
  {
    if w == 0 then 1 else 256 * Pow256(w - 1)
  }

  lemma {:induction false} GetPut(n: nat, w: nat)
    requires n < Pow256(w)
    ensures GetBE(PutBE(n, w)) == n
  {
    if w > 0 {
      GetPut(n / 256, w - 1);
      var s := PutBE(n, w);
      assert s[..|s| - 1] == PutBE(n / 256, w - 1);
    }
  }

  lemma Widths()
    ensures Pow256(4) == TWO_32 && Pow256(8) == TWO_64
  {
    assert Pow256(1) == 256;
    assert Pow256(2) == 0x1_0000;
    assert Pow256(3) == 0x100_0000;
    assert Pow256(5) == 0x100_0000_0000;
    assert Pow256(6) == 0x1_0000_0000_0000;
    assert Pow256(7) == 0x100_0000_0000_0000;
  }

  datatype Record = Record(lsn: nat, kind: byte, payload: seq<byte>)

  // What fits the format; the record length itself is computed in 32 bits.
  predicate Framable(r: Record) {
    r.lsn < TWO_64 && r.kind <= 2 && HEADER + |r.payload| < TWO_32
  }

  function Header(r: Record): (s: seq<byte>)
    ensures |s| == HEADER
  {
    PutBE(r.lsn, 8) + [r.kind] + PutBE(|r.payload|, 4)
  }

  function Frame(r: Record): (s: seq<byte>)
    ensures |s| == HEADER + |r.payload|
  {
    Header(r) + r.payload
  }

  function FrameAll(rs: seq<Record>): seq<byte> {
    if rs == [] then [] else Frame(rs[0]) + FrameAll(rs[1..])
  }

  lemma {:induction false} FrameAllConcat(a: seq<Record>, b: seq<Record>)
    ensures FrameAll(a + b) == FrameAll(a) + FrameAll(b)
  {
    if a == [] {
      assert a + b == b;
    } else {
      FrameAllConcat(a[1..], b);
      assert (a + b)[1..] == a[1..] + b;
    }
  }

  lemma FrameAllPush(a: seq<Record>, r: Record)
    ensures FrameAll(a + [r]) == FrameAll(a) + Frame(r)
  {
    FrameAllConcat(a, [r]);
    assert [r][1..] == [];
    assert FrameAll([r]) == Frame(r) + [];
  }

  // The three header fields at the front of some bytes.
  function LsnOf(d: seq<byte>): nat requires |d| >= HEADER { GetBE(d[..8]) }
  function KindOf(d: seq<byte>): byte requires |d| >= HEADER { d[8] }
  function LengthOf(d: seq<byte>): nat requires |d| >= HEADER { GetBE(d[9..13]) }

  lemma HeaderFields(r: Record, d: seq<byte>)
    requires Framable(r) && |d| >= HEADER && d[..HEADER] == Header(r)
    ensures LsnOf(d) == r.lsn && KindOf(d) == r.kind && LengthOf(d) == |r.payload|
  {
    Widths();
    GetPut(r.lsn, 8);
    GetPut(|r.payload|, 4);
    assert d[..8] == d[..HEADER][..8] == PutBE(r.lsn, 8);
    assert d[8] == d[..HEADER][8] == r.kind;
    assert d[9..13] == d[..HEADER][9..13] == PutBE(|r.payload|, 4);
  }

  lemma {:induction false} PutDigits(n: nat, w: nat, i: nat)
    requires i < w
    ensures PutBE(n, w)[i] as int == n / Pow256(w - 1 - i) % 256
  {
    if i < w - 1 {
      PutDigits(n / 256, w - 1, i);
      DivideTwice(n, Pow256(w - 2 - i));
    }
  }

  lemma DivideTwice(n: nat, p: nat)
    requires p > 0
    ensures n / 256 / p == n / (256 * p)
  {
    var q, r := n / (256 * p), n % (256 * p);
    assert n == 256 * (q * p) + r;
    assert n / 256 == q * p + r / 256;
    QuotientIs(n / 256, p, q);
  }

  lemma QuotientIs(x: nat, p: nat, q: nat)
    requires p > 0 && q * p <= x < (q + 1) * p
    ensures x / p == q
  {
    var y := x / p;
    assert y < q ==> (y + 1) * p <= q * p;
    assert y > q ==> (q + 1) * p <= y * p;
  }

  // A record byte by byte: the LSN in bytes 0 to 7, the type in byte 8, the
  // payload length in bytes 9 to 12, most significant first, and the payload.
  lemma FrameLayout(r: Record)
    ensures |Frame(r)| == 13 + |r.payload| && Frame(r)[8] == r.kind && Frame(r)[13..] == r.payload
    ensures forall i :: 0 <= i < 8 ==> Frame(r)[i] as int == r.lsn / Pow256(7 - i) % 256
    ensures forall i :: 9 <= i < 13 ==> Frame(r)[i] as int == |r.payload| / Pow256(12 - i) % 256
  {
    hide PutBE, Pow256;
    forall i | 0 <= i < 8 ensures Frame(r)[i] as int == r.lsn / Pow256(7 - i) % 256 {
      PutDigits(r.lsn, 8, i);
    }
    forall i | 9 <= i < 13 ensures Frame(r)[i] as int == |r.payload| / Pow256(12 - i) % 256 {
      PutDigits(|r.payload|, 4, i - 9);
    }
  }

  // ---- Scanning: the complete records at the front, and where they end ----

  predicate Complete(d: seq<byte>) {
    |d| >= HEADER && KindOf(d) <= 2 && HEADER + LengthOf(d) <= |d|
  }

  function First(d: seq<byte>): (r: Record)
    requires Complete(d)
  {
    Record(LsnOf(d), KindOf(d), d[HEADER..HEADER + LengthOf(d)])
  }

  function Scan(d: seq<byte>): (rs: seq<Record>)
    decreases |d|
  {
    if !Complete(d) then [] else [First(d)] + Scan(d[HEADER + LengthOf(d)..])
  }

  // Scanning stops at a type it does not know, and before a record that is not all
  // there.
  lemma ScanStops(d: seq<byte>)
    ensures Scan(d) == [] <==> |d| < 13 || d[8] > 2 || |d| < 13 + GetBE(d[9..13])
  {
  }

  function ScanEnd(d: seq<byte>): (pos: nat)
    ensures pos <= |d|
    decreases |d|
  {
    if !Complete(d) then 0
    else HEADER + LengthOf(d) + ScanEnd(d[HEADER + LengthOf(d)..])
  }

  function LastLsn(rs: seq<Record>): nat {
    if rs == [] then 0 else rs[|rs| - 1].lsn
  }

  lemma FirstOfFrame(r: Record, rest: seq<byte>)
    requires Framable(r)
    ensures Complete(Frame(r) + rest) && First(Frame(r) + rest) == r
    ensures (Frame(r) + rest)[HEADER + LengthOf(Frame(r) + rest)..] == rest
  {
    var d := Frame(r) + rest;
    assert d[..HEADER] == Header(r);
    HeaderFields(r, d);
    assert d[HEADER..HEADER + |r.payload|] == r.payload;
  }

  // A tail is torn when it is a proper prefix of one more record.
  ghost predicate Torn(tail: seq<byte>) {
    exists r :: Framable(r) && |tail| < |Frame(r)| && tail == Frame(r)[..|tail|]
  }

  lemma TornIncomplete(tail: seq<byte>)
    requires Torn(tail)
    ensures !Complete(tail)
  {
    var r :| Framable(r) && |tail| < |Frame(r)| && tail == Frame(r)[..|tail|];
    if |tail| >= HEADER {
      assert tail[..HEADER] == Frame(r)[..HEADER] == Header(r);
      HeaderFields(r, tail);
    }
  }

  // Scanning undoes framing and stops before a torn tail.
  lemma {:induction false} ScanFrames(rs: seq<Record>, tail: seq<byte>)
    requires (forall k :: 0 <= k < |rs| ==> Framable(rs[k])) && !Complete(tail)
    ensures Scan(FrameAll(rs) + tail) == rs && ScanEnd(FrameAll(rs) + tail) == |FrameAll(rs)|
  {
    if rs == [] {
      assert FrameAll(rs) + tail == tail;
    } else {
      var rest := FrameAll(rs[1..]) + tail;
      assert FrameAll(rs) + tail == Frame(rs[0]) + rest;
      FirstOfFrame(rs[0], rest);
      ScanFrames(rs[1..], tail);
      assert HEADER + LengthOf(FrameAll(rs) + tail) == |Frame(rs[0])| by {
        assert First(Frame(rs[0]) + rest) == rs[0];
      }
    }
  }

  lemma ScanStep(data: seq<byte>, pos: nat)
    requires pos <= |data| && Complete(data[pos..])
    ensures
      var next := pos + HEADER + LengthOf(data[pos..]);
      && next <= |data| && Scan(data[pos..]) == [First(data[pos..])] + Scan(data[next..])
      && ScanEnd(data[pos..]) == next - pos + ScanEnd(data[next..])
  {
    var d := data[pos..];
    assert d[HEADER + LengthOf(d)..] == data[pos + HEADER + LengthOf(d)..];
  }

  // readLastLSN: the scanning loop.
  method ReadLastLsn(data: seq<byte>) returns (lsn: nat, pos: nat)
    ensures lsn == LastLsn(Scan(data)) && pos == ScanEnd(data)
  {
    hide Scan, ScanEnd, LsnOf, LengthOf, KindOf;
    NothingToScan(data);
    lsn, pos := 0, 0;
    if |data| < HEADER {
      return;
    }
    ghost var seen: seq<Record> := [];
    assert data[0..] == data;
    while pos + HEADER <= |data|
      invariant pos <= |data| && Scan(data) == seen + Scan(data[pos..]) && ScanEnd(data) == pos + ScanEnd(data[pos..])
      invariant lsn == LastLsn(seen)
      decreases |data| - pos
    {
      var d := data[pos..];
      NothingToScan(d);
      if KindOf(d) > 2 || pos + HEADER + LengthOf(d) > |data| {
        assert seen + [] == seen;
        return;
      }
      ScanStep(data, pos);
      seen := seen + [First(d)];
      lsn := LsnOf(d);
      pos := pos + HEADER + LengthOf(d);
    }
    NothingToScan(data[pos..]);
    assert seen + [] == seen;
  }

  lemma NothingToScan(d: seq<byte>)
    ensures !Complete(d) ==> Scan(d) == [] && ScanEnd(d) == 0
  {
  }

  // Reading big-endian bytes and writing them again changes nothing.
  lemma {:induction false} PutGet(s: seq<byte>)
    ensures PutBE(GetBE(s), |s|) == s
  {
    if s != [] {
      PutGet(s[..|s| - 1]);
      assert s == s[..|s| - 1] + [s[|s| - 1]];
    }
  }

  lemma HeaderOf(h: seq<byte>, payload: seq<byte>)
    requires |h| == HEADER && |payload| == LengthOf(h)
    ensures Frame(Record(LsnOf(h), KindOf(h), payload)) == h + payload
  {
    PutGet(h[..8]);
    PutGet(h[9..13]);
    assert h == h[..8] + [h[8]] + h[9..13];
  }

  // ---- A prefix of the log holds a prefix of the records ----

  lemma {:induction false} PrefixScan(rs: seq<Record>, k: nat) returns (m: nat)
    requires (forall i :: 0 <= i < |rs| ==> Framable(rs[i])) && k <= |FrameAll(rs)|
    ensures m <= |rs| && Scan(FrameAll(rs)[..k]) == rs[..m]
    ensures |FrameAll(rs[..m])| <= k && (m < |rs| ==> k < |FrameAll(rs[..m])| + |Frame(rs[m])|)
  {
    hide Scan, Frame;
    if rs == [] || k < |Frame(rs[0])| {
      m := 0;
      NoRecordYet(rs, k);
    } else {
      var n := |Frame(rs[0])|;
      m := PrefixScan(rs[1..], k - n);
      assert FrameAll(rs)[..k] == Frame(rs[0]) + FrameAll(rs[1..])[..k - n];
      ScanOfFrame(rs[0], FrameAll(rs[1..])[..k - n]);
      m := m + 1;
      assert rs[..m] == [rs[0]] + rs[1..][..m - 1];
      assert FrameAll(rs[..m]) == Frame(rs[0]) + FrameAll(rs[..m][1..]);
      assert rs[..m][1..] == rs[1..][..m - 1];
    }
  }

  lemma NoRecordYet(rs: seq<Record>, k: nat)
    requires (forall i :: 0 <= i < |rs| ==> Framable(rs[i])) && k <= |FrameAll(rs)|
    requires rs == [] || k < |Frame(rs[0])|
    ensures Scan(FrameAll(rs)[..k]) == [] && rs[..0] == [] && FrameAll(rs[..0]) == []
  {
    var tail := FrameAll(rs)[..k];
    if rs != [] {
      assert |tail| == k && tail == Frame(rs[0])[..k];
      TornIncomplete(tail);
    }
  }

  lemma ScanOfFrame(r: Record, rest: seq<byte>)
    requires Framable(r)
    ensures Scan(Frame(r) + rest) == [r] + Scan(rest)
  {
    FirstOfFrame(r, rest);
  }

  lemma {:induction false} FrameAllGrows(rs: seq<Record>, a: nat, b: nat)
    requires a <= b <= |rs|
    ensures |FrameAll(rs[..a])| <= |FrameAll(rs[..b])|
    ensures a < b ==> |FrameAll(rs[..a])| + |Frame(rs[a])| <= |FrameAll(rs[..b])|
  {
    FrameAllConcat(rs[..a], rs[a..b]);
    assert rs[..b] == rs[..a] + rs[a..b];
    if a < b {
      assert rs[a..b][0] == rs[a];
    }
  }

  // Whatever prefix survives a crash, as long as the synced part does: scanning
  // it gives a prefix of the records that includes the synced ones.
  lemma CrashKeepsPrefix(rs: seq<Record>, synced: nat, k: nat) returns (m: nat)
    requires (forall i :: 0 <= i < |rs| ==> Framable(rs[i])) && synced <= |rs|
    requires |FrameAll(rs[..synced])| <= k <= |FrameAll(rs)|
    ensures synced <= m <= |rs| && Scan(FrameAll(rs)[..k]) == rs[..m] && |FrameAll(rs[..m])| <= k
    ensures if m == |rs| then k == |FrameAll(rs)| else k < |FrameAll(rs[..m])| + |Frame(rs[m])|
  {
    m := PrefixScan(rs, k);
    assert rs[..|rs|] == rs;
    if m < synced { FrameAllGrows(rs, m, synced); }
  }
}
