// Reading the log back for replay and for truncation. Both use plain reads,
// which at the end of the file return what is left, and neither checks how much
// that was: a short read leaves the rest of the buffer zero. Before the end a
// read is taken to fill its buffer.
module WalReads {
  import opened Framing

  function Zeros(n: nat): (z: seq<byte>)
    ensures |z| == n && forall k :: 0 <= k < n ==> z[k] == 0
  {
    seq(n, _ => 0 as byte)
  }

  // A buffer of n bytes after reading into it from d.
  function Fill(d: seq<byte>, n: nat): (b: seq<byte>)
    ensures |b| == n
    ensures n <= |d| ==> b == d[..n]
  {
    if n <= |d| then d[..n] else d + Zeros(n - |d|)
  }

  function Skip(d: seq<byte>, n: nat): (r: seq<byte>)
    ensures |r| <= |d| && (d != [] && n > 0 ==> |r| < |d|)
  {
    if n <= |d| then d[n..] else []
  }

  // The records such reads yield. Reading nothing at the end of the file is the
  // only failure they notice.
  function Loose(d: seq<byte>): (rs: seq<Record>)
    decreases |d|
  {
    if d == [] then []
    else
      var h, rest := Fill(d, HEADER), Skip(d, HEADER);
      if LengthOf(h) > 0 && rest == [] then []
      else [Record(LsnOf(h), KindOf(h), Fill(rest, LengthOf(h)))] + Loose(Skip(rest, LengthOf(h)))
  }

  // The records past an LSN.
  function Keep(rs: seq<Record>, lsn: nat): seq<Record> {
    if rs == [] then [] else (if rs[0].lsn > lsn then [rs[0]] else []) + Keep(rs[1..], lsn)
  }

  lemma {:induction false} KeepConcat(a: seq<Record>, b: seq<Record>, lsn: nat)
    ensures Keep(a + b, lsn) == Keep(a, lsn) + Keep(b, lsn)
  {
    if a == [] {
      assert a + b == b;
    } else {
      KeepConcat(a[1..], b, lsn);
      assert (a + b)[1..] == a[1..] + b;
      Regroup(if a[0].lsn > lsn then [a[0]] else [], Keep(a[1..], lsn), Keep(b, lsn));
    }
  }

  // Complete records are read as they were written.
  lemma {:induction false} LooseFrames(rs: seq<Record>, tail: seq<byte>)
    requires forall k :: 0 <= k < |rs| ==> Framable(rs[k])
    ensures Loose(FrameAll(rs) + tail) == rs + Loose(tail)
  {
    hide Loose, Frame, Header;
    if rs == [] {
      assert FrameAll(rs) + tail == tail;
      assert rs + Loose(tail) == Loose(tail);
    } else {
      Regroup(Frame(rs[0]), FrameAll(rs[1..]), tail);
      LooseFrame(rs[0], FrameAll(rs[1..]) + tail);
      LooseFrames(rs[1..], tail);
      Regroup([rs[0]], rs[1..], Loose(tail));
      assert [rs[0]] + rs[1..] == rs;
    }
  }

  lemma LooseFrame(r: Record, rest: seq<byte>)
    requires Framable(r)
    ensures Loose(Frame(r) + rest) == [r] + Loose(rest)
  {
    var d := Frame(r) + rest;
    Regroup(Header(r), r.payload, rest);
    assert Fill(d, HEADER) == Header(r) && Skip(d, HEADER) == r.payload + rest;
    assert Header(r)[..HEADER] == Header(r);
    HeaderFields(r, Header(r));
    assert Fill(r.payload + rest, |r.payload|) == r.payload;
    assert Skip(r.payload + rest, |r.payload|) == rest;
  }

  lemma {:induction false} ScanConcat(rs: seq<Record>, rest: seq<byte>)
    requires forall k :: 0 <= k < |rs| ==> Framable(rs[k])
    ensures Scan(FrameAll(rs) + rest) == rs + Scan(rest)
  {
    hide Scan, Frame;
    if rs == [] {
      assert FrameAll(rs) + rest == rest;
      assert rs + Scan(rest) == Scan(rest);
    } else {
      Regroup(Frame(rs[0]), FrameAll(rs[1..]), rest);
      ScanOfFrame(rs[0], FrameAll(rs[1..]) + rest);
      ScanConcat(rs[1..], rest);
      Regroup([rs[0]], rs[1..], Scan(rest));
      assert [rs[0]] + rs[1..] == rs;
    }
  }

  lemma Regroup<T>(a: seq<T>, b: seq<T>, c: seq<T>)
    ensures a + b + c == a + (b + c)
  {
  }
}
