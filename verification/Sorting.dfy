// sort.Slice over orders, as the book uses it.
module Sorting {
  import opened Matching
  import opened Orders

  // The two orderings the book sorts by: time alone, or price and then time.
  datatype SortBy = ByTime | ByPriority(side: Side)

  function MajorKey(how: SortBy, o: OrderInBook): int {
    if how.ByTime? then 0 else Rank(how.side, o.price)
  }

  predicate NotAfter(how: SortBy, a: OrderInBook, b: OrderInBook) {
    || MajorKey(how, a) < MajorKey(how, b)
    || (MajorKey(how, a) == MajorKey(how, b) && a.createdAt <= b.createdAt)
  }

  ghost predicate SortedBy(how: SortBy, s: seq<OrderInBook>) {
    forall i, j :: 0 <= i < j < |s| ==> NotAfter(how, s[i], s[j])
  }

  // Callers rely only on the contract of sort.Slice: it permutes and orders.
  method SortSlice(how: SortBy, s: seq<OrderInBook>) returns (r: seq<OrderInBook>)
    ensures multiset(r) == multiset(s) && SortedBy(how, r)
  {
    r := [];
    for n := 0 to |s|
      invariant multiset(r) == multiset(s[..n]) && SortedBy(how, r)
    {
      r := InsertSorted(how, r, s[n]);
      assert s[..n + 1] == s[..n] + [s[n]];
    }
    assert s[..|s|] == s;
  }

  method InsertSorted(how: SortBy, s: seq<OrderInBook>, o: OrderInBook) returns (r: seq<OrderInBook>)
    requires SortedBy(how, s)
    ensures multiset(r) == multiset(s) + multiset{o} && SortedBy(how, r)
  {
    var k := |s|;
    while k > 0 && !NotAfter(how, s[k - 1], o)
      invariant 0 <= k <= |s|
      invariant forall j :: k <= j < |s| ==> NotAfter(how, o, s[j])
    {
      k := k - 1;
    }
    assert forall j :: 0 <= j < k ==> NotAfter(how, s[j], o) by {
      if k > 0 { assert forall j :: 0 <= j < k - 1 ==> NotAfter(how, s[j], s[k - 1]); }
    }
    r := s[..k] + [o] + s[k..];
    InsertedSorted(how, s, o, k);
  }

  lemma InsertedSorted(how: SortBy, s: seq<OrderInBook>, o: OrderInBook, k: nat)
    requires SortedBy(how, s) && k <= |s|
    requires forall j :: 0 <= j < k ==> NotAfter(how, s[j], o)
    requires forall j :: k <= j < |s| ==> NotAfter(how, o, s[j])
    ensures var r := s[..k] + [o] + s[k..]; multiset(r) == multiset(s) + multiset{o} && SortedBy(how, r)
  {
    hide NotAfter;
    var r := s[..k] + [o] + s[k..];
    assert s == s[..k] + s[k..];
    forall i, j | 0 <= i < j < |r| ensures NotAfter(how, r[i], r[j]) {
      assert r[i] == if i < k then s[i] else if i == k then o else s[i - 1];
      assert r[j] == if j < k then s[j] else if j == k then o else s[j - 1];
    }
  }

  // Distinct keys leave a sort no choice.
  lemma {:induction false} SortedIsUnique(how: SortBy, a: seq<OrderInBook>, b: seq<OrderInBook>)
    requires multiset(a) == multiset(b) && SortedBy(how, a) && SortedBy(how, b)
    requires forall i, j :: 0 <= i < j < |b| ==> !NotAfter(how, b[j], b[i])
    ensures a == b
  {
    assert |a| == |multiset(a)| == |multiset(b)| == |b|;
    if a != [] {
      SameHead(how, a, b);
      assert a == [a[0]] + a[1..] && b == [b[0]] + b[1..];
      assert multiset(a[1..]) == multiset(a) - multiset{a[0]};
      assert multiset(b[1..]) == multiset(b) - multiset{b[0]};
      SortedIsUnique(how, a[1..], b[1..]);
    }
  }

  lemma SameHead(how: SortBy, a: seq<OrderInBook>, b: seq<OrderInBook>)
    requires multiset(a) == multiset(b) && a != [] && b != [] && SortedBy(how, a)
    requires forall i, j :: 0 <= i < j < |b| ==> !NotAfter(how, b[j], b[i])
    ensures a[0] == b[0]
  {
    assert a[0] in multiset(b) && b[0] in multiset(a);
    var i :| 0 <= i < |b| && b[i] == a[0];
    var j :| 0 <= j < |a| && a[j] == b[0];
    assert j > 0 ==> NotAfter(how, a[0], a[j]);
    assert i == 0 || j == 0;
  }

  // ---- Permutations of a list of orders ----

  // A permutation has the same values.
  lemma {:induction false} SameValues(a: seq<OrderInBook>, b: seq<OrderInBook>)
    requires multiset(a) == multiset(b)
    ensures multiset(Values(a)) == multiset(Values(b))
    decreases |a|
  {
    hide DropAt, Values;
    if a == [] {
      assert |b| == |multiset(b)| == 0;
    } else {
      assert a[0] in multiset(b);
      var j :| 0 <= j < |b| && b[j] == a[0];
      DropMultiset(a, 0);
      DropMultiset(b, j);
      SameValues(DropAt(a, 0), DropAt(b, j));
      ValuesSplit(a, 0);
      ValuesSplit(b, j);
    }
  }

  lemma DropMultiset(s: seq<OrderInBook>, j: nat)
    requires j < |s|
    ensures multiset(DropAt(s, j)) == multiset(s) - multiset{s[j]} && |DropAt(s, j)| == |s| - 1
  {
    assert s == s[..j] + [s[j]] + s[j + 1..];
  }

  lemma ValuesSplit(s: seq<OrderInBook>, j: nat)
    requires j < |s|
    ensures multiset(Values(s)) == multiset(Values(DropAt(s, j))) + multiset{s[j].Value()}
  {
    var vs, ds := Values(s), Values(DropAt(s, j));
    assert vs == vs[..j] + [vs[j]] + vs[j + 1..];
    assert ds == vs[..j] + vs[j + 1..];
  }

  // Orders with distinct IDs, and with distinct timestamps within a level.
  ghost predicate Unlike(s: seq<OrderInBook>) {
    forall i, j :: 0 <= i < j < |s| ==> Differ(s[i], s[j])
  }

  predicate Differ(a: OrderInBook, b: OrderInBook) {
    a.orderId != b.orderId && (a.side == b.side && a.price == b.price ==> a.createdAt != b.createdAt)
  }

  lemma UnlikePermuted(a: seq<OrderInBook>, b: seq<OrderInBook>)
    requires multiset(a) <= multiset(b) && Unlike(b)
    ensures Unlike(a)
  {
    forall i, j | 0 <= i < j < |a|
      ensures Differ(a[i], a[j])
    {
      Twice(a, i, j);
      assert multiset(a)[a[i]] <= multiset(b)[a[i]] && multiset(a)[a[j]] <= multiset(b)[a[j]];
      var x :| 0 <= x < |b| && b[x] == a[i];
      var y :| 0 <= y < |b| && b[y] == a[j];
      if x == y { Once(b, x); }
    }
  }

  lemma Twice(s: seq<OrderInBook>, i: nat, j: nat)
    requires i < j < |s|
    ensures s[i] == s[j] ==> multiset(s)[s[i]] >= 2
    ensures multiset(s)[s[i]] >= 1 && multiset(s)[s[j]] >= 1
  {
    assert s == s[..j] + [s[j]] + s[j + 1..];
    assert s[i] in s[..j];
  }

  lemma Once(s: seq<OrderInBook>, x: nat)
    requires x < |s| && Unlike(s)
    ensures multiset(s)[s[x]] == 1
  {
    assert s == s[..x] + [s[x]] + s[x + 1..];
    assert s[x] !in s[..x] && s[x] !in s[x + 1..];
  }
}
