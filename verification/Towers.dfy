// The shape of a skip list, without its pointers: `h[k]` is the height of the
// k-th node of the level-0 chain, and `h[0]` is the height of the header.
// Every forward pointer of a well-formed list is determined by these heights.
module Towers {

  // The node that position k links to on level i: the next one tall enough,
  // or |h| when there is none (a nil pointer).
  function NextTall(h: seq<nat>, k: nat, i: nat): (r: nat)
    requires k < |h|
    ensures k < r <= |h|
    ensures r < |h| ==> h[r] > i
    ensures forall j :: k < j < r ==> h[j] <= i
    decreases |h| - k
  {
    if k + 1 == |h| then |h|
    else if h[k + 1] > i then k + 1
    else NextTall(h, k + 1, i)
  }

  // The last position up to p that is tall enough to carry a level-i pointer.
  function PrevTall(h: seq<nat>, p: nat, i: nat): (r: nat)
    requires p < |h| && h[0] > i
    ensures r <= p && h[r] > i
    ensures forall j :: r < j <= p ==> h[j] <= i
  {
    if h[p] > i then p else PrevTall(h, p - 1, i)
  }

  function Inserted(h: seq<nat>, p: nat, rl: nat): (r: seq<nat>)
    requires p < |h|
    ensures |r| == |h| + 1
    ensures forall k :: 0 <= k <= p ==> r[k] == h[k]
    ensures r[p + 1] == rl
    ensures forall k :: p + 1 < k < |r| ==> r[k] == h[k - 1]
  {
    seq(|h| + 1, k requires 0 <= k <= |h| => if k <= p then h[k] else if k == p + 1 then rl else h[k - 1])
  }

  function Without<T>(s: seq<T>, q: nat): (r: seq<T>)
    requires q < |s|
    ensures |r| == |s| - 1
    ensures forall k :: 0 <= k < q ==> r[k] == s[k]
    ensures forall k :: q <= k < |r| ==> r[k] == s[k + 1]
  {
    seq(|s| - 1, k requires 0 <= k < |s| - 1 => if k < q then s[k] else s[k + 1])
  }

  // Where a link of the old list leads once a tower of height rl stands after p.
  lemma NextAfterInsert(h: seq<nat>, p: nat, rl: nat, k: nat, i: nat)
    requires p < |h| && k < |h| && h[0] > i && h[k] > i
    ensures k <= p && i < rl && k == PrevTall(h, p, i) ==> NextTall(Inserted(h, p, rl), k, i) == p + 1
    ensures k <= p && !(i < rl && k == PrevTall(h, p, i)) ==>
      NextTall(Inserted(h, p, rl), k, i) == Shift(p, NextTall(h, k, i))
    ensures k > p ==> NextTall(Inserted(h, p, rl), k + 1, i) == NextTall(h, k, i) + 1
  {
    var h' := Inserted(h, p, rl);
    var r := NextTall(h, k, i);
    if k <= p {
      var r' := NextTall(h', k, i);
      var q := PrevTall(h, p, i);
      if k < q {
        assert r <= q;
        assert h'[r] > i && r' == r;
      } else {
        assert k == q && r > p;
        if i < rl {
          assert h'[p + 1] > i && r' == p + 1;
        } else {
          assert forall j :: k < j < r + 1 ==> h'[j] <= i;
          assert r < |h| ==> h'[r + 1] > i;
        }
      }
    } else {
      assert forall j :: k + 1 < j < r + 1 ==> h'[j] <= i;
      assert r < |h| ==> h'[r + 1] > i;
    }
  }

  // The new tower inherits the links of its predecessors.
  lemma NextOfInserted(h: seq<nat>, p: nat, rl: nat, i: nat)
    requires p < |h| && h[0] > i && i < rl
    ensures NextTall(Inserted(h, p, rl), p + 1, i) == NextTall(h, PrevTall(h, p, i), i) + 1
    ensures NextTall(h, PrevTall(h, p, i), i) > p
  {
    var h' := Inserted(h, p, rl);
    var r := NextTall(h, PrevTall(h, p, i), i);
    assert r > p;
    assert forall j :: p + 1 < j < r + 1 ==> h'[j] <= i;
    assert r < |h| ==> h'[r + 1] > i;
  }

  function Shift(p: nat, r: nat): nat { if r <= p then r else r + 1 }

  const MAX_LEVEL: nat := 32

  // The header has every level; `level` is the height of the tallest other node.
  ghost predicate Heights(h: seq<nat>, level: nat) {
    && LooseHeights(h, level)
    && (level > 0 ==> NextTall(h, 0, level - 1) < |h|)
  }

  ghost predicate LooseHeights(h: seq<nat>, level: nat) {
    && |h| > 0 && h[0] == MAX_LEVEL
    && level <= MAX_LEVEL
    && (forall k :: 1 <= k < |h| ==> 1 <= h[k] <= level)
  }

  lemma HeightsAfterInsert(h: seq<nat>, level: nat, p: nat, rl: nat)
    requires Heights(h, level) && p < |h| && 1 <= rl <= MAX_LEVEL
    ensures Heights(Inserted(h, p, rl), if rl > level then rl else level)
  {
    var h' := Inserted(h, p, rl);
    if rl > level {
      assert h'[p + 1] > rl - 1;
      assert NextTall(h', 0, rl - 1) <= p + 1;
    } else {
      var r := NextTall(h, 0, level - 1);
      assert h'[Shift(p, r)] == h[r] > level - 1;
      assert NextTall(h', 0, level - 1) <= Shift(p, r);
    }
  }
}
