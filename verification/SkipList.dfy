// The price index: an ordered skip list with back pointers
// (internal/matching/book/skiplist.go), over integer keys.
module SkipLists {
  import opened Towers

  class SkipListNode {
    const key: int
    var forward: seq<SkipListNode?>
    var backward: SkipListNode?

    constructor (key: int, height: nat)
      ensures this.key == key && backward == null
      ensures |forward| == height && forall i :: 0 <= i < height ==> forward[i] == null
    {
      this.key := key;
      forward := seq(height, _ => null);
      backward := null;
    }

    // Next is level 0 of Forward; Prev is Backward, which for the first node
    // is the header and not nil.
    function Next(): SkipListNode?
      reads this
    {
      if |forward| == 0 then null else forward[0]
    }

    function Prev(): SkipListNode?
      reads this
    {
      backward
    }
  }

  // The node at position r of the chain, nil past its end.
  ghost function NodeAt(nodes: seq<SkipListNode>, r: nat): (n: SkipListNode?)
  {
    if r < |nodes| then nodes[r] else null
  }

  // The keys of the chain, without the header.
  ghost function KeysOf(nodes: seq<SkipListNode>): (ks: seq<int>)
    ensures |ks| == (if nodes == [] then 0 else |nodes| - 1)
    ensures forall k :: 0 <= k < |ks| ==> ks[k] == nodes[k + 1].key
  {
    seq(if nodes == [] then 0 else |nodes| - 1, k requires 0 <= k < |nodes| - 1 => nodes[k + 1].key)
  }

  ghost predicate Ascending(nodes: seq<SkipListNode>) {
    forall j, k :: 1 <= j < k < |nodes| ==> nodes[j].key < nodes[k].key
  }

  ghost predicate Distinct(nodes: seq<SkipListNode>) {
    forall j, k :: 0 <= j < k < |nodes| ==> nodes[j] != nodes[k]
  }

  // Every pointer of the chain is the one the heights determine.
  ghost predicate Linked(nodes: seq<SkipListNode>, h: seq<nat>)
    reads nodes
  {
    ForwardLinked(nodes, h) && BackLinked(nodes)
  }

  // A well-formed chain: everything about a skip list but its counters.
  ghost predicate Chain(nodes: seq<SkipListNode>, h: seq<nat>, level: nat)
    reads nodes
  {
    && |nodes| > 0
    && Distinct(nodes)
    && Ascending(nodes)
    && Heights(h, level)
    && Linked(nodes, h)
  }

  // A chain whose level may exceed its tallest node.
  ghost predicate LooseChain(nodes: seq<SkipListNode>, h: seq<nat>, level: nat)
    reads nodes
  {
    && |nodes| > 0
    && Distinct(nodes)
    && Ascending(nodes)
    && LooseHeights(h, level)
    && Linked(nodes, h)
  }

  ghost predicate ForwardLinked(nodes: seq<SkipListNode>, h: seq<nat>)
    reads (set n | n in nodes)`forward
  {
    && |h| == |nodes|
    && (forall k :: 0 <= k < |nodes| ==> |nodes[k].forward| == h[k])
    && (forall k, i :: 0 <= k < |nodes| && 0 <= i < h[k] ==>
          nodes[k].forward[i] == NodeAt(nodes, NextTall(h, k, i)))
  }

  ghost predicate BackLinked(nodes: seq<SkipListNode>)
    reads (set n | n in nodes)`backward
  {
    forall k {:trigger nodes[k].backward} :: 0 <= k < |nodes| ==> nodes[k].backward == Predecessor(nodes, k)
  }

  ghost function Predecessor(nodes: seq<SkipListNode>, k: nat): (n: SkipListNode?)
    requires k < |nodes|
  {
    if k == 0 then null else nodes[k - 1]
  }

  // The chain with `node` standing at p + 1.
  ghost function Spliced(nodes: seq<SkipListNode>, node: SkipListNode, p: nat): (r: seq<SkipListNode>)
    requires p < |nodes|
    ensures |r| == |nodes| + 1
    ensures forall k :: 0 <= k <= p ==> r[k] == nodes[k]
    ensures r[p + 1] == node
    ensures forall k :: p + 1 < k < |r| ==> r[k] == nodes[k - 1]
  {
    seq(|nodes| + 1, k requires 0 <= k <= |nodes| =>
      if k <= p then nodes[k] else if k == p + 1 then node else nodes[k - 1])
  }

  lemma WithoutIsInverse(nodes: seq<SkipListNode>, h: seq<nat>, p: nat)
    requires p + 1 < |nodes| == |h|
    ensures Spliced(Without(nodes, p + 1), nodes[p + 1], p) == nodes
    ensures Inserted(Without(h, p + 1), p, h[p + 1]) == h
  {
  }

  // Where the forward pointer of an old node leads once `node` stands at p + 1.
  lemma SplicedTarget(nodes: seq<SkipListNode>, node: SkipListNode, h: seq<nat>, p: nat, rl: nat, k: nat, i: nat)
    requires p < |nodes| == |h| && k < |h| && h[0] > i && h[k] > i
    ensures
      var ns, h' := Spliced(nodes, node, p), Inserted(h, p, rl);
      NodeAt(ns, NextTall(h', Shift(p, k), i)) ==
        if i < rl && k == PrevTall(h, p, i) then node else NodeAt(nodes, NextTall(h, k, i))
  {
    NextAfterInsert(h, p, rl, k, i);
  }

  lemma SplicedOwnTarget(nodes: seq<SkipListNode>, node: SkipListNode, h: seq<nat>, p: nat, rl: nat, i: nat)
    requires p < |nodes| == |h| && h[0] > i && i < rl
    ensures
      var ns, h' := Spliced(nodes, node, p), Inserted(h, p, rl);
      NodeAt(ns, NextTall(h', p + 1, i)) == NodeAt(nodes, NextTall(h, PrevTall(h, p, i), i))
  {
    NextOfInserted(h, p, rl, i);
  }

  lemma AscendingSpliced(nodes: seq<SkipListNode>, node: SkipListNode, p: nat)
    requires Ascending(nodes) && Distinct(nodes) && node !in nodes && LastBelow(nodes, node.key, p)
    requires p + 1 < |nodes| ==> node.key < nodes[p + 1].key
    ensures Ascending(Spliced(nodes, node, p)) && Distinct(Spliced(nodes, node, p))
  {
  }

  lemma KeysSpliced(nodes: seq<SkipListNode>, node: SkipListNode, p: nat)
    requires p < |nodes|
    ensures forall q :: q in KeysOf(Spliced(nodes, node, p)) <==> q in KeysOf(nodes) || q == node.key
  {
    var ks, ks' := KeysOf(nodes), KeysOf(Spliced(nodes, node, p));
    assert ks'[p] == node.key;
    assert forall k :: 0 <= k < |ks| ==> ks[k] == ks'[if k < p then k else k + 1];
    assert forall k :: 0 <= k < |ks'| ==> k == p || ks'[k] == ks[if k < p then k else k - 1];
  }

  lemma KeysWithout(nodes: seq<SkipListNode>, q: nat)
    requires 0 < q < |nodes| && Ascending(nodes)
    ensures forall x :: x in KeysOf(Without(nodes, q)) <==> x in KeysOf(nodes) && x != nodes[q].key
  {
    hide KeysOf, Without;
    var ks, ks' := KeysOf(nodes), KeysOf(Without(nodes, q));
    assert forall k :: 0 <= k < |ks| ==> k == q - 1 || (ks[k] == ks'[if k < q - 1 then k else k - 1] && ks[k] != nodes[q].key);
    assert forall k :: 0 <= k < |ks'| ==> ks'[k] == ks[if k < q - 1 then k else k + 1];
  }

  // The nodes from position k on that are taller than i, in chain order.
  ghost function TallNodes(nodes: seq<SkipListNode>, h: seq<nat>, k: nat, i: nat): seq<SkipListNode>
    requires |h| == |nodes|
    decreases |nodes| - k
  {
    if k >= |nodes| then []
    else (if h[k] > i then [nodes[k]] else []) + TallNodes(nodes, h, k + 1, i)
  }

  lemma {:induction false} SkipShort(nodes: seq<SkipListNode>, h: seq<nat>, k: nat, r: nat, i: nat)
    requires |h| == |nodes| && k <= r <= |nodes| && forall j :: k <= j < r ==> h[j] <= i
    ensures TallNodes(nodes, h, k, i) == TallNodes(nodes, h, r, i)
    decreases r - k
  {
    if k < r { SkipShort(nodes, h, k + 1, r, i); }
  }

  // p is the position of the last key below `key` (0, the header, if none).
  ghost predicate LastBelow(nodes: seq<SkipListNode>, key: int, p: nat) {
    && p < |nodes|
    && (forall j :: 1 <= j <= p ==> nodes[j].key < key)
    && (forall j :: p < j < |nodes| ==> key <= nodes[j].key)
  }

  class SkipList {
    const header: SkipListNode
    var level: nat
    var length: nat
    ghost var nodes: seq<SkipListNode>   // the level-0 chain, header first
    ghost var heights: seq<nat>

    ghost predicate Valid()
      reads this, nodes
    {
      && Chain(nodes, heights, level)
      && nodes[0] == header && header.key == 0
      && length == |nodes| - 1
    }

    ghost function Keys(): (ks: seq<int>)
      reads this
    {
      KeysOf(nodes)
    }

    constructor ()
      ensures Valid() && fresh(this) && fresh(nodes)
      ensures Keys() == []
    {
      var h := new SkipListNode(0, MAX_LEVEL);
      header := h;
      level := 0;
      length := 0;
      nodes := [h];
      heights := [MAX_LEVEL];
    }

    // Any height from 1 to MAX_LEVEL can come out: the coin is nondeterministic.
    method RandomLevel() returns (rl: nat)
      ensures 1 <= rl <= MAX_LEVEL
    {
      rl := 1;
      var coin: bool := *;
      while rl < MAX_LEVEL && coin
        invariant 1 <= rl <= MAX_LEVEL
      {
        rl := rl + 1;
        coin := *;
      }
    }

    // The descent all searches share. It never passes a key >= `key`, and
    // records on each level the last node before that point.
    method Descend(key: int) returns (update: seq<SkipListNode?>, curr: SkipListNode, ghost p: nat)
      requires Valid()
      ensures LastBelow(nodes, key, p) && curr == nodes[p]
      ensures |update| == MAX_LEVEL
      ensures forall i :: 0 <= i < level ==> update[i] == nodes[PrevTall(heights, p, i)]
    {
      update := seq(MAX_LEVEL, _ => null);
      curr, p := header, 0;
      ghost var at: seq<nat> := seq(MAX_LEVEL, _ => 0);
      var i := level;
      while i > 0
        invariant 0 <= i <= level
        invariant p < |nodes| && curr == nodes[p]
        invariant i > 0 ==> heights[p] > i - 1
        invariant forall j :: 1 <= j <= p ==> nodes[j].key < key
        invariant |update| == |at| == MAX_LEVEL
        invariant forall j :: i <= j < level ==> Recorded(key, p, j, at[j]) && update[j] == nodes[at[j]]
        invariant i < level ==> forall m :: p < m < |nodes| && heights[m] > i ==> key <= nodes[m].key
      {
        i := i - 1;
        p, curr := Advance(key, i, p, curr);
        update := update[i := curr];
        at := at[i := p];
      }
      forall j | 0 <= j < level
        ensures at[j] == PrevTall(heights, p, j)
      {
        assert Recorded(key, p, j, at[j]);
      }
    }

    // q is the last node below `key` on level j, and the descent is at p >= q.
    ghost predicate Recorded(key: int, p: nat, j: nat, q: nat)
      reads this
    {
      && |heights| == |nodes|
      && q <= p < |nodes| && heights[q] > j
      && forall m :: q < m < |nodes| && heights[m] > j ==> key <= nodes[m].key
    }

    // The inner loop of the descent: walk level i while the next key is below.
    method Advance(key: int, i: nat, ghost p0: nat, from: SkipListNode) returns (ghost p: nat, curr: SkipListNode)
      requires Valid() && i < level
      requires p0 < |nodes| && from == nodes[p0] && heights[p0] > i
      requires forall j :: 1 <= j <= p0 ==> nodes[j].key < key
      ensures p0 <= p < |nodes| && curr == nodes[p] && heights[p] > i
      ensures forall j :: 1 <= j <= p ==> nodes[j].key < key
      ensures forall m :: p < m < |nodes| && heights[m] > i ==> key <= nodes[m].key
    {
      p, curr := p0, from;
      while curr.forward[i] != null && curr.forward[i].key < key
        invariant p0 <= p < |nodes| && curr == nodes[p] && heights[p] > i
        invariant forall j :: 1 <= j <= p ==> nodes[j].key < key
        decreases |nodes| - p
      {
        assert curr.forward[i] == NodeAt(nodes, NextTall(heights, p, i));
        p := NextTall(heights, p, i);
        curr := curr.forward[i];
      }
      assert curr.forward[i] == NodeAt(nodes, NextTall(heights, p, i));
    }

    // The nodes met by following level i from position k, pointer by pointer.
    ghost function FollowLevel(k: nat, i: nat): seq<SkipListNode>
      requires Valid() && k < |nodes| && i < heights[k]
      reads this, nodes
      decreases |nodes| - k
    {
      var next := nodes[k].forward[i];
      assert next == NodeAt(nodes, NextTall(heights, k, i));
      if next == null then [] else [next] + FollowLevel(NextTall(heights, k, i), i)
    }

    // Each level is the sublist of level 0 of the nodes tall enough for it.
    lemma {:induction false} LevelIsSublist(k: nat, i: nat)
      requires Valid() && k < |nodes| && i < heights[k]
      ensures FollowLevel(k, i) == TallNodes(nodes, heights, k + 1, i)
      decreases |nodes| - k
    {
      var r := NextTall(heights, k, i);
      assert nodes[k].forward[i] == NodeAt(nodes, r);
      SkipShort(nodes, heights, k + 1, r, i);
      if r < |nodes| { LevelIsSublist(r, i); }
    }

    // The node holding `key`, or nil.
    method Search(key: int) returns (node: SkipListNode?)
      requires Valid()
      ensures node == null <==> key !in Keys()
      ensures node != null ==> node in nodes[1..] && node.key == key
    {
      var update, curr, p := Descend(key);
      LinkOnLevelZero(p);
      KeyFollows(key, p);
      node := curr.forward[0];
      if node == null || node.key != key { return null; }
    }

    // The lower bound of `key`, or else the last node; nil only when empty.
    method Seek(key: int) returns (node: SkipListNode?)
      requires Valid()
      ensures node == null <==> Keys() == []
      ensures node != null ==> exists k :: 0 <= k < |Keys()| && node == nodes[k + 1] && IsSeekPosition(Keys(), key, k)
      ensures (node != null && node.key == key) <==> key in Keys()
    {
      var update, curr, p := Descend(key);
      LinkOnLevelZero(p);
      KeyFollows(key, p);
      if curr.forward[0] != null {
        assert IsSeekPosition(Keys(), key, p);
        return curr.forward[0];
      }
      if curr != header {
        assert IsSeekPosition(Keys(), key, p - 1);
        return curr;
      }
      node := null;
    }

    // The smallest key's node; nil when empty.
    method SeekFirst() returns (node: SkipListNode?)
      requires Valid()
      ensures node == NodeAt(nodes, 1)
    {
      LinkOnLevelZero(0);
      node := header.forward[0];
    }

    // The largest key's node; nil when empty.
    method SeekLast() returns (node: SkipListNode?)
      requires Valid()
      ensures node == if |nodes| == 1 then null else nodes[|nodes| - 1]
    {
      var curr := header;
      ghost var p: nat := 0;
      var i := level;
      while i > 0
        invariant 0 <= i <= level
        invariant p < |nodes| && curr == nodes[p]
        invariant i > 0 ==> heights[p] > i - 1
        invariant i < level ==> forall m :: p < m < |nodes| ==> heights[m] <= i
      {
        i := i - 1;
        while curr.forward[i] != null
          invariant p < |nodes| && curr == nodes[p] && heights[p] > i
          decreases |nodes| - p
        {
          assert curr.forward[i] == NodeAt(nodes, NextTall(heights, p, i));
          p := NextTall(heights, p, i);
          curr := curr.forward[i];
        }
        assert curr.forward[i] == NodeAt(nodes, NextTall(heights, p, i));
      }
      if curr == header { return null; }
      node := curr;
    }

    method Len() returns (n: nat)
      requires Valid()
      ensures n == |Keys()|
    {
      n := length;
    }

    method IsEmpty() returns (b: bool)
      requires Valid()
      ensures b <==> Keys() == []
    {
      b := length == 0;
    }

    // Adds `key` unless it is present; either way returns its node, which
    // stands at position p + 1.
    method Insert(key: int) returns (node: SkipListNode, ghost p: nat)
      requires Valid()
      modifies this, nodes
      ensures Valid()
      ensures p + 1 < |nodes| && node == nodes[p + 1] && node.key == key
      ensures forall q :: q in Keys() <==> q in old(Keys()) || q == key
      ensures key in old(Keys()) ==> nodes == old(nodes)
      ensures key !in old(Keys()) ==> fresh(node) && p < |old(nodes)| && nodes == Spliced(old(nodes), node, p)
    {
      var update, curr;
      update, curr, p := Descend(key);
      LinkOnLevelZero(p);
      KeyFollows(key, p);
      var found := curr.forward[0];
      if found != null && found.key == key {
        return found, p;
      }
      var rl := RandomLevel();
      update := RaisePath(update, rl, p);
      node := new SkipListNode(key, rl);
      KeysSpliced(nodes, node, p);
      Attach(node, update, curr, p);
    }

    // Levels the list did not have yet start at the header.
    method RaisePath(update: seq<SkipListNode?>, rl: nat, ghost p: nat) returns (path: seq<SkipListNode?>)
      requires Valid() && p < |nodes| && 1 <= rl <= MAX_LEVEL == |update|
      requires forall i :: 0 <= i < level ==> update[i] == nodes[PrevTall(heights, p, i)]
      ensures |path| == MAX_LEVEL
      ensures forall i :: 0 <= i < rl ==> path[i] == nodes[PrevTall(heights, p, i)]
    {
      path := update;
      if rl > level {
        var i := level;
        while i < rl
          invariant level <= i <= rl
          invariant |path| == MAX_LEVEL
          invariant forall j :: 0 <= j < i ==> path[j] == nodes[PrevTall(heights, p, j)]
        {
          path := path[i := header];
          i := i + 1;
        }
      }
    }

    // Links a new node in after position p.
    method Attach(node: SkipListNode, path: seq<SkipListNode?>, pred: SkipListNode, ghost p: nat)
      requires Valid() && LastBelow(nodes, node.key, p) && pred == nodes[p]
      requires node !in nodes && (p + 1 < |nodes| ==> node.key < nodes[p + 1].key)
      requires 1 <= |node.forward| <= MAX_LEVEL == |path|
      requires forall i :: 0 <= i < |node.forward| ==> path[i] == nodes[PrevTall(heights, p, i)]
      modifies this, nodes, node
      ensures Valid() && nodes == Spliced(old(nodes), node, p)
    {
      hide ForwardLinked, BackLinked, Heights, Ascending, Inserted;
      LinkOnLevelZero(p);
      ghost var chain, hs, lv := nodes, heights, level;
      if |node.forward| > level {
        level := |node.forward|;
      }
      length := length + 1;
      nodes, heights := Spliced(chain, node, p), Inserted(hs, p, |node.forward|);
      SplicePointers(chain, hs, lv, node, path, pred, p);
    }

    static method SplicePointers(ghost nodes: seq<SkipListNode>, ghost heights: seq<nat>, ghost level: nat,
                                 node: SkipListNode, path: seq<SkipListNode?>, pred: SkipListNode, ghost p: nat)
      requires Chain(nodes, heights, level)
      requires LastBelow(nodes, node.key, p) && pred == nodes[p]
      requires node !in nodes && (p + 1 < |nodes| ==> node.key < nodes[p + 1].key)
      requires 1 <= |node.forward| <= MAX_LEVEL == |path|
      requires forall i :: 0 <= i < |node.forward| ==> path[i] == nodes[PrevTall(heights, p, i)]
      modifies nodes, node
      ensures |node.forward| == old(|node.forward|)
      ensures Chain(Spliced(nodes, node, p), Inserted(heights, p, |node.forward|),
                    if |node.forward| > level then |node.forward| else level)
    {
      hide Heights, BackLinked, Ascending, Inserted, PrevTall;
      AscendingSpliced(nodes, node, p);
      HeightsAfterInsert(heights, level, p, |node.forward|);
      SplicePath(nodes, heights, level, node, path, p);
      SpliceBackward(nodes, node, pred, p);
    }

    static method SplicePath(ghost nodes: seq<SkipListNode>, ghost heights: seq<nat>, ghost level: nat,
                             node: SkipListNode, path: seq<SkipListNode?>, ghost p: nat)
      requires p < |nodes| && node !in nodes && Distinct(nodes)
      requires Heights(heights, level) && ForwardLinked(nodes, heights)
      requires 1 <= |node.forward| <= MAX_LEVEL == |path|
      requires forall i :: 0 <= i < |node.forward| ==> path[i] == nodes[PrevTall(heights, p, i)]
      modifies (set n | n in nodes)`forward, node`forward
      ensures |node.forward| == old(|node.forward|) && node.forward[0] == NodeAt(nodes, p + 1)
      ensures ForwardLinked(Spliced(nodes, node, p), Inserted(heights, p, |node.forward|))
    {
      SpliceForward(nodes, heights, node, path, p);
      assert node.forward[0] == NodeAt(nodes, NextTall(heights, PrevTall(heights, p, 0), 0));
      SplicedForwardLinked(nodes, heights, level, node, p);
    }

    // Rewires the forward pointers of the predecessors of `node` to it, level
    // by level.
    static method SpliceForward(ghost nodes: seq<SkipListNode>, ghost heights: seq<nat>,
                                node: SkipListNode, update: seq<SkipListNode?>, ghost p: nat)
      requires p < |nodes| == |heights| && node !in nodes && Distinct(nodes)
      requires ForwardLinked(nodes, heights)
      requires heights[0] == MAX_LEVEL
      requires 1 <= |node.forward| <= MAX_LEVEL == |update|
      requires forall i :: 0 <= i < |node.forward| ==> update[i] == nodes[PrevTall(heights, p, i)]
      modifies (set n | n in nodes)`forward, node`forward
      ensures |node.forward| == old(|node.forward|)
      ensures forall k :: 0 <= k < |nodes| ==> |nodes[k].forward| == heights[k]
      ensures Threaded(nodes, heights, node, p, 0, |node.forward|)
    {
      var i := 0;
      while i < |node.forward|
        invariant 0 <= i <= |node.forward| == old(|node.forward|)
        invariant forall k :: 0 <= k < |nodes| ==> |nodes[k].forward| == heights[k]
        invariant Threaded(nodes, heights, node, p, 0, i)
      {
        ThreadLevel(nodes, heights, node, update[i], p, i);
        i := i + 1;
      }
    }

    static method ThreadLevel(ghost nodes: seq<SkipListNode>, ghost heights: seq<nat>,
                              node: SkipListNode, u: SkipListNode, ghost p: nat, i: nat)
      requires p < |nodes| == |heights| && node !in nodes && Distinct(nodes) && heights[0] == MAX_LEVEL
      requires i < |node.forward| <= MAX_LEVEL
      requires forall k :: 0 <= k < |nodes| ==> |nodes[k].forward| == heights[k]
      requires Threaded(nodes, heights, node, p, 0, i) && u == nodes[PrevTall(heights, p, i)]
      modifies u`forward, node`forward
      ensures forall k :: 0 <= k < |nodes| ==> |nodes[k].forward| == heights[k]
      ensures |node.forward| == old(|node.forward|) && Threaded(nodes, heights, node, p, 0, i + 1)
    {
      node.forward := node.forward[i := u.forward[i]];
      u.forward := u.forward[i := node];
    }

    // The chain as `node` is threaded through it at p + 1 on levels lo..hi only.
    static ghost predicate Threaded(nodes: seq<SkipListNode>, heights: seq<nat>, node: SkipListNode, p: nat, lo: nat, hi: nat)
      requires p < |nodes| == |heights| && heights[0] == MAX_LEVEL
      requires hi <= |node.forward| <= MAX_LEVEL
      requires forall k :: 0 <= k < |nodes| ==> |nodes[k].forward| == heights[k]
      reads (set n | n in nodes)`forward, node`forward
    {
      && (forall j :: 0 <= j < hi ==>
            node.forward[j] == NodeAt(nodes, NextTall(heights, PrevTall(heights, p, j), j)))
      && (forall k, j :: 0 <= k < |nodes| && 0 <= j < heights[k] ==>
            nodes[k].forward[j] ==
              if lo <= j < hi && k == PrevTall(heights, p, j) then node else NodeAt(nodes, NextTall(heights, k, j)))
    }

    // With every predecessor rewired, the chain with `node` at p + 1 is linked.
    static lemma SplicedForwardLinked(nodes: seq<SkipListNode>, heights: seq<nat>, level: nat, node: SkipListNode, p: nat)
      requires p < |nodes| == |heights| && Heights(heights, level)
      requires |node.forward| <= MAX_LEVEL
      requires forall k :: 0 <= k < |nodes| ==> |nodes[k].forward| == heights[k]
      requires Threaded(nodes, heights, node, p, 0, |node.forward|)
      ensures ForwardLinked(Spliced(nodes, node, p), Inserted(heights, p, |node.forward|))
    {
      var rl := |node.forward|;
      var ns, h' := Spliced(nodes, node, p), Inserted(heights, p, rl);
      forall k, i | 0 <= k < |ns| && 0 <= i < h'[k]
        ensures ns[k].forward[i] == NodeAt(ns, NextTall(h', k, i))
      {
        if k == p + 1 {
          SplicedOwnTarget(nodes, node, heights, p, rl, i);
        } else {
          var k0 := if k <= p then k else k - 1;
          assert k == Shift(p, k0) && ns[k] == nodes[k0] && h'[k] == heights[k0];
          SplicedTarget(nodes, node, heights, p, rl, k0, i);
        }
      }
    }

    // Conversely, a linked chain is its node at p + 1 threaded through the rest.
    static lemma UnsplicedPath(chain: seq<SkipListNode>, hs: seq<nat>, level: nat, p: nat, ns: seq<SkipListNode>, h: seq<nat>)
      requires Chain(chain, hs, level) && p + 1 < |chain|
      requires ns == Without(chain, p + 1) && h == Without(hs, p + 1)
      ensures LooseHeights(h, level) && Ascending(ns) && Distinct(ns) && chain[p + 1] !in ns
      ensures forall k :: 0 <= k < |ns| ==> |ns[k].forward| == h[k]
      ensures Threaded(ns, h, chain[p + 1], p, 0, hs[p + 1])
      ensures forall i :: 0 <= i < level ==> PrevTall(h, p, i) == PrevTall(hs, p, i)
    {
      hide Without, Inserted, Spliced;
      var node := chain[p + 1];
      WithoutIsInverse(chain, hs, p);
      forall j | 0 <= j < hs[p + 1]
        ensures node.forward[j] == NodeAt(ns, NextTall(h, PrevTall(h, p, j), j))
      {
        SplicedOwnTarget(ns, node, h, p, hs[p + 1], j);
      }
      forall k, j | 0 <= k < |ns| && 0 <= j < h[k]
        ensures ns[k].forward[j] ==
          if j < hs[p + 1] && k == PrevTall(h, p, j) then node else NodeAt(ns, NextTall(h, k, j))
      {
        assert ns[k] == chain[Shift(p, k)] && h[k] == hs[Shift(p, k)];
        SplicedTarget(ns, node, h, p, hs[p + 1], k, j);
      }
    }

    // The two back pointers around `node`.
    static method SpliceBackward(ghost nodes: seq<SkipListNode>, node: SkipListNode, pred: SkipListNode, ghost p: nat)
      requires p < |nodes| && pred == nodes[p] && node !in nodes && Distinct(nodes) && BackLinked(nodes)
      requires |node.forward| > 0 && node.forward[0] == NodeAt(nodes, p + 1)
      modifies (set n | n in nodes)`backward, node`backward
      ensures BackLinked(Spliced(nodes, node, p))
    {
      node.backward := pred;
      if node.forward[0] != null {
        node.forward[0].backward := node;
      }
      assert forall k {:trigger nodes[k].backward} :: 0 <= k < |nodes| ==>
        nodes[k].backward == if k == p + 1 then node else Predecessor(nodes, k);
    }

    // Removes `key`; false when it is not there.
    method Delete(key: int) returns (removed: bool, ghost p: nat)
      requires Valid()
      modifies this, nodes
      ensures Valid()
      ensures removed <==> key in old(Keys())
      ensures forall q :: q in Keys() <==> q in old(Keys()) && q != key
      ensures !removed ==> nodes == old(nodes)
      ensures removed ==> p + 1 < |old(nodes)| && old(nodes)[p + 1].key == key && nodes == Without(old(nodes), p + 1)
    {
      var update, curr;
      update, curr, p := Descend(key);
      LinkOnLevelZero(p);
      KeyFollows(key, p);
      var found := curr.forward[0];
      if found == null || found.key != key {
        return false, p;
      }
      KeysWithout(nodes, p + 1);
      Detach(found, update, p);
      removed := true;
    }

    // Unlinks the node at p + 1 and drops the levels it leaves empty.
    method Detach(node: SkipListNode, update: seq<SkipListNode?>, ghost p: nat)
      requires Valid() && p + 1 < |nodes| && node == nodes[p + 1] && |update| == MAX_LEVEL
      requires forall i :: 0 <= i < level ==> update[i] == nodes[PrevTall(heights, p, i)]
      modifies this, nodes
      ensures Valid() && nodes == Without(old(nodes), p + 1)
    {
      ghost var chain, hs := nodes, heights;
      length := length - 1;
      nodes, heights := Without(chain, p + 1), Without(hs, p + 1);
      Unsplice(nodes, heights, chain, hs, level, node, update, p);
      ShrinkLevel();
    }

    static method Unsplice(ghost ns: seq<SkipListNode>, ghost h: seq<nat>, ghost chain: seq<SkipListNode>, ghost hs: seq<nat>,
                           level: nat, node: SkipListNode, update: seq<SkipListNode?>, ghost p: nat)
      requires Chain(chain, hs, level) && p + 1 < |chain| && node == chain[p + 1] && |update| == MAX_LEVEL
      requires ns == Without(chain, p + 1) && h == Without(hs, p + 1)
      requires forall i :: 0 <= i < level ==> update[i] == chain[PrevTall(hs, p, i)]
      modifies chain
      ensures LooseChain(ns, h, level)
    {
      UnsplicedPath(chain, hs, level, p, ns, h);
      UnspliceBackward(ns, chain, hs, level, node, p);
      UnspliceForward(ns, h, level, node, update, p);
    }

    // The back pointers around the node at p + 1, seen from the rest.
    static lemma UnsplicedBack(ns: seq<SkipListNode>, chain: seq<SkipListNode>, hs: seq<nat>, level: nat, p: nat)
      requires Chain(chain, hs, level) && p + 1 < |chain| && ns == Without(chain, p + 1)
      ensures chain[p + 1].backward == ns[p]
      ensures |chain[p + 1].forward| > 0 && chain[p + 1].forward[0] == NodeAt(ns, p + 1)
      ensures forall k {:trigger ns[k].backward} :: 0 <= k < |ns| ==>
        ns[k].backward == if k == p + 1 then chain[p + 1] else Predecessor(ns, k)
    {
      forall k {:trigger ns[k].backward} | 0 <= k < |ns|
        ensures ns[k].backward == if k == p + 1 then chain[p + 1] else Predecessor(ns, k)
      {
        assert ns[k] == chain[Shift(p, k)];
      }
      assert chain[p + 1].forward[0] == NodeAt(chain, NextTall(hs, p + 1, 0));
      assert NodeAt(chain, p + 2) == NodeAt(ns, p + 1);
    }

    static method UnspliceBackward(ghost ns: seq<SkipListNode>, ghost chain: seq<SkipListNode>, ghost hs: seq<nat>, ghost level: nat,
                                   node: SkipListNode, ghost p: nat)
      requires Chain(chain, hs, level) && p + 1 < |chain| && node == chain[p + 1]
      requires ns == Without(chain, p + 1) && node !in ns && Distinct(ns)
      modifies (set n | n in ns)`backward
      ensures BackLinked(ns) && node.backward == ns[p]
    {
      UnsplicedBack(ns, chain, hs, level, p);
      if node.forward[0] != null {
        node.forward[0].backward := node.backward;
      }
    }

    // Bypasses `node` level by level: level 0 through its back pointer, the
    // rest through the recorded predecessors.
    static method UnspliceForward(ghost ns: seq<SkipListNode>, ghost h: seq<nat>, level: nat,
                                  node: SkipListNode, update: seq<SkipListNode?>, ghost p: nat)
      requires p < |ns| == |h| && node !in ns && Distinct(ns) && h[0] == MAX_LEVEL && h[p] > 0
      requires 1 <= |node.forward| <= level <= MAX_LEVEL == |update|
      requires forall k :: 0 <= k < |ns| ==> |ns[k].forward| == h[k]
      requires Threaded(ns, h, node, p, 0, |node.forward|)
      requires node.backward == ns[p]
      requires forall i :: 0 <= i < level ==> update[i] == ns[PrevTall(h, p, i)]
      modifies (set n | n in ns)`forward
      ensures ForwardLinked(ns, h)
    {
      if node.backward != null {
        Bypass(ns, h, node, node.backward, p, 0);
      }
      var i := 0;
      while i < level
        invariant 0 <= i <= level && |node.forward| == old(|node.forward|)
        invariant forall k :: 0 <= k < |ns| ==> |ns[k].forward| == h[k]
        invariant Threaded(ns, h, node, p, if i == 0 then 1 else i, |node.forward|)
      {
        var u := update[i];
        assert u.forward[i] == node <==> 0 < i < |node.forward|;
        if u.forward[i] == node {
          Bypass(ns, h, node, u, p, i);
        }
        i := i + 1;
      }
    }

    static method Bypass(ghost ns: seq<SkipListNode>, ghost h: seq<nat>, node: SkipListNode, u: SkipListNode, ghost p: nat, i: nat)
      requires p < |ns| == |h| && node !in ns && Distinct(ns) && h[0] == MAX_LEVEL
      requires i < |node.forward| <= MAX_LEVEL
      requires forall k :: 0 <= k < |ns| ==> |ns[k].forward| == h[k]
      requires Threaded(ns, h, node, p, i, |node.forward|) && u == ns[PrevTall(h, p, i)]
      modifies u`forward
      ensures forall k :: 0 <= k < |ns| ==> |ns[k].forward| == h[k]
      ensures |node.forward| == old(|node.forward|) && Threaded(ns, h, node, p, i + 1, |node.forward|)
    {
      u.forward := u.forward[i := node.forward[i]];
    }

    method ShrinkLevel()
      requires LooseChain(nodes, heights, level) && nodes[0] == header && header.key == 0 && length == |nodes| - 1
      modifies this`level
      ensures Valid()
    {
      while level > 0 && header.forward[level - 1] == null
        invariant LooseChain(nodes, heights, level)
      {
        assert header.forward[level - 1] == NodeAt(nodes, NextTall(heights, 0, level - 1));
        level := level - 1;
      }
      assert level > 0 ==> header.forward[level - 1] == NodeAt(nodes, NextTall(heights, 0, level - 1));
    }

    lemma KeyFollows(key: int, p: nat)
      requires Valid() && LastBelow(nodes, key, p)
      ensures key in Keys() <==> p + 1 < |nodes| && nodes[p + 1].key == key
    {
      if p + 1 < |nodes| { assert Keys()[p] == nodes[p + 1].key; }
    }

    // Back pointers invert the links of level 0, header included.
    lemma BackwardInverts(p: nat)
      requires Valid() && p < |nodes|
      ensures |nodes[p].forward| > 0 && (nodes[p].forward[0] != null ==> nodes[p].forward[0].backward == nodes[p])
      ensures if p == 0 then nodes[p].backward == null
        else nodes[p].backward != null && |nodes[p].backward.forward| > 0 && nodes[p].backward.forward[0] == nodes[p]
    {
      LinkOnLevelZero(p);
      assert nodes[p].backward == Predecessor(nodes, p);
      if p + 1 < |nodes| {
        assert nodes[p + 1].backward == Predecessor(nodes, p + 1);
      }
      if p > 0 { LinkOnLevelZero(p - 1); }
    }

    // Level 0 links every node to its successor.
    lemma LinkOnLevelZero(p: nat)
      requires Valid() && p < |nodes|
      ensures |heights| == |nodes| && heights[p] > 0 && |nodes[p].forward| > 0
      ensures nodes[p].forward[0] == NodeAt(nodes, p + 1)
    {
      assert nodes[p].forward[0] == NodeAt(nodes, NextTall(heights, p, 0));
      assert NextTall(heights, p, 0) == p + 1;
    }
  }

  // Seek's answer: the first key >= `key`, or the last of all when none is.
  ghost predicate IsSeekPosition(ks: seq<int>, key: int, k: nat) {
    && k < |ks|
    && (forall j :: 0 <= j < k ==> ks[j] < key)
    && (key <= ks[k] || k == |ks| - 1)
  }
}
