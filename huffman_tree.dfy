/** The transient Huffman tree of `compute_canonical_lens`: the `Node` record with
    Rust's derived ordering, the max-heap reduced to its extraction order, the
    merge loop, and the depth-first walk that reads leaf depths off as lengths. */
module HuffmanTree {
  import opened Wrappers
  import opened Arith
  import opened Kraft

  /** `u16::MAX`, the symbol id that marks a merged (internal) node. */
  const Sentinel: nat := 0xFFFF

  /** A heap entry. `weight` is the NEGATED (shrunk) weight, so that the max-heap
      yields the lightest node first; leaves carry their symbol id and no
      children, merged nodes carry `Sentinel` and both children. */
  datatype Node = Node(weight: int, symbol: nat, child1: Option<Node>, child2: Option<Node>)

  predicate IsInternal(t: Node)
  {
    t.symbol == Sentinel && t.child1.Some? && t.child2.Some?
  }

  /** The node pushed back after popping `min1` and then `min2`. */
  function Merge(min1: Node, min2: Node): (merged: Node)
    ensures IsInternal(merged) && merged.weight == min1.weight + min2.weight
  {
    Node(min1.weight + min2.weight, Sentinel, Some(min1), Some(min2))
  }

  function Zeros(n: nat): (z: seq<nat>)
    ensures |z| == n && forall i | 0 <= i < n :: z[i] == 0
  {
    seq(n, _ => 0)
  }

  // ---------------------------------------------------------------------------
  // The derived `Ord`: fields compared lexicographically in declaration order
  // (weight, symbol, child1, child2), with `None < Some` on the children.

  function Sign(a: int, b: int): int
  {
    if a < b then -1 else if a == b then 0 else 1
  }

  /** Negative, zero or positive as `a` is below, equal to or above `b`; every
      node is equal to itself. */
  function Compare(a: Node, b: Node): (r: int)
    ensures -1 <= r <= 1
    ensures a == b ==> r == 0
    decreases a
  {
    if a.weight != b.weight then Sign(a.weight, b.weight)
    else if a.symbol != b.symbol then Sign(a.symbol, b.symbol)
    else if CompareChild(a.child1, b.child1) != 0 then CompareChild(a.child1, b.child1)
    else CompareChild(a.child2, b.child2)
  }

  function CompareChild(a: Option<Node>, b: Option<Node>): (r: int)
    ensures -1 <= r <= 1
    ensures a == b ==> r == 0
    decreases a
  {
    match a
    case None => if b.None? then 0 else -1
    case Some(x) => if b.None? then 1 else Compare(x, b.value)
  }

  lemma {:induction false} CompareAntisymmetric(a: Node, b: Node)
    ensures Compare(a, b) == -Compare(b, a)
    decreases a
  {
    CompareChildAntisymmetric(a.child1, b.child1);
    CompareChildAntisymmetric(a.child2, b.child2);
  }

  lemma {:induction false} CompareChildAntisymmetric(a: Option<Node>, b: Option<Node>)
    ensures CompareChild(a, b) == -CompareChild(b, a)
    decreases a
  {
    if a.Some? && b.Some? {
      CompareAntisymmetric(a.value, b.value);
    }
  }

  /** Two nodes compare equal exactly when they are the same value. */
  lemma {:induction false} CompareZero(a: Node, b: Node)
    ensures Compare(a, b) == 0 <==> a == b
    decreases a
  {
    CompareChildZero(a.child1, b.child1);
    CompareChildZero(a.child2, b.child2);
  }

  lemma {:induction false} CompareChildZero(a: Option<Node>, b: Option<Node>)
    ensures CompareChild(a, b) == 0 <==> a == b
    decreases a
  {
    if a.Some? && b.Some? {
      CompareZero(a.value, b.value);
    }
  }

  lemma {:induction false} CompareTransitive(a: Node, b: Node, c: Node)
    requires Compare(a, b) <= 0 && Compare(b, c) <= 0
    ensures Compare(a, c) <= 0
    decreases a
  {
    if a.weight == b.weight == c.weight && a.symbol == b.symbol == c.symbol {
      CompareChildAntisymmetric(a.child1, b.child1);
      CompareChildAntisymmetric(b.child1, c.child1);
      CompareChildZero(a.child1, c.child1);
      CompareChildTransitive(a.child1, b.child1, c.child1);
      if CompareChild(a.child1, c.child1) == 0 {
        CompareChildTransitive(a.child2, b.child2, c.child2);
      }
    }
  }

  lemma {:induction false} CompareChildTransitive(a: Option<Node>, b: Option<Node>, c: Option<Node>)
    requires CompareChild(a, b) <= 0 && CompareChild(b, c) <= 0
    ensures CompareChild(a, c) <= 0
    decreases a
  {
    if a.Some? && b.Some? && c.Some? {
      CompareTransitive(a.value, b.value, c.value);
    }
  }

  /** The tie-breaks the sentinel and the field order produce: a merged node
      beats a leaf of equal weight, and of two leaves of equal weight the one
      with the higher symbol id is greater (popped first). */
  lemma {:induction false} TieBreaks(leaf: Node, other: Node, merged: Node)
    requires !IsInternal(leaf) && leaf.symbol < Sentinel && IsInternal(merged) && merged.weight == leaf.weight
    requires !IsInternal(other) && other.weight == leaf.weight && other.symbol < leaf.symbol
    ensures Compare(merged, leaf) > 0
    ensures Compare(leaf, other) > 0
  {
  }

  // ---------------------------------------------------------------------------
  // The heap, reduced to its extraction order: `pop` yields a greatest node.

  /** The first position holding a greatest node. */
  function MaxIndex(heap: seq<Node>): (i: nat)
    requires |heap| > 0
    ensures i < |heap|
  {
    if |heap| == 1 then 0
    else
      var i := MaxIndex(heap[..|heap| - 1]);
      if Compare(heap[|heap| - 1], heap[i]) > 0 then |heap| - 1 else i
  }

  function RemoveAt(heap: seq<Node>, i: nat): (rest: seq<Node>)
    requires i < |heap|
    ensures |rest| == |heap| - 1
    ensures multiset(rest) + multiset{heap[i]} == multiset(heap)
  {
    assert heap == heap[..i] + [heap[i]] + heap[i + 1..];
    heap[..i] + heap[i + 1..]
  }

  /** `BinaryHeap::pop`: a greatest node and the heap without it. */
  function PopMax(heap: seq<Node>): (r: (Node, seq<Node>))
    requires |heap| > 0
    ensures r.0 in heap && |r.1| == |heap| - 1
    ensures multiset(r.1) + multiset{r.0} == multiset(heap)
  {
    var i := MaxIndex(heap);
    (heap[i], RemoveAt(heap, i))
  }

  /** `pop` returns a greatest node under the derived order, and that node is
      the only greatest value: any node not below it is equal to it. */
  lemma {:induction false} PopMaxIsGreatest(heap: seq<Node>)
    requires |heap| > 0
    ensures forall x | x in heap :: Compare(x, PopMax(heap).0) <= 0
    ensures forall x | x in heap && Compare(x, PopMax(heap).0) >= 0 :: x == PopMax(heap).0
    ensures multiset(PopMax(heap).1) + multiset{PopMax(heap).0} == multiset(heap)
  {
    MaxIndexIsGreatest(heap);
    forall x | x in heap && Compare(x, PopMax(heap).0) >= 0
      ensures x == PopMax(heap).0
    {
      CompareZero(x, PopMax(heap).0);
    }
  }

  lemma {:induction false} MaxIndexIsGreatest(heap: seq<Node>)
    requires |heap| > 0
    ensures forall j | 0 <= j < |heap| :: Compare(heap[j], heap[MaxIndex(heap)]) <= 0
  {
    var n := |heap|;
    if n == 1 {
      CompareZero(heap[0], heap[0]);
    } else {
      var init := heap[..n - 1];
      var i := MaxIndex(init);
      MaxIndexIsGreatest(init);
      CompareZero(heap[n - 1], heap[n - 1]);
      if Compare(heap[n - 1], heap[i]) > 0 {
        CompareAntisymmetric(heap[n - 1], heap[i]);
        forall j | 0 <= j < n - 1
          ensures Compare(heap[j], heap[n - 1]) <= 0
        {
          assert heap[j] == init[j];
          CompareTransitive(heap[j], heap[i], heap[n - 1]);
        }
      } else {
        CompareAntisymmetric(heap[n - 1], heap[i]);
        forall j | 0 <= j < n - 1
          ensures Compare(heap[j], heap[i]) <= 0
        {
          assert heap[j] == init[j];
        }
      }
    }
  }

  /** The root left after merging the two greatest nodes until one node remains
      (src/huffman.rs:90-102). */
  function TreeOf(heap: seq<Node>): (root: Node)
    requires |heap| >= 1
    ensures |heap| >= 2 ==> IsInternal(root)
    decreases |heap|
  {
    if |heap| == 1 then heap[0]
    else
      var (min1, rest1) := PopMax(heap);
      var (min2, rest2) := PopMax(rest1);
      TreeOf(rest2 + [Merge(min1, min2)])
  }

  /** The merge loop of `compute_canonical_lens`. */
  method MergeHeap(heap: seq<Node>) returns (root: Node)
    requires |heap| >= 1
    ensures root == TreeOf(heap)
  {
    var nodes := heap;
    while |nodes| > 1
      invariant |nodes| >= 1
      invariant TreeOf(nodes) == TreeOf(heap)
      decreases |nodes|
    {
      var (min1, rest1) := PopMax(nodes);
      var (min2, rest2) := PopMax(rest1);
      nodes := rest2 + [Merge(min1, min2)];
    }
    root := nodes[0];
  }

  // ---------------------------------------------------------------------------
  // Shape of a tree.

  /** Every node marked with the sentinel has both children, and every leaf
      symbol indexes a table of size `n`. */
  predicate WellFormed(t: Node, n: nat)
  {
    if t.symbol == Sentinel then
      t.child1.Some? && t.child2.Some? && WellFormed(t.child1.value, n) && WellFormed(t.child2.value, n)
    else t.symbol < n
  }

  /** The leaf symbols of a tree, with multiplicity. */
  function Leaves(t: Node): multiset<nat>
  {
    if IsInternal(t) then Leaves(t.child1.value) + Leaves(t.child2.value) else multiset{t.symbol}
  }

  function HeapLeaves(heap: seq<Node>): multiset<nat>
  {
    if heap == [] then multiset{} else HeapLeaves(heap[..|heap| - 1]) + Leaves(heap[|heap| - 1])
  }

  ghost predicate Distinct(m: multiset<nat>)
  {
    forall x :: m[x] <= 1
  }

  function Size(t: Node): (r: nat)
    ensures r >= 1
  {
    if IsInternal(t) then 1 + Size(t.child1.value) + Size(t.child2.value) else 1
  }

  /** The walk meets no merged node at depth `max`, starting from depth `d`. */
  predicate Fits(t: Node, d: nat, max: nat)
  {
    if IsInternal(t) then d != max && Fits(t.child1.value, d + 1, max) && Fits(t.child2.value, d + 1, max)
    else true
  }

  /** `lens` with every leaf of `t` set to its depth (counted from `d`), in the
      walk's order: the second child's subtree first, then the first child's. */
  function DepthLens(t: Node, d: nat, lens: seq<nat>): (r: seq<nat>)
    ensures |r| == |lens|
  {
    if IsInternal(t) then DepthLens(t.child1.value, d + 1, DepthLens(t.child2.value, d + 1, lens))
    else if t.symbol < |lens| then lens[t.symbol := d]
    else lens
  }

  lemma {:induction false} HeapLeavesAppend(a: seq<Node>, b: seq<Node>)
    ensures HeapLeaves(a + b) == HeapLeaves(a) + HeapLeaves(b)
  {
    if b == [] {
      assert a + b == a;
    } else {
      HeapLeavesAppend(a, b[..|b| - 1]);
      assert (a + b)[..|a + b| - 1] == a + b[..|b| - 1];
    }
  }

  lemma {:induction false} HeapLeavesPop(heap: seq<Node>)
    requires |heap| > 0
    ensures HeapLeaves(heap) == HeapLeaves(PopMax(heap).1) + Leaves(PopMax(heap).0)
  {
    var i := MaxIndex(heap);
    HeapLeavesRemove(heap, i);
  }

  lemma {:induction false} HeapLeavesRemove(heap: seq<Node>, i: nat)
    requires i < |heap|
    ensures HeapLeaves(heap) == HeapLeaves(heap[..i] + heap[i + 1..]) + Leaves(heap[i])
  {
    var front, x, back := heap[..i], heap[i], heap[i + 1..];
    assert heap == (front + [x]) + back by {
      assert heap[i..] == [x] + back;
      assert heap == front + heap[i..];
    }
    assert HeapLeaves([x]) == Leaves(x) by {
      assert [x][..0] == [];
    }
    HeapLeavesAppend(front + [x], back);
    HeapLeavesAppend(front, [x]);
    HeapLeavesAppend(front, back);
  }

  /** One round of the merge loop keeps every node well formed and every leaf. */
  lemma {:induction false} MergeStep(heap: seq<Node>, n: nat)
    requires |heap| >= 2
    requires forall x | x in heap :: WellFormed(x, n)
    ensures var (min1, rest1) := PopMax(heap);
            var (min2, rest2) := PopMax(rest1);
            var next := rest2 + [Merge(min1, min2)];
            && (forall x | x in next :: WellFormed(x, n))
            && HeapLeaves(next) == HeapLeaves(heap)
  {
    var (min1, rest1) := PopMax(heap);
    var (min2, rest2) := PopMax(rest1);
    var merged := Merge(min1, min2);
    var next := rest2 + [merged];
    PopMaxIsGreatest(heap);
    PopMaxIsGreatest(rest1);
    HeapLeavesPop(heap);
    HeapLeavesPop(rest1);
    HeapLeavesAppend(rest2, [merged]);
    assert HeapLeaves([merged]) == Leaves(merged) by {
      assert [merged][..0] == [];
    }
    assert min1 in multiset(heap) && min2 in multiset(rest1);
    assert WellFormed(merged, n);
    forall x | x in next
      ensures WellFormed(x, n)
    {
      if x != merged {
        assert x in multiset(rest2);
        assert x in multiset(rest1);
        assert x in multiset(heap);
      }
    }
  }

  /** Merging keeps every tree well formed and every leaf exactly once: the
      root's leaves are the leaves of the initial heap, and with two or more
      nodes the root is a merged node. */
  lemma {:induction false} TreeOfLeaves(heap: seq<Node>, n: nat)
    requires |heap| >= 1
    requires forall x | x in heap :: WellFormed(x, n)
    ensures WellFormed(TreeOf(heap), n)
    ensures Leaves(TreeOf(heap)) == HeapLeaves(heap)
    ensures |heap| >= 2 ==> IsInternal(TreeOf(heap))
    decreases |heap|
  {
    if |heap| == 1 {
      assert heap[..0] == [];
    } else {
      var (min1, rest1) := PopMax(heap);
      var (min2, rest2) := PopMax(rest1);
      MergeStep(heap, n);
      TreeOfLeaves(rest2 + [Merge(min1, min2)], n);
    }
  }

  lemma {:induction false} DepthLensFrame(t: Node, d: nat, lens: seq<nat>)
    ensures |DepthLens(t, d, lens)| == |lens|
    ensures forall x | 0 <= x < |lens| && x !in Leaves(t) :: DepthLens(t, d, lens)[x] == lens[x]
  {
    if IsInternal(t) {
      var c1, c2 := t.child1.value, t.child2.value;
      DepthLensFrame(c2, d + 1, lens);
      DepthLensFrame(c1, d + 1, DepthLens(c2, d + 1, lens));
    }
  }

  /** In a tree that fits, every leaf symbol gets a length between the starting
      depth and `max`. */
  lemma {:induction false} DepthLensRange(t: Node, d: nat, lens: seq<nat>, max: nat)
    requires WellFormed(t, |lens|) && Fits(t, d, max) && d <= max
    ensures |DepthLens(t, d, lens)| == |lens|
    ensures forall x | x in Leaves(t) :: x < |lens| && d <= DepthLens(t, d, lens)[x] <= max
  {
    DepthLensFrame(t, d, lens);
    if IsInternal(t) {
      var c1, c2 := t.child1.value, t.child2.value;
      var mid := DepthLens(c2, d + 1, lens);
      DepthLensFrame(c2, d + 1, lens);
      DepthLensRange(c2, d + 1, lens, max);
      DepthLensFrame(c1, d + 1, mid);
      DepthLensRange(c1, d + 1, mid, max);
    }
  }

  /** A tree ready to be walked from depth `d <= max` into `lens`: well
      formed, fitting, with distinct leaves that are still unused, and not a
      lone leaf at the root. */
  ghost predicate FreshTree(t: Node, d: nat, lens: seq<nat>, max: nat)
  {
    && WellFormed(t, |lens|) && Fits(t, d, max) && d <= max && (IsInternal(t) || 1 <= d)
    && Distinct(Leaves(t))
    && forall x | x in Leaves(t) :: x < |lens| && lens[x] == 0
  }

  /** Both subtrees of a fresh internal node are fresh one level down, the
      first one against `lens` after the second one has been walked. */
  lemma {:induction false} FreshSplit(t: Node, d: nat, lens: seq<nat>, max: nat)
    requires IsInternal(t) && FreshTree(t, d, lens, max)
    ensures d < max
    ensures FreshTree(t.child2.value, d + 1, lens, max)
    ensures FreshTree(t.child1.value, d + 1, DepthLens(t.child2.value, d + 1, lens), max)
  {
    var c1, c2 := t.child1.value, t.child2.value;
    assert forall x :: Leaves(t)[x] == Leaves(c1)[x] + Leaves(c2)[x];
    DepthLensFrame(c2, d + 1, lens);
  }

  /** A full binary tree that fits adds exactly 2^(max - d) to the Kraft sum
      when its distinct leaves start out unused. */
  lemma {:induction false} DepthLensKraft(t: Node, d: nat, lens: seq<nat>, max: nat)
    requires FreshTree(t, d, lens, max)
    ensures KraftSum(DepthLens(t, d, lens), max) == KraftSum(lens, max) + Pow2(max - d)
  {
    if IsInternal(t) {
      var c1, c2 := t.child1.value, t.child2.value;
      FreshSplit(t, d, lens, max);
      DepthLensKraft(c2, d + 1, lens, max);
      DepthLensKraft(c1, d + 1, DepthLens(c2, d + 1, lens), max);
      InternalKraft(t, d, lens, max);
    } else {
      assert t.symbol in Leaves(t);
      LeafKraft(lens, t.symbol, d, max);
    }
  }

  /** The two subtrees of an internal node at depth `d` each add half of
      what the node adds. */
  lemma {:induction false} InternalKraft(t: Node, d: nat, lens: seq<nat>, max: nat)
    requires IsInternal(t) && d < max
    requires var mid := DepthLens(t.child2.value, d + 1, lens);
      && KraftSum(mid, max) == KraftSum(lens, max) + Pow2(max - (d + 1))
      && KraftSum(DepthLens(t.child1.value, d + 1, mid), max) == KraftSum(mid, max) + Pow2(max - (d + 1))
    ensures KraftSum(DepthLens(t, d, lens), max) == KraftSum(lens, max) + Pow2(max - d)
  {
    assert Pow2(max - d) == 2 * Pow2(max - (d + 1));
  }

  /** A leaf at depth `d` on an unused symbol adds 2^(max - d) to the Kraft sum. */
  lemma {:induction false} LeafKraft(lens: seq<nat>, s: nat, d: nat, max: nat)
    requires s < |lens| && lens[s] == 0 && 1 <= d <= max
    ensures KraftSum(lens[s := d], max) == KraftSum(lens, max) + Pow2(max - d)
  {
    KraftUpdate(lens, s, d, max);
  }

  /** The leaves of a well-formed tree are symbols of the alphabet. */
  lemma {:induction false} LeafBelow(t: Node, n: nat)
    requires WellFormed(t, n)
    ensures forall x | x in Leaves(t) :: x < n
  {
    if IsInternal(t) {
      LeafBelow(t.child1.value, n);
      LeafBelow(t.child2.value, n);
    }
  }

  /** A merged root that fits gives each of its leaves a length in `1..max`. */
  lemma {:induction false} RootRange(root: Node, lens: seq<nat>, max: nat)
    requires IsInternal(root) && WellFormed(root, |lens|) && Fits(root, 0, max)
    ensures |DepthLens(root, 0, lens)| == |lens|
    ensures forall x | x in Leaves(root) :: x < |lens| && 1 <= DepthLens(root, 0, lens)[x] <= max
  {
    var c1, c2 := root.child1.value, root.child2.value;
    var mid := DepthLens(c2, 1, lens);
    LeafBelow(root, |lens|);
    DepthLensRange(c2, 1, lens, max);
    DepthLensFrame(c1, 1, mid);
    DepthLensRange(c1, 1, mid, max);
  }

  /** Kraft equality for a merged root that fits: its distinct leaves, unused
      before the walk, add exactly 2^max. */
  lemma {:induction false} RootKraft(root: Node, lens: seq<nat>, max: nat)
    requires IsInternal(root) && WellFormed(root, |lens|) && Fits(root, 0, max)
    requires Distinct(Leaves(root))
    requires forall x | x in Leaves(root) :: x < |lens| && lens[x] == 0
    ensures KraftSum(DepthLens(root, 0, lens), max) == KraftSum(lens, max) + Pow2(max)
  {
    assert FreshTree(root, 0, lens, max);
    DepthLensKraft(root, 0, lens, max);
  }

  /** A tree that fits below depth `d` has at most 2^(max - d) leaves. */
  lemma {:induction false} LeafCountBound(t: Node, d: nat, max: nat)
    requires Fits(t, d, max) && d <= max
    ensures |Leaves(t)| <= Pow2(max - d)
  {
    if IsInternal(t) {
      LeafCountBound(t.child1.value, d + 1, max);
      LeafCountBound(t.child2.value, d + 1, max);
      assert Pow2(max - d) == 2 * Pow2(max - (d + 1));
    }
  }

  // ---------------------------------------------------------------------------
  // The depth-first walk with an explicit stack (src/huffman.rs:101-116).

  /** Every pending subtree fits. */
  function StackFits(stack: seq<(nat, Node)>, max: nat): bool
  {
    if stack == [] then true
    else StackFits(stack[..|stack| - 1], max) && Fits(stack[|stack| - 1].1, stack[|stack| - 1].0, max)
  }

  /** The lengths once every pending subtree is walked, top of the stack first. */
  function StackLens(stack: seq<(nat, Node)>, lens: seq<nat>): seq<nat>
  {
    if stack == [] then lens
    else StackLens(stack[..|stack| - 1], DepthLens(stack[|stack| - 1].1, stack[|stack| - 1].0, lens))
  }

  function StackSize(stack: seq<(nat, Node)>): nat
  {
    if stack == [] then 0 else StackSize(stack[..|stack| - 1]) + Size(stack[|stack| - 1].1)
  }

  /** Walk the tree from the root at depth 0; give up (None) on reaching a
      merged node at depth `max`, otherwise return every leaf's depth in a
      table of `n` zeros. */
  method WalkTree(root: Node, max: nat, n: nat) returns (lens: Option<seq<nat>>)
    requires WellFormed(root, n)
    ensures lens == if Fits(root, 0, max) then Some(DepthLens(root, 0, Zeros(n))) else None
  {
    var canonicalLens := Zeros(n);
    var stack: seq<(nat, Node)> := [(0, root)];
    assert stack[..0] == [];
    while stack != []
      invariant forall e | e in stack :: WellFormed(e.1, n)
      invariant |canonicalLens| == n
      invariant StackFits(stack, max) == Fits(root, 0, max)
      invariant StackLens(stack, canonicalLens) == DepthLens(root, 0, Zeros(n))
      decreases StackSize(stack)
    {
      ghost var before := stack;
      var top := stack[|stack| - 1];
      var (depth, node) := top;
      var below := stack[..|stack| - 1];
      assert top in stack;
      assert StackSize(before) == StackSize(below) + Size(node);
      stack := below;
      if node.symbol == Sentinel {
        if depth == max {
          return None;
        }
        var c1, c2 := node.child1.value, node.child2.value;
        stack := below + [(depth + 1, c1)] + [(depth + 1, c2)];
        assert stack[..|stack| - 1] == below + [(depth + 1, c1)];
        assert (below + [(depth + 1, c1)])[..|below|] == below;
        assert StackSize(stack) == StackSize(below) + Size(c1) + Size(c2);
      } else {
        canonicalLens := canonicalLens[node.symbol := depth];
      }
    }
    return Some(canonicalLens);
  }
}
