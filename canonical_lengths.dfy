/** `compute_canonical_lens` (src/huffman.rs:55-119): code lengths from symbol
    weights, limited to `max` bits by retrying with weights shrunk by 2^s. */
module CanonicalLengths {
  import opened Wrappers
  import opened Arith
  import opened Kraft
  import opened HuffmanTree

  /** Every weight below 2^32 shrinks to 1 from this attempt on, so every later
      attempt repeats this one. */
  const LastShrink: nat := 32

  /** The input types of the source: a `u16`-indexable alphabet below the
      sentinel and `u32` weights. */
  predicate WeightsFit(weights: seq<nat>)
  {
    |weights| <= Sentinel && forall i | 0 <= i < |weights| :: weights[i] < 0x1_0000_0000
  }

  /** Size of the returned table: the alphabet size rounded up to even. */
  function PaddedLen(n: nat): nat
  {
    if n % 2 == 0 then n else n + 1
  }

  /** The symbols with a nonzero weight. */
  function Active(weights: seq<nat>): set<nat>
  {
    set i | 0 <= i < |weights| && weights[i] > 0
  }

  /** `w / 2^s`, as `s` halvings (see HalveIsDivision). */
  function Halve(w: nat, s: nat): nat
  {
    if s == 0 then w else Halve(w / 2, s - 1)
  }

  /** `max(w / 2^s, 1)`: the weight a symbol enters attempt `s` with. */
  function Shrink(w: nat, s: nat): (r: nat)
    ensures r >= 1
  {
    var q := Halve(w, s);
    if q < 1 then 1 else q
  }

  /** The initial heap of attempt `s`: one leaf per nonzero weight, in symbol order. */
  function LeafNodes(weights: seq<nat>, s: nat): (leaves: seq<Node>)
    ensures forall x | x in leaves :: x.symbol < |weights| && x.child1.None?
  {
    if weights == [] then []
    else
      var k := |weights| - 1;
      var rest := LeafNodes(weights[..k], s);
      if weights[k] == 0 then rest else rest + [Node(-(Shrink(weights[k], s) as int), k, None, None)]
  }

  /** One pass of the `'shrink` loop body once the initial heap is built: the
      lengths, or None where the walk meets a merged node at depth `max`
      (`continue 'shrink`). */
  function HeapLens(heap: seq<Node>, n: nat, max: nat): (r: Option<seq<nat>>)
    requires forall x | x in heap :: x.symbol < n
    ensures r.None? ==> |heap| >= 2
    ensures r.Some? ==> |r.value| == n
  {
    if |heap| < 2 then
      Some(if |heap| == 1 then Zeros(n)[heap[0].symbol := 1] else Zeros(n))
    else
      var root := TreeOf(heap);
      if Fits(root, 0, max) then Some(DepthLens(root, 0, Zeros(n))) else None
  }

  /** Attempt `s` of the `'shrink` loop. */
  function AttemptLens(weights: seq<nat>, max: nat, s: nat): (r: Option<seq<nat>>)
    ensures r.Some? ==> |r.value| == PaddedLen(|weights|)
  {
    HeapLens(LeafNodes(weights, s), PaddedLen(|weights|), max)
  }

  /** The first present value in `xs` from index `i` on. */
  function FirstSome<T>(xs: seq<Option<T>>, i: nat): (r: Option<T>)
    ensures r.Some? ==> exists k :: i <= k < |xs| && xs[k] == r
    ensures r.None? ==> forall k | i <= k < |xs| :: xs[k].None?
    decreases |xs| - i
  {
    if i >= |xs| then None
    else if xs[i].Some? then xs[i]
    else FirstSome(xs, i + 1)
  }

  /** The outcome of every attempt the bounded retry loop makes, by shrink factor. */
  function Attempts(weights: seq<nat>, max: nat): (r: seq<Option<seq<nat>>>)
    ensures |r| == LastShrink + 1
  {
    seq(LastShrink + 1, (s: nat) => AttemptLens(weights, max, s))
  }

  /** The lengths `compute_canonical_lens` returns; None where it never returns a table. */
  function CanonicalLens(weights: seq<nat>, max: nat): (r: Option<seq<nat>>)
    ensures r.Some? ==> |r.value| == PaddedLen(|weights|)
  {
    var xs := Attempts(weights, max);
    assert forall s | 0 <= s <= LastShrink :: xs[s] == AttemptLens(weights, max, s);
    FirstSome(xs, 0)
  }

  /** The body of the `'shrink` loop for one shrink factor. */
  method TryShrink(weights: seq<nat>, max: nat, s: nat) returns (lens: Option<seq<nat>>)
    requires |weights| <= Sentinel
    ensures lens == AttemptLens(weights, max, s)
  {
    var n := if |weights| % 2 == 0 then |weights| else |weights| + 1;
    var canonicalLens := Zeros(n);
    var heap := LeafNodes(weights, s);
    if |heap| < 2 {
      if |heap| == 1 {
        canonicalLens := canonicalLens[heap[0].symbol := 1];
      }
      return Some(canonicalLens);
    }
    LeafNodesFacts(weights, s);
    var root := MergeHeap(heap);
    TreeOfLeaves(heap, n);
    lens := WalkTree(root, max, n);
  }

  /** `compute_canonical_lens`, with the unbounded `'shrink` loop cut at
      `LastShrink`: None means no shrink factor succeeds, so the source never
      returns a table (see CanonicalLensNever). */
  method ComputeCanonicalLens(weights: seq<nat>, max: nat) returns (lens: Option<seq<nat>>)
    requires |weights| <= Sentinel
    ensures lens == CanonicalLens(weights, max)
  {
    ghost var attempts := Attempts(weights, max);
    var shrink := 0;
    while shrink <= LastShrink
      invariant shrink <= LastShrink + 1
      invariant FirstSome(attempts, shrink) == CanonicalLens(weights, max)
    {
      var attempt := TryShrink(weights, max, shrink);
      assert attempt == attempts[shrink];
      if attempt.Some? {
        return attempt;
      }
      shrink := shrink + 1;
    }
    return None;
  }

  // ---------------------------------------------------------------------------

  lemma {:induction false} ActiveSnoc(weights: seq<nat>)
    requires weights != []
    ensures var k := |weights| - 1;
      && k !in Active(weights[..k])
      && Active(weights) == Active(weights[..k]) + (if weights[k] > 0 then {k} else {})
  {
    var k := |weights| - 1;
    assert forall i | 0 <= i < k :: weights[..k][i] == weights[i];
  }

  /** The initial heap holds one well-formed leaf per active symbol. */
  lemma {:induction false} LeafNodesFacts(weights: seq<nat>, s: nat)
    requires |weights| <= Sentinel
    ensures HeapLeaves(LeafNodes(weights, s)) == multiset(Active(weights))
    ensures |HeapLeaves(LeafNodes(weights, s))| == |LeafNodes(weights, s)| == |Active(weights)|
    ensures forall x | x in LeafNodes(weights, s) :: WellFormed(x, PaddedLen(|weights|))
  {
    if weights != [] {
      var k := |weights| - 1;
      var init := weights[..k];
      LeafNodesFacts(init, s);
      ActiveSnoc(weights);
      if weights[k] > 0 {
        var leaf := Node(-(Shrink(weights[k], s) as int), k, None, None);
        var rest := LeafNodes(init, s);
        HeapLeavesAppend(rest, [leaf]);
        assert [leaf][..0] == [];
        assert HeapLeaves([leaf]) == multiset{k};
      }
    }
  }

  /** From attempt 32 on every u32 weight has shrunk to 1: the heaps agree. */
  lemma {:induction false} ShrinkSettles(weights: seq<nat>, s: nat)
    requires WeightsFit(weights) && s >= LastShrink
    ensures LeafNodes(weights, s) == LeafNodes(weights, LastShrink)
  {
    if weights != [] {
      var k := |weights| - 1;
      assert forall i | 0 <= i < k :: weights[..k][i] == weights[i];
      ShrinkSettles(weights[..k], s);
      ShrinkToOne(weights[k], s);
      ShrinkToOne(weights[k], LastShrink);
    }
  }

  /** Halving `s` times is the division by 2^s the source writes. */
  lemma {:induction false} HalveIsDivision(w: nat, s: nat)
    ensures Halve(w, s) == w / Pow2(s)
  {
    if s > 0 {
      HalveIsDivision(w / 2, s - 1);
      var p, q := Pow2(s - 1), (w / 2) / Pow2(s - 1);
      assert q * p <= w / 2 < (q + 1) * p;
      DoubleBounds(w, q, p);
      DivInRange(w, q, 2 * p);
    }
  }

  /** A value below 2^k halved `s >= k` times is 0. */
  lemma {:induction false} HalveSmall(w: nat, k: nat, s: nat)
    requires w < Pow2(k) && k <= s
    ensures Halve(w, s) == 0
  {
    if s > 0 {
      HalveSmall(w / 2, if k == 0 then 0 else k - 1, s - 1);
    }
  }

  lemma {:induction false} ShrinkToOne(w: nat, s: nat)
    requires w < 0x1_0000_0000 && s >= 32
    ensures Shrink(w, s) == 1
  {
    Pow2Widths();
    HalveSmall(w, 32, s);
  }

  /** A table the model returns comes from one of the attempts. */
  lemma {:induction false} CanonicalLensFrom(weights: seq<nat>, max: nat) returns (k: nat)
    requires CanonicalLens(weights, max).Some?
    ensures k <= LastShrink && AttemptLens(weights, max, k) == CanonicalLens(weights, max)
  {
    var xs := Attempts(weights, max);
    k :| 0 <= k < |xs| && xs[k] == CanonicalLens(weights, max);
  }

  lemma {:induction false} AttemptSettles(weights: seq<nat>, max: nat, s: nat)
    requires WeightsFit(weights) && s >= LastShrink
    ensures AttemptLens(weights, max, s) == AttemptLens(weights, max, LastShrink)
  {
    ShrinkSettles(weights, s);
  }

  /** One length per symbol plus a padding slot when the alphabet size is odd;
      zero-weight symbols and the padding slot have length 0. */
  predicate PaddedShape(weights: seq<nat>, lens: seq<nat>)
  {
    && |lens| == PaddedLen(|weights|) && |lens| % 2 == 0 && |weights| <= |lens| <= |weights| + 1
    && forall x | 0 <= x < |lens| && (x >= |weights| || weights[x] == 0) :: lens[x] == 0
  }

  /** A tree with more leaves than 2^max never fits. */
  lemma {:induction false} MergedCount(heap: seq<Node>, n: nat, max: nat)
    requires |heap| >= 2 && forall x | x in heap :: WellFormed(x, n) && x.symbol < n
    requires |HeapLeaves(heap)| > Pow2(max)
    ensures HeapLens(heap, n, max).None?
  {
    TreeOfLeaves(heap, n);
    if Fits(TreeOf(heap), 0, max) {
      LeafCountBound(TreeOf(heap), 0, max);
    }
  }

  /** A walk over the tree merged from `heap` leaves every other slot at 0. */
  lemma {:induction false} MergedShape(heap: seq<Node>, n: nat, max: nat)
    requires |heap| >= 2 && forall x | x in heap :: WellFormed(x, n) && x.symbol < n
    requires HeapLens(heap, n, max).Some?
    ensures var lens := HeapLens(heap, n, max).value;
      |lens| == n && forall x | 0 <= x < n && x !in HeapLeaves(heap) :: lens[x] == 0
  {
    TreeOfLeaves(heap, n);
    DepthLensFrame(TreeOf(heap), 0, Zeros(n));
  }

  /** Shape of one successful attempt (see CanonicalLensShape). */
  lemma {:induction false} AttemptShape(weights: seq<nat>, max: nat, s: nat)
    requires |weights| <= Sentinel && AttemptLens(weights, max, s).Some?
    ensures PaddedShape(weights, AttemptLens(weights, max, s).value)
  {
    var heap := LeafNodes(weights, s);
    LeafNodesFacts(weights, s);
    if |heap| == 1 {
      assert heap[0] in heap;
    } else if |heap| >= 2 {
      MergedShape(heap, PaddedLen(|weights|), max);
    }
  }

  /** Lengths and Kraft equality of a walk over the tree merged from `heap`. */
  lemma {:induction false} MergedLens(heap: seq<Node>, n: nat, max: nat)
    requires |heap| >= 2 && forall x | x in heap :: WellFormed(x, n) && x.symbol < n
    requires Distinct(HeapLeaves(heap)) && HeapLens(heap, n, max).Some?
    ensures var lens := HeapLens(heap, n, max).value;
      && (forall x | x in HeapLeaves(heap) :: x < |lens| && 1 <= lens[x] <= max)
      && KraftSum(lens, max) == Pow2(max)
  {
    TreeOfLeaves(heap, n);
    var root := TreeOf(heap);
    LeafBelow(root, n);
    RootRange(root, Zeros(n), max);
    RootKraft(root, Zeros(n), max);
    KraftZeros(n, max);
  }

  lemma {:induction false} AttemptComplete(weights: seq<nat>, max: nat, s: nat)
    requires |weights| <= Sentinel && AttemptLens(weights, max, s).Some? && |Active(weights)| >= 2
    ensures var lens := AttemptLens(weights, max, s).value;
      && (forall x | x in Active(weights) :: x < |lens| && 1 <= lens[x] <= max)
      && KraftSum(lens, max) == Pow2(max)
  {
    var heap, n := LeafNodes(weights, s), PaddedLen(|weights|);
    LeafNodesFacts(weights, s);
    assert HeapLeaves(heap) == multiset(Active(weights));
    assert Distinct(HeapLeaves(heap)) by {
      forall x ensures HeapLeaves(heap)[x] <= 1 {
        assert multiset(Active(weights))[x] <= 1;
      }
    }
    assert |heap| >= 2;
    assert AttemptLens(weights, max, s) == HeapLens(heap, n, max);
    MergedLens(heap, n, max);
    var lens := HeapLens(heap, n, max).value;
    forall x | x in Active(weights)
      ensures x < |lens| && 1 <= lens[x] <= max
    {
      assert x in HeapLeaves(heap);
    }
  }

  // ---------------------------------------------------------------------------
  // Properties of the returned table.

  /** The table has the alphabet size rounded up to even; zero-weight symbols
      and the padding slot get length 0. */
  lemma {:induction false} CanonicalLensShape(weights: seq<nat>, max: nat)
    requires |weights| <= Sentinel && CanonicalLens(weights, max).Some?
    ensures PaddedShape(weights, CanonicalLens(weights, max).value)
  {
    var k := CanonicalLensFrom(weights, max);
    AttemptShape(weights, max, k);
  }

  /** No active symbol: all lengths 0. One active symbol: it alone gets length 1. */
  lemma {:induction false} CanonicalLensFewSymbols(weights: seq<nat>, max: nat)
    requires |weights| <= Sentinel && |Active(weights)| <= 1
    ensures |Active(weights)| == 0 ==> CanonicalLens(weights, max) == Some(Zeros(PaddedLen(|weights|)))
    ensures forall a | a in Active(weights) ::
      CanonicalLens(weights, max) == Some(Zeros(PaddedLen(|weights|))[a := 1])
  {
    var heap := LeafNodes(weights, 0);
    LeafNodesFacts(weights, 0);
    if |heap| == 1 {
      assert heap[0] in heap;
      assert heap[..0] == [];
      assert HeapLeaves(heap) == multiset{heap[0].symbol};
      assert heap[0].symbol in Active(weights);
      forall a | a in Active(weights)
        ensures a == heap[0].symbol
      {
        assert a in multiset(Active(weights));
      }
    }
  }

  /** With two or more active symbols every active symbol gets a length in `1..max`. */
  lemma {:induction false} CanonicalLensBounds(weights: seq<nat>, max: nat)
    requires |weights| <= Sentinel && CanonicalLens(weights, max).Some? && |Active(weights)| >= 2
    ensures var lens := CanonicalLens(weights, max).value;
      forall x | x in Active(weights) :: x < |lens| && 1 <= lens[x] <= max
  {
    var k := CanonicalLensFrom(weights, max);
    AttemptComplete(weights, max, k);
  }

  /** With two or more active symbols the code is complete:
      the sum over used symbols of 2^(max - len) is 2^max. */
  lemma {:induction false} CanonicalLensKraft(weights: seq<nat>, max: nat)
    requires |weights| <= Sentinel && CanonicalLens(weights, max).Some? && |Active(weights)| >= 2
    ensures KraftSum(CanonicalLens(weights, max).value, max) == Pow2(max)
  {
    var k := CanonicalLensFrom(weights, max);
    AttemptComplete(weights, max, k);
  }

  /** When the model gives None, no shrink factor at all succeeds, so the
      source's `'shrink` loop never returns a table. */
  lemma {:induction false} CanonicalLensNever(weights: seq<nat>, max: nat)
    requires WeightsFit(weights) && CanonicalLens(weights, max).None?
    ensures forall s :: AttemptLens(weights, max, s).None?
  {
    var xs := Attempts(weights, max);
    forall s: nat
      ensures AttemptLens(weights, max, s).None?
    {
      if s > LastShrink {
        AttemptSettles(weights, max, s);
        assert xs[LastShrink].None?;
      } else {
        assert xs[s].None?;
      }
    }
  }

  lemma {:induction false} AttemptInfeasible(weights: seq<nat>, max: nat, s: nat)
    requires |weights| <= Sentinel && |Active(weights)| > Pow2(max)
    ensures AttemptLens(weights, max, s).None?
  {
    LeafNodesFacts(weights, s);
    MergedCount(LeafNodes(weights, s), PaddedLen(|weights|), max);
  }

  /** More active symbols than 2^max: every attempt fails. */
  lemma {:induction false} CanonicalLensInfeasible(weights: seq<nat>, max: nat)
    requires |weights| <= Sentinel && |Active(weights)| > Pow2(max)
    ensures forall s: nat :: AttemptLens(weights, max, s).None?
    ensures CanonicalLens(weights, max).None?
  {
    forall s: nat
      ensures AttemptLens(weights, max, s).None?
    {
      AttemptInfeasible(weights, max, s);
    }
    if CanonicalLens(weights, max).Some? {
      var k := CanonicalLensFrom(weights, max);
    }
  }

  /** The table is a valid input for the code assigner when `max <= 15`. */
  lemma {:induction false} CanonicalLensValid(weights: seq<nat>, max: nat)
    requires |weights| <= Sentinel && max <= MaxCodeLen && CanonicalLens(weights, max).Some?
    ensures ValidLengths(CanonicalLens(weights, max).value)
  {
    var lens := CanonicalLens(weights, max).value;
    var n := PaddedLen(|weights|);
    CanonicalLensShape(weights, max);
    if |Active(weights)| >= 2 {
      CanonicalLensBounds(weights, max);
      CanonicalLensKraft(weights, max);
      assert forall x | 0 <= x < |lens| :: lens[x] <= max by {
        forall x | 0 <= x < |lens|
          ensures lens[x] <= max
        {
          if x < |weights| && weights[x] > 0 {
            assert x in Active(weights);
          }
        }
      }
      CompleteIsValid(lens, max);
    } else {
      CanonicalLensFewSymbols(weights, max);
      if |Active(weights)| == 1 {
        var a :| a in Active(weights);
        SingleIsValid(n, a);
      } else {
        SingleIsValid(n, n);
      }
    }
  }

  /** The tables for fewer than two active symbols are valid. */
  lemma {:induction false} SingleIsValid(n: nat, a: nat)
    requires n <= 0x1_0000
    ensures ValidLengths(Zeros(n))
    ensures a < n ==> ValidLengths(Zeros(n)[a := 1])
  {
    KraftZeros(n, MaxCodeLen);
    if a < n {
      KraftUpdate(Zeros(n), a, 1, MaxCodeLen);
      Pow2Monotone(MaxCodeLen - 1, MaxCodeLen);
    }
  }

  // ---------------------------------------------------------------------------
  // A worked example: weights `[5, 1, 1, 1]` with at most 3 bits.

  function ExampleLeaf(symbol: nat): Node
  {
    Node(if symbol == 0 then -5 else -1, symbol, None, None)
  }

  /** The merged nodes: symbols 3 and 2, then 1 with that pair, then 0 last. */
  function ExamplePair(): Node { Merge(ExampleLeaf(3), ExampleLeaf(2)) }
  function ExampleTriple(): Node { Merge(ExampleLeaf(1), ExamplePair()) }
  function ExampleRoot(): Node { Merge(ExampleTriple(), ExampleLeaf(0)) }

  lemma ExampleLeaves()
    ensures LeafNodes([5, 1, 1, 1], 0) == [ExampleLeaf(0), ExampleLeaf(1), ExampleLeaf(2), ExampleLeaf(3)]
  {
    var w := [5, 1, 1, 1];
    assert w[..3][..2] == w[..2] && w[..2][..1] == w[..1] && w[..1][..0] == [];
    assert Shrink(5, 0) == 5 && Shrink(1, 0) == 1;
    assert LeafNodes(w[..1], 0) == [ExampleLeaf(0)];
    assert LeafNodes(w[..2], 0) == [ExampleLeaf(0), ExampleLeaf(1)];
    assert LeafNodes(w[..3], 0) == [ExampleLeaf(0), ExampleLeaf(1), ExampleLeaf(2)];
  }

  /** The derived order on the example's nodes: lighter (less negative) is
      greater, and among equal weights the higher symbol. */
  lemma ExampleOrder()
    ensures Compare(ExampleLeaf(1), ExampleLeaf(0)) > 0
    ensures Compare(ExampleLeaf(2), ExampleLeaf(1)) > 0 && Compare(ExampleLeaf(3), ExampleLeaf(2)) > 0
    ensures Compare(ExamplePair(), ExampleLeaf(1)) < 0 && Compare(ExamplePair(), ExampleLeaf(0)) > 0
    ensures Compare(ExampleTriple(), ExampleLeaf(0)) > 0
  {
  }

  /** The positions `pop` takes from in each heap of the merge loop. */
  lemma ExampleMaxIndex()
    ensures MaxIndex([ExampleLeaf(0), ExampleLeaf(1), ExampleLeaf(2), ExampleLeaf(3)]) == 3
    ensures MaxIndex([ExampleLeaf(0), ExampleLeaf(1), ExampleLeaf(2)]) == 2
    ensures MaxIndex([ExampleLeaf(0), ExampleLeaf(1), ExamplePair()]) == 1
    ensures MaxIndex([ExampleLeaf(0), ExamplePair()]) == 1
    ensures MaxIndex([ExampleLeaf(0), ExampleTriple()]) == 1
  {
    ExampleOrder();
    var l0, l1, l2, l3, m1 := ExampleLeaf(0), ExampleLeaf(1), ExampleLeaf(2), ExampleLeaf(3), ExamplePair();
    assert [l0, l1, l2, l3][..3] == [l0, l1, l2];
    assert [l0, l1, l2][..2] == [l0, l1] && [l0, l1, m1][..2] == [l0, l1];
    assert MaxIndex([l0, l1]) == 1;
  }

  lemma ExampleRemovals()
    ensures RemoveAt([ExampleLeaf(0), ExampleLeaf(1), ExampleLeaf(2), ExampleLeaf(3)], 3)
      == [ExampleLeaf(0), ExampleLeaf(1), ExampleLeaf(2)]
    ensures RemoveAt([ExampleLeaf(0), ExampleLeaf(1), ExampleLeaf(2)], 2) == [ExampleLeaf(0), ExampleLeaf(1)]
    ensures RemoveAt([ExampleLeaf(0), ExampleLeaf(1), ExamplePair()], 1) == [ExampleLeaf(0), ExamplePair()]
    ensures RemoveAt([ExampleLeaf(0), ExamplePair()], 1) == [ExampleLeaf(0)]
    ensures RemoveAt([ExampleLeaf(0), ExampleTriple()], 1) == [ExampleLeaf(0)]
    ensures RemoveAt([ExampleLeaf(0)], 0) == []
  {
    var l0, l1, l2, l3, m1, m2 := ExampleLeaf(0), ExampleLeaf(1), ExampleLeaf(2), ExampleLeaf(3), ExamplePair(), ExampleTriple();
    assert [l0, l1, l2, l3][..3] + [l0, l1, l2, l3][4..] == [l0, l1, l2];
    assert [l0, l1, l2][..2] + [l0, l1, l2][3..] == [l0, l1];
    assert [l0, l1, m1][..1] + [l0, l1, m1][2..] == [l0, m1];
    assert [l0, m1][..1] + [l0, m1][2..] == [l0];
    assert [l0, m2][..1] + [l0, m2][2..] == [l0];
    assert [l0][..0] + [l0][1..] == [];
  }

  /** One round of the merge loop, given the two pops. */
  lemma MergeRound(heap: seq<Node>, min1: Node, rest1: seq<Node>, min2: Node, rest2: seq<Node>, next: seq<Node>)
    requires |heap| >= 2 && PopMax(heap) == (min1, rest1) && PopMax(rest1) == (min2, rest2)
    requires next == rest2 + [Merge(min1, min2)]
    ensures TreeOf(heap) == TreeOf(next)
  {
  }

  /** First round: symbols 3 and 2, equal weights, the higher symbol first. */
  lemma ExampleRound1()
    ensures TreeOf([ExampleLeaf(0), ExampleLeaf(1), ExampleLeaf(2), ExampleLeaf(3)])
      == TreeOf([ExampleLeaf(0), ExampleLeaf(1), ExamplePair()])
  {
    ExampleMaxIndex();
    ExampleRemovals();
    var l0, l1, l2, l3 := ExampleLeaf(0), ExampleLeaf(1), ExampleLeaf(2), ExampleLeaf(3);
    MergeRound([l0, l1, l2, l3], l3, [l0, l1, l2], l2, [l0, l1], [l0, l1, ExamplePair()]);
  }

  /** Second round: symbol 1 (weight 1), then the pair (weight 2). */
  lemma ExampleRound2()
    ensures TreeOf([ExampleLeaf(0), ExampleLeaf(1), ExamplePair()]) == TreeOf([ExampleLeaf(0), ExampleTriple()])
  {
    ExampleMaxIndex();
    ExampleRemovals();
    var l0, l1, m1 := ExampleLeaf(0), ExampleLeaf(1), ExamplePair();
    MergeRound([l0, l1, m1], l1, [l0, m1], m1, [l0], [l0, ExampleTriple()]);
  }

  /** Last round: the triple (weight 3), then symbol 0 (weight 5). */
  lemma ExampleRound3()
    ensures TreeOf([ExampleLeaf(0), ExampleTriple()]) == ExampleRoot()
  {
    ExampleMaxIndex();
    ExampleRemovals();
    var l0, m2 := ExampleLeaf(0), ExampleTriple();
    MergeRound([l0, m2], m2, [l0], l0, [], [ExampleRoot()]);
  }

  /** The merge loop ends in the root: the triple merged with symbol 0. */
  lemma ExampleMerges()
    ensures TreeOf([ExampleLeaf(0), ExampleLeaf(1), ExampleLeaf(2), ExampleLeaf(3)]) == ExampleRoot()
  {
    ExampleRound1();
    ExampleRound2();
    ExampleRound3();
  }

  /** The walk finds no merged node at depth 3 and reads off `[1, 2, 3, 3]`. */
  lemma ExampleWalk()
    ensures Fits(ExampleRoot(), 0, 3)
    ensures DepthLens(ExampleRoot(), 0, Zeros(4)) == [1, 2, 3, 3]
  {
    var z := Zeros(4);
    assert z == [0, 0, 0, 0];
    assert IsInternal(ExamplePair()) && IsInternal(ExampleTriple()) && IsInternal(ExampleRoot());
    var one := DepthLens(ExampleLeaf(0), 1, z);
    assert one == [1, 0, 0, 0];
    var two := DepthLens(ExampleLeaf(2), 3, one);
    assert two == [1, 0, 3, 0];
    var pair := DepthLens(ExampleLeaf(3), 3, two);
    assert pair == [1, 0, 3, 3];
    assert DepthLens(ExamplePair(), 2, one) == pair;
    assert DepthLens(ExampleLeaf(1), 2, pair) == [1, 2, 3, 3];
    assert DepthLens(ExampleTriple(), 1, one) == [1, 2, 3, 3];
  }

  /** The first attempt: no shrinking, the walk fits. */
  lemma ExampleAttempt()
    ensures AttemptLens([5, 1, 1, 1], 3, 0) == Some([1, 2, 3, 3])
  {
    ExampleLeaves();
    ExampleMerges();
    ExampleWalk();
    var heap := [ExampleLeaf(0), ExampleLeaf(1), ExampleLeaf(2), ExampleLeaf(3)];
    assert PaddedLen(4) == 4;
    assert HeapLens(heap, 4, 3) == Some([1, 2, 3, 3]);
  }

  /** Weights `[5, 1, 1, 1]` with at most 3 bits give the lengths `[1, 2, 3, 3]`
      on the first attempt. */
  lemma CanonicalLensExample()
    ensures CanonicalLens([5, 1, 1, 1], 3) == Some([1, 2, 3, 3])
  {
    ExampleAttempt();
    assert Attempts([5, 1, 1, 1], 3)[0] == Some([1, 2, 3, 3]);
  }
}
