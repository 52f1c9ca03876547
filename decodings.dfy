/** `compute_decodings` (src/huffman.rs:144-159): the lookup table of size
    2^max that maps every `max`-bit window to the symbol whose code starts it. */
module Decodings {
  import opened Arith
  import opened Kraft
  import opened Encodings

  /** Symbol `s` writes slot `b`: it is used and `b` lies in
      `[enc_s << (max - len_s), (enc_s + 1) << (max - len_s))`. */
  predicate Covers(lens: seq<nat>, enc: seq<nat>, max: nat, s: nat, b: nat)
    requires s < |lens| && s < |enc| && lens[s] <= max
  {
    lens[s] > 0 && enc[s] * Pow2(max - lens[s]) <= b < (enc[s] + 1) * Pow2(max - lens[s])
  }

  /** Lengths no longer than `max`, with one code per length. */
  predicate Fitting(lens: seq<nat>, enc: seq<nat>, max: nat)
  {
    |lens| == |enc| && forall s | 0 <= s < |lens| :: lens[s] <= max
  }

  /** Slot `b` after the first `k` symbols are written: the last of them that
      covers `b`, or 0 when none does. */
  function Slot(lens: seq<nat>, enc: seq<nat>, max: nat, b: nat, k: nat): (r: nat)
    requires Fitting(lens, enc, max) && k <= |lens|
    ensures (exists s | 0 <= s < k :: Covers(lens, enc, max, s, b)) ==>
      r < k && Covers(lens, enc, max, r, b) && forall s | r < s < k :: !Covers(lens, enc, max, s, b)
    ensures (forall s | 0 <= s < k :: !Covers(lens, enc, max, s, b)) ==> r == 0
  {
    if k == 0 then 0
    else if Covers(lens, enc, max, k - 1, b) then k - 1
    else Slot(lens, enc, max, b, k - 1)
  }

  /** The table `compute_decodings` returns. */
  function DecodeTable(lens: seq<nat>, enc: seq<nat>, max: nat): (table: seq<nat>)
    requires Fitting(lens, enc, max)
    ensures |table| == Pow2(max)
  {
    seq(Pow2(max), (b: int) requires 0 <= b => Slot(lens, enc, max, b, |lens|))
  }

  /** `compute_decodings`: for each used symbol in id order, fill its slot range. */
  method ComputeDecodings(lens: seq<nat>, enc: seq<nat>, max: nat) returns (decodings: seq<nat>)
    requires Fitting(lens, enc, max)
    requires forall s | 0 <= s < |lens| && lens[s] > 0 :: (enc[s] + 1) * Pow2(max - lens[s]) <= Pow2(max)
    ensures decodings == DecodeTable(lens, enc, max)
  {
    var table := new nat[Pow2(max)](_ => 0);
    for symbol := 0 to |lens|
      invariant forall b | 0 <= b < table.Length :: table[b] == Slot(lens, enc, max, b, symbol)
    {
      if lens[symbol] > 0 {
        var restBitsLen := max - lens[symbol];
        var blo := (enc[symbol] + 0) * Pow2(restBitsLen);
        var bhi := (enc[symbol] + 1) * Pow2(restBitsLen);
        Distribute(enc[symbol], 1, Pow2(restBitsLen));
        for b := blo to bhi
          invariant forall c | 0 <= c < table.Length ::
            table[c] == if blo <= c < b then symbol else Slot(lens, enc, max, c, symbol)
        {
          table[b] := symbol;
        }
      }
    }
    decodings := table[..];
  }

  // ---------------------------------------------------------------------------
  // The table built from canonical codes.

  /** Canonical codes meet the range precondition of ComputeDecodings. */
  lemma {:induction false} CanonicalInRange(lens: seq<nat>, max: nat, s: nat)
    requires ValidLengths(lens) && s < |lens| && 0 < lens[s] <= max
    ensures (CanonicalCodes(lens)[s] + 1) * Pow2(max - lens[s]) <= Pow2(max)
  {
    CodeFits(lens, s);
    var c, w := Code(lens, s), Pow2(max - lens[s]);
    MulLeMonotone(c + 1, Pow2(lens[s]), w);
    Pow2Add(lens[s], max - lens[s]);
  }

  /** Two used symbols never cover the same slot. */
  lemma {:induction false} CoversUnique(lens: seq<nat>, max: nat, s: nat, t: nat, b: nat)
    requires ValidLengths(lens) && Fitting(lens, CanonicalCodes(lens), max) && s < |lens| && t < |lens|
    requires Covers(lens, CanonicalCodes(lens), max, s, b) && Covers(lens, CanonicalCodes(lens), max, t, b)
    ensures s == t
  {
    if s != t {
      CodeOffset(lens, s, max);
      CodeOffset(lens, t, max);
      Distribute(Code(lens, s), 1, Pow2(max - lens[s]));
      Distribute(Code(lens, t), 1, Pow2(max - lens[t]));
      OffsetOutside(lens, s, t, max);
      OffsetOutside(lens, t, s, max);
    }
  }

  /** Every slot in the range of a used symbol decodes to that symbol, and the
      leading `len_s` bits of the slot index are its code. */
  lemma {:induction false} DecodeCanonical(lens: seq<nat>, max: nat, s: nat, b: nat)
    requires ValidLengths(lens) && Fitting(lens, CanonicalCodes(lens), max) && s < |lens| && lens[s] > 0
    requires Code(lens, s) * Pow2(max - lens[s]) <= b < (Code(lens, s) + 1) * Pow2(max - lens[s])
    ensures b < Pow2(max)
    ensures DecodeTable(lens, CanonicalCodes(lens), max)[b] == s
    ensures b / Pow2(max - lens[s]) == Code(lens, s)
  {
    var enc := CanonicalCodes(lens);
    CanonicalInRange(lens, max, s);
    assert Covers(lens, enc, max, s, b);
    var r := Slot(lens, enc, max, b, |lens|);
    CoversUnique(lens, max, r, s, b);
    DivInRange(b, Code(lens, s), Pow2(max - lens[s]));
  }

  /** A nonempty set of symbols has a greatest element in (length, symbol) order. */
  lemma {:induction false} GreatestExists(lens: seq<nat>, syms: set<nat>)
    requires syms != {} && forall t | t in syms :: t < |lens|
    ensures exists p :: p in syms && forall u | u in syms :: !Before(lens, p, u)
    decreases |syms|
  {
    var x :| x in syms;
    var rest := syms - {x};
    if rest == {} {
      assert syms == {x};
    } else {
      GreatestExists(lens, rest);
      var p :| p in rest && forall u | u in rest :: !Before(lens, p, u);
      if Before(lens, p, x) {
        forall u | u in syms
          ensures !Before(lens, x, u)
        {
          if u != x {
            assert u in rest;
          }
        }
      } else {
        forall u | u in syms
          ensures !Before(lens, p, u)
        {
          if u != x {
            assert u in rest;
          }
        }
      }
    }
  }

  /** The symbols before the successor of `s` are those before `s`, and `s`. */
  lemma {:induction false} SuccessorPreceding(lens: seq<nat>, s: nat, q: nat)
    requires s < |lens| && q < |lens| && lens[s] > 0 && lens[q] > 0 && Before(lens, s, q)
    requires forall u | 0 <= u < |lens| && lens[u] > 0 && Before(lens, s, u) :: !Before(lens, u, q)
    ensures Preceding(lens, q) == Preceding(lens, s) + {s}
  {
  }

  /** Where the interval of the symbol at or before slot `b` ends, when the
      code is complete and that symbol is the last one starting at or before `b`. */
  lemma {:induction false} IntervalReaches(lens: seq<nat>, max: nat, s: nat, b: nat)
    requires Fitting(lens, CanonicalCodes(lens), max) && KraftSum(lens, max) == Pow2(max) && b < Pow2(max)
    requires s < |lens| && lens[s] > 0
    requires forall u | 0 <= u < |lens| && lens[u] > 0 && Before(lens, s, u) ::
      Mass(lens, Preceding(lens, u), max) > b
    ensures b < Mass(lens, Preceding(lens, s), max) + Pow2(max - lens[s])
  {
    var after := Preceding(lens, s) + {s};
    assert s !in Preceding(lens, s);
    MassInsert(lens, Preceding(lens, s), s, max);
    if Mass(lens, after, max) <= b {
      if Used(lens) <= after {
        MassMonotone(lens, Used(lens), after, max);
        MassAll(lens, Used(lens), max);
      } else {
        var later := set u | 0 <= u < |lens| && lens[u] > 0 && Before(lens, s, u);
        var t :| t in Used(lens) && t !in after;
        assert t in later;
        LeastExists(lens, later);
        var q :| q in later && forall u | u in later :: !Before(lens, u, q);
        SuccessorPreceding(lens, s, q);
      }
    }
  }

  /** With a complete code every slot is covered by some used symbol. */
  lemma {:induction false} DecodeComplete(lens: seq<nat>, max: nat, b: nat)
    requires ValidLengths(lens) && Fitting(lens, CanonicalCodes(lens), max)
    requires KraftSum(lens, max) == Pow2(max) && b < Pow2(max)
    ensures exists s | 0 <= s < |lens| :: Covers(lens, CanonicalCodes(lens), max, s, b)
  {
    var started := set x | 0 <= x < |lens| && lens[x] > 0 && Mass(lens, Preceding(lens, x), max) <= b;
    if Used(lens) == {} {
      MassEmpty(lens, max);
      MassAll(lens, Used(lens), max);
    }
    LeastExists(lens, Used(lens));
    var p :| p in Used(lens) && forall u | u in Used(lens) :: !Before(lens, u, p);
    assert Preceding(lens, p) == {};
    MassEmpty(lens, max);
    assert p in started;
    GreatestExists(lens, started);
    var s :| s in started && forall u | u in started :: !Before(lens, s, u);
    IntervalReaches(lens, max, s, b);
    CodeOffset(lens, s, max);
    Distribute(Code(lens, s), 1, Pow2(max - lens[s]));
    assert Covers(lens, CanonicalCodes(lens), max, s, b);
  }

  /** With a complete code every slot decodes to a used symbol whose code is
      the slot's leading bits. */
  lemma {:induction false} DecodeTotal(lens: seq<nat>, max: nat, b: nat)
    requires ValidLengths(lens) && Fitting(lens, CanonicalCodes(lens), max)
    requires KraftSum(lens, max) == Pow2(max) && b < Pow2(max)
    ensures var s := DecodeTable(lens, CanonicalCodes(lens), max)[b];
      s < |lens| && lens[s] > 0 && b / Pow2(max - lens[s]) == Code(lens, s)
  {
    DecodeComplete(lens, max, b);
    var s :| 0 <= s < |lens| && Covers(lens, CanonicalCodes(lens), max, s, b);
    DecodeCanonical(lens, max, s, b);
  }

  /** A single used symbol `1` of length 1 fills only slot 0: slot 1 keeps 0,
      which is an unused symbol. */
  lemma SingleSymbolTable()
    ensures DecodeTable([0, 1], CanonicalCodes([0, 1]), 1) == [1, 0]
  {
    var lens := [0, 1];
    FirstCodeZero(lens, 1);
    var t := DecodeTable(lens, CanonicalCodes(lens), 1);
    assert Covers(lens, CanonicalCodes(lens), 1, 1, 0);
    assert !Covers(lens, CanonicalCodes(lens), 1, 1, 1);
  }
}
