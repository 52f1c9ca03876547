/** `compute_encodings` (src/huffman.rs:121-142): canonical code assignment.
    Used symbols are visited in ascending (length, symbol) order; a counter is
    shifted left whenever the length grows and each symbol takes the counter
    and then increments it. `Code` gives the result in closed form: the code of
    `s` is the sum, over the used symbols visited before it, of
    2^(len_s - len_t). */
module Encodings {
  import opened Wrappers
  import opened Arith
  import opened Kraft

  /** The symbols with a code (nonzero length). */
  function Used(lens: seq<nat>): set<nat>
  {
    set t | 0 <= t < |lens| && lens[t] > 0
  }

  /** `t` precedes `u` in the ordered set of `(length, symbol)` pairs. */
  predicate Before(lens: seq<nat>, t: nat, u: nat)
    requires t < |lens| && u < |lens|
  {
    lens[t] < lens[u] || (lens[t] == lens[u] && t < u)
  }

  /** The used symbols visited before `s`. */
  function Preceding(lens: seq<nat>, s: nat): set<nat>
    requires s < |lens|
  {
    set t | 0 <= t < |lens| && lens[t] > 0 && Before(lens, t, s)
  }

  /** The canonical code of `s`: the mass of the symbols before it at scale `len_s`. */
  function Code(lens: seq<nat>, s: nat): nat
    requires s < |lens|
  {
    Mass(lens, Preceding(lens, s), lens[s])
  }

  /** The table `compute_encodings` returns. */
  function CanonicalCodes(lens: seq<nat>): (codes: seq<nat>)
    ensures |codes| == |lens|
    ensures forall t | 0 <= t < |lens| && lens[t] == 0 :: codes[t] == 0
  {
    seq(|lens|, (t: int) requires 0 <= t < |lens| => if lens[t] > 0 then Code(lens, t) else 0)
  }

  /** The state of `compute_encodings` between two pairs: `visited` holds the
      pairs done so far, all up to and including `last`; the counter `bits`
      is their mass at the current length `cur`, and fits in `cur` bits. */
  ghost predicate Progress(lens: seq<nat>, visited: set<nat>, last: Option<nat>, cur: nat, bits: nat)
  {
    && visited <= Used(lens)
    && (last.None? ==> visited == {} && cur == 1)
    && (last.Some? ==>
          && last.value < |lens| && lens[last.value] > 0
          && visited == Preceding(lens, last.value) + {last.value}
          && cur == lens[last.value])
    && 1 <= cur <= MaxCodeLen
    && bits == Mass(lens, visited, cur) && bits <= Pow2(cur)
  }

  /** `codes` holds the canonical code of every visited symbol and 0 elsewhere. */
  ghost predicate Assigned(lens: seq<nat>, visited: set<nat>, codes: seq<nat>)
  {
    |codes| == |lens| && forall t | 0 <= t < |lens| :: codes[t] == if t in visited then Code(lens, t) else 0
  }

  /** The invariant of the `for_each`: progress so far, the pairs still to
      visit, and the codes written. */
  ghost predicate Walk(lens: seq<nat>, visited: set<nat>, last: Option<nat>, cur: nat, bits: nat,
                       remaining: set<nat>, codes: seq<nat>)
  {
    Progress(lens, visited, last, cur, bits) && remaining == Used(lens) - visited && Assigned(lens, visited, codes)
  }

  /** `compute_encodings`: the `for_each` over the ordered set keeps its
      unvisited pairs in `remaining` and takes the least one each time. */
  method ComputeEncodings(lens: seq<nat>) returns (encodings: seq<nat>)
    requires ValidLengths(lens)
    ensures encodings == CanonicalCodes(lens)
  {
    var codes := new nat[|lens|](_ => 0);
    var bits: nat := 0;
    var currentBitsLen: nat := 1;
    var remaining := Used(lens);
    ghost var visited: set<nat> := {};
    ghost var last: Option<nat> := None;
    MassEmpty(lens, 1);
    assert Assigned(lens, visited, codes[..]);
    while remaining != {}
      invariant codes.Length == |lens|
      invariant Walk(lens, visited, last, currentBitsLen, bits, remaining, codes[..])
      decreases |remaining|
    {
      var symbol;
      symbol, bits, currentBitsLen := VisitLeast(lens, codes, bits, currentBitsLen, remaining, visited, last);
      visited := visited + {symbol};
      last := Some(symbol);
      remaining := remaining - {symbol};
    }
    AssignedAll(lens, visited, remaining, codes[..]);
    encodings := codes[..];
  }

  /** The body of the `for_each`: the least unvisited pair `(len, symbol)`
      widens the counter to `len`, takes it as its code, and moves it on by one. */
  method VisitLeast(lens: seq<nat>, codes: array<nat>, bits: nat, cur: nat, remaining: set<nat>,
                    ghost visited: set<nat>, ghost last: Option<nat>)
    returns (symbol: nat, bits': nat, cur': nat)
    requires ValidLengths(lens) && codes.Length == |lens| && remaining != {}
    requires Walk(lens, visited, last, cur, bits, remaining, codes[..])
    modifies codes
    ensures symbol in remaining
    ensures Walk(lens, visited + {symbol}, Some(symbol), cur', bits', remaining - {symbol}, codes[..])
  {
    LeastExists(lens, remaining);
    symbol :| symbol in remaining && forall u | u in remaining :: !Before(lens, u, symbol);
    Enter(lens, visited, last, cur, bits, remaining, codes[..], symbol);
    var widened;
    widened, cur' := Widen(lens, visited, bits, cur, lens[symbol]);
    Leave(lens, visited, last, remaining, codes[..], symbol, widened);
    codes[symbol] := widened;
    bits' := widened + 1;
  }

  /** The inner `while`: shift the counter left until the current length
      reaches `len`; the counter stays the mass of the visited symbols. */
  method Widen(lens: seq<nat>, ghost visited: set<nat>, bits: nat, cur: nat, len: nat) returns (bits': nat, cur': nat)
    requires cur <= len && forall t | t in visited :: t < |lens| && lens[t] <= cur
    requires bits == Mass(lens, visited, cur) && bits <= Pow2(cur)
    ensures cur' == len
    ensures bits' == Mass(lens, visited, len) && bits' <= Pow2(len)
  {
    bits', cur' := bits, cur;
    while cur' < len
      invariant cur' <= len
      invariant forall t | t in visited :: t < |lens| && lens[t] <= cur'
      invariant bits' == Mass(lens, visited, cur') && bits' <= Pow2(cur')
    {
      MassScale(lens, visited, cur', 1);
      bits' := bits' * 2;
      cur' := cur' + 1;
    }
  }

  // ---------------------------------------------------------------------------

  /** The least unvisited symbol has exactly the visited ones before it. */
  lemma {:induction false} PrecedingOfLeast(lens: seq<nat>, visited: set<nat>, last: Option<nat>,
                                            remaining: set<nat>, symbol: nat)
    requires visited <= Used(lens) && remaining == Used(lens) - visited
    requires last.None? ==> visited == {}
    requires last.Some? ==> last.value < |lens| && visited == Preceding(lens, last.value) + {last.value}
    requires symbol in remaining && forall u | u in remaining :: !Before(lens, u, symbol)
    ensures Preceding(lens, symbol) == visited
  {
    if last.Some? {
      var l := last.value;
      assert Before(lens, l, symbol) by {
        assert symbol !in Preceding(lens, l);
      }
    }
  }

  /** Taking the least unvisited symbol: the visited ones are exactly those
      before it, all of them no longer than the current length, and the
      current length does not exceed its length. */
  lemma {:induction false} Enter(lens: seq<nat>, visited: set<nat>, last: Option<nat>, cur: nat, bits: nat,
                                 remaining: set<nat>, codes: seq<nat>, symbol: nat)
    requires Walk(lens, visited, last, cur, bits, remaining, codes)
    requires symbol in remaining && forall u | u in remaining :: !Before(lens, u, symbol)
    ensures Preceding(lens, symbol) == visited
    ensures cur <= lens[symbol] && forall t | t in visited :: t < |lens| && lens[t] <= cur
  {
    PrecedingOfLeast(lens, visited, last, remaining, symbol);
  }

  /** Assigning the counter to `symbol` gives it its canonical code and moves
      the walk past it. */
  lemma {:induction false} Leave(lens: seq<nat>, visited: set<nat>, last: Option<nat>, remaining: set<nat>,
                                 codes: seq<nat>, symbol: nat, bits: nat)
    requires ValidLengths(lens) && remaining == Used(lens) - visited && symbol in remaining
    requires Preceding(lens, symbol) == visited && Assigned(lens, visited, codes)
    requires bits == Mass(lens, visited, lens[symbol])
    ensures bits == Code(lens, symbol)
    ensures Walk(lens, visited + {symbol}, Some(symbol), lens[symbol], bits + 1, remaining - {symbol},
                 codes[symbol := bits])
  {
    CodeFits(lens, symbol);
    assert symbol !in visited;
    MassInsert(lens, visited, symbol, lens[symbol]);
    AssignedStep(lens, visited, codes, symbol);
  }

  lemma {:induction false} AssignedStep(lens: seq<nat>, visited: set<nat>, codes: seq<nat>, symbol: nat)
    requires Assigned(lens, visited, codes) && symbol < |lens|
    ensures Assigned(lens, visited + {symbol}, codes[symbol := Code(lens, symbol)])
  {
  }

  lemma {:induction false} AssignedAll(lens: seq<nat>, visited: set<nat>, remaining: set<nat>, codes: seq<nat>)
    requires Assigned(lens, visited, codes) && visited <= Used(lens) && {} == remaining == Used(lens) - visited
    ensures codes == CanonicalCodes(lens)
  {
    assert forall t | 0 <= t < |lens| :: t in visited <==> lens[t] > 0 by {
      forall t | 0 <= t < |lens| && lens[t] > 0
        ensures t in visited
      {
        assert t in Used(lens) && t !in remaining;
      }
    }
  }

  /** A nonempty set of symbols has a least element in (length, symbol) order. */
  lemma {:induction false} LeastExists(lens: seq<nat>, syms: set<nat>)
    requires syms != {} && forall t | t in syms :: t < |lens|
    ensures exists p :: p in syms && forall u | u in syms :: !Before(lens, u, p)
    decreases |syms|
  {
    var x :| x in syms;
    var rest := syms - {x};
    if rest == {} {
      assert syms == {x};
    } else {
      LeastExists(lens, rest);
      var p :| p in rest && forall u | u in rest :: !Before(lens, u, p);
      if Before(lens, x, p) {
        forall u | u in syms
          ensures !Before(lens, u, x)
        {
          if u != x {
            assert u in rest;
          }
        }
      } else {
        forall u | u in syms
          ensures !Before(lens, u, p)
        {
          if u != x {
            assert u in rest;
          }
        }
      }
    }
  }

  /** With lengths at most `limit`, `code_s << (limit - len_s)` is the mass of
      the symbols before `s`: where the interval of `s` starts. */
  lemma {:induction false} CodeOffset(lens: seq<nat>, s: nat, limit: nat)
    requires s < |lens| && lens[s] <= limit
    ensures Code(lens, s) * Pow2(limit - lens[s]) == Mass(lens, Preceding(lens, s), limit)
  {
    MassScale(lens, Preceding(lens, s), lens[s], limit - lens[s]);
  }

  /** The interval of an earlier symbol ends where a later one may start. */
  lemma {:induction false} OffsetsOrdered(lens: seq<nat>, t: nat, u: nat, limit: nat)
    requires t < |lens| && u < |lens| && lens[t] > 0 && lens[u] > 0 && Before(lens, t, u)
    requires lens[t] <= limit
    ensures Mass(lens, Preceding(lens, t), limit) + Pow2(limit - lens[t]) <= Mass(lens, Preceding(lens, u), limit)
  {
    assert t !in Preceding(lens, t);
    MassInsert(lens, Preceding(lens, t), t, limit);
    assert Preceding(lens, t) + {t} <= Preceding(lens, u);
    MassMonotone(lens, Preceding(lens, t) + {t}, Preceding(lens, u), limit);
  }

  /** Every interval ends within the Kraft sum. */
  lemma {:induction false} OffsetTop(lens: seq<nat>, s: nat, limit: nat)
    requires s < |lens| && 0 < lens[s] <= limit
    ensures Mass(lens, Preceding(lens, s), limit) + Pow2(limit - lens[s]) <= KraftSum(lens, limit)
  {
    assert s !in Preceding(lens, s);
    MassInsert(lens, Preceding(lens, s), s, limit);
    MassMonotone(lens, Preceding(lens, s) + {s}, Used(lens), limit);
    MassAll(lens, Used(lens), limit);
  }

  /** Under the Kraft inequality every code fits in its length:
      `(code_s + 1) << (15 - len_s) <= 2^15`, so `code_s < 2^len_s`. */
  lemma {:induction false} CodeFits(lens: seq<nat>, s: nat)
    requires ValidLengths(lens) && s < |lens| && lens[s] > 0
    ensures (Code(lens, s) + 1) * Pow2(MaxCodeLen - lens[s]) <= Pow2(MaxCodeLen)
    ensures Code(lens, s) < Pow2(lens[s])
  {
    CodeFitsWithin(lens, s, MaxCodeLen);
  }

  /** CodeFits at any scale `limit` at which the Kraft inequality holds. */
  lemma {:induction false} CodeFitsWithin(lens: seq<nat>, s: nat, limit: nat)
    requires s < |lens| && 0 < lens[s] <= limit && KraftSum(lens, limit) <= Pow2(limit)
    ensures (Code(lens, s) + 1) * Pow2(limit - lens[s]) <= Pow2(limit)
    ensures Code(lens, s) < Pow2(lens[s])
  {
    var c, l, w := Code(lens, s), lens[s], Pow2(limit - lens[s]);
    var m := Mass(lens, Preceding(lens, s), limit);
    CodeOffset(lens, s, limit);
    OffsetTop(lens, s, limit);
    assert m + w <= Pow2(limit);
    Distribute(c, 1, w);
    assert (c + 1) * w == m + w;
    Pow2Add(l, limit - l);
    MulLeCancel(c + 1, Pow2(l), w);
  }

  /** The least used symbol gets code 0. */
  lemma {:induction false} FirstCodeZero(lens: seq<nat>, s: nat)
    requires s < |lens| && lens[s] > 0
    requires forall t | 0 <= t < |lens| && lens[t] > 0 :: !Before(lens, t, s)
    ensures Code(lens, s) == 0
  {
    assert Preceding(lens, s) == {};
    MassEmpty(lens, lens[s]);
  }

  /** Each next code is the previous one plus one, shifted left by the growth in
      length; equal lengths give consecutive codes. */
  lemma {:induction false} NextCode(lens: seq<nat>, p: nat, q: nat)
    requires p < |lens| && q < |lens| && lens[p] > 0 && lens[q] > 0 && Before(lens, p, q)
    requires forall t | 0 <= t < |lens| && lens[t] > 0 :: !(Before(lens, p, t) && Before(lens, t, q))
    ensures Code(lens, q) == (Code(lens, p) + 1) * Pow2(lens[q] - lens[p])
  {
    var pre := Preceding(lens, p) + {p};
    assert Preceding(lens, q) == pre;
    assert p !in Preceding(lens, p);
    MassInsert(lens, Preceding(lens, p), p, lens[p]);
    MassScale(lens, pre, lens[p], lens[q] - lens[p]);
  }

  /** The interval of a used symbol holds the start of no other used symbol's
      interval. */
  lemma {:induction false} OffsetOutside(lens: seq<nat>, s: nat, t: nat, limit: nat)
    requires s < |lens| && t < |lens| && s != t && 0 < lens[s] <= limit && 0 < lens[t] <= limit
    ensures var start := Mass(lens, Preceding(lens, s), limit);
      !(start <= Mass(lens, Preceding(lens, t), limit) < start + Pow2(limit - lens[s]))
  {
    if Before(lens, s, t) {
      OffsetsOrdered(lens, s, t, limit);
    } else {
      OffsetsOrdered(lens, t, s, limit);
    }
  }

  /** Prefix freedom: for two used symbols with `len_s <= len_t`, the leading
      `len_s` bits of `code_t` are not `code_s`. */
  lemma {:induction false} PrefixFree(lens: seq<nat>, s: nat, t: nat)
    requires s < |lens| && t < |lens| && s != t
    requires 0 < lens[s] <= lens[t]
    ensures Code(lens, t) / Pow2(lens[t] - lens[s]) != Code(lens, s)
  {
    var ls, lt := lens[s], lens[t];
    var c, p, one := Code(lens, s), Pow2(lt - ls), Pow2(lt - lt);
    if Code(lens, t) / p == c {
      QuotientScaled(c, Code(lens, t), p, one);
      assert one == 1;
      CodeOffset(lens, s, lt);
      CodeOffset(lens, t, lt);
      OffsetOutside(lens, s, t, lt);
    }
  }

  /** The lengths `[1, 2, 3, 3]` get the codes `0`, `10`, `110` and `111`. */
  lemma CodesExample()
    ensures CanonicalCodes([1, 2, 3, 3]) == [0, 2, 6, 7]
  {
    var lens := [1, 2, 3, 3];
    FirstCodeZero(lens, 0);
    NextCode(lens, 0, 1);
    NextCode(lens, 1, 2);
    NextCode(lens, 2, 3);
  }
}
