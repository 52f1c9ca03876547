/** Kraft sums in integer form. For a table of code lengths `lens` and a scale
    `limit`, a used length `l` (0 < l <= limit) contributes 2^(limit - l); the
    Kraft inequality for the table is `KraftSum(lens, limit) <= 2^limit`, and
    equality means the prefix code is complete. `Mass` is the same sum taken
    over a subset of the symbols. */
module Kraft {
  import opened Arith

  /** Longest code length the coder supports: codes are kept in a `u16`. */
  const MaxCodeLen: nat := 15

  /** A length table the code assigner and the decode table accept: symbol ids
      fit in a `u16`, no length exceeds 15, and the Kraft inequality holds. */
  predicate ValidLengths(lens: seq<nat>)
  {
    && |lens| <= 0x1_0000
    && (forall s | 0 <= s < |lens| :: lens[s] <= MaxCodeLen)
    && KraftSum(lens, MaxCodeLen) <= Pow2(MaxCodeLen)
  }

  function Term(len: nat, limit: nat): nat
  {
    if 0 < len <= limit then Pow2(limit - len) else 0
  }

  function KraftSum(lens: seq<nat>, limit: nat): nat
  {
    if lens == [] then 0 else KraftSum(lens[..|lens| - 1], limit) + Term(lens[|lens| - 1], limit)
  }

  function Mass(lens: seq<nat>, syms: set<nat>, limit: nat): nat
  {
    if lens == [] then 0
    else Mass(lens[..|lens| - 1], syms, limit) + (if |lens| - 1 in syms then Term(lens[|lens| - 1], limit) else 0)
  }

  /** Changing one length changes the sum by the difference of the two terms. */
  lemma {:induction false} KraftUpdate(lens: seq<nat>, s: nat, v: nat, limit: nat)
    requires s < |lens|
    ensures KraftSum(lens[s := v], limit) + Term(lens[s], limit) == KraftSum(lens, limit) + Term(v, limit)
  {
    var n := |lens|;
    var lens' := lens[s := v];
    if s < n - 1 {
      KraftUpdate(lens[..n - 1], s, v, limit);
      assert lens'[..n - 1] == lens[..n - 1][s := v];
    } else {
      assert lens'[..n - 1] == lens[..n - 1];
    }
  }

  /** A table of zeros has an empty sum. */
  lemma {:induction false} KraftZeros(n: nat, limit: nat)
    ensures KraftSum(seq(n, _ => 0), limit) == 0
  {
    if n > 0 {
      KraftZeros(n - 1, limit);
      assert seq(n, _ => 0)[..n - 1] == seq(n - 1, _ => 0);
    }
  }

  /** Raising the scale by `k` multiplies the sum by 2^k when no length exceeds the old scale. */
  lemma {:induction false} KraftScale(lens: seq<nat>, limit: nat, k: nat)
    requires forall t | 0 <= t < |lens| :: lens[t] <= limit
    ensures KraftSum(lens, limit + k) == KraftSum(lens, limit) * Pow2(k)
  {
    if lens != [] {
      var init, l := lens[..|lens| - 1], lens[|lens| - 1];
      KraftScale(init, limit, k);
      if l > 0 {
        Pow2Add(limit - l, k);
        assert limit + k - l == limit - l + k;
      }
      assert Term(l, limit + k) == Term(l, limit) * Pow2(k);
      Distribute(KraftSum(init, limit), Term(l, limit), Pow2(k));
    }
  }

  /** Adding one symbol to the subset adds its term. */
  lemma {:induction false} MassInsert(lens: seq<nat>, syms: set<nat>, s: nat, limit: nat)
    requires s < |lens| && s !in syms
    ensures Mass(lens, syms + {s}, limit) == Mass(lens, syms, limit) + Term(lens[s], limit)
  {
    if s < |lens| - 1 {
      MassInsert(lens[..|lens| - 1], syms, s, limit);
    } else {
      MassSame(lens[..|lens| - 1], syms, syms + {s}, limit);
    }
  }

  /** Subsets that agree on the symbols of the table give the same sum. */
  lemma {:induction false} MassSame(lens: seq<nat>, syms: set<nat>, syms': set<nat>, limit: nat)
    requires forall t | 0 <= t < |lens| :: (t in syms <==> t in syms')
    ensures Mass(lens, syms, limit) == Mass(lens, syms', limit)
  {
    if lens != [] {
      MassSame(lens[..|lens| - 1], syms, syms', limit);
    }
  }

  /** A larger subset never has a smaller sum. */
  lemma {:induction false} MassMonotone(lens: seq<nat>, syms: set<nat>, syms': set<nat>, limit: nat)
    requires syms <= syms'
    ensures Mass(lens, syms, limit) <= Mass(lens, syms', limit)
  {
    if lens != [] {
      MassMonotone(lens[..|lens| - 1], syms, syms', limit);
    }
  }

  /** The empty subset has an empty sum. */
  lemma {:induction false} MassEmpty(lens: seq<nat>, limit: nat)
    ensures Mass(lens, {}, limit) == 0
  {
    if lens != [] {
      MassEmpty(lens[..|lens| - 1], limit);
    }
  }

  /** Raising the scale by `k` multiplies a subset's sum by 2^k. */
  lemma {:induction false} MassScale(lens: seq<nat>, syms: set<nat>, limit: nat, k: nat)
    requires forall t | 0 <= t < |lens| && t in syms :: lens[t] <= limit
    ensures Mass(lens, syms, limit + k) == Mass(lens, syms, limit) * Pow2(k)
  {
    if lens != [] {
      var init, l := lens[..|lens| - 1], lens[|lens| - 1];
      MassScale(init, syms, limit, k);
      var t, t' := (if |lens| - 1 in syms then Term(l, limit) else 0), (if |lens| - 1 in syms then Term(l, limit + k) else 0);
      if l > 0 && |lens| - 1 in syms {
        Pow2Add(limit - l, k);
        assert limit + k - l == limit - l + k;
      }
      assert t' == t * Pow2(k);
      Distribute(Mass(init, syms, limit), t, Pow2(k));
    }
  }

  /** A subset holding every used symbol has the whole Kraft sum. */
  lemma {:induction false} MassAll(lens: seq<nat>, syms: set<nat>, limit: nat)
    requires forall t | 0 <= t < |lens| && lens[t] > 0 :: t in syms
    ensures Mass(lens, syms, limit) == KraftSum(lens, limit)
  {
    if lens != [] {
      MassAll(lens[..|lens| - 1], syms, limit);
    }
  }

  /** A complete code with lengths at most `max <= 15` satisfies ValidLengths. */
  lemma {:induction false} CompleteIsValid(lens: seq<nat>, max: nat)
    requires |lens| <= 0x1_0000 && max <= MaxCodeLen
    requires forall s | 0 <= s < |lens| :: lens[s] <= max
    requires KraftSum(lens, max) == Pow2(max)
    ensures ValidLengths(lens)
  {
    KraftScale(lens, max, MaxCodeLen - max);
    Pow2Add(max, MaxCodeLen - max);
  }
}
