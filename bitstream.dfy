/** The bit-level stream the coder writes to and reads from. Its implementation
    (src/bits.rs) is not part of this model: `Bits` keeps the stream as a
    sequence of bits with a read cursor and gives `put`, `peek` and `skip` the
    contracts the coder relies on. */
module BitStream {
  import opened Arith

  /** The `n` low bits of `v`, most significant first. */
  function ToBits(v: nat, n: nat): (bs: seq<bool>)
    ensures |bs| == n
  {
    if n == 0 then [] else ToBits(v / 2, n - 1) + [v % 2 == 1]
  }

  /** The unsigned integer whose binary digits, most significant first, are `bs`. */
  function FromBits(bs: seq<bool>): (v: nat)
    ensures v < Pow2(|bs|)
  {
    if bs == [] then 0 else 2 * FromBits(bs[..|bs| - 1]) + (if bs[|bs| - 1] then 1 else 0)
  }

  /** Writing a value that fits in `n` bits and reading those bits back gives the value. */
  lemma {:induction false} FromToBits(v: nat, n: nat)
    requires v < Pow2(n)
    ensures FromBits(ToBits(v, n)) == v
  {
    if n > 0 {
      FromToBits(v / 2, n - 1);
      assert ToBits(v, n)[..n - 1] == ToBits(v / 2, n - 1);
    }
  }

  /** Reading two consecutive runs of bits as one number. */
  lemma {:induction false} FromBitsAppend(a: seq<bool>, b: seq<bool>)
    ensures FromBits(a + b) == FromBits(a) * Pow2(|b|) + FromBits(b)
  {
    if b == [] {
      assert a + b == a;
    } else {
      var b' := b[..|b| - 1];
      FromBitsAppend(a, b');
      assert (a + b)[..|a + b| - 1] == a + b';
      var x, p, y := FromBits(a), Pow2(|b'|), FromBits(b');
      var c := if b[|b| - 1] then 1 else 0;
      assert FromBits(a + b) == 2 * (x * p + y) + c;
      DoubleFactor(x, p);
      assert FromBits(b) == 2 * y + c;
    }
  }

  /** A bit stream: `data` holds every bit written so far, `pos` is the read cursor. */
  class Bits {
    var data: seq<bool>
    var pos: nat

    constructor ()
      ensures data == [] && pos == 0
    {
      data := [];
      pos := 0;
    }

    /** `put(n, v)`: append the `n` low bits of `v`, most significant first. */
    method Put(n: nat, v: nat)
      modifies this
      ensures data == old(data) + ToBits(v, n)
      ensures pos == old(pos)
    {
      data := data + ToBits(v, n);
    }

    /** `peek(n)`: the next `n` bits as a number, without moving the cursor. */
    method Peek(n: nat) returns (v: nat)
      requires pos + n <= |data|
      ensures v < Pow2(n)
      ensures ToBits(v, n) == data[pos..pos + n]
    {
      v := FromBits(data[pos..pos + n]);
      ToFromBits(data[pos..pos + n]);
    }

    /** `skip(n)`: move the cursor past `n` bits. */
    method Skip(n: nat)
      requires pos + n <= |data|
      modifies this
      ensures data == old(data)
      ensures pos == old(pos) + n
    {
      pos := pos + n;
    }
  }

  /** Reading a run of bits as a number and writing that number back gives the run. */
  lemma {:induction false} ToFromBits(bs: seq<bool>)
    ensures ToBits(FromBits(bs), |bs|) == bs
  {
    if bs != [] {
      var init := bs[..|bs| - 1];
      ToFromBits(init);
      var v := FromBits(bs);
      assert v / 2 == FromBits(init);
      assert bs == init + [bs[|bs| - 1]];
    }
  }
}
