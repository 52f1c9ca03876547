/** `HuffmanEncoder` and `HuffmanDecoder` (src/huffman.rs:4-53): the tables
    built once from weights or from lengths, and the per-symbol encode and
    decode steps over a bit stream. */
module Huffman {
  import opened Wrappers
  import opened Arith
  import opened Kraft
  import opened BitStream
  import opened HuffmanTree
  import opened CanonicalLengths
  import opened Encodings
  import opened Decodings

  /** `canonical_lens_max = *canonical_lens.iter().max().unwrap()`. */
  function MaxOf(lens: seq<nat>): (m: nat)
    requires |lens| > 0
    ensures forall s | 0 <= s < |lens| :: lens[s] <= m
    ensures exists s | 0 <= s < |lens| :: lens[s] == m
  {
    if |lens| == 1 then lens[0]
    else
      var m := MaxOf(lens[..|lens| - 1]);
      if lens[|lens| - 1] > m then lens[|lens| - 1] else m
  }

  datatype HuffmanEncoder = HuffmanEncoder(canonicalLens: seq<nat>, encodings: seq<nat>)
  {
    /** The codes are the canonical codes of lengths that meet ValidLengths. */
    predicate Valid()
    {
      ValidLengths(canonicalLens) && encodings == CanonicalCodes(canonicalLens)
    }

    /** `from_symbol_weights`: lengths from the weights, then their codes.
        None where `compute_canonical_lens` never returns a table: then no
        shrink factor at all succeeds. */
    static method FromSymbolWeights(symbolWeights: seq<nat>, canonicalLensMax: nat)
      returns (encoder: Option<HuffmanEncoder>)
      requires WeightsFit(symbolWeights) && canonicalLensMax <= MaxCodeLen
      ensures encoder.None? <==> CanonicalLens(symbolWeights, canonicalLensMax).None?
      ensures encoder.None? ==> forall s :: AttemptLens(symbolWeights, canonicalLensMax, s).None?
      ensures encoder.Some? ==>
        && encoder.value.canonicalLens == CanonicalLens(symbolWeights, canonicalLensMax).value
        && encoder.value.Valid()
    {
      var canonicalLens := ComputeCanonicalLens(symbolWeights, canonicalLensMax);
      if canonicalLens.None? {
        CanonicalLensNever(symbolWeights, canonicalLensMax);
        return None;
      }
      CanonicalLensValid(symbolWeights, canonicalLensMax);
      var encodings := ComputeEncodings(canonicalLens.value);
      return Some(HuffmanEncoder(canonicalLens.value, encodings));
    }

    /** `get_canonical_lens`: a decoder built from these lengths recomputes
        exactly this encoder's codes. */
    function GetCanonicalLens(): (lens: seq<nat>)
      requires Valid()
      ensures lens == canonicalLens
      ensures ValidLengths(lens) && CanonicalCodes(lens) == encodings
    {
      canonicalLens
    }

    /** `encode_to_bits`: append the `len_s` bits of `code_s`. */
    method EncodeToBits(symbol: nat, bits: Bits)
      requires Valid() && symbol < |canonicalLens|
      modifies bits
      ensures bits.data == old(bits.data) + ToBits(encodings[symbol], canonicalLens[symbol])
      ensures bits.pos == old(bits.pos)
    {
      var bitsLen := canonicalLens[symbol];
      var bs := encodings[symbol];
      bits.Put(bitsLen, bs);
    }
  }

  datatype HuffmanDecoder = HuffmanDecoder(canonicalLens: seq<nat>, canonicalLensMax: nat, decodings: seq<nat>)
  {
    /** `canonicalLensMax` is the longest length and `decodings` the table
        built from the canonical codes. */
    predicate Valid()
    {
      && |canonicalLens| > 0 && ValidLengths(canonicalLens)
      && canonicalLensMax == MaxOf(canonicalLens)
      && decodings == DecodeTable(canonicalLens, CanonicalCodes(canonicalLens), canonicalLensMax)
    }

    /** `from_canonical_lens`. */
    static method FromCanonicalLens(canonicalLens: seq<nat>) returns (decoder: HuffmanDecoder)
      requires |canonicalLens| > 0 && ValidLengths(canonicalLens)
      ensures decoder.Valid() && decoder.canonicalLens == canonicalLens
    {
      var canonicalLensMax := MaxOf(canonicalLens);
      var encodings := ComputeEncodings(canonicalLens);
      forall s | 0 <= s < |canonicalLens| && canonicalLens[s] > 0
        ensures (encodings[s] + 1) * Pow2(canonicalLensMax - canonicalLens[s]) <= Pow2(canonicalLensMax)
      {
        CanonicalInRange(canonicalLens, canonicalLensMax, s);
      }
      var decodings := ComputeDecodings(canonicalLens, encodings, canonicalLensMax);
      decoder := HuffmanDecoder(canonicalLens, canonicalLensMax, decodings);
    }

    /** `decode_from_bits`: look the next `max` bits up, then skip the length
        of the symbol found. */
    method DecodeFromBits(bits: Bits) returns (symbol: nat)
      requires Valid() && bits.pos + canonicalLensMax <= |bits.data|
      modifies bits
      ensures symbol == decodings[FromBits(old(bits.data)[old(bits.pos)..old(bits.pos) + canonicalLensMax])]
      ensures symbol < |canonicalLens|
      ensures bits.data == old(bits.data) && bits.pos == old(bits.pos) + canonicalLens[symbol]
    {
      ghost var read := bits.data[bits.pos..bits.pos + canonicalLensMax];
      var window := bits.Peek(canonicalLensMax);
      FromToBits(window, canonicalLensMax);
      assert FromBits(read) == window;
      symbol := decodings[window];
      bits.Skip(canonicalLens[symbol]);
    }
  }

  // ---------------------------------------------------------------------------

  /** The table lookup at the heart of the round trip: a window that starts
      with the code of a used symbol decodes to that symbol. */
  lemma {:induction false} WindowDecodes(lens: seq<nat>, max: nat, s: nat, rest: seq<bool>)
    requires ValidLengths(lens) && |lens| > 0 && max == MaxOf(lens)
    requires s < |lens| && lens[s] > 0 && |rest| == max - lens[s]
    ensures FromBits(ToBits(Code(lens, s), lens[s]) + rest) < Pow2(max)
    ensures DecodeTable(lens, CanonicalCodes(lens), max)[FromBits(ToBits(Code(lens, s), lens[s]) + rest)] == s
  {
    var c := Code(lens, s);
    CodeFits(lens, s);
    FromToBits(c, lens[s]);
    FromBitsAppend(ToBits(c, lens[s]), rest);
    var b := FromBits(ToBits(c, lens[s]) + rest);
    Distribute(c, 1, Pow2(max - lens[s]));
    DecodeCanonical(lens, max, s, b);
  }

  /** The window a valid decoder reads at any cursor position: when the next
      `max` bits start with the code of a used symbol, the table maps them to it. */
  lemma {:induction false} RoundTripWindow(decoder: HuffmanDecoder, s: nat, data: seq<bool>, pos: nat, rest: seq<bool>)
    requires decoder.Valid() && s < |decoder.canonicalLens| && decoder.canonicalLens[s] > 0
    requires |rest| == decoder.canonicalLensMax - decoder.canonicalLens[s]
    requires pos + decoder.canonicalLensMax <= |data|
    requires data[pos..pos + decoder.canonicalLensMax] == ToBits(CanonicalCodes(decoder.canonicalLens)[s], decoder.canonicalLens[s]) + rest
    ensures decoder.decodings[FromBits(data[pos..pos + decoder.canonicalLensMax])] == s
  {
    var lens := decoder.canonicalLens;
    assert CanonicalCodes(lens)[s] == Code(lens, s);
    WindowDecodes(lens, decoder.canonicalLensMax, s, rest);
  }

  /** `decode_from_bits` at any cursor whose next `max` bits are the code of a
      used symbol followed by `rest`: that symbol, and exactly its length consumed. */
  method DecodeAt(decoder: HuffmanDecoder, bits: Bits, symbol: nat, ghost rest: seq<bool>) returns (decoded: nat)
    requires decoder.Valid() && symbol < |decoder.canonicalLens| && decoder.canonicalLens[symbol] > 0
    requires |rest| == decoder.canonicalLensMax - decoder.canonicalLens[symbol]
    requires bits.pos + decoder.canonicalLensMax <= |bits.data|
    requires bits.data[bits.pos..bits.pos + decoder.canonicalLensMax]
      == ToBits(CanonicalCodes(decoder.canonicalLens)[symbol], decoder.canonicalLens[symbol]) + rest
    modifies bits
    ensures decoded == symbol
    ensures bits.data == old(bits.data) && bits.pos == old(bits.pos) + decoder.canonicalLens[symbol]
  {
    ghost var window := bits.data[bits.pos..bits.pos + decoder.canonicalLensMax];
    RoundTripWindow(decoder, symbol, bits.data, bits.pos, rest);
    assert decoder.decodings[FromBits(window)] == symbol;
    decoded := decoder.DecodeFromBits(bits);
  }

  /** A fresh stream whose cursor has read past `before`, followed by the code
      of `symbol` and then `following`. */
  method EncodeAfter(encoder: HuffmanEncoder, symbol: nat, before: seq<bool>, following: seq<bool>) returns (bits: Bits)
    requires encoder.Valid() && symbol < |encoder.canonicalLens|
    ensures fresh(bits) && bits.pos == |before|
    ensures bits.data == before + ToBits(encoder.encodings[symbol], encoder.canonicalLens[symbol]) + following
  {
    bits := new Bits();
    bits.Put(|before|, FromBits(before));
    ToFromBits(before);
    bits.Skip(|before|);
    encoder.EncodeToBits(symbol, bits);
    bits.Put(|following|, FromBits(following));
    ToFromBits(following);
  }

  /** The `k` bits after `before` in `before + code + following`. */
  lemma {:induction false} WindowAfter(before: seq<bool>, code: seq<bool>, following: seq<bool>, k: nat)
    requires |code| <= k <= |code| + |following|
    ensures (before + code + following)[|before|..|before| + k] == code + following[..k - |code|]
  {
    var data := before + code + following;
    var window, expected := data[|before|..|before| + k], code + following[..k - |code|];
    forall i | 0 <= i < k
      ensures window[i] == expected[i]
    {
      if i < |code| {
        assert data[|before| + i] == code[i];
      } else {
        assert data[|before| + i] == following[i - |code|];
      }
    }
  }

  /** Round trip: a used symbol encoded after any bits already read, followed
      by enough bits to fill the decoder's `max`-bit window, decodes with the
      decoder built from the encoder's lengths to the same symbol and consumes
      exactly its code. */
  method EncodeThenDecode(encoder: HuffmanEncoder, symbol: nat, before: seq<bool>, following: seq<bool>)
    returns (decoded: nat, consumed: nat)
    requires encoder.Valid() && symbol < |encoder.canonicalLens| && encoder.canonicalLens[symbol] > 0
    requires encoder.canonicalLens[symbol] + |following| >= MaxOf(encoder.canonicalLens)
    ensures decoded == symbol && consumed == encoder.canonicalLens[symbol]
  {
    var bits := EncodeAfter(encoder, symbol, before, following);
    var decoder := HuffmanDecoder.FromCanonicalLens(encoder.GetCanonicalLens());
    var len, max := encoder.canonicalLens[symbol], decoder.canonicalLensMax;
    ghost var rest := following[..max - len];
    WindowAfter(before, ToBits(encoder.encodings[symbol], len), following, max);
    var start := bits.pos;
    decoded := DecodeAt(decoder, bits, symbol, rest);
    consumed := bits.pos - start;
  }
}
