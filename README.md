# Canonical Huffman coding, modelled in Dafny

This project models the canonical Huffman coder of `src/huffman.rs`.

**Code lengths.** `compute_canonical_lens` builds code lengths from symbol
weights. It works as follows:

- It builds a Huffman tree over a max-heap of negated weights. The order between
  nodes is the `Ord` Rust derives for `Node`.
- It walks the tree depth first.
- When a merged node sits at depth `canonical_lens_max`, it starts again with every
  weight shrunk to `max(w / 2^s, 1)`.

**Codes.** `compute_encodings` gives every used symbol its canonical code. Symbols are
taken in ascending `(length, symbol)` order.

**Decode table.** `compute_decodings` fills a table of `2^max` slots. Each slot holds
the symbol whose code starts that slot's `max`-bit window.

**Encoder and decoder.** `HuffmanEncoder` and `HuffmanDecoder` wrap these tables. They
write one symbol to a bit stream, or read one symbol from it.

## Modules

Each module is one file:

- `Arith` (`arith.dfy`): powers of two, and the multiplication and division facts the
  proofs need. A shift `x << n` in the source is `x * Pow2(n)` here.
- `Wrappers` (`wrappers.dfy`): `Option`.
- `BitStream` (`bitstream.dfy`): the bit stream `Bits`, with the contracts of
  `put`, `peek` and `skip`. Also `ToBits` and `FromBits`, which convert between
  numbers and bits, most significant bit first.
- `Kraft` (`kraft.dfy`): Kraft sums in integer form. A length `l` with `0 < l <= M`
  contributes `2^(M-l)`. `Mass` is the same sum over a subset of the symbols.
  `ValidLengths` describes the length tables the code assigner accepts:
  - at most 65536 symbols;
  - no length above 15;
  - `KraftSum(lens, 15) <= 2^15`.
- `HuffmanTree` (`huffman_tree.dfy`): the rest of the tree-building machinery:
  - `Node` and its derived order (`Compare`);
  - the heap, reduced to its extraction order (`PopMax`);
  - the merge loop (`TreeOf`, `MergeHeap`);
  - the depth-first walk with its explicit stack (`WalkTree`, specified by
    `DepthLens`).
- `CanonicalLengths` (`canonical_lengths.dfy`): the retry loop of
  `compute_canonical_lens`. `AttemptLens(weights, max, s)` is the outcome of attempt
  `s`. `CanonicalLens` is the first successful attempt.
- `Encodings` (`encodings.dfy`): `compute_encodings` as a loop over the not yet
  visited pairs. Its specification is a closed form. `Code(lens, s)` is the `Mass` of
  the symbols that come before `s` in `(length, symbol)` order, taken at scale `len_s`.
- `Decodings` (`decodings.dfy`): `compute_decodings` as nested loops. Its
  specification is `DecodeTable`: each slot holds the last symbol, in id order, whose
  interval covers it, or 0 when none does.
- `Huffman` (`huffman.dfy`): the two façade types. Also the round trip: encode a
  symbol, then decode it with a decoder built from the encoder's lengths.

## Two consequences of the code worth knowing

- **Tie-breaks shape the tree.** Weights `[5, 1, 1, 1]` with at most 3 bits give
  the lengths `[1, 2, 3, 3]`:
  - the derived order pops the equal-weight leaves 3 and 2 first, so they merge;
  - symbol 1 is then merged with that pair and ends at depth 2.

  See `CanonicalLengths.CanonicalLensExample`.
- **A one-symbol table fills only the symbol's own slots.** Lengths `[0, 1]` give
  the table `[1, 0]`. A 0 bit decodes to symbol 1. A 1 bit decodes to the unused
  symbol 0 and consumes no bits. See `Decodings.SingleSymbolTable`.

## Model

| member | source | states |
|---|---|---|
| BitStream.Bits.Put | src/huffman.rs:32 | `put(n, v)` appends the `n` low bits of `v`, most significant first, and leaves the read cursor where it was |
| BitStream.Bits.Peek | src/huffman.rs:49 | `peek(n)` returns a value below `2^n` whose `n` bits are exactly the next `n` bits of the stream |
| BitStream.Bits.Skip | src/huffman.rs:50 | `skip(n)` moves the cursor `n` bits on and changes nothing else |
| BitStream.FromToBits | src/huffman.rs:32 | a value below `2^n`, written as `n` bits and read back, is the same value |
| BitStream.ToFromBits | src/huffman.rs:49 | `n` bits read as a number and written back are the same bits |
| BitStream.FromBitsAppend | src/huffman.rs:49 | the number read from two runs of bits is the first run's value shifted past the second run, plus the second run's value |
| HuffmanTree.Compare | src/huffman.rs:56-62 | the derived `Ord` on `Node` (weight, then symbol, then the children): the result is -1, 0 or 1, and every node is equal to itself; `CompareAntisymmetric`, `CompareZero` and `CompareTransitive` make it a total order |
| HuffmanTree.CompareChild | src/huffman.rs:60-61 | the derived order on the optional children, with `None` below `Some`: the result is -1, 0 or 1, and every child is equal to itself |
| HuffmanTree.CompareAntisymmetric | src/huffman.rs:56 | the derived order on `Node` is antisymmetric |
| HuffmanTree.CompareZero | src/huffman.rs:56 | two nodes compare equal exactly when they are the same value |
| HuffmanTree.CompareTransitive | src/huffman.rs:56 | the derived order is transitive |
| HuffmanTree.TieBreaks | src/huffman.rs:56-62 | with equal weights, a merged node (symbol `u16::MAX`) is greater than a leaf; of two leaves, the one with the higher symbol is greater |
| HuffmanTree.PopMax | src/huffman.rs:91-92 | `pop` takes a node of the heap and leaves the other nodes, one fewer, as a multiset; `PopMaxIsGreatest` shows the node taken is the greatest |
| HuffmanTree.Merge | src/huffman.rs:93-98 | the pushed node is a merged node (sentinel symbol, both children) that weighs the sum of the two popped weights; `MergeStep` shows it carries the leaves of both |
| HuffmanTree.PopMaxIsGreatest | src/huffman.rs:91-92 | `pop` returns a node no other node exceeds; any node not below it equals it; the rest of the heap is the heap without it, as a multiset |
| HuffmanTree.MergeHeap | src/huffman.rs:90-99 | the merge loop ends with the single root `TreeOf(heap)` |
| HuffmanTree.TreeOf | src/huffman.rs:90-102 | the root left by the merge loop is a merged node whenever the heap started with two or more nodes; `TreeOfLeaves` gives its leaves |
| HuffmanTree.MergeStep | src/huffman.rs:91-98 | one merge round keeps every node well formed and keeps the multiset of leaf symbols |
| HuffmanTree.TreeOfLeaves | src/huffman.rs:90-102 | the root is well formed; its leaves are exactly the heap's leaves; with two or more nodes it is a merged node |
| HuffmanTree.WalkTree | src/huffman.rs:101-116 | the stack walk gives None exactly when some merged node lies at depth `max`; otherwise it returns the depth of every leaf |
| HuffmanTree.Fits | src/huffman.rs:104-109 | holds when the walk from depth `d` meets no merged node at depth `max`; `WalkTree` returns None exactly when it fails, and `LeafCountBound` bounds the leaves of a tree for which it holds |
| HuffmanTree.DepthLens | src/huffman.rs:104-114 | the table the walk fills keeps its length; `DepthLensFrame`, `DepthLensRange` and `DepthLensKraft` give which entries change, their range and their Kraft sum |
| HuffmanTree.DepthLensRange | src/huffman.rs:104-114 | a walk from depth `d` of a tree that fits gives every leaf a depth in `d..max` |
| HuffmanTree.DepthLensKraft | src/huffman.rs:104-114 | a fitting tree with distinct, unused leaves, walked from depth `d`, adds exactly `2^(max-d)` to the Kraft sum |
| HuffmanTree.RootRange | src/huffman.rs:102-114 | a merged root that fits gives each leaf a length in `1..max` |
| HuffmanTree.RootKraft | src/huffman.rs:102-114 | a merged root that fits, with distinct unused leaves, adds exactly `2^max`: Kraft equality |
| HuffmanTree.LeafCountBound | src/huffman.rs:106-110 | a tree that fits below depth `d` has at most `2^(max-d)` leaves |
| CanonicalLengths.TryShrink | src/huffman.rs:65-116 | one pass of the `'shrink` body returns `AttemptLens(weights, max, s)`: the padded zero table, a single length 1, the walk's depths, or None to retry |
| CanonicalLengths.ComputeCanonicalLens | src/huffman.rs:55-119 | the retry loop returns the first successful attempt, `CanonicalLens(weights, max)` |
| CanonicalLengths.Shrink | src/huffman.rs:74 | the weight entering attempt `s` is at least 1; `HalveIsDivision` makes it `max(w / 2^s, 1)` and `ShrinkToOne` makes it 1 for every `u32` weight from `s = 32` on |
| CanonicalLengths.LeafNodes | src/huffman.rs:70-80 | the initial heap holds only leaves, with symbols inside the alphabet; `LeafNodesFacts` shows one per nonzero weight |
| CanonicalLengths.HeapLens | src/huffman.rs:82-116 | one pass after the heap is built fails only when two or more nodes were merged, and a table it returns has one entry per padded slot |
| CanonicalLengths.AttemptLens | src/huffman.rs:65-116 | attempt `s` returns a table with the alphabet size rounded up to even, or None to retry |
| CanonicalLengths.CanonicalLens | src/huffman.rs:64-118 | the table of the first successful attempt, with the alphabet size rounded up to even; `CanonicalLensNever` and `CanonicalLensInfeasible` give what None means |
| CanonicalLengths.LeafNodesFacts | src/huffman.rs:70-80 | the initial heap holds one well-formed leaf per nonzero weight, each symbol once |
| CanonicalLengths.HalveIsDivision | src/huffman.rs:74 | repeated halving equals `w / 2^s` |
| CanonicalLengths.ShrinkToOne | src/huffman.rs:74 | every `u32` weight is shrunk to 1 once `s >= 32` |
| CanonicalLengths.AttemptSettles | src/huffman.rs:64-74 | every attempt from 32 on repeats attempt 32 |
| CanonicalLengths.CanonicalLensNever | src/huffman.rs:64-118 | for `u32` weights, when the model gives None, every attempt `s` fails, so the source never returns a table |
| CanonicalLengths.CanonicalLensShape | src/huffman.rs:65-72 | the table has the alphabet size rounded up to even; zero-weight symbols and the padding slot get length 0 |
| CanonicalLengths.CanonicalLensFewSymbols | src/huffman.rs:82-87 | with no nonzero weight all lengths are 0; with one, that symbol alone gets length 1 |
| CanonicalLengths.MergedCount | src/huffman.rs:104-109 | an attempt whose heap holds more than `2^max` leaves fails |
| CanonicalLengths.AttemptComplete | src/huffman.rs:90-115 | a successful attempt with two or more active symbols gives each of them a length in `1..max`, with Kraft equality |
| CanonicalLengths.CanonicalLensBounds | src/huffman.rs:104-115 | with two or more active symbols, every active symbol's length is in `1..max` |
| CanonicalLengths.CanonicalLensKraft | src/huffman.rs:90-115 | with two or more active symbols, `sum 2^(max-len) == 2^max` over the returned table |
| CanonicalLengths.AttemptInfeasible | src/huffman.rs:104-109 | with more than `2^max` active symbols, every attempt fails |
| CanonicalLengths.CanonicalLensInfeasible | src/huffman.rs:64-109 | with more than `2^max` active symbols, the source never returns a table (this includes `max = 0` with two or more active symbols) |
| CanonicalLengths.CanonicalLensValid | src/huffman.rs:55-119 | with `max <= 15`, the returned table is accepted by `compute_encodings` and `compute_decodings` (`ValidLengths`) |
| CanonicalLengths.ExampleMerges | src/huffman.rs:90-99 | for weights `[5, 1, 1, 1]` the merge loop joins 3 and 2, then 1 with that pair, then the triple with 0 |
| CanonicalLengths.CanonicalLensExample | src/huffman.rs:55-116 | weights `[5, 1, 1, 1]` with `max = 3` give `[1, 2, 3, 3]` on the first attempt |
| Encodings.CanonicalCodes | src/huffman.rs:122 | the code table has one entry per symbol, and unused symbols keep code 0 |
| Encodings.ComputeEncodings | src/huffman.rs:121-142 | the loop returns `CanonicalCodes(lens)`, the closed-form canonical codes |
| Encodings.VisitLeast | src/huffman.rs:133-140 | one `for_each` step takes the least unvisited `(len, symbol)` pair; it widens the counter, stores it as that symbol's code, and adds 1; the loop invariant `Walk` is kept |
| Encodings.Widen | src/huffman.rs:134-137 | the inner loop raises the current length to `len` and shifts the counter along; the counter stays the mass of the visited symbols |
| Encodings.LeastExists | src/huffman.rs:126-133 | a nonempty set of pairs has a least element in `(len, symbol)` order |
| Encodings.FirstCodeZero | src/huffman.rs:123 | the first used symbol in `(len, symbol)` order gets code 0 |
| Encodings.NextCode | src/huffman.rs:134-139 | each next code is the previous code plus 1, shifted left by the growth in length; equal lengths give consecutive codes |
| Encodings.CodeOffset | src/huffman.rs:133-140 | `code_s << (limit - len_s)` is the mass of the symbols before `s`, where the interval of `s` starts |
| Encodings.OffsetsOrdered | src/huffman.rs:133-140 | the interval of an earlier symbol ends no later than where a later symbol's interval starts |
| Encodings.CodeFits | src/huffman.rs:123-139 | under `ValidLengths` the `u16` counter never overflows: `(code_s + 1) << (15 - len_s) <= 2^15`, so `code_s < 2^len_s` |
| Encodings.PrefixFree | src/huffman.rs:133-140 | for used `s != t` with `len_s <= len_t`, the leading `len_s` bits of `code_t` are not `code_s` |
| Encodings.CodesExample | src/huffman.rs:121-142 | lengths `[1, 2, 3, 3]` get the codes `0`, `10`, `110`, `111` |
| Decodings.Slot | src/huffman.rs:146-155 | a slot holds the last symbol, in id order, whose range covers it, and 0 when none does |
| Decodings.DecodeTable | src/huffman.rs:145 | the table has `2^max` slots |
| Decodings.ComputeDecodings | src/huffman.rs:144-159 | the nested loops return `DecodeTable(lens, enc, max)` |
| Decodings.CanonicalInRange | src/huffman.rs:149-152 | `(code_s + 1) << (max - len_s) <= 2^max`: every slot written is inside the table |
| Decodings.CoversUnique | src/huffman.rs:146-156 | no two used symbols cover the same slot |
| Decodings.DecodeCanonical | src/huffman.rs:150-153 | every slot in `[code_s << r, (code_s + 1) << r)` holds `s`, and its top `len_s` bits are `code_s` |
| Decodings.DecodeComplete | src/huffman.rs:144-159 | with Kraft equality, every slot is covered by some used symbol |
| Decodings.DecodeTotal | src/huffman.rs:144-159 | with Kraft equality, every slot holds a used symbol whose code is the slot's top bits |
| Decodings.SingleSymbolTable | src/huffman.rs:145-156 | lengths `[0, 1]` give the table `[1, 0]`: slot 1 keeps 0 |
| Huffman.MaxOf | src/huffman.rs:38 | the maximum bounds every length and is one of them |
| Huffman.HuffmanEncoder.FromSymbolWeights | src/huffman.rs:16-23 | for `u32` weights: None exactly when no shrink factor succeeds, so `compute_canonical_lens` never returns a table; otherwise the encoder holds `CanonicalLens` and that table's canonical codes |
| Huffman.HuffmanEncoder.GetCanonicalLens | src/huffman.rs:25-27 | returns the stored lengths; they are valid, and recomputing codes from them gives the encoder's codes |
| Huffman.HuffmanEncoder.EncodeToBits | src/huffman.rs:29-33 | the stream gains exactly the `len_s` bits of `code_s` |
| Huffman.HuffmanDecoder.FromCanonicalLens | src/huffman.rs:37-46 | the decoder holds the maximum length and the table built from the canonical codes |
| Huffman.HuffmanDecoder.DecodeFromBits | src/huffman.rs:48-52 | the symbol is the table entry for the next `max` bits; exactly that symbol's length is skipped |
| Huffman.WindowDecodes | src/huffman.rs:49 | a `max`-bit window that starts with the code of a used symbol decodes to that symbol |
| Huffman.RoundTripWindow | src/huffman.rs:48-49 | at any cursor position whose next `max` bits are a used symbol's code followed by any `max - len_s` bits, the table entry for that window is the symbol |
| Huffman.DecodeAt | src/huffman.rs:48-52 | `decode_from_bits` at any such cursor returns the symbol, leaves the stream's bits unchanged and moves the cursor exactly `len_s` bits on |
| Huffman.EncodeAfter | src/huffman.rs:29-33 | a stream whose cursor has read past `before` holds `before`, then the symbol's code, then the following bits |
| Huffman.EncodeThenDecode | src/huffman.rs:16-52 | round trip: a used symbol encoded after any bits already read, followed by at least `max - len_s` more bits, decodes with the decoder built from the encoder's lengths to the same symbol and consumes exactly `len_s` bits |

## Left out

- `src/bits.rs` is not part of this model. `Bits` keeps the whole stream as a
  sequence of booleans with a read cursor, and gives `put`, `peek` and `skip` the
  contracts the coder relies on. Its buffering and word layout are not modelled.
- The unchecked indexing of `nocheck` and `nocheck_mut` is ordinary indexing here.
  The bounds it silently assumes are `requires` clauses.
- `BinaryHeap` sifting and `Box` allocation are left out. The heap is a sequence, and
  `pop` takes its first greatest node under the derived order. Which copy of equal
  nodes is taken does not matter, because equal nodes are the same value.
- CanonicalLengths.ComputeCanonicalLens: the unbounded `'shrink` loop stops after
  attempt 32. For `u32` weights every later attempt repeats attempt 32 (`AttemptSettles`),
  so None stands for the source never returning a table (`CanonicalLensNever`).
- CanonicalLengths.LeafNodes: from `s = 63` on, the `i64` shift `1 << shrink_factor`
  is no longer `2^s`. At 63 it is negative. From 64 on it panics when overflow checks
  are on; otherwise the shift amount wraps, and the attempts repeat with period 64.
  The model stops at 32, where every `u32` weight is already 1 (`ShrinkToOne`). It
  computes `w / 2^s` by repeated halving, which `HalveIsDivision` proves equal.
- CanonicalLengths.TryShrink: requires at most 65535 symbols. Symbol `u16::MAX` would
  clash with the merged-node sentinel.
- Huffman.HuffmanEncoder.FromSymbolWeights: requires `canonical_lens_max <= 15`. At
  length 16 the `u16` code counter would overflow. It also requires `WeightsFit`:
  `u32` weights and at most 65535 symbols, as the source's `&[u32]` and `u16` symbol
  ids give.
- Encodings.ComputeEncodings: requires `ValidLengths`: at most 65536 symbols, lengths
  up to 15, and the Kraft inequality at 15. Under these conditions the `u16` counter
  never wraps (`CodeFits`). Tables that break the Kraft inequality are not modelled.
  An example is `[1, 1, 1]`: `compute_encodings` returns `[0, 1, 2]` without wrapping,
  but `compute_decodings` then writes slot 2 of a two-slot table through `nocheck_mut`,
  outside the table.
- Huffman.HuffmanDecoder.FromCanonicalLens: requires a nonempty table, because `max()`
  of an empty slice panics. Also requires `ValidLengths`, so the `u16` codes and the
  table indices never wrap.
- Huffman.HuffmanEncoder.EncodeToBits: requires a symbol inside the table, since
  the source reads it through `nocheck`. An unused symbol is allowed; it writes zero
  bits, as in the source.
- Huffman.HuffmanDecoder.DecodeFromBits: requires at least `max` bits after the
  cursor. Reading past the end of the stream is not modelled.
- The `u8` and `u16` storage widths are left out. Lengths, codes and slots are
  natural numbers, kept in range by the preconditions above.
