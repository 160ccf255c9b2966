# DeepSMILES conversion, modelled in Dafny

DeepSMILES is a rewriting of SMILES, the chemical line notation, made for
machine learning. It changes two things:

- A branch `(...)` is dropped. In its place, a run of `)` after the branch
  says how many atoms to pop off the current path.
- A pair of ring-closure digits is replaced by one ring-size token. The
  token is written after the closing atom and says how many atoms back
  along the path the ring opened.

The package converts in both directions: `encode` goes from SMILES to
DeepSMILES, and `decode` goes back. Each direction takes two flags, one
for ring compaction and one for branch compaction.

This project models both directions as pure functions over `string`
(`seq<char>`) and proves properties of them.

- `lexicon.dfy`: module `Lexicon`. Character classes, the ring-number
  format (a digit, `%NN` or `%(N)`), and the Python primitives the scanners
  use (`str.find`, clamped slices, `int`, `str`).
- `stereo.dfy`: module `Stereo`. It holds `invertStereo` and
  `shouldInvertStereo`. The parity decision is characterised without
  sorting: its result is the parity of the number of discordant record pairs.
- `encoder.dfy`: module `Encoder`. The encoder scan and the stitching
  pass.
- `arena_tree.dfy`: module `ArenaTree`. The decoder's index-arena tree,
  including the walk up parent links that resolves a ring size.
- `branch_decoder.dfy`: module `BranchDecoder`. `decode_branches`.
- `ring_decoder.dfy`: module `RingDecoder`. `decode_only_rings`, `nth`
  and `flatten_in_reverse`.
- `decoder.dfy`: module `Decoder`. The `decode` dispatch.
- `decode_errors.dfy`: module `DecodeErrors`. The decoders' outcome type
  and their error messages.
- `ring_chain.dfy`: module `RingChain`. Ring compaction in both directions
  on one shape: a chain of plain atoms closed by one ring. It holds the
  round trips and the fixtures of that shape.
- `star_shape.dfy`: module `StarShape`. Branch compaction on one shape,
  `u(v1)...(vk)z`: chains of plain atoms with one layer of branches on the
  last atom of the stem `u`. It holds the SMILES and DeepSMILES texts of
  that shape and facts about where each part sits in them.
- `star_tree.dfy` and `star_arena.dfy`: modules `StarTrees` and
  `StarArena`. The tree the decoder builds for the star shape, and the
  proof that `to_smiles` renders it as `u(v1)...(vk)z`.
- `star_decode.dfy`: module `StarDecode`. `decode_branches` on the
  DeepSMILES of the star shape, step by step.
- `star_encode.dfy`: module `StarEncode`. The encoder scan on the star
  shape with branch compaction.
- `star_round_trip.dfy`: module `StarRoundTrip`. The round trip on the
  star shape and the branch fixtures of that shape.
- `bond_chain.dfy`: module `BondChain`. Ring compaction on a ring chain
  whose opening carries the bond character `\`: the encoder moves the
  bond to the ring-size token and writes it as `/`.
- `ring_branch.dfy`: module `RingBranch`. The branch decoder with ring
  decoding on the ring chain: the walk up parent links, the three token
  formats, and the round trip with both compactions on.

A decoder call ends in an `Outcome`, which is one of three things:

- `Ok` with the SMILES text.
- `Fail` with a `DecodeError(input, idx, message)`.
- `Crash`, for a Python exception of another kind that the source lets
  escape (`IndexError`, `ValueError`).

The model keeps these apart, so a crash is never presented as a decode
error. The encoder returns `Option<string>`, where `None` is an
`IndexError` on unbalanced input. When either compaction is on, the
encoder also requires every `[` to have a later `]`. Without one the
source restarts its scan from the beginning, keeping its state, and then
either loops forever or raises `IndexError`.

## Model

| member | source | states |
|---|---|---|
| `Lexicon.FormatRingNumber` | deepsmiles/encode.py:158 | ring numbers below 10 are one digit; from 10 to 99 they are `%` and two digits; from 100 on they are `%(`, the numeral and `)`. Each form reads back as the number. |
| `Stereo.InvertStereo` | deepsmiles/encode.py:39-50 | the result is undefined (`IndexError`) exactly when a lone `@` ends the fragment |
| `Stereo.InvertStereoNoMarks` | deepsmiles/encode.py:26-50 | a fragment without `@` comes back unchanged |
| `Stereo.InvertStereoInvolution` | deepsmiles/encode.py:39-50 | on a fragment whose `@` marks are well formed, inverting twice gives back the fragment |
| `Stereo.InvertStereoCopies` | deepsmiles/encode.py:38-50 | the characters before the first `@` are copied unchanged, and the rest of the fragment is inverted on its own |
| `Stereo.InvertStereoSingle` | deepsmiles/encode.py:38-50 | an `@` followed by a character other than `@` is written as `@@`, the text before it is copied, and the text after it is inverted on its own |
| `Stereo.InvertStereoDouble` | deepsmiles/encode.py:38-50 | an `@@` is written as a single `@` whatever follows it, the text before it is copied, and the text after it is inverted on its own |
| `Stereo.InvertStereoExampleBare` | deepsmiles/encode.py:30-33 | `[C@@]` becomes `[C@]` and `[C@]` becomes `[C@@]` |
| `Stereo.InvertStereoExampleHydrogen` | deepsmiles/encode.py:34-37 | `[C@H]` becomes `[C@@H]` and `[C@@H]` becomes `[C@H]` |
| `Stereo.SortRecords` | deepsmiles/encode.py:75-82 | the records come out ordered by the key (closings by their own position, then openings by their partner's position), as a permutation of the input |
| `Stereo.InversionsOfSorted` | deepsmiles/encode.py:82-90 | the number of out-of-order position pairs after sorting equals the number of record pairs whose position order and key order disagree |
| `Stereo.ShouldInvertStereo` | deepsmiles/encode.py:52-90 | false for at most one record; otherwise true exactly when the number of discordant pairs is odd |
| `Stereo.CountOutOfOrder` | deepsmiles/encode.py:84-90 | the double loop counts exactly the pairs `i < j` whose first component is out of order |
| `Stereo.ShouldInvertStereoExampleOpens` | deepsmiles/encode.py:59-62 | two openings whose closing order is the reverse of their own order need an inversion; in the same order they do not |
| `Stereo.ShouldInvertStereoExampleCloses` | deepsmiles/encode.py:63-66 | two closings never need an inversion, in either order |
| `Stereo.ShouldInvertStereoExampleMixed` | deepsmiles/encode.py:67-70 | an opening then a closing needs an inversion; adding a second closing cancels it |
| `Encoder.Encode` | deepsmiles/encode.py:104-108 | with both flags off, the input is returned unchanged, whatever it holds |
| `Encoder.CloseBranch` | deepsmiles/encode.py:122-127 | a `)` pops the innermost level. In branch mode it writes one `)` per atom that level held, otherwise a single `)`. With no level left it fails. |
| `Encoder.OpenBranch` | deepsmiles/encode.py:128-131 | a `(` opens an empty level and writes nothing in branch mode |
| `Encoder.ClosingBond` | deepsmiles/encode.py:149-155 | an explicit closing bond character is kept; otherwise the opening's is inherited, with `/` and `\` exchanged |
| `Encoder.RingMention` | deepsmiles/encode.py:134-161 | the first mention of a ring symbol writes nothing and records the depth. The second attaches, to the last piece, a token of closing depth minus opening depth plus one, formatted in three tiers and preceded by the bond character. |
| `Encoder.RingMentionCloses` | deepsmiles/encode.py:146-159 | an open one-character ring symbol with no bond character at either end is closed with the token for closing depth minus opening depth plus one |
| `Encoder.AtomToken` | deepsmiles/encode.py:162-174 | an atom (`Cl`/`Br` as one, a bracket atom up to `]`) is written with the bond character before it and counted at the innermost level |
| `Encoder.ScanAtoms` | deepsmiles/encode.py:162-175 | a run of `m` plain atoms adds one output piece per atom, in order, and counts all `m` at the innermost level, whatever the flags |
| `Encoder.StitchPiece` | deepsmiles/encode.py:182-192 | a piece without records is written as it is. A piece with records has its stereo marks inverted when the records' parity says so, and fails exactly when a lone `@` then ends it; it is followed by the tokens of its closing records, in the order they were recorded. |
| `Encoder.Stitch` | deepsmiles/encode.py:180-193 | with no ring records the pieces are concatenated unchanged |
| `Encoder.StitchPieces` | deepsmiles/encode.py:180-193 | when every piece can be stitched, the result is the stitched pieces concatenated in order |
| `Encoder.StitchFails` | deepsmiles/encode.py:180-193 | one piece that cannot be stitched makes the whole pass fail |
| `ArenaTree.AddNode` | deepsmiles/decode.py:38-40 | the node is appended and its index is the previous node count; the tree stays well formed |
| `ArenaTree.AddEdge` | deepsmiles/decode.py:42-44 | the child becomes the last child of the parent, the parent map records it, and every edge still runs from a smaller index to a larger one |
| `ArenaTree.Walk` | deepsmiles/decode.py:47-52 | walking `k` parent links succeeds exactly when the node has at least `k` ancestors, and lands on an earlier node |
| `ArenaTree.AddRingClosure` | deepsmiles/decode.py:46-62 | fails exactly when fewer than `rc - 1` ancestors exist. Otherwise the counter goes up by one, the closing atom gets the bond character and the symbol, the opening atom gets the symbol, and nothing else changes. |
| `ArenaTree.VisitFrame` | deepsmiles/decode.py:66-76 | the text rendered from a node depends only on that node and later ones, so a tree that agrees on them renders the same |
| `ArenaTree.VisitChain` | deepsmiles/decode.py:66-71 | along a path where each node has the next as its only child, the rendering is the path's texts concatenated in order, followed by the rendering of the path's end |
| `ArenaTree.VisitPath` | deepsmiles/decode.py:64-78 | a path that runs to the last node renders as the concatenation of all texts from its start to the end of the arena |
| `BranchDecoder.PercentRingSize` | deepsmiles/decode.py:96-117 | after `%(` the number runs to the first `)`. Otherwise two digits are read (a single digit is accepted when it ends the input) and a third digit is taken greedily. A missing digit is a decode error at the `%`, and a `%` at the end is a crash. |
| `BranchDecoder.RunEnd` | deepsmiles/decode.py:141-149 | without ring decoding, the run glued onto an atom is the maximal run of ring symbols and of bond characters before ring symbols; a bond character that ends the input crashes |
| `BranchDecoder.CloseRing` | deepsmiles/decode.py:118-127 | a ring-size token fails with the no-partner error exactly when the latest atom has fewer than `rc - 1` ancestors, and crashes only before any atom with `rc <= 1` |
| `BranchDecoder.AtomText` | deepsmiles/decode.py:129-138 | `Cl`/`Br` are one atom, a bracket atom runs to the first `]`, and a `[` without `]` is a decode error at the `[` |
| `BranchDecoder.AtomStep` | deepsmiles/decode.py:128-152 | an atom becomes a new last node holding the bond character and its text, is hung below the stack top and is pushed |
| `BranchDecoder.Step` | deepsmiles/decode.py:88-153 | a `)` on an empty stack is a decode error, and otherwise pops exactly the top entry. A digit or `%` first is a decode error at 0. The tree stays well formed with a strictly increasing stack. |
| `BranchDecoder.DecodeBranches` | deepsmiles/decode.py:80-155 | every decode error points into the input or at most one past its end; an empty input crashes; a leading `)`, digit or `%` is a decode error at 0 |
| `RingDecoder.FlattenInReverseIsReverse` | deepsmiles/decode.py:162-168 | the generator yields the per-level lists laid end to end and read backwards |
| `RingDecoder.Nth` | deepsmiles/decode.py:158-160 | `nth` finds element `n` when it exists, is exhausted when the sequence is shorter, and rejects a negative index |
| `RingDecoder.RingSize` | deepsmiles/decode.py:201-215 | a digit is its own ring size. `%(N)` runs to the first `)`. Otherwise the two characters after `%` are read (a single digit is accepted when it ends the input), and a non-digit among them is a decode error at the `%`. |
| `RingDecoder.RingSizeOfToken` | deepsmiles/decode.py:201-215 | each token the encoder writes for a size (one digit, `%NN`, `%(N)`), and `%(N)` for any size, reads back as that size and ends at the token's last character |
| `RingDecoder.RingToken` | deepsmiles/decode.py:196-228 | a ring symbol at position 0, or before anything has been written, is the decode error that it must be preceded by an atom. Otherwise the next closure number is appended, with the bond character, to the last piece and to the atom `size - 1` steps back along the path, and the counter goes up by one. |
| `RingDecoder.AtomToken` | deepsmiles/decode.py:229-242 | an atom records its output index at the innermost level and is written with its bond character |
| `RingDecoder.RunAtoms` | deepsmiles/decode.py:229-243 | a run of plain atoms is copied one piece per atom, and each atom's output index is recorded at the innermost level |
| `RingDecoder.FinishIsJoin` | deepsmiles/decode.py:245-251 | the final pass writes each piece followed by the closure numbers placed on it |
| `RingDecoder.Step` | deepsmiles/decode.py:186-243 | a `)` pops a level and is copied, a `(` pushes one and is copied; every decode error points into the input or at its end (`idx <= |ds|`) |
| `RingDecoder.DecodeOnlyRings` | deepsmiles/decode.py:170-251 | every decode error points into the input or at its end (`idx <= |ds|`); a leading ring symbol is the error "must be preceded by an atom" at 0 |
| `RingChain.EncodeRingChain` | deepsmiles/encode.py:104-193 | a chain of plain atoms closed by ring 1 is encoded as the atoms followed by the ring size: the number of atoms from the opening atom to the last. This holds with or without branch compaction. |
| `RingChain.DecodeRingChain` | deepsmiles/decode.py:170-251 | a chain of plain atoms followed by a ring size no larger than the chain decodes to the chain with ring 1 opened `size - 1` atoms before the last atom and closed after the last |
| `RingChain.DecodeRingChainTooLarge` | deepsmiles/decode.py:223-226 | a ring size larger than the chain is the "no corresponding atom" decode error at the token's last character |
| `RingChain.DecodeRingChainZero` | deepsmiles/decode.py:158-160 | a ring size of 0 asks `nth` for element -1, which fails with a `ValueError` and not with a decode error |
| `RingChain.RingChainRoundTrip` | deepsmiles/encode.py:134-161 | encoding a ring chain and then decoding with ring decoding gives the SMILES back |
| `RingChain.RingChainDeepRoundTrip` | deepsmiles/decode.py:196-228 | decoding a DeepSMILES ring chain and then encoding gives the DeepSMILES back, for every ring size the chain can hold |
| `RingChain.ExampleFiveRing` | deepsmiles/testsuite.py:40 | `C1CCCC1` is encoded as `CCCCC5` and decoded back |
| `RingChain.ExampleTenRing` | deepsmiles/testsuite.py:42 | `C1CCCCCCCCC1` is encoded as `CCCCCCCCCC%10` and decoded back |
| `RingChain.ExampleFourRing` | deepsmiles/testsuite.py:114 | `CCCC4` decodes to `C1CCC1` |
| `RingChain.ExampleParenthesisedRings` | deepsmiles/testsuite.py:118-119 | `CCCCCCCCCC%(10)` decodes to `C1CCCCCCCCC1`, and `CCCCCCCCCC%(4)` decodes to `CCCCCCC1CCC1` |
| `RingChain.ExampleBadSizes` | deepsmiles/decode.py:223-226 | `CC5` is a decode error at offset 2; `CC0` fails with a non-decode error |
| `BondChain.EncodeBondChain` | deepsmiles/encode.py:134-161 | a ring chain whose opening is written `\1` and whose closing is a bare `1` is encoded as the atoms, then `/` and the ring size: the closing inherits the opening's bond character, read in the opposite direction |
| `BondChain.ExampleBondedRing` | deepsmiles/encode.py:149-158 | `C\1CCC1` is encoded as `CCCC/4` |
| `RingBranch.PathWalk` | deepsmiles/decode.py:46-52 | on a path from the root, node `n` has `n` ancestors, and walking `k` links up from it reaches node `n - k` |
| `RingBranch.PairPercent` | deepsmiles/decode.py:106-117 | `%` and two digits ending the input read as that number, and the source's attempt at a third digit moves the position one past the input |
| `RingBranch.DecodeBranchRingChain` | deepsmiles/decode.py:80-155 | with both compactions on, a chain of plain atoms followed by a ring size no larger than the chain decodes to the same SMILES chain the ring-only decoder gives, for each of the three token formats |
| `RingBranch.FullRingChainRoundTrip` | deepsmiles/testsuite.py:130-133 | with both compactions on, encoding a ring chain and decoding the result gives the SMILES back |
| `RingBranch.ExampleFiveRingBoth` | deepsmiles/testsuite.py:40 | `C1CCCC1` and `CCCCC5` convert into each other with both compactions on |
| `StarArena.StarTreeSmiles` | deepsmiles/decode.py:64-78 | the tree with the stem `u` as a path, each branch of `vs` as a path below the stem's last atom and `z` as its last child renders as `u(v1)...(vk)z`: every branch in parentheses and `z` bare |
| `StarDecode.DecodeStarRun` | deepsmiles/decode.py:88-153 | on `u v1)..) ... z` the loop hangs each plain atom below the stack top and pushes it, and pops one atom per `)`. It ends with the star tree built and the stem and `z` on the stack. |
| `StarDecode.DecodeStar` | deepsmiles/decode.py:80-155 | `decode_branches` turns the DeepSMILES `u v1)..) ... z` into `u(v1)...(vk)z`, with or without ring decoding |
| `StarEncode.StarScan` | deepsmiles/encode.py:120-175 | on `u(v1)...(vk)z` with branch compaction the scan writes one piece per atom, and after each branch one piece of as many `)` as the branch has atoms. It ends with one level holding all the atoms of the stem and of `z`, and with no ring open. |
| `StarEncode.EncodeStar` | deepsmiles/encode.py:104-193 | with branch compaction `u(v1)...(vk)z` is encoded as `u v1)..) ... z`, one `)` per atom of each branch, with or without ring compaction |
| `StarRoundTrip.StarRoundTrip` | deepsmiles/decode.py:253-263 | on the star shape, encoding with branch compaction and then decoding with branch decoding gives the SMILES back, in both ring modes |
| `StarRoundTrip.ExampleOneBranch` | deepsmiles/testsuite.py:71 | `C(O)C` is encoded as `CO)C`, and `CO)C` decodes to `C(O)C` (the decoding fixture at line 97) |
| `StarRoundTrip.ExampleLongBranch` | deepsmiles/testsuite.py:73 | `C(OF)C` is encoded as `COF))C`, one `)` per atom of the branch, and decodes back |
| `StarRoundTrip.ExampleTwoBranches` | deepsmiles/testsuite.py:74 | `C(F)(F)C` is encoded as `CF)F)C`, and `CF)F)C` decodes to `C(F)(F)C` (the decoding fixture at line 101) |
| `StarRoundTrip.ExampleNoBranch` | deepsmiles/testsuite.py:96 | `COC` has no branch, is its own DeepSMILES and decodes to itself |
| `Decoder.Decode` | deepsmiles/decode.py:253-263 | with both flags off, the input is returned unchanged. Only rings selects the ring decoder, and branches selects the branch decoder. |

## Left out

- `deepsmiles/converter.py` is not part of this model. It is a facade
  holding the two flags and an option-dictionary constructor.
- The message layout of `deepsmiles/exceptions.py` (wrapping, the caret
  line) is not modelled. A decode error is the triple of input, offset and
  message.
- Python's `int()` also accepts signs, surrounding spaces and underscores.
  The model reads ring numbers as plain decimal digits. An input such as
  `C%(-3)` therefore crashes in the model, but the source reads it as -3.
- `str.isdigit` also accepts non-ASCII digits. The model accepts only
  `0`-`9`.
- On an unterminated `[` with either compaction on, the encoder restarts
  its scan with its state kept, and then loops forever or raises
  `IndexError` (for `C)[`, on the empty level list). Which of the two
  happens depends on the whole input. `Encoder.Encode` requires every `[`
  to be closed when either compaction is on.
- `Encoder.ScanState`: the per-level lists of atom numbers the encoder
  keeps are modelled as per-level counts, because only their lengths are
  ever read.
- The encoder's `%` ring symbol is the three characters `smi[i:i+3]`. A
  `%(N)` symbol in SMILES input is therefore not read as one symbol, so
  no round trip is claimed for it.
- Recursion depth limits of the depth-first `visit`, and the generator
  mechanics of `flatten_in_reverse` and `nth`, are not modelled. Both are
  structural recursion over sequences here.
- The bond characters are the seven `- = # $ : / \` of
  deepsmiles/decode.py:26 and deepsmiles/encode.py:23, and the model uses
  these seven.
- The branch round trip is proved on the star shape only: chains of
  plain atoms, with one layer of branches on one atom. Rings together
  with branches are covered on the ring chain only (`RingBranch`). Nested
  branches, bracket atoms, bond characters inside branches, and rings that
  cross a branch are not covered by a round-trip lemma; the single-step
  contracts of `BranchDecoder.Step` and `Encoder.CloseBranch` still cover
  them.
- `ArenaTree.ToSmiles`: it has no contract of its own. What it renders is
  stated through `ArenaTree.VisitPath` and `StarArena.StarTreeSmiles`.
