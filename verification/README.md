# SEP hyperdimensional encoders and demo filter, modelled in Dafny

This project models the small sequential cores of the SEP reference
implementation (the "Resonance Protocol" demo code) and proves what they
promise. There are three cores.

- **The Binary Spatter Code text encoder** (`HDCTextEncoder`).
  - Text is lowercased and split on whitespace.
  - Each token gets a memoised pseudorandom bit vector.
  - Position vectors are rotations of one base vector.
  - Every token opens a window of `ngram_size` tokens, padded with `<PAD>`.
  - A window is encoded as the XOR of `token XOR position` over its slots.
  - The windows are bundled by a strict majority vote.
  - Vectors are compared by Hamming similarity.
- **The ternary 2-bit codec** of `TernaryHDCEncoder`.
  - Thresholding maps reals to {-1, 0, +1}.
  - `pack_ternary` puts four values into each byte, first value in the high bits.
  - `unpack_ternary` reverses this, stopping after `hd_dim` values.
  - `get_vector_size` gives the integer storage sizes.
- **The quick demo**.
  - The "silence is default" semantic filter sends an input only when its
    cosine distance from the last *sent* vector exceeds 0.35.
  - The mesh demo's `SimpleNode.connect` and the recursive, TTL-limited
    `propagate` gossip.

Modules:

| file | module | models |
|---|---|---|
| `wrappers.dfy` | `Wrappers` | `Option` and `Result` |
| `hyper_vectors.dfy` | `HyperVectors` | bit vectors as `seq<bool>`: zeros, XOR, popcount, `torch.roll` |
| `text_encoder.dfy` | `TextEncoder` | tokeniser, windows, binding, vote, similarity; class `Encoder` with the token cache |
| `ternary_codec.dfy` | `TernaryCodec` | thresholding, `pack_ternary`, `unpack_ternary`, `get_vector_size` |
| `semantic_filter.dfy` | `SemanticFilter` | the filter loop of `demo_semantic_filtering` |
| `mesh_gossip.dfy` | `MeshGossip` | class `SimpleNode` with `Connect`; `Propagate` over the heap; the demo mesh |

Structure of the model:

- The code that mutates state is modelled imperatively:
  - the token cache, as a `map` field of `Encoder`;
  - the encoder's, packer's and unpacker's loops, as methods with loop invariants;
  - the filter loop, as a method;
  - the nodes' `peers` and `memory`, as fields of `SimpleNode`.
- Every such method is proved equal to a specification function. The
  properties of each specification function are proved as lemmas.
- `Propagate` works on the heap. It is proved to compute the pure function
  `Gossip` over the adjacency map that the nodes' peer lists form.

Where the source's comments are loose or say more than the code does, the
model follows the code:

- The source uses "bundle" for two different operations. The docstring of
  `_encode_ngram` bundles a window's bound token vectors by XOR
  (`text_encoder.py:87`), and the code does so (`text_encoder.py:97`). The
  docstring of `encode` (`text_encoder.py:109`) and the comment at
  `text_encoder.py:134` bundle the windows by majority voting, and the code
  votes there. The model XORs inside a window and votes across windows. The
  contract of `NgramVector` states the parity rule that the XOR gives.
- The comment at `text_encoder.py:141` says "> half". The code compares
  `vote_count > len(ngram_vectors) / 2` (`text_encoder.py:142`), so a tie
  gives 0. The contract of `Vote` states exactly this.
- The docstring of `ternarize` (`ternary_encoder.py:73-76`) promises to
  keep the top `1 - sparsity` fraction of values by magnitude. The code
  takes the `sparsity` quantile of the absolute values of each row with
  `torch.quantile` (`ternary_encoder.py:84-86`) and keeps the values
  strictly beyond it. The model takes that threshold as a parameter and
  proves what the two comparisons at `ternary_encoder.py:89-91` do with it.

## Model

| member | source | states |
|---|---|---|
| `HyperVectors.Zeros` | reference_impl/python/hdc/text_encoder.py:89 | `torch.zeros(1, n, dtype=bool)`: length `n`, every bit false |
| `HyperVectors.Xor` | reference_impl/python/hdc/text_encoder.py:95-97 | `logical_xor` is element-wise: bit `k` is set iff the operands differ at `k` |
| `HyperVectors.XorUndoes` | reference_impl/python/hdc/text_encoder.py:95-97 | binding by XOR is undone by binding again with the same vector, XOR with zeros is the identity, and XOR is commutative |
| `HyperVectors.Roll` | reference_impl/python/hdc/text_encoder.py:53 | `torch.roll` keeps the length and moves element 0 to position `shift mod D` |
| `HyperVectors.PopCountZeroIff` | reference_impl/python/hdc/text_encoder.py:152-154 | the count of set bits is 0 iff no bit is set |
| `HyperVectors.RollZero` | reference_impl/python/hdc/text_encoder.py:53 | rolling by 0 leaves a vector unchanged, so position 0 is the base itself |
| `HyperVectors.RollIsRotation` | reference_impl/python/hdc/text_encoder.py:53 | `torch.roll` by `s` moves the last `s mod D` elements to the front |
| `HyperVectors.RollPreservesPopCount` | reference_impl/python/hdc/text_encoder.py:53 | a rotation keeps the number of set bits |
| `HyperVectors.RollInverse` | reference_impl/python/hdc/text_encoder.py:53 | rolling by `D - s mod D` undoes a roll by `s`: no information is lost |
| `TextEncoder.Lower` | reference_impl/python/hdc/text_encoder.py:77 | lowercasing keeps the length, leaves no capital `A`–`Z`, and keeps whitespace exactly where it was |
| `TextEncoder.Split` | reference_impl/python/hdc/text_encoder.py:77 | `split()` yields only non-empty tokens without whitespace |
| `TextEncoder.SplitTokensAreMaximalRuns` | reference_impl/python/hdc/text_encoder.py:77 | token `i` is the text between its start and end, the text has whitespace or its boundary on both sides of it, and successive tokens are separated by at least one character: the tokens are the maximal whitespace-free runs, in order |
| `TextEncoder.SplitKeepsCharacters` | reference_impl/python/hdc/text_encoder.py:77 | the tokens, concatenated, are exactly the non-whitespace characters of the text, in order |
| `TextEncoder.SplitJoin` | reference_impl/python/hdc/text_encoder.py:77 | splitting the space-joined tokens gives the same tokens back |
| `TextEncoder.SplitTokensComeFromText` | reference_impl/python/hdc/text_encoder.py:77 | every character of every token occurs in the text |
| `TextEncoder.Tokenize` | reference_impl/python/hdc/text_encoder.py:72-77 | `_tokenize` yields non-empty tokens without whitespace or capitals; hence `<PAD>` is never a token of a text, so padding never collides with a word |
| `TextEncoder.Ngram` | reference_impl/python/hdc/text_encoder.py:122-127 | window `i` has exactly `ngram_size` entries: `tokens[i + j]` where it exists, `<PAD>` after the end |
| `TextEncoder.MakeNgrams` | reference_impl/python/hdc/text_encoder.py:121-127 | the window loop builds one window per token, window `i` being `Ngram(tokens, i, n)` |
| `TextEncoder.NgramTokensAreTokensAndPad` | reference_impl/python/hdc/text_encoder.py:121-127 | the windows of a non-empty text mention exactly its tokens, plus `<PAD>` iff `ngram_size >= 2` |
| `TextEncoder.GeneratePositionVectors` | reference_impl/python/hdc/text_encoder.py:41-55 | the position loop gives `ngram_size` rotations of the base; position 0 is the base; each keeps the base's length and set-bit count |
| `TextEncoder.NgramVector` | reference_impl/python/hdc/text_encoder.py:89-97 | bit `k` of a window vector is set iff an odd number of slots have token bit different from position bit at `k` |
| `TextEncoder.FirstSlotDecides` | reference_impl/python/hdc/text_encoder.py:89-99 | two windows that differ only in slot 0 get different window bits wherever their first tokens' vectors differ |
| `TextEncoder.CancellingNgramIsZero` | reference_impl/python/hdc/text_encoder.py:89-97 | a window whose token vectors equal their position vectors encodes to all-false |
| `TextEncoder.OnesAndZeroesPartition` | reference_impl/python/hdc/text_encoder.py:138-142 | at each position, the windows voting 1 and those voting 0 together are all the windows |
| `TextEncoder.Vote` | reference_impl/python/hdc/text_encoder.py:138-142 | the vote sets bit `k` iff more windows have it set than clear; a tie gives 0 |
| `TextEncoder.VoteOfCopies` | reference_impl/python/hdc/text_encoder.py:134-142 | voting over copies of one vector returns that vector, so the single-window shortcut agrees with the vote |
| `TextEncoder.SingleVote` | reference_impl/python/hdc/text_encoder.py:135-136 | with one window, the window's own bit is the strict majority |
| `TextEncoder.EncodeIsMajorityOfNgrams` | reference_impl/python/hdc/text_encoder.py:101-144 | the encoding has length `dimensions`; a text without tokens gives all-false; otherwise bit `k` is set iff more than half the window vectors have it set |
| `TextEncoder.CosineSimilarity` | reference_impl/python/hdc/text_encoder.py:146-157 | undefined (division by zero) iff `dimensions == 0`; otherwise at most 1, and exactly 1 for equal vectors |
| `TextEncoder.SimilaritySymmetric` | reference_impl/python/hdc/text_encoder.py:146-157 | similarity is symmetric |
| `TextEncoder.SimilarityBoundsAndIdentity` | reference_impl/python/hdc/text_encoder.py:146-157 | for vectors of length `dimensions > 0`, similarity lies in [0, 1] and is 1 iff the vectors are equal |
| `TextEncoder.EncodingSelfSimilarity` | reference_impl/python/hdc/text_encoder.py:146-157 | every text's encoding has similarity 1.0 with itself |
| `TextEncoder.DistinctTokensEncodeApart` | reference_impl/python/hdc/text_encoder.py:101-144 | two one-word texts whose token vectors differ get different encodings |
| `TextEncoder.MapGeneratorEncodesEveryTextToZero` | reference_impl/python/hdc/text_encoder.py:47-97 | if the generator and the base vector are true everywhere (MAP vectors read as booleans), every text encodes to all-false |
| `TextEncoder.Encoder.constructor` | reference_impl/python/hdc/text_encoder.py:30-39 | a new encoder has an empty token cache and the position vectors of its base |
| `TextEncoder.Encoder.GetTokenVector` | reference_impl/python/hdc/text_encoder.py:57-70 | returns the generator's vector for the token; the token is inserted only if absent, and no other entry changes |
| `TextEncoder.Encoder.EncodeNgram` | reference_impl/python/hdc/text_encoder.py:79-99 | the XOR loop computes the window vector; the cache gains exactly the window's tokens |
| `TextEncoder.Encoder.EncodeNgrams` | reference_impl/python/hdc/text_encoder.py:129-132 | vector `k` is the encoding of window `k`; the cache gains exactly the windows' tokens |
| `TextEncoder.Encoder.Encode` | reference_impl/python/hdc/text_encoder.py:101-144 | `encode` returns the majority-vote encoding of the text; the cache gains exactly the strings of its windows |
| `TextEncoder.Encoder.BatchEncode` | reference_impl/python/hdc/text_encoder.py:159-167 | an empty batch is an error, as `torch.cat` of no tensors raises; otherwise one encoding per text, in order; the cache gains exactly the window strings of all texts |
| `TextEncoder.Encoder.EncodeAll` | reference_impl/python/hdc/text_encoder.py:166 | the list comprehension encodes every text in order; the cache gains exactly the window strings of all texts |
| `TernaryCodec.ThresholdClassifies` | reference_impl/python/hdc/ternary_encoder.py:88-91 | for `t >= 0` the output is ternary: +1 iff `x > t`, -1 iff `x < -t`, 0 iff `-t <= x <= t` |
| `TernaryCodec.Ternarize` | reference_impl/python/hdc/ternary_encoder.py:85-93 | the two masked assignments into a zero vector give the threshold value element by element, all ternary |
| `TernaryCodec.Codes` | reference_impl/python/hdc/ternary_encoder.py:162-170 | the code list is no longer than the vector, and no code is `11` |
| `TernaryCodec.CodesOfTernary` | reference_impl/python/hdc/ternary_encoder.py:162-170 | for a ternary vector, code `m` is the code of value `m`: 0 to `00`, +1 to `01`, -1 to `10` |
| `TernaryCodec.PackByte` | reference_impl/python/hdc/ternary_encoder.py:175-178 | the inner loop ORs up to four codes into one byte, first code highest |
| `TernaryCodec.PackTernary` | reference_impl/python/hdc/ternary_encoder.py:144-181 | `pack_ternary` returns `Pack(vector)`, one byte per four codes |
| `TernaryCodec.PackLength` | reference_impl/python/hdc/ternary_encoder.py:172-179 | a ternary vector of length `n` packs into `ceil(n / 4)` bytes |
| `TernaryCodec.PackLayout` | reference_impl/python/hdc/ternary_encoder.py:172-179 | value `4i + j` sits in pair `j` (bits `6 - 2j` and up) of byte `i`; the trailing pairs are `00`; no pair is `11` |
| `TernaryCodec.PackedPair` | reference_impl/python/hdc/ternary_encoder.py:174-179 | pair `s` of packed byte `k` holds the code of value `4k + s`, or `00` past the end of the vector |
| `TernaryCodec.ByteLayout` | reference_impl/python/hdc/ternary_encoder.py:176-178 | reading pair `s` of a packed byte gives back code `i + s`, or 0 past the end |
| `TernaryCodec.UnpackByte` | reference_impl/python/hdc/ternary_encoder.py:197-207 | the inner loop decodes the pairs of one byte in order (`00`→0, `01`→+1, `10`→-1, `11` skipped) and stops at the first pair after which `hd_dim` values are held, otherwise after all four |
| `TernaryCodec.UnpackTernary` | reference_impl/python/hdc/ternary_encoder.py:183-211 | the nested loops with their two `break`s return `Unpack(packed, hd_dim)`: all decoded values, cut at `hd_dim` |
| `TernaryCodec.UnpackStops` | reference_impl/python/hdc/ternary_encoder.py:206-211 | once `hd_dim` values are decoded, cutting there gives the same result as decoding everything |
| `TernaryCodec.UnpackBounds` | reference_impl/python/hdc/ternary_encoder.py:194-211 | the result is ternary, at most `4 * len(packed)` long and at most `hd_dim` long; empty for `hd_dim <= 0`; a `11` pair in any position of any byte is skipped and yields no value |
| `TernaryCodec.DecodedIsTernary` | reference_impl/python/hdc/ternary_encoder.py:196-204 | every decoded value is -1, 0 or +1 |
| `TernaryCodec.DecodedOfPack` | reference_impl/python/hdc/ternary_encoder.py:144-211 | decoding all pairs of a packing gives the vector followed by the zero padding of the last byte |
| `TernaryCodec.RoundTrip` | reference_impl/python/hdc/ternary_encoder.py:144-211 | unpacking the packing of a ternary vector with its own length gives the vector back |
| `TernaryCodec.TernarizedVectorsRoundTrip` | reference_impl/python/hdc/ternary_encoder.py:88-211 | every thresholded vector survives the pack/unpack round trip |
| `TernaryCodec.GetVectorSize` | reference_impl/python/hdc/ternary_encoder.py:213-226 | the size report fails (division by zero) iff `0 <= hd_dim < 4`; otherwise `float32 = 2 * float16 = 4 * hd_dim`, and `binary` and `ternary_packed` are the whole bytes at 1 and 2 bits per value |
| `TernaryCodec.PackedSizeReport` | reference_impl/python/hdc/ternary_encoder.py:220-225 | `ternary_packed` is `hd_dim div 4`, and it equals the packed length iff `hd_dim` is a multiple of 4 |
| `SemanticFilter.Observe` | reference_impl/python/quick_demo.py:57-72 | each input adds one to exactly one counter; it is suppressed iff the decision is silence; the reference becomes the input unless it was suppressed, and there is always a reference afterwards |
| `SemanticFilter.RunCounts` | reference_impl/python/quick_demo.py:49-72 | every input is counted once, as transmitted or as suppressed; exactly the first input is the baseline; a non-empty stream transmits at least once |
| `SemanticFilter.ReferenceIsLastSent` | reference_impl/python/quick_demo.py:57-72 | the reference vector is the input at the last non-silent decision, and every later input was suppressed |
| `SemanticFilter.ObserveAfterBaseline` | reference_impl/python/quick_demo.py:64-72 | after the baseline, an input is transmitted iff its distance exceeds 0.35; a transmit replaces the reference; a suppress only increments `suppressed` |
| `SemanticFilter.RepeatIsSuppressed` | reference_impl/python/quick_demo.py:64-72 | if a vector's distance from itself is within the threshold, repeating the reference is suppressed and changes nothing else |
| `SemanticFilter.BandwidthReduction` | reference_impl/python/quick_demo.py:78 | the percentage is undefined (division by zero) iff no input was counted |
| `SemanticFilter.ReductionBelowHundred` | reference_impl/python/quick_demo.py:77-78 | for a non-empty stream the reduction is defined and lies in [0, 100) |
| `SemanticFilter.FilterStream` | reference_impl/python/quick_demo.py:49-72 | the loop's decisions and counters are those of the fold `Run`; the counters sum to the number of inputs; one is transmitted at least |
| `MeshGossip.Gossip` | reference_impl/python/quick_demo.py:176-187 | after `propagate`, the event is held by everything that held it before and by the start node |
| `MeshGossip.GossipStopsEarly` | reference_impl/python/quick_demo.py:177-184 | a node already holding the event stops at once; with no TTL left only the node itself is marked |
| `MeshGossip.GossipStaysWithinTtl` | reference_impl/python/quick_demo.py:176-187 | gossip never reaches a node more than `ttl` hops from its origin |
| `MeshGossip.WithinIffWalk` | reference_impl/python/quick_demo.py:176-187 | the `k`-hop neighbourhood is exactly the set of nodes at the end of a walk of at most `k` steps along peer lists |
| `MeshGossip.DemoMesh` | reference_impl/python/quick_demo.py:155-162 | the peer lists the five `connect` calls leave: 0:[1,3], 1:[0,2], 2:[1,3], 3:[2,4,0], 4:[3] |
| `MeshGossip.DemoGossipMissesNode4` | reference_impl/python/quick_demo.py:155-190 | on the demo mesh with TTL 3, gossip from node 0 reaches nodes 0 to 3 only, although node 4 is two hops away |
| `MeshGossip.Flood` | reference_impl/python/quick_demo.py:176-187 | breadth-first gossip reaches exactly the nodes within `ttl` hops |
| `MeshGossip.DemoFloodReachesAll` | reference_impl/python/quick_demo.py:155-194 | on the demo mesh, breadth-first gossip with TTL 3 reaches all five nodes |
| `MeshGossip.ConnectLinks` | reference_impl/python/quick_demo.py:150-153 | after connecting, `b` is among `a`'s peers (and `a` among `b`'s when the relation was symmetric); only the two lists change and they only grow; symmetry and closure of the peer relation are kept, and so is duplicate-freedom when `a != b` |
| `MeshGossip.SimpleNode.constructor` | reference_impl/python/quick_demo.py:144-148 | a new node has no peers and an empty memory |
| `MeshGossip.SimpleNode.Connect` | reference_impl/python/quick_demo.py:150-153 | appends each node to the other's peers unless already connected (a node connected to itself appears twice); the adjacency of the nodes becomes `ConnectAdj` of the old one |
| `MeshGossip.Propagate` | reference_impl/python/quick_demo.py:176-187 | the recursive `propagate` leaves the event held by exactly `Gossip` of the peer lists; memories only gain the event |
| `MeshGossip.BuildDemoMesh` | reference_impl/python/quick_demo.py:155-162 | five fresh, distinct nodes with the demo's peer lists and empty memories |
| `MeshGossip.DemoAdjacency` | reference_impl/python/quick_demo.py:155-162 | the peer lists of the built mesh form `DemoMesh`, and the mesh is closed |
| `MeshGossip.CountReached` | reference_impl/python/quick_demo.py:193 | counts the nodes whose memory holds the event |
| `MeshGossip.DemoCount` | reference_impl/python/quick_demo.py:193 | with nodes 0 to 3 holding the event and node 4 not, the count is 4 |
| `MeshGossip.DemoMeshGossip` | reference_impl/python/quick_demo.py:155-194 | the mesh demo reports that the event reached 4 of the 5 nodes |

## Left out

- The token generator is a parameter `random: string -> BitVec` of the
  encoder. It stands for md5 seeding of `torch.manual_seed` followed by
  `torchhd.random` (`text_encoder.py:64-68`). The base vector
  (`text_encoder.py:47`) is a parameter too. Neither generator is modelled.
- The `device` argument and the tensor shapes `(1, D)` are left out.
  `batch_encode` returns the list of vectors rather than their
  concatenation into one tensor. The exception that `torch.cat` raises on
  an empty batch is modelled as `None`.
- `TextEncoder.Lower`: only `A`–`Z` are lowercased. Python's `str.lower`
  also maps other Unicode letters. Whitespace is the fixed set that
  `str.split()` uses.
- `TextEncoder.CosineSimilarity` divides exactly on reals, not in floating
  point. `dimensions == 0` gives `None`, where the source raises
  `ZeroDivisionError`. Vectors of unequal length are excluded by a
  precondition; `torch.logical_xor` would broadcast or fail on them.
- `TernaryCodec.Ternarize` takes the threshold and one row as inputs.
  `torch.quantile` over the batch, the random projection and the
  SentenceTransformer embedding are not part of this model.
- The ternary `encode`, `cosine_similarity` (square roots) and the float
  `compression_ratio_vs_float32` are left out. The ratio appears only as the
  division by zero it can raise.
- `TernaryCodec.PackTernary` takes integers. The `np.int8` cast of the
  input tensor is not modelled. Values outside {-1, 0, +1} are dropped, as
  in the source.
- The embedding model and scipy's `cosine` are parameters (`encode`,
  `dist`) of the filter. The six demo input texts are not modelled, because
  their decisions depend on the model.
- Printing, `time.sleep`, `input` and the emoji report lines are left out.
  The filter returns its decisions instead of printing them.
- `MeshGossip.SimpleNode.constructor`: the node id is a number instead of
  the string `NODE_<i>`. The unused `last_vector` field is left out.
- The `vector`, `text` and `indent` arguments of `propagate` only feed the
  printout, and are left out.
- Python's recursion limit is not modelled.
- The Procrustes alignment demo and the benchmark and plotting scripts are
  not part of this model.

## Findings

| source | as written | input that shows it | evidently intended | confidence | as-written member | corrected member |
|---|---|---|---|---|---|---|
| reference_impl/python/quick_demo.py:176-187 | depth-first `propagate` with a shared visited set marks a node at the first path in depth-first order that reaches it and never revisits it with more TTL left | the demo mesh (0-1, 1-2, 2-3, 3-4, 0-3) with TTL 3 from node 0: 0→1→2→3 arrives at 3 with TTL 0, so node 4 (two hops away via 0-3-4) is never reached; 4 of 5 nodes | every node within TTL hops receives the event (breadth-first flooding) | not executed; high | `MeshGossip.DemoGossipMissesNode4`, `MeshGossip.DemoMeshGossip` | `MeshGossip.Flood`, `MeshGossip.DemoFloodReachesAll` |
| reference_impl/python/hdc/text_encoder.py:47-97 | `torchhd.random` with its default (MAP) model returns ±1 vectors, which are non-zero everywhere, so `torch.logical_xor` of two of them is false everywhere | any text: every window XOR is false everywhere, so every encoding is all-false and every pair of texts has similarity 1.0 | binary (BSC) token and base vectors, so that distinct tokens encode apart | not executed; medium (depends on the library default) | `TextEncoder.MapGeneratorEncodesEveryTextToZero` | `TextEncoder.DistinctTokensEncodeApart` |
