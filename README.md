# solidity-merkletools in Dafny

A model of the `MerkleTools` class of `solidity_merkletools`. It builds a binary
Merkle tree over an ordered list of leaves, derives inclusion proofs for single
leaves and checks proofs against a root. The design follows merkletreejs with
`sortPairs: true`:

- the two digests of a pair are hashed smaller-first, in byte order;
- an odd last node of a level is carried up unchanged, not hashed;
- levels are stored top level first, so `levels[0]` holds the root.

Modules:

- `Maybe` (`maybe.dfy`): the `Option` datatype. It stands for Python's `None`-or-value results.
- `HashOps` (`hash_ops.dfy`): digests, and Python's byte-string `<` as the lexicographic order `Below`.
  Also `HashPair` and its symmetry. The Keccak-256 hashes underneath are left uninterpreted:
  - `LeafHash` is `hash_address`;
  - `PairHash` is the packed two-`bytes32` hash.

  Every result holds for every choice of these two hashes.
- `MerkleSpec` (`merkle_spec.dfy`): the tree as values.
  - `NextLevel`: one level up, and `PairUp`, the same level built pair by pair from the front.
  - `Build`: all levels, top first.
  - `WellBuilt`: the level-by-level shape of a build.
  - `RootOf`: the root.
  - `PathOf`: a leaf's sibling path, and `StoredPath`, the same path read off stored levels.
  - `Fold` and `Validate`: the verifier's climb.
  - `FoldSorted`: the tag-free climb used by sorted-pair verifiers.
  - `IndexOf`: first-occurrence lookup.

  The lemmas include the round trip (every derived proof validates) and the failure of the empty proof.
- `Tools` (`merkle_tools.dfy`): class `MerkleTools`. Its fields are `leaves`, `levels` and `isReady`,
  and its methods mirror the Python ones. Each method's contract ties the new state or the result to the
  `MerkleSpec` definitions. The object invariant `Valid()` says:
  - levels exist only over a non-empty leaf list;
  - while the tree is ready, the levels have the `WellBuilt` shape over the current leaves.
- `TreeTests` (`tree_tests.dfy`): the flows of the repository's tests, stated for all inputs.

Merkle levels are often numbered bottom-up, with level 0 the leaves. The code stores
the levels top-first and prepends each new level. The model follows the code: in `Build` and in the
`levels` field, the last entry is the leaf list and the first entry is the root level.

## Model

| member | source | states |
|---|---|---|
| `HashOps.BelowAsymmetric` | solidity_merkletools/__init__.py:20 | byte-string `<` is asymmetric: two digests are never each below the other |
| `HashOps.BelowTotal` | solidity_merkletools/__init__.py:20 | byte-string `<` is total on different strings, so `hash_pair` always has a smaller argument unless both are equal |
| `HashOps.HashPair` | solidity_merkletools/__init__.py:19-24 | the digest that is not above the other in byte order is hashed first; the other one is hashed second |
| `HashOps.NotBelowIsAbove` | solidity_merkletools/__init__.py:20-23 | when the first digest is not below the second, the two are equal or the second is below the first, so the `else` branch hashes the smaller digest first |
| `HashOps.HashPairCommutes` | solidity_merkletools/__init__.py:19-24 | `hash_pair(a, b) == hash_pair(b, a)` for all digests |
| `MerkleSpec.PairUp` | solidity_merkletools/__init__.py:62-77 | the level above a level of N nodes has ceil(N/2) nodes |
| `MerkleSpec.NextLevelShift` | solidity_merkletools/__init__.py:62-77 | dropping the first pair of a level drops the first node of the level above and keeps every other node, in order |
| `MerkleSpec.NextLevelIsPairUp` | solidity_merkletools/__init__.py:62-77 | the positional pairing of `_calculate_next_level` (node i is `hash_pair(level[2i], level[2i+1])`, and an odd last node is carried unchanged) equals pairing from the front: hash the first two nodes, then pair up the rest, carrying a single leftover node |
| `MerkleSpec.Build` | solidity_merkletools/__init__.py:79-87 | the built levels are non-empty, and the last level is the leaf list |
| `MerkleSpec.BuildRoot` | solidity_merkletools/__init__.py:79-96 | the first built level holds exactly one node, the root of the leaves |
| `MerkleSpec.BuildStacked` | solidity_merkletools/__init__.py:85-86 | one iteration of the `make_tree` loop keeps "levels still to build, then levels built" equal to the full build |
| `MerkleSpec.BuildIsWellBuilt` | solidity_merkletools/__init__.py:79-87 | the build has the level shape: leaves at the bottom, one node on top, every other level of two or more nodes and the pairing of the level below |
| `MerkleSpec.WellBuiltOnlyBuild` | solidity_merkletools/__init__.py:79-87 | any list of levels of that shape over given leaves is the build of those leaves |
| `MerkleSpec.DropBottom` | solidity_merkletools/__init__.py:79-87 | removing the leaf level from well-built levels over two or more leaves leaves well-built levels over the level above the leaves |
| `MerkleSpec.WellBuiltIsBuild` | solidity_merkletools/__init__.py:79-87 | having the level shape and being the build of the leaves are equivalent |
| `MerkleSpec.PathLength` | solidity_merkletools/__init__.py:111-128 | a proof has at most one step per level below the root, so at most `len(levels) - 1` steps |
| `MerkleSpec.StoredStep` | solidity_merkletools/__init__.py:111-128 | one iteration of the `get_proof` loop: an odd end node adds no step and any other node adds its sibling; the walk then goes on one level up at index i div 2, which is inside that level |
| `MerkleSpec.StoredPathIsPathOf` | solidity_merkletools/__init__.py:105-128 | on well-built levels, the steps read off the stored levels from level x up equal the sibling path `PathOf` of that node, which recomputes the levels above |
| `MerkleSpec.BuiltLevelsPath` | solidity_merkletools/__init__.py:105-128 | the levels of a finished build halve (rounding up) from each level to the one above, the bottom level is the leaf list, and the path read off them is the leaf's sibling path |
| `MerkleSpec.RoundTrip` | solidity_merkletools/__init__.py:130-145 | for every leaf index of a non-empty leaf list, folding that leaf's proof from the leaf gives the root, so `validate_proof(get_proof(i), leaves[i], root)` holds |
| `MerkleSpec.Siblings` | solidity_merkletools/__init__.py:123-124 | the `value_only` list: one digest per proof step, in order, each the step's sibling without its side tag |
| `MerkleSpec.TagsIrrelevant` | solidity_merkletools/__init__.py:135-143 | because `hash_pair` is symmetric, folding a tagged proof gives the same digest as folding its bare digests side-blind |
| `MerkleSpec.BareRoundTrip` | solidity_merkletools/__init__.py:123-124 | the `value_only` digest list of any leaf also climbs to the root under a sorted-pair verifier |
| `MerkleSpec.IndexOf` | solidity_merkletools/__init__.py:46-51 | the result is absent exactly when the digest is not in the list; otherwise it is an index holding the digest with no earlier occurrence |
| `MerkleSpec.RootIsPaired` | solidity_merkletools/__init__.py:79-87 | the root of two or more leaves is the output of a pair hash |
| `MerkleSpec.EmptyProofFails` | tests/test_merkle_tools.py:118-119 | on two or more leaves, the empty proof returned for an absent value fails validation when no pair hash yields that value's leaf hash |
| `Tools.MerkleTools.constructor` | solidity_merkletools/__init__.py:8-9 | a new object holds no leaves, no levels, and is not ready |
| `Tools.MerkleTools.ResetTree` | solidity_merkletools/__init__.py:29-32 | back to no leaves, no levels, not ready |
| `Tools.MerkleTools.AddLeaf` | solidity_merkletools/__init__.py:36-44 | the leaves become the old leaves followed by the leaf hash of each given value, in order; a single value adds exactly one leaf; the last levels are kept and the tree is no longer ready |
| `Tools.MerkleTools.GetIndex` | solidity_merkletools/__init__.py:46-51 | returns the first position of the value's leaf hash, or `None` exactly when no leaf matches (see `IndexOf`) |
| `Tools.MerkleTools.GetLeaf` | solidity_merkletools/__init__.py:53-54 | Python list indexing: an index in `[0, n)` gives that leaf, one in `[-n, 0)` counts from the end, and any other index raises (here `None`) |
| `Tools.MerkleTools.GetLeafCount` | solidity_merkletools/__init__.py:56-57 | the number of leaves held, whether or not the tree is built |
| `Tools.MerkleTools.GetTreeReadyState` | solidity_merkletools/__init__.py:59-60 | reports whether the tree is ready |
| `Tools.MerkleTools.CalculateNextLevel` | solidity_merkletools/__init__.py:62-77 | prepends `NextLevel` of the current top level; every existing level, the leaves and readiness are unchanged |
| `Tools.MerkleTools.MakeTree` | solidity_merkletools/__init__.py:79-87 | terminates; with no leaves the levels stay absent; otherwise the levels are the build of the leaves, with the `WellBuilt` shape; one leaf gives the single level `[leaves]`; the tree is ready afterwards |
| `Tools.MerkleTools.GetMerkleRoot` | solidity_merkletools/__init__.py:89-96 | a root is returned exactly when the tree is ready and has leaves, and it is the root of the current leaves; otherwise `None`, never a digest |
| `Tools.WalkLevels` | solidity_merkletools/__init__.py:111-128 | the `get_proof` loop over levels that halve from the leaves up returns exactly the steps `StoredPath` reads off the stored levels for the given leaf index |
| `Tools.MerkleTools.GetProof` | solidity_merkletools/__init__.py:105-128 | `None` exactly when the tree was never built, is not ready, or the index is outside `[0, leaf_count)`; otherwise the sibling path of that leaf (`PathOf`) |
| `Tools.MerkleTools.GetProofValues` | solidity_merkletools/__init__.py:105-128 | with `value_only`, the same result with the side tags dropped |
| `Tools.MerkleTools.GetProofForValue` | solidity_merkletools/__init__.py:98-103 | the empty proof when no leaf matches the value; otherwise the proof of the first matching leaf, which is `None` while the tree is not ready |
| `Tools.MerkleTools.ValidateProof` | solidity_merkletools/__init__.py:130-145 | an empty proof holds exactly when the target is the root; otherwise it holds when folding the steps from the target (left sibling first, right sibling second) yields the root |
| `TreeTests.TreeSizeOne` | tests/test_merkle_tools.py:122-127 | a one-leaf tree's root is that leaf's hash and its proof is empty |
| `TreeTests.TreeTests` | tests/test_merkle_tools.py:101-119 | after adding two or more inputs one at a time and building, each input's proof validates against the root, and an absent value's proof does not, under the stated no-collision premises |

## Left out

- Keccak-256 and Solidity packed encoding (`Web3.solidityKeccak` in `hash_address`, `hash_bytes` and `hash_pair`) are foreign library code. The two hashes are parameters of the model, and only their types are fixed: each returns 32 bytes.
- `hash_bytes` is never called by any operation of the class. It is not modelled.
- Hex conversion (`_to_hex`, `.hex()`): a digest and its hex string are the same value in the model. Comparing fixed-width lower-case hex strings gives the same order as comparing the bytes.
- The `try`/`except` key probing in `validate_proof`: a proof step is the datatype `Left(d) | Right(d)`. Passing a `value_only` list to `validate_proof` raises an exception in the source; the model's types exclude that call.
- `get_proof_for_value` with `value_only=True` is not a separate member. Its result is `Siblings` applied to `GetProofForValue`'s tagged proof, in the same way as `GetProofValues`.
- `add_leaf` on an argument that is neither a list nor a tuple treats it as one value. The model takes this choice as the datatype `Values = One(v) | Many(vs)`.
- `int(index / 2.0)` is floor halving of a non-negative index, written `i / 2` on `nat`. `get_proof` indexes are Python integers, so floats and other types are not modelled.
- Aliasing: `make_tree` stores the leaf list object itself as the bottom level, so later `add_leaf` calls also grow that level. The model stores an immutable snapshot instead. Every query is gated on `is_ready`, which `add_leaf` clears, so no query can tell the difference.
- `__str__` pretty-printing is left out.
- Collision resistance is a cryptographic assumption and is not proved. This covers "reordering leaves changes the root" and "tampering with a proof byte fails validation". `EmptyProofFails` and `TreeTests` take their no-collision premises as explicit preconditions.
- The JSON fixture comparisons in the tests (fixed roots and proofs from merkletreejs) need concrete Keccak values. They are not modelled.
