/**
 * The two hashing primitives of the tree: the leaf hash and the
 * order-canonicalising pair hash.
 *
 * Keccak-256 over Solidity packed encoding is not modelled: both underlying
 * hashes are left uninterpreted, as parameters of type `LeafHash` and
 * `PairHash`. Everything proved here holds for every choice of them.
 */
module HashOps {

  newtype byte = x: int | 0 <= x < 256

  /** A 32-byte hash output. Its hex string form is the same abstract value. */
  type Digest = s: seq<byte> | |s| == 32 witness seq(32, _ => 0)

  /** A raw leaf value in its canonical byte encoding (an address). */
  type Value = seq<byte>

  /** `solidityKeccak(["address"], [v])`: hash of one leaf value. */
  type LeafHash = Value -> Digest

  /** `solidityKeccak(["bytes32", "bytes32"], [a, b])`: hash of two packed digests. */
  type PairHash = (Digest, Digest) -> Digest

  /**
   * Python's `<` on byte strings: lexicographic order, where a proper prefix
   * comes before the longer string.
   */
  predicate Below(a: seq<byte>, b: seq<byte>)
    decreases |a|
  {
    |b| > 0 && (|a| == 0 || a[0] < b[0] || (a[0] == b[0] && Below(a[1..], b[1..])))
  }

  lemma {:induction false} BelowAsymmetric(a: seq<byte>, b: seq<byte>)
    requires Below(a, b)
    ensures !Below(b, a)
    decreases |a|
  {
    if |a| > 0 && a[0] == b[0] {
      BelowAsymmetric(a[1..], b[1..]);
    }
  }

  lemma {:induction false} BelowTotal(a: seq<byte>, b: seq<byte>)
    requires a != b
    ensures Below(a, b) || Below(b, a)
    decreases |a|
  {
    if |a| > 0 && |b| > 0 && a[0] == b[0] {
      assert a == [a[0]] + a[1..] && b == [b[0]] + b[1..];
      BelowTotal(a[1..], b[1..]);
    }
  }

  /**
   * `hash_pair`: the smaller digest (in byte order) is hashed first, the
   * larger second; equal digests are hashed as they are.
   */
  function HashPair(node: PairHash, a: Digest, b: Digest): (r: Digest)
    ensures !Below(b, a) ==> r == node(a, b)
    ensures Below(b, a) ==> r == node(b, a)
  {
    if Below(a, b) then
      BelowAsymmetric(a, b);
      node(a, b)
    else
      NotBelowIsAbove(a, b);
      node(b, a)
  }

  /** Of two digests, one not below the other is above it, unless they are equal. */
  lemma NotBelowIsAbove(a: Digest, b: Digest)
    requires !Below(a, b)
    ensures a == b || Below(b, a)
  {
    if a != b {
      BelowTotal(a, b);
    }
  }

  /** The canonical ordering makes the pair hash symmetric in its arguments. */
  lemma HashPairCommutes(node: PairHash, a: Digest, b: Digest)
    ensures HashPair(node, a, b) == HashPair(node, b, a)
  {
    if a != b {
      BelowTotal(a, b);
    }
  }
}
