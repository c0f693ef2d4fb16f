/**
 * The client flows of the repository's tests, run against the `MerkleTools`
 * contracts for every leaf hash, pair hash and list of inputs.
 */
module TreeTests {
  import opened Maybe
  import opened HashOps
  import opened MerkleSpec
  import opened Tools

  /**
   * A one-leaf tree: its root is the leaf hash of the single value and the
   * proof of that leaf is empty.
   */
  method TreeSizeOne(leafHash: LeafHash, node: PairHash, value: Value) returns (root: Option<Digest>, proof: Option<Proof>)
    ensures root == Some(leafHash(value))
    ensures proof == Some([])
  {
    var mt := new MerkleTools(leafHash, node);
    mt.AddLeaf(One(value));
    assert mt.leaves == [leafHash(value)];
    mt.MakeTree();
    root := mt.GetMerkleRoot();
    proof := mt.GetProof(0);
  }

  /**
   * Adds the inputs one at a time and builds the tree; then the proof found
   * for every input validates against the root, and the proof found for a
   * value that is not among them does not, provided that value's leaf hash
   * differs from every input's and from every pair hash.
   */
  method TreeTests(leafHash: LeafHash, node: PairHash, inputs: seq<Value>, absent: Value)
    returns (allValid: bool, absentRejected: bool)
    requires |inputs| > 1
    requires forall v :: v in inputs ==> leafHash(v) != leafHash(absent)
    requires forall a: Digest, b: Digest :: HashPair(node, a, b) != leafHash(absent)
    ensures allValid && absentRejected
  {
    var mt := new MerkleTools(leafHash, node);
    for k := 0 to |inputs|
      invariant mt.Valid() && mt.leafHash == leafHash && mt.node == node
      invariant |mt.leaves| == k
      invariant forall j :: 0 <= j < k ==> mt.leaves[j] == leafHash(inputs[j])
    {
      mt.AddLeaf(One(inputs[k]));
    }
    mt.MakeTree();
    var root := mt.GetMerkleRoot();
    ghost var leaves := mt.leaves;

    allValid := true;
    for k := 0 to |inputs|
      invariant mt.Valid() && mt.isReady && mt.leaves == leaves
      invariant allValid
    {
      var proof := mt.GetProofForValue(inputs[k]);
      assert leaves[k] == leafHash(inputs[k]);
      RoundTrip(node, leaves, IndexOf(leaves, leafHash(inputs[k])).value);
      var ok := mt.ValidateProof(proof.value, leafHash(inputs[k]), root.value);
      allValid := allValid && ok;
    }

    var proof := mt.GetProofForValue(absent);
    assert leafHash(absent) !in leaves;
    EmptyProofFails(node, leaves, leafHash(absent));
    var ok := mt.ValidateProof(proof.value, leafHash(absent), root.value);
    absentRejected := !ok;
  }
}
