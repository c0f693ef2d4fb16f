/**
 * The `MerkleTools` object: a leaf list that grows in insertion order, the
 * levels built from it on demand, and a readiness flag that every leaf
 * addition clears. Each method is proved against the value-level
 * definitions of `MerkleSpec`.
 */
module Tools {
  import opened Maybe
  import opened HashOps
  import opened MerkleSpec

  /** What `add_leaf` accepts: one value, or a list or tuple of values. */
  datatype Values = One(value: Value) | Many(items: seq<Value>)

  function Items(values: Values): seq<Value>
  {
    match values
    case One(v) => [v]
    case Many(vs) => vs
  }

  /**
   * The loop of `get_proof`: walks the levels from the leaves up to the level
   * below the root, collecting the sibling of the current node at each level
   * where it has one, and halving the index on the way up.
   */
  method WalkLevels(lv: seq<seq<Digest>>, index: nat) returns (proof: Proof)
    requires Halving(lv) && |lv| > 0 && index < |lv[|lv| - 1]|
    ensures proof == StoredPath(lv, |lv| - 1, index)
  {
    ghost var whole := StoredPath(lv, |lv| - 1, index);
    proof := [];
    var i: nat := index;
    var x := |lv| - 1;
    while x > 0
      invariant 0 <= x < |lv|
      invariant i < |lv[x]|
      invariant proof + StoredPath(lv, x, i) == whole
    {
      var level := lv[x];
      var levelLen := |level|;
      var next := proof;
      if i == levelLen - 1 && levelLen % 2 == 1 {
        // the odd end node has no sibling at this level
      } else {
        var isRightNode := i % 2 == 1;
        var step := if isRightNode then Left(level[i - 1]) else Right(level[i + 1]);
        next := proof + [step];
      }
      StoredStep(lv, x, i, proof, next);
      proof := next;
      i := i / 2;
      x := x - 1;
    }
    assert proof + [] == proof;
  }

  class MerkleTools {
    /** The leaf hash (`hash_address`). */
    const leafHash: LeafHash
    /** The raw two-digest hash underneath `hash_pair`. */
    const node: PairHash

    var leaves: seq<Digest>
    /** The levels of the last build, top level first; `None` before any build. */
    var levels: Option<seq<seq<Digest>>>
    var isReady: bool

    /**
     * Levels exist only over a non-empty leaf list, and while the tree is
     * ready they are exactly the levels built from the current leaves.
     */
    ghost predicate Valid()
      reads this
    {
      && (levels.Some? ==> |leaves| > 0)
      && (isReady ==> (levels.Some? <==> |leaves| > 0))
      && (isReady && levels.Some? ==> WellBuilt(node, levels.value, leaves))
    }

    constructor (leafHash: LeafHash, node: PairHash)
      ensures Valid()
      ensures this.leafHash == leafHash && this.node == node
      ensures leaves == [] && levels.None? && !isReady
    {
      this.leafHash := leafHash;
      this.node := node;
      leaves := [];
      levels := None;
      isReady := false;
    }

    /** `reset_tree`: back to the empty, unbuilt state. */
    method ResetTree()
      modifies this
      ensures Valid()
      ensures leaves == [] && levels.None? && !isReady
    {
      leaves := [];
      levels := None;
      isReady := false;
    }

    /**
     * `add_leaf`: every given value becomes one new leaf, its leaf hash,
     * appended in the order given; existing leaves and the last build's
     * levels are untouched, and the tree is no longer ready.
     */
    method AddLeaf(values: Values)
      requires Valid()
      modifies this
      ensures Valid() && !isReady && levels == old(levels)
      ensures leaves == old(leaves) + seq(|Items(values)|, k requires 0 <= k < |Items(values)| => leafHash(Items(values)[k]))
    {
      isReady := false;
      var items := Items(values);
      for k := 0 to |items|
        invariant Valid() && !isReady && levels == old(levels)
        invariant leaves == old(leaves) + seq(k, m requires 0 <= m < k => leafHash(items[m]))
      {
        leaves := leaves + [leafHash(items[k])];
      }
    }

    /** `get_index`: the position of the first leaf equal to the value's leaf hash. */
    method GetIndex(value: Value) returns (r: Option<nat>)
      ensures r == IndexOf(leaves, leafHash(value))
    {
      var h := leafHash(value);
      var idx := 0;
      while idx < |leaves|
        invariant 0 <= idx <= |leaves|
        invariant forall j :: 0 <= j < idx ==> leaves[j] != h
      {
        if leaves[idx] == h {
          return Some(idx);
        }
        idx := idx + 1;
      }
      return None;
    }

    /**
     * `get_leaf`: Python list indexing, so a negative index counts from the
     * end; an index outside `[-count, count)` raises `IndexError`, here `None`.
     */
    function GetLeaf(index: int): (r: Option<Digest>)
      reads this
      ensures r.Some? <==> -|leaves| <= index < |leaves|
      ensures 0 <= index < |leaves| ==> r == Some(leaves[index])
      ensures -|leaves| <= index < 0 ==> r == Some(leaves[|leaves| + index])
    {
      if 0 <= index < |leaves| then Some(leaves[index])
      else if -|leaves| <= index < 0 then Some(leaves[|leaves| + index])
      else None
    }

    /** `get_leaf_count`: the number of leaves held, built or not. */
    function GetLeafCount(): (n: nat)
      reads this
      ensures n == |leaves|
    {
      |leaves|
    }

    /** `get_tree_ready_state`: whether root and proof queries are answered. */
    function GetTreeReadyState(): (ready: bool)
      reads this
      ensures ready <==> isReady
    {
      isReady
    }

    /**
     * `_calculate_next_level`: puts the level above the current top level in
     * front of the levels; nothing else changes.
     */
    method CalculateNextLevel()
      requires levels.Some? && |levels.value| > 0
      modifies this
      ensures leaves == old(leaves) && isReady == old(isReady)
      ensures levels == Some([NextLevel(node, old(levels.value[0]))] + old(levels.value))
    {
      var top := levels.value[0];
      var n := |top|;
      var solo: Option<Digest> := None;
      if n % 2 == 1 {
        solo := Some(top[n - 1]);
        n := n - 1;
      }
      var newLevel: seq<Digest> := [];
      var k := 0;
      while k < n / 2
        invariant n == |top| - |top| % 2
        invariant 0 <= k <= n / 2
        invariant |newLevel| == k
        invariant forall j :: 0 <= j < k ==> newLevel[j] == HashPair(node, top[2 * j], top[2 * j + 1])
      {
        newLevel := newLevel + [HashPair(node, top[2 * k], top[2 * k + 1])];
        k := k + 1;
      }
      if solo.Some? {
        newLevel := newLevel + [solo.value];
      }
      assert newLevel == NextLevel(node, top);
      levels := Some([newLevel] + levels.value);
    }

    /**
     * `make_tree`: with no leaves the levels stay absent; otherwise they are
     * the levels built from the leaves up to a single root, with the shape
     * `WellBuilt` states. Either way the tree is ready afterwards.
     */
    method MakeTree()
      requires Valid()
      modifies this
      ensures Valid() && isReady && leaves == old(leaves)
      ensures |leaves| == 0 ==> levels.None?
      ensures |leaves| > 0 ==> levels == Some(Build(node, leaves)) && WellBuilt(node, levels.value, leaves)
      ensures |leaves| == 1 ==> levels == Some([leaves])
    {
      isReady := false;
      if GetLeafCount() > 0 {
        levels := Some([leaves]);
        while |levels.value[0]| > 1
          invariant leaves == old(leaves) && !isReady && |leaves| > 0
          invariant levels.Some? && |levels.value| > 0 && |levels.value[0]| > 0
          invariant Build(node, levels.value[0]) + levels.value[1..] == Build(node, leaves)
          decreases |levels.value[0]|
        {
          ghost var top := levels.value[0];
          ghost var below := levels.value[1..];
          CalculateNextLevel();
          assert levels.value[1..] == [top] + below;
          BuildStacked(node, top, below);
        }
        assert levels.value == [levels.value[0]] + levels.value[1..];
        WellBuiltIsBuild(node, levels.value, leaves);
      }
      isReady := true;
    }

    /**
     * `get_merkle_root`: the root of the current leaves while the tree is
     * ready and has leaves; absent (never a digest) otherwise.
     */
    function GetMerkleRoot(): (r: Option<Digest>)
      requires Valid()
      reads this
      ensures r.Some? <==> isReady && |leaves| > 0
      ensures r.Some? ==> r.value == RootOf(node, leaves)
    {
      if isReady then
        if levels.Some? then
          WellBuiltIsBuild(node, levels.value, leaves);
          BuildRoot(node, leaves);
          Some(levels.value[0][0])
        else None
      else None
    }

    /**
     * `get_proof`: absent when the tree was never built, is not ready, or
     * the index is outside the leaf list; otherwise the sibling path of that
     * leaf, walking the stored levels from the bottom up to the level below
     * the root.
     */
    method GetProof(index: int) returns (r: Option<Proof>)
      requires Valid()
      ensures r.None? <==> levels.None? || !isReady || index < 0 || index >= |leaves|
      ensures r.Some? ==> 0 <= index < |leaves| && r.value == PathOf(node, leaves, index)
    {
      if levels.None? {
        return None;
      } else if !isReady || index > |leaves| - 1 || index < 0 {
        return None;
      }
      BuiltLevelsPath(node, levels.value, leaves, index);
      var proof := WalkLevels(levels.value, index);
      return Some(proof);
    }

    /** `get_proof` with `value_only`: the same sibling digests, without side tags. */
    method GetProofValues(index: int) returns (r: Option<seq<Digest>>)
      requires Valid()
      ensures r.None? <==> levels.None? || !isReady || index < 0 || index >= |leaves|
      ensures r.Some? ==> 0 <= index < |leaves| && r.value == Siblings(PathOf(node, leaves, index))
    {
      var proof := GetProof(index);
      if proof.None? {
        return None;
      }
      return Some(Siblings(proof.value));
    }

    /**
     * `get_proof_for_value`: the empty proof when no leaf matches the value;
     * otherwise the proof for the first matching leaf, absent while the tree
     * is not ready.
     */
    method GetProofForValue(value: Value) returns (r: Option<Proof>)
      requires Valid()
      ensures IndexOf(leaves, leafHash(value)).None? ==> r == Some([])
      ensures IndexOf(leaves, leafHash(value)).Some? ==>
                (r.None? <==> !isReady) &&
                (r.Some? ==> r.value == PathOf(node, leaves, IndexOf(leaves, leafHash(value)).value))
    {
      var idx := GetIndex(value);
      if idx.None? {
        return Some([]);
      }
      r := GetProof(idx.value);
    }

    /**
     * `validate_proof`: folds the proof from the target digest, each step
     * pair-hashing the running digest with its sibling, and compares the
     * result with the root; an empty proof compares the target itself.
     */
    method ValidateProof(proof: Proof, target: Digest, root: Digest) returns (ok: bool)
      ensures ok == Validate(node, proof, target, root)
    {
      if |proof| == 0 {
        return target == root;
      }
      var proofHash := target;
      for k := 0 to |proof|
        invariant Fold(node, proof[k..], proofHash) == Fold(node, proof, target)
      {
        assert proof[k..][1..] == proof[k + 1..];
        match proof[k]
        case Left(sibling) =>
          proofHash := HashPair(node, sibling, proofHash);
        case Right(sibling) =>
          proofHash := HashPair(node, proofHash, sibling);
      }
      return proofHash == root;
    }
  }
}
