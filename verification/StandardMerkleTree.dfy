/**
 `StandardMerkleTree`: a tree together with the map from leaf hashes to slots through which
 proofs are asked for by leaf instead of by index.
 */
module StandardMerkleTrees {
  import opened Collections
  import opened Wrappers
  import opened MerkleTree
  import opened MerkleCompleteness
  import opened MerkleServable

  datatype StandardMerkleTree = StandardMerkleTree(tree: seq<Hash>, indices: map<Hash, nat>)

  // Leaves by hash: of equal leaves the last one stays in the map.
  function LeafSlots(leaves: seq<Hash>, treeLen: nat): map<Hash, nat>
    requires |leaves| <= treeLen
  {
    if leaves == [] then map[]
    else LeafSlots(leaves[..|leaves| - 1], treeLen)[leaves[|leaves| - 1] := treeLen - |leaves|]
  }

  function Standard(h: PairHash, leaves: seq<Hash>): StandardMerkleTree {
    var t := Tree(h, leaves);
    StandardMerkleTree(t, LeafSlots(leaves, |t|))
  }

  method NewStandard(h: PairHash, leaves: seq<Hash>) returns (s: StandardMerkleTree)
    ensures s == Standard(h, leaves)
  {
    var tree := New(h, leaves);
    var indices: map<Hash, nat> := map[];
    for i := 0 to |leaves|
      invariant indices == LeafSlots(leaves[..i], |tree|)
    {
      assert leaves[..i + 1][..i] == leaves[..i];
      indices := indices[leaves[i] := |tree| - i - 1];
    }
    assert leaves[..|leaves|] == leaves;
    s := StandardMerkleTree(tree, indices);
  }

  // The map knows exactly the leaves, and sends each to a leaf slot that holds it.
  lemma {:induction false} SlotsHoldLeaves(leaves: seq<Hash>, treeLen: nat, leaf: Hash)
    requires |leaves| <= treeLen
    ensures leaf in LeafSlots(leaves, treeLen) <==> leaf in leaves
    ensures leaf in leaves ==>
              var slot := LeafSlots(leaves, treeLen)[leaf];
              treeLen - |leaves| <= slot < treeLen && leaves[treeLen - 1 - slot] == leaf
    decreases |leaves|
  {
    if leaves == [] {
    } else {
      var m := |leaves| - 1;
      SlotsHoldLeaves(leaves[..m], treeLen, leaf);
      assert leaves == leaves[..m] + [leaves[m]];
    }
  }

  ghost predicate Usable(s: StandardMerkleTree) {
    && |s.tree| % 2 == 1
    && forall l :: l in s.indices ==> IsLeafIndex(|s.tree|, s.indices[l])
  }

  function ProofForLeaf(s: StandardMerkleTree, leaf: Hash): Option<seq<Hash>>
    requires Usable(s)
  {
    if leaf in s.indices then Some(ProofPath(s.tree, s.indices[leaf])) else None
  }

  // `StandardMerkleTree::generate_proof`; the `expect` inside never fails.
  method GenerateProofForLeaf(s: StandardMerkleTree, leaf: Hash) returns (r: Option<seq<Hash>>)
    requires Usable(s)
    ensures r == ProofForLeaf(s, leaf)
  {
    if leaf !in s.indices {
      return None;
    }
    var proof := GenerateProof(s.tree, s.indices[leaf]);
    assert proof.Ok?;
    r := Some(proof.value);
  }

  predicate Known(indices: map<Hash, nat>, requested: seq<Hash>) {
    forall k :: 0 <= k < |requested| ==> requested[k] in indices
  }

  function SlotsOf(indices: map<Hash, nat>, requested: seq<Hash>): seq<nat>
    requires Known(indices, requested)
  {
    seq(|requested|, k requires 0 <= k < |requested| => indices[requested[k]])
  }

  function MultiProofForLeaves(s: StandardMerkleTree, requested: seq<Hash>): Option<MultiProof>
    requires |s.tree| % 2 == 1
  {
    if Known(s.indices, requested) then MultiProofFor(s.tree, SlotsOf(s.indices, requested)) else None
  }

  /** `StandardMerkleTree::generate_multi_proof`: gives up at the first unknown leaf. */
  method GenerateMultiProofForLeaves(s: StandardMerkleTree, requested: seq<Hash>) returns (r: Option<MultiProof>)
    requires |s.tree| % 2 == 1
    ensures r == MultiProofForLeaves(s, requested)
  {
    var slots: seq<nat> := [];
    for i := 0 to |requested|
      invariant forall k :: 0 <= k < i ==> requested[k] in s.indices
      invariant |slots| == i && forall k :: 0 <= k < i ==> slots[k] == s.indices[requested[k]]
    {
      if requested[i] !in s.indices {
        return None;
      }
      slots := slots + [s.indices[requested[i]]];
    }
    assert slots == SlotsOf(s.indices, requested);
    r := GenerateMultiProof(s.tree, slots);
  }

  // ----- completeness by leaf -----

  lemma StandardIsUsable(h: PairHash, leaves: seq<Hash>)
    ensures Usable(Standard(h, leaves))
  {
    var s := Standard(h, leaves);
    forall l | l in s.indices
      ensures IsLeafIndex(|s.tree|, s.indices[l])
    {
      SlotsHoldLeaves(leaves, |s.tree|, l);
    }
  }

  /** A proof is returned for the leaves of the tree and for nothing else, repeated leaves or
      not, and it verifies. */
  lemma LeafProofComplete(h: PairHash, leaves: seq<Hash>, leaf: Hash)
    ensures Usable(Standard(h, leaves))
    ensures var r := ProofForLeaf(Standard(h, leaves), leaf);
            if leaf in leaves then r.Some? && VerifyProof(h, Root(h, leaves), leaf, r.value) else r == None
  {
    var t := Tree(h, leaves);
    StandardIsUsable(h, leaves);
    SlotsHoldLeaves(leaves, |t|, leaf);
    TreeIsWellFormed(h, leaves);
    if leaf in leaves {
      var slot := Standard(h, leaves).indices[leaf];
      assert t[|t| - 1 - (|t| - 1 - slot)] == leaves[|t| - 1 - slot];
      ProofFoldsToRoot(h, t, slot);
    }
  }

  // `requested` picks leaves at increasing positions.
  ghost predicate PicksInOrder(leaves: seq<Hash>, positions: seq<nat>, requested: seq<Hash>) {
    && |positions| == |requested| && InRange(positions, |leaves|)
    && (forall i, j :: 0 <= i < j < |positions| ==> positions[i] < positions[j])
    && forall k :: 0 <= k < |requested| ==> requested[k] == leaves[positions[k]]
  }

  // Among distinct leaves the map is exact, and later leaves have lower slots.
  lemma {:induction false} DistinctLeafSlot(leaves: seq<Hash>, treeLen: nat, i: nat)
    requires NoRepeats(leaves) && i < |leaves| <= treeLen
    ensures leaves[i] in LeafSlots(leaves, treeLen)
    ensures LeafSlots(leaves, treeLen)[leaves[i]] == treeLen - 1 - i
  {
    SlotsHoldLeaves(leaves, treeLen, leaves[i]);
  }

  lemma PickedSlot(h: PairHash, leaves: seq<Hash>, p: nat)
    requires NoRepeats(leaves) && p < |leaves|
    ensures var t, slots := Tree(h, leaves), Standard(h, leaves).indices;
            && leaves[p] in slots && slots[leaves[p]] == |t| - 1 - p
            && IsLeafIndex(|t|, |t| - 1 - p) && t[|t| - 1 - p] == leaves[p]
  {
    TreeIsWellFormed(h, leaves);
    DistinctLeafSlot(leaves, |Tree(h, leaves)|, p);
  }

  lemma PickedSlots(h: PairHash, leaves: seq<Hash>, positions: seq<nat>, requested: seq<Hash>)
    returns (slots: seq<nat>)
    requires NoRepeats(leaves) && PicksInOrder(leaves, positions, requested)
    ensures var t := Tree(h, leaves);
            && Known(Standard(h, leaves).indices, requested)
            && slots == SlotsOf(Standard(h, leaves).indices, requested)
            && AllLeafIndices(|t|, slots) && StrictlyDescending(slots)
            && InRange(slots, |t|) && Values(t, slots) == requested
  {
    var t := Tree(h, leaves);
    slots := seq(|positions|, k requires 0 <= k < |positions| => |t| - 1 - positions[k]);
    forall k | 0 <= k < |requested|
      ensures requested[k] in Standard(h, leaves).indices
      ensures Standard(h, leaves).indices[requested[k]] == slots[k]
      ensures IsLeafIndex(|t|, slots[k]) && t[slots[k]] == requested[k]
    {
      PickedSlot(h, leaves, positions[k]);
    }
    assert slots == SlotsOf(Standard(h, leaves).indices, requested);
    assert Values(t, slots) == requested;
  }

  /** Completeness by leaf: among pairwise distinct leaves, any selection in tree order,
      including none and all, gets a proof that verifies. */
  lemma LeavesMultiProofComplete(h: PairHash, leaves: seq<Hash>, positions: seq<nat>, requested: seq<Hash>)
    requires NoRepeats(leaves) && PicksInOrder(leaves, positions, requested)
    ensures |Tree(h, leaves)| % 2 == 1
    ensures var r := MultiProofForLeaves(Standard(h, leaves), requested);
            r.Some? && VerifyMulti(h, Root(h, leaves), requested, r.value) == Accepted
  {
    var slots := PickedSlots(h, leaves, positions, requested);
    TreeIsWellFormed(h, leaves);
    MultiProofCompleteness(h, Tree(h, leaves), slots);
  }

  lemma UnknownLeafGetsNone(h: PairHash, leaves: seq<Hash>, requested: seq<Hash>, leaf: Hash)
    requires leaf in requested && leaf !in leaves
    ensures |Tree(h, leaves)| % 2 == 1
    ensures MultiProofForLeaves(Standard(h, leaves), requested) == None
  {
    SlotsHoldLeaves(leaves, |Tree(h, leaves)|, leaf);
    var k :| 0 <= k < |requested| && requested[k] == leaf;
    assert !Known(Standard(h, leaves).indices, requested);
  }

  /** Any request at all, in any order and with any repetitions, over any leaves: none if a
      leaf is unknown, otherwise a proof that verifies exactly when the slots asked for are
      servable. */
  lemma LeavesMultiProofExact(h: PairHash, leaves: seq<Hash>, requested: seq<Hash>)
    ensures |Tree(h, leaves)| % 2 == 1
    ensures var s := Standard(h, leaves);
            var r := MultiProofForLeaves(s, requested);
            if exists l :: l in requested && l !in leaves then r == None
            else
              Known(s.indices, requested) && r.Some?
              && VerifyMulti(h, Root(h, leaves), requested, r.value)
                 == if requested == [] || Servable(SlotsOf(s.indices, requested)) then Accepted else Rejected
  {
    var t, s := Tree(h, leaves), Standard(h, leaves);
    TreeIsWellFormed(h, leaves);
    if l :| l in requested && l !in leaves {
      UnknownLeafGetsNone(h, leaves, requested, l);
    } else {
      KnownSlots(h, leaves, requested);
      GeneratedVerifiesIffServable(h, t, SlotsOf(s.indices, requested));
    }
  }

  lemma KnownSlot(h: PairHash, leaves: seq<Hash>, leaf: Hash)
    requires leaf in leaves
    ensures var t, s := Tree(h, leaves), Standard(h, leaves);
            leaf in s.indices && IsLeafIndex(|t|, s.indices[leaf]) && t[s.indices[leaf]] == leaf
  {
    var t := Tree(h, leaves);
    TreeIsWellFormed(h, leaves);
    SlotsHoldLeaves(leaves, |t|, leaf);
    var slot := Standard(h, leaves).indices[leaf];
    assert t[|t| - 1 - (|t| - 1 - slot)] == leaves[|t| - 1 - slot];
  }

  lemma KnownSlots(h: PairHash, leaves: seq<Hash>, requested: seq<Hash>)
    requires forall l :: l in requested ==> l in leaves
    ensures var t, s := Tree(h, leaves), Standard(h, leaves);
            && Known(s.indices, requested)
            && AllLeafIndices(|t|, SlotsOf(s.indices, requested)) && InRange(SlotsOf(s.indices, requested), |t|)
            && Values(t, SlotsOf(s.indices, requested)) == requested
  {
    var t, s := Tree(h, leaves), Standard(h, leaves);
    forall k | 0 <= k < |requested|
      ensures requested[k] in s.indices && IsLeafIndex(|t|, s.indices[requested[k]])
      ensures t[s.indices[requested[k]]] == requested[k]
    {
      KnownSlot(h, leaves, requested[k]);
    }
    assert Values(t, SlotsOf(s.indices, requested)) == requested;
  }

  /** Of equal leaves the last one gives the slot, and so the proof. */
  lemma {:induction false} LastOfEqualLeaves(leaves: seq<Hash>, treeLen: nat, k: nat)
    requires |leaves| <= treeLen && k < |leaves|
    requires forall j :: k < j < |leaves| ==> leaves[j] != leaves[k]
    ensures leaves[k] in LeafSlots(leaves, treeLen) && LeafSlots(leaves, treeLen)[leaves[k]] == treeLen - 1 - k
    decreases |leaves|
  {
    var m := |leaves| - 1;
    if k < m {
      LastOfEqualLeaves(leaves[..m], treeLen, k);
    }
  }
}
