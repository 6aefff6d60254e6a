/**
 What the prover produces, the verifier accepts: single proofs and multi-proofs, for any
 hash function whatever.

 A multi-proof is produced by a work queue of slot indices and checked by a stack of hashes
 that never sees an index. The link is a simulation: the stack always holds, slot by slot,
 the values of the queue.
 */
module MerkleCompleteness {
  import opened MerkleTree

  // ----- single proofs -----

  // Folding a slot's value up its own path reaches the root. Together with the length of
  // `ProofPath` this says that no sibling was skipped.
  lemma {:induction false} ProofFoldsToRoot(h: PairHash, t: seq<Hash>, i: nat)
    requires WellFormed(h, t) && i < |t|
    ensures VerifyProof(h, t[0], t[i], ProofPath(t, i))
  {
    if i == 0 {
    } else {
      Family(i);
      SiblingInRange(|t|, i);
      assert HashesItsChildren(h, t, Parent(i));
      CommutativeHashPairCommutes(h, t[i], t[Sibling(i)]);
      assert ProofPath(t, i)[1..] == ProofPath(t, Parent(i));
      ProofFoldsToRoot(h, t, Parent(i));
    }
  }

  // ----- multi-proofs: the simulation -----

  function Values(t: seq<Hash>, queue: seq<nat>): seq<Hash>
    requires InRange(queue, |t|)
  {
    seq(|queue|, k requires 0 <= k < |queue| => t[queue[k]])
  }

  // One turn of the queue is one flag of the stack machine.
  lemma ReplayOneTurn(h: PairHash, t: seq<Hash>, queue: seq<nat>, path: seq<Hash>, flags: seq<bool>)
    requires WellFormed(h, t) && InRange(queue, |t|) && !Stopped(queue)
    ensures InRange(Advance(queue), |t|)
    ensures Replay(h, Values(t, queue), Taken(t, queue) + path, [Merges(queue)] + flags)
         == Replay(h, Values(t, Advance(queue)), path, flags)
  {
    var j := queue[0];
    AdvanceInRange(queue, |t|);
    Family(j);
    SiblingInRange(|t|, j);
    assert HashesItsChildren(h, t, Parent(j));
    CommutativeHashPairCommutes(h, t[j], t[Sibling(j)]);
    var stack := Values(t, queue);
    var parent := CommutativeHashPair(h, t[j], t[Sibling(j)]);
    assert parent == t[Parent(j)];
    assert ([Merges(queue)] + flags)[1..] == flags;
    if Merges(queue) {
      assert stack[2..] + [parent] == Values(t, Advance(queue));
      assert [] + path == path;
    } else {
      assert stack[1..] + [parent] == Values(t, Advance(queue));
      assert (Taken(t, queue) + path)[1..] == path;
    }
  }

  lemma {:induction false} DrainInRange(queue: seq<nat>, treeLen: nat)
    requires InRange(queue, treeLen)
    ensures InRange(Drain(queue), treeLen)
    decreases Sum(queue)
  {
    if Stopped(queue) {
    } else {
      AdvanceInRange(queue, treeLen);
      DrainInRange(Advance(queue), treeLen);
    }
  }

  // Replaying what the generator emitted from `queue` never crashes and ends with the
  // values of the drained queue and nothing read beyond the emitted path.
  lemma {:induction false} ReplayFollowsQueue(h: PairHash, t: seq<Hash>, queue: seq<nat>)
    requires WellFormed(h, t) && InRange(queue, |t|)
    ensures InRange(Drain(queue), |t|)
    ensures Replay(h, Values(t, queue), EmitPath(t, queue), EmitFlags(queue))
         == Finished(Values(t, Drain(queue)), [])
    decreases Sum(queue)
  {
    DrainInRange(queue, |t|);
    if Stopped(queue) {
    } else {
      AdvanceInRange(queue, |t|);
      ReplayOneTurn(h, t, queue, EmitPath(t, Advance(queue)), EmitFlags(Advance(queue)));
      ReplayFollowsQueue(h, t, Advance(queue));
    }
  }

  // Every emitted flag is paid for: a `true` by a queue entry, a `false` by a path entry.
  lemma {:induction false} EmittedCounts(t: seq<Hash>, queue: seq<nat>)
    requires |t| % 2 == 1 && InRange(queue, |t|)
    ensures |EmitPath(t, queue)| == CountFalse(EmitFlags(queue))
    ensures |queue| + |EmitPath(t, queue)| == |Drain(queue)| + |EmitFlags(queue)|
    ensures queue != [] ==> Drain(queue) != []
    decreases Sum(queue)
  {
    if Stopped(queue) {
    } else {
      AdvanceInRange(queue, |t|);
      EmittedCounts(t, Advance(queue));
      assert ([Merges(queue)] + EmitFlags(Advance(queue)))[1..] == EmitFlags(Advance(queue));
    }
  }

  // ----- multi-proofs: when a generated proof verifies -----

  lemma LeafIndicesInRange(treeLen: nat, indices: seq<nat>)
    requires AllLeafIndices(treeLen, indices)
    ensures InRange(indices, treeLen)
  {
  }

  /** The exact condition, for every list of leaf indices in any order and with any
      repetitions: the generated proof verifies when its counts add up, which the caller can
      check before sending it. It is otherwise rejected, and it never crashes the verifier. */
  lemma GeneratedVerifiesIffCountsMatch(h: PairHash, t: seq<Hash>, indices: seq<nat>)
    requires WellFormed(h, t) && AllLeafIndices(|t|, indices)
    ensures InRange(indices, |t|) && MultiProofFor(t, indices).Some?
    ensures var proof := MultiProofFor(t, indices).value;
            VerifyMulti(h, t[0], Values(t, indices), proof)
            == if |indices| + |proof.path| == |proof.flags| + 1 then Accepted else Rejected
  {
    LeafIndicesInRange(|t|, indices);
    if indices != [] {
      ReplayFollowsQueue(h, t, indices);
      EmittedCounts(t, indices);
    }
  }

  // Strictly descending, and nothing as small as the front's parent: the shape the queue
  // keeps when it starts from descending leaves.
  predicate Orderly(queue: seq<nat>) {
    && (forall i, j :: 0 <= i < j < |queue| ==> queue[i] > queue[j])
    && (queue != [] && queue[0] > 0 ==> forall i :: 0 <= i < |queue| ==> queue[i] > Parent(queue[0]))
  }

  lemma OrderlyIsKept(queue: seq<nat>)
    requires Orderly(queue) && !Stopped(queue)
    ensures Orderly(Advance(queue))
  {
    var j, next := queue[0], Advance(queue);
    Family(j);
    if |next| > 1 {
      // The new front is neither `j` nor its sibling, and lies below both.
      assert next[0] < j && next[0] != Sibling(j);
      assert next[0] > 0 ==> Parent(next[0]) < Parent(j);
    }
  }

  // Slot 0 is popped only when it is alone in the queue.
  lemma {:induction false} OrderlyDrainsToRoot(queue: seq<nat>)
    requires Orderly(queue) && queue != []
    ensures Drain(queue) == [0]
    decreases Sum(queue)
  {
    assert |queue| > 1 ==> queue[0] > queue[1];
    if Stopped(queue) {
    } else {
      OrderlyIsKept(queue);
      OrderlyDrainsToRoot(Advance(queue));
    }
  }

  predicate StrictlyDescending(indices: seq<nat>) {
    forall i, j :: 0 <= i < j < |indices| ==> indices[i] > indices[j]
  }

  lemma DescendingLeavesAreOrderly(treeLen: nat, indices: seq<nat>)
    requires AllLeafIndices(treeLen, indices) && StrictlyDescending(indices)
    ensures Orderly(indices)
  {
    if indices != [] && indices[0] > 0 {
      assert IsLeafIndex(treeLen, indices[0]);
      forall i | 0 <= i < |indices|
        ensures indices[i] > Parent(indices[0])
      {
        assert IsLeafIndex(treeLen, indices[i]);
      }
    }
  }

  /** Completeness: strictly descending leaf indices, the empty list included, always yield
      a proof that verifies. */
  lemma MultiProofCompleteness(h: PairHash, t: seq<Hash>, indices: seq<nat>)
    requires WellFormed(h, t) && AllLeafIndices(|t|, indices) && StrictlyDescending(indices)
    ensures InRange(indices, |t|) && MultiProofFor(t, indices).Some?
    ensures VerifyMulti(h, t[0], Values(t, indices), MultiProofFor(t, indices).value) == Accepted
  {
    GeneratedVerifiesIffCountsMatch(h, t, indices);
    if indices != [] {
      DescendingLeavesAreOrderly(|t|, indices);
      OrderlyDrainsToRoot(indices);
      EmittedCounts(t, indices);
    }
  }

  // The order matters: in a tree of five slots, slots 2 and 3 asked for in ascending order
  // give a proof that does not verify, for any hash function.
  lemma AscendingCounterexample(h: PairHash, t: seq<Hash>)
    requires WellFormed(h, t) && |t| == 5
    ensures AllLeafIndices(5, [2, 3]) && InRange([2, 3], 5)
    ensures VerifyMulti(h, t[0], Values(t, [2, 3]), MultiProofFor(t, [2, 3]).value) == Rejected
  {
    GeneratedVerifiesIffCountsMatch(h, t, [2, 3]);
    assert Advance([2, 3]) == [3, 0];
    assert Advance([3, 0]) == [0, 1];
    assert Drain([2, 3]) == [0, 1];
    EmittedCounts(t, [2, 3]);
  }

  // Only leaves are served: any other index gives no proof at all.
  lemma OnlyLeavesAreServed(t: seq<Hash>, indices: seq<nat>)
    requires |t| % 2 == 1
    ensures MultiProofFor(t, indices).Some? <==> forall k :: 0 <= k < |indices| ==>
              indices[k] < |t| && 2 * indices[k] + 1 >= |t|
  {
    if AllLeafIndices(|t|, indices) {
      assert forall k :: 0 <= k < |indices| ==> IsLeafIndex(|t|, indices[k]);
    }
  }
}
