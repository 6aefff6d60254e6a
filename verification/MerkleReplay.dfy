/**
 The verifier's stack machine on arbitrary input: what it conserves, exactly when it
 crashes, and that its last two checks can never fail.
 */
module MerkleReplay {
  import opened MerkleTree

  // Each flag uses up exactly one hash, and something is always left on the stack.
  lemma {:induction false} ReplayConserves(h: PairHash, stack: seq<Hash>, path: seq<Hash>, flags: seq<bool>)
    requires Replay(h, stack, path, flags).Finished?
    ensures var r := Replay(h, stack, path, flags);
            |r.stack| + |r.unread| + |flags| == |stack| + |path|
    ensures flags != [] || stack != [] ==> Replay(h, stack, path, flags).stack != []
    decreases |flags|
  {
    if flags == [] {
    } else {
      if flags[0] {
        ReplayConserves(h, stack[2..] + [CommutativeHashPair(h, stack[0], stack[1])], path, flags[1..]);
      } else {
        ReplayConserves(h, stack[1..] + [CommutativeHashPair(h, stack[0], path[0])], path[1..], flags[1..]);
      }
    }
  }

  // Some flag finds fewer hashes on the stack than it takes; `height` is the stack's size.
  predicate Underflows(height: nat, flags: seq<bool>)
    decreases |flags|
  {
    flags != []
    && (height < (if flags[0] then 2 else 1)
        || Underflows(if flags[0] then height - 1 else height, flags[1..]))
  }

  // Given as many path hashes as `false` flags, the cursor never overruns the path: the
  // only crash is an empty stack.
  lemma {:induction false} ReplayCrashesIffUnderflows(h: PairHash, stack: seq<Hash>, path: seq<Hash>, flags: seq<bool>)
    requires CountFalse(flags) <= |path|
    ensures Replay(h, stack, path, flags) == Crashed <==> Underflows(|stack|, flags)
    decreases |flags|
  {
    if flags == [] {
    } else {
      if flags[0] {
        if |stack| >= 2 {
          ReplayCrashesIffUnderflows(h, stack[2..] + [CommutativeHashPair(h, stack[0], stack[1])], path, flags[1..]);
        }
      } else if stack != [] {
        ReplayCrashesIffUnderflows(h, stack[1..] + [CommutativeHashPair(h, stack[0], path[0])], path[1..], flags[1..]);
      }
    }
  }

  /** The verifier panics exactly when the counts pass and a flag underflows the stack, a
      condition on the leaf count and the flags alone; otherwise exactly one hash is left,
      on the stack or in the path, so the final catch-all arm is never taken. */
  lemma VerifierOutcome(h: PairHash, root: Hash, leaves: seq<Hash>, proof: MultiProof)
    ensures VerifyMulti(h, root, leaves, proof) == Panicked
       <==> CountsMatch(|leaves|, proof) && Underflows(|leaves|, proof.flags)
    ensures CountsMatch(|leaves|, proof) && !Underflows(|leaves|, proof.flags) ==>
              var r := Replay(h, leaves, proof.path, proof.flags);
              r.Finished? && |r.stack| + |r.unread| == 1
              && (|r.unread| == 1 <==> leaves == [] && proof.flags == [])
  {
    if CountsMatch(|leaves|, proof) {
      ReplayCrashesIffUnderflows(h, leaves, proof.path, proof.flags);
      if !Underflows(|leaves|, proof.flags) {
        ReplayConserves(h, leaves, proof.path, proof.flags);
      }
    }
  }

  // A proof a caller can be handed that makes the verifier panic.
  lemma PanicExample(h: PairHash, root: Hash, leaf: Hash, x: Hash)
    ensures VerifyMulti(h, root, [leaf], MultiProof([x], [true])) == Panicked
  {
    VerifierOutcome(h, root, [leaf], MultiProof([x], [true]));
  }

  // ----- a proof fits one root -----

  // The root a replay ends with: the one hash left, on the stack or in the path.
  lemma AcceptedRoot(h: PairHash, root: Hash, leaves: seq<Hash>, proof: MultiProof)
    requires VerifyMulti(h, root, leaves, proof) == Accepted
    ensures var r := Replay(h, leaves, proof.path, proof.flags);
            r.Finished? && r.stack + r.unread == [root]
  {
  }

  /** One proof fits one root: leaves, path and flags are accepted against no two roots. */
  lemma OneRootPerProof(h: PairHash, r1: Hash, r2: Hash, leaves: seq<Hash>, proof: MultiProof)
    requires VerifyMulti(h, r1, leaves, proof) == Accepted && VerifyMulti(h, r2, leaves, proof) == Accepted
    ensures r1 == r2
  {
    AcceptedRoot(h, r1, leaves, proof);
    AcceptedRoot(h, r2, leaves, proof);
    assert [r1][0] == [r2][0];
  }

  /** Whatever passes the two counts without crashing fits exactly one root. */
  lemma SomeRootFits(h: PairHash, leaves: seq<Hash>, proof: MultiProof)
    requires CountsMatch(|leaves|, proof) && !Underflows(|leaves|, proof.flags)
    ensures exists root :: VerifyMulti(h, root, leaves, proof) == Accepted
  {
    VerifierOutcome(h, 0, leaves, proof);
    var r := Replay(h, leaves, proof.path, proof.flags);
    var root := if r.stack != [] then r.stack[0] else r.unread[0];
    assert VerifyMulti(h, root, leaves, proof) == Accepted;
  }

  /** Without leaves the one accepted proof is the root itself, with no flags. */
  lemma EmptyClaimExact(h: PairHash, root: Hash, proof: MultiProof)
    ensures VerifyMulti(h, root, [], proof) == Accepted <==> proof == MultiProof([root], [])
  {
    if proof.flags == [] {
      assert CountsMatch(0, proof) <==> |proof.path| == 1;
    } else {
      VerifierOutcome(h, root, [], proof);
      assert Underflows(0, proof.flags);
    }
  }
}
