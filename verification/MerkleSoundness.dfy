/**
 What the verifier accepts was in the tree, when the hash is ideal: pairs never collide and
 no leaf is the hash of a pair. `IdealHash` exhibits such a hash.
 */
module MerkleSoundness {
  import opened MerkleTree
  import opened MerkleReplay
  import opened MerkleCompleteness

  // The hash of a pair; a named term for the two hypotheses below to hang on.
  ghost function PairHashOf(h: PairHash, left: Hash, right: Hash): Hash {
    h(left, right)
  }

  // `hash_pair` is injective.
  ghost predicate Ideal(h: PairHash) {
    forall a, b, c, d :: PairHashOf(h, a, b) == PairHashOf(h, c, d) ==> a == c && b == d
  }

  // `x` is not the hash of a pair: leaves are hashes of something else.
  ghost predicate OutsidePairs(h: PairHash, x: Hash) {
    forall a, b :: PairHashOf(h, a, b) != x
  }

  ghost predicate AllOutsidePairs(h: PairHash, xs: seq<Hash>) {
    forall k :: 0 <= k < |xs| ==> OutsidePairs(h, xs[k])
  }

  // The hypotheses about a tree: built with an ideal hash over genuine leaves.
  ghost predicate Honest(h: PairHash, t: seq<Hash>) {
    && Ideal(h) && WellFormed(h, t)
    && forall i {:trigger IsLeafIndex(|t|, i)} :: 0 <= i < |t| && IsLeafIndex(|t|, i) ==> OutsidePairs(h, t[i])
  }

  lemma TreeIsHonest(h: PairHash, leaves: seq<Hash>)
    requires Ideal(h) && leaves != [] && AllOutsidePairs(h, leaves)
    ensures Honest(h, Tree(h, leaves))
  {
    TreeIsWellFormed(h, leaves);
    var t := Tree(h, leaves);
    forall i | 0 <= i < |t| && IsLeafIndex(|t|, i)
      ensures OutsidePairs(h, t[i])
    {
      assert t[|t| - 1 - (|t| - 1 - i)] == leaves[|t| - 1 - i];
    }
  }

  // The commutative hash forgets the order of its two arguments and nothing else.
  lemma CommutativeHashPairIsInjective(h: PairHash, a: Hash, b: Hash, c: Hash, d: Hash)
    requires Ideal(h) && CommutativeHashPair(h, a, b) == CommutativeHashPair(h, c, d)
    ensures (a == c && b == d) || (a == d && b == c)
  {
    assert CommutativeHashPair(h, a, b) == if a < b then PairHashOf(h, a, b) else PairHashOf(h, b, a);
    assert CommutativeHashPair(h, c, d) == if c < d then PairHashOf(h, c, d) else PairHashOf(h, d, c);
  }

  lemma GenuineIsNoPair(h: PairHash, x: Hash, a: Hash, b: Hash)
    requires OutsidePairs(h, x)
    ensures CommutativeHashPair(h, a, b) != x
  {
    assert PairHashOf(h, a, b) != x && PairHashOf(h, b, a) != x;
  }

  // A slot holding the hash of a pair is an inner slot, and the pair is its children, in
  // one order or the other.
  lemma PairNamesChildren(h: PairHash, t: seq<Hash>, j: nat, a: Hash, b: Hash) returns (c: nat)
    requires Honest(h, t) && j < |t| && t[j] == CommutativeHashPair(h, a, b)
    ensures c > 0 && Parent(c) == j && c < |t| && Sibling(c) < |t|
    ensures t[c] == a && t[Sibling(c)] == b
  {
    if IsLeafIndex(|t|, j) {
      GenuineIsNoPair(h, t[j], a, b);
    }
    var l, r := LeftChild(j), RightChild(j);
    ChildrenInRange(|t|, j);
    assert HashesItsChildren(h, t, j);
    CommutativeHashPairIsInjective(h, a, b, t[l], t[r]);
    c := if t[l] == a && t[r] == b then l else r;
    SiblingInRange(|t|, c);
  }

  // ----- single proofs -----

  lemma ProofPathStep(t: seq<Hash>, i: nat)
    requires |t| % 2 == 1 && 0 < i < |t|
    ensures Sibling(i) < |t|
    ensures ProofPath(t, i) == [t[Sibling(i)]] + ProofPath(t, Parent(i))
  {
    SiblingInRange(|t|, i);
  }

  // Whatever folds to slot `j` is a slot below it, and the path is that slot's own path
  // down to `j`.
  lemma {:induction false} FoldNamesSlot(h: PairHash, t: seq<Hash>, j: nat, leaf: Hash, path: seq<Hash>)
    returns (i: nat)
    requires Honest(h, t) && j < |t| && Fold(h, leaf, path) == t[j]
    ensures i < |t| && t[i] == leaf && path + ProofPath(t, j) == ProofPath(t, i)
    decreases |path|
  {
    if path == [] {
      i := j;
      assert path + ProofPath(t, j) == ProofPath(t, j);
    } else {
      var last, init := path[|path| - 1], path[..|path| - 1];
      assert init + [last] == path;
      FoldSnoc(h, leaf, init, last);
      var c := PairNamesChildren(h, t, j, Fold(h, leaf, init), last);
      i := FoldNamesSlot(h, t, c, leaf, init);
      assert path + ProofPath(t, j) == init + ProofPath(t, c) by {
        ProofPathStep(t, c);
        assert path + ProofPath(t, j) == init + ([last] + ProofPath(t, j));
      }
    }
  }

  lemma {:induction false} FoldSnoc(h: PairHash, leaf: Hash, path: seq<Hash>, last: Hash)
    ensures Fold(h, leaf, path + [last]) == CommutativeHashPair(h, Fold(h, leaf, path), last)
    decreases |path|
  {
    if path == [] {
    } else {
      assert (path + [last])[1..] == path[1..] + [last];
      FoldSnoc(h, CommutativeHashPair(h, leaf, path[0]), path[1..], last);
    }
  }

  // `leaf` is the value of slot `i` and `path` is the path generated for it; in particular
  // `i` lies at depth `|path|`.
  ghost predicate NamesSlot(t: seq<Hash>, leaf: Hash, path: seq<Hash>, i: nat)
    requires |t| % 2 == 1
  {
    i < |t| && t[i] == leaf && path == ProofPath(t, i) && Depth(i) == |path|
  }

  /** A single proof verifies exactly when it is the generated path of a slot that holds the
      claimed value. */
  lemma SingleProofExact(h: PairHash, t: seq<Hash>, leaf: Hash, path: seq<Hash>)
    requires Honest(h, t)
    ensures VerifyProof(h, t[0], leaf, path) <==> exists i :: NamesSlot(t, leaf, path, i)
  {
    if VerifyProof(h, t[0], leaf, path) {
      var i := FoldNamesSlot(h, t, 0, leaf, path);
      assert path + ProofPath(t, 0) == path;
      assert NamesSlot(t, leaf, path, i);
    }
    if i :| NamesSlot(t, leaf, path, i) {
      ProofFoldsToRoot(h, t, i);
    }
  }

  lemma InnerSlotIsNoGenuineValue(h: PairHash, t: seq<Hash>, i: nat)
    requires WellFormed(h, t) && LeftChild(i) < |t|
    ensures !OutsidePairs(h, t[i])
  {
    ChildrenInRange(|t|, i);
    assert HashesItsChildren(h, t, i);
    if OutsidePairs(h, t[i]) {
      GenuineIsNoPair(h, t[i], t[LeftChild(i)], t[RightChild(i)]);
    }
  }

  // Inner slots hold pairs, so a claimed genuine leaf is found among the leaves.
  lemma GenuineValueIsLeaf(h: PairHash, t: seq<Hash>, i: nat)
    requires WellFormed(h, t) && i < |t| && OutsidePairs(h, t[i])
    ensures IsLeafIndex(|t|, i)
  {
    if LeftChild(i) < |t| {
      InnerSlotIsNoGenuineValue(h, t, i);
    }
  }

  lemma SingleProofSoundness(h: PairHash, leaves: seq<Hash>, leaf: Hash, path: seq<Hash>)
    requires Ideal(h) && leaves != [] && AllOutsidePairs(h, leaves) && OutsidePairs(h, leaf)
    requires VerifyProof(h, Root(h, leaves), leaf, path)
    ensures leaf in leaves
  {
    var t := Tree(h, leaves);
    TreeIsHonest(h, leaves);
    TreeIsWellFormed(h, leaves);
    SingleProofExact(h, t, leaf, path);
    var i :| NamesSlot(t, leaf, path, i);
    GenuineValueIsLeaf(h, t, i);
    assert t[|t| - 1 - (|t| - 1 - i)] == leaves[|t| - 1 - i];
  }

  // ----- multi-proofs: reading the replay backwards -----

  // `x` is `root` or lies below it.
  predicate Below(root: nat, x: nat) {
    x == root || (x > root && Below(root, Parent(x)))
  }

  // No slot of the list lies in the subtree of another one.
  ghost predicate Antichain(slots: seq<nat>) {
    forall i, j :: 0 <= i < |slots| && 0 <= j < |slots| && i != j ==> !Below(slots[i], slots[j])
  }

  lemma {:induction false} BelowParent(p: nat, c: nat, x: nat)
    requires c > 0 && Parent(c) == p && Below(c, x)
    ensures Below(p, x)
  {
    if x == c {
    } else {
      BelowParent(p, c, Parent(x));
    }
  }

  // Replacing a slot by one or both of its children keeps an antichain.
  lemma {:induction false} ChildStaysApart(p: nat, c: nat, other: nat)
    requires c > 0 && Parent(c) == p && !Below(p, other) && !Below(other, p)
    ensures !Below(c, other) && !Below(other, c)
  {
    assert Below(p, c);
    if Below(c, other) {
      BelowParent(p, c, other);
    }
  }

  lemma SiblingsAreApart(c: nat)
    requires c > 0
    ensures !Below(c, Sibling(c)) && !Below(Sibling(c), c)
  {
    Family(c);
  }

  lemma OneChildKeepsAntichain(rest: seq<nat>, c: nat)
    requires c > 0 && Antichain(rest + [Parent(c)])
    ensures Antichain([c] + rest)
  {
    var prev := rest + [Parent(c)];
    var next := [c] + rest;
    forall i | 0 <= i < |rest|
      ensures !Below(c, rest[i]) && !Below(rest[i], c)
    {
      assert prev[i] == rest[i] && prev[|rest|] == Parent(c);
      ChildStaysApart(Parent(c), c, rest[i]);
    }
    forall i, j | 0 <= i < |next| && 0 <= j < |next| && i != j
      ensures !Below(next[i], next[j])
    {
      if i > 0 && j > 0 {
        assert next[i] == prev[i - 1] && next[j] == prev[j - 1];
      }
    }
  }

  lemma BothChildrenKeepAntichain(rest: seq<nat>, c: nat)
    requires c > 0 && Antichain(rest + [Parent(c)])
    ensures Antichain([c, Sibling(c)] + rest)
  {
    Family(c);
    SiblingsAreApart(c);
    OneChildKeepsAntichain(rest, c);
    OneChildKeepsAntichain(rest, Sibling(c));
    var one, other, next := [c] + rest, [Sibling(c)] + rest, [c, Sibling(c)] + rest;
    forall i, j | 0 <= i < |next| && 0 <= j < |next| && i != j
      ensures !Below(next[i], next[j])
    {
      if i != 1 && j != 1 {
        assert next[i] == one[if i == 0 then 0 else i - 1];
        assert next[j] == one[if j == 0 then 0 else j - 1];
      } else if i > 0 && j > 0 {
        assert next[i] == other[i - 1] && next[j] == other[j - 1];
      }
    }
  }

  // `stack` holds the values of pairwise unrelated slots of `t`.
  ghost predicate Located(t: seq<Hash>, stack: seq<Hash>, slots: seq<nat>) {
    && |slots| == |stack| && InRange(slots, |t|) && Antichain(slots)
    && forall k :: 0 <= k < |stack| ==> t[slots[k]] == stack[k]
  }

  lemma ReplaceLast(t: seq<Hash>, rest: seq<Hash>, last: Hash, slots: seq<nat>, c: nat, a: Hash, b: Hash)
    requires Located(t, rest + [last], slots) && 0 < c < |t| && Sibling(c) < |t|
    requires Parent(c) == slots[|rest|] && t[c] == a && t[Sibling(c)] == b
    ensures Located(t, [a] + rest, [c] + slots[..|rest|])
    ensures Located(t, [a, b] + rest, [c, Sibling(c)] + slots[..|rest|])
  {
    var low := slots[..|rest|];
    assert low + [Parent(c)] == slots;
    OneChildKeepsAntichain(low, c);
    BothChildrenKeepAntichain(low, c);
    forall k | 0 <= k < |rest|
      ensures low[k] < |t| && t[low[k]] == rest[k]
    {
      assert (rest + [last])[k] == rest[k];
    }
  }

  // Backwards through one flag: the entry just pushed is traced to the two hashes it was
  // made from.
  lemma LocateOneTurn(h: PairHash, t: seq<Hash>, rest: seq<Hash>, a: Hash, b: Hash, slots: seq<nat>)
    returns (c: nat)
    requires Honest(h, t) && Located(t, rest + [CommutativeHashPair(h, a, b)], slots)
    ensures 0 < c < |t| && Sibling(c) < |t|
    ensures Located(t, [a] + rest, [c] + slots[..|rest|])
    ensures Located(t, [a, b] + rest, [c, Sibling(c)] + slots[..|rest|])
  {
    var pushed := rest + [CommutativeHashPair(h, a, b)];
    var j := slots[|rest|];
    assert t[j] == pushed[|rest|];
    c := PairNamesChildren(h, t, j, a, b);
    ReplaceLast(t, rest, pushed[|rest|], slots, c, a, b);
  }

  lemma {:induction false} LocateStack(h: PairHash, t: seq<Hash>, stack: seq<Hash>,
                                       path: seq<Hash>, flags: seq<bool>)
    returns (slots: seq<nat>)
    requires Honest(h, t)
    requires Replay(h, stack, path, flags) == Finished([t[0]], [])
    ensures Located(t, stack, slots)
    decreases |flags|
  {
    if flags == [] {
      slots := [0];
    } else if flags[0] {
      var rest := stack[2..];
      var next := LocateStack(h, t, rest + [CommutativeHashPair(h, stack[0], stack[1])], path, flags[1..]);
      var c := LocateOneTurn(h, t, rest, stack[0], stack[1], next);
      assert [stack[0], stack[1]] + rest == stack;
      slots := [c, Sibling(c)] + next[..|rest|];
    } else {
      var rest := stack[1..];
      var next := LocateStack(h, t, rest + [CommutativeHashPair(h, stack[0], path[0])], path[1..], flags[1..]);
      var c := LocateOneTurn(h, t, rest, stack[0], path[0], next);
      assert [stack[0]] + rest == stack;
      slots := [c] + next[..|rest|];
    }
  }

  // `claimed` sits at pairwise different positions of `leaves`.
  ghost predicate FoundAt(leaves: seq<Hash>, claimed: seq<Hash>, positions: seq<nat>) {
    && |positions| == |claimed| && InRange(positions, |leaves|)
    && (forall i, j :: 0 <= i < j < |positions| ==> positions[i] != positions[j])
    && forall k :: 0 <= k < |claimed| ==> leaves[positions[k]] == claimed[k]
  }

  // Without the claim found at the last position.
  lemma FoundWithoutLast(leaves: seq<Hash>, claimed: seq<Hash>, positions: seq<nat>, k: nat)
    requires leaves != [] && FoundAt(leaves, claimed, positions) && k < |positions| && positions[k] == |leaves| - 1
    ensures FoundAt(leaves[..|leaves| - 1], claimed[..k] + claimed[k + 1..], positions[..k] + positions[k + 1..])
    ensures multiset(claimed) == multiset(claimed[..k] + claimed[k + 1..]) + multiset{leaves[|leaves| - 1]}
  {
    var m := |leaves| - 1;
    var fewer := positions[..k] + positions[k + 1..];
    forall i | 0 <= i < |fewer|
      ensures fewer[i] < m
    {
      assert fewer[i] == positions[if i < k then i else i + 1];
    }
    assert claimed == claimed[..k] + [claimed[k]] + claimed[k + 1..];
  }

  lemma {:induction false} FoundIsSubMultiset(leaves: seq<Hash>, claimed: seq<Hash>, positions: seq<nat>)
    requires FoundAt(leaves, claimed, positions)
    ensures multiset(claimed) <= multiset(leaves)
    decreases |leaves|
  {
    assert positions != [] ==> positions[0] < |leaves|;
    if leaves == [] {
    } else {
      var m := |leaves| - 1;
      assert leaves[..m] + [leaves[m]] == leaves;
      if k :| 0 <= k < |positions| && positions[k] == m {
        FoundWithoutLast(leaves, claimed, positions, k);
        FoundIsSubMultiset(leaves[..m], claimed[..k] + claimed[k + 1..], positions[..k] + positions[k + 1..]);
      } else {
        FoundIsSubMultiset(leaves[..m], claimed, positions);
      }
    }
  }

  // Slots of genuine values are leaf slots; counted from the end of the array they are
  // positions in the leaf list.
  lemma SlotsToPositions(h: PairHash, t: seq<Hash>, leaves: seq<Hash>, claimed: seq<Hash>, slots: seq<nat>)
    returns (positions: seq<nat>)
    requires WellFormed(h, t) && HoldsLeaves(t, leaves) && Located(t, claimed, slots)
    requires AllOutsidePairs(h, claimed)
    ensures FoundAt(leaves, claimed, positions)
  {
    forall k | 0 <= k < |claimed|
      ensures IsLeafIndex(|t|, slots[k])
    {
      assert t[slots[k]] == claimed[k];
      GenuineValueIsLeaf(h, t, slots[k]);
    }
    positions := seq(|slots|, k requires 0 <= k < |slots| => |t| - 1 - slots[k]);
    forall k | 0 <= k < |claimed|
      ensures leaves[positions[k]] == claimed[k]
    {
      assert t[|t| - 1 - positions[k]] == leaves[positions[k]];
    }
    forall i, j | 0 <= i < j < |positions|
      ensures positions[i] != positions[j]
    {
      assert !Below(slots[i], slots[j]);
    }
  }

  /** Soundness: whatever path and flags come with them, accepted leaves are leaves of the
      tree, at pairwise different positions. */
  lemma MultiProofSoundness(h: PairHash, leaves: seq<Hash>, claimed: seq<Hash>, proof: MultiProof)
    requires Ideal(h) && leaves != [] && AllOutsidePairs(h, leaves) && AllOutsidePairs(h, claimed)
    requires VerifyMulti(h, Root(h, leaves), claimed, proof) == Accepted
    ensures exists positions :: FoundAt(leaves, claimed, positions)
    ensures multiset(claimed) <= multiset(leaves)
  {
    var t := Tree(h, leaves);
    TreeIsHonest(h, leaves);
    TreeIsWellFormed(h, leaves);
    ReplayConserves(h, claimed, proof.path, proof.flags);
    var r := Replay(h, claimed, proof.path, proof.flags);
    if |r.stack| == 1 {
      assert r == Finished([t[0]], []);
      var slots := LocateStack(h, t, claimed, proof.path, proof.flags);
      var positions := SlotsToPositions(h, t, leaves, claimed, slots);
      FoundIsSubMultiset(leaves, claimed, positions);
    } else {
      assert FoundAt(leaves, claimed, []);
      FoundIsSubMultiset(leaves, claimed, []);
    }
  }

  // ----- root binding -----

  // The values of the leaves below slot `i`.
  ghost function LeavesBelow(t: seq<Hash>, i: nat): multiset<Hash>
    requires |t| % 2 == 1 && i < |t|
    decreases |t| - i
  {
    if IsLeafIndex(|t|, i) then multiset{t[i]}
    else LeavesBelow(t, LeftChild(i)) + LeavesBelow(t, RightChild(i))
  }

  lemma InnerSlotCovers(t: seq<Hash>, i: nat)
    requires |t| % 2 == 1 && LeftChild(i) < |t|
    ensures LeavesBelow(t, i) == LeavesBelow(t, LeftChild(i)) + LeavesBelow(t, RightChild(i))
  {
  }

  lemma FamilyCovers(t: seq<Hash>, c: nat)
    requires |t| % 2 == 1 && 0 < c < |t| && Sibling(c) < |t|
    ensures LeavesBelow(t, Parent(c)) == LeavesBelow(t, c) + LeavesBelow(t, Sibling(c))
  {
    Family(c);
    InnerSlotCovers(t, Parent(c));
  }

  // The leaves below every slot, slot by slot.
  ghost function Covers(t: seq<Hash>): seq<multiset<Hash>>
    requires |t| % 2 == 1
  {
    seq(|t|, i requires 0 <= i < |t| => LeavesBelow(t, i))
  }

  // All the leaves below a run of `n` slots starting at `k`.
  ghost function RunCovers(below: seq<multiset<Hash>>, k: nat, n: nat): multiset<Hash>
    requires k + n <= |below|
    decreases n
  {
    if n == 0 then multiset{} else RunCovers(below, k, n - 1) + below[k + n - 1]
  }

  lemma {:induction false} RunFromTheFront(below: seq<multiset<Hash>>, k: nat, n: nat)
    requires k + n <= |below| && n > 0
    ensures RunCovers(below, k, n) == below[k] + RunCovers(below, k + 1, n - 1)
    decreases n
  {
    if n > 1 {
      RunFromTheFront(below, k, n - 1);
    } else {
      assert RunCovers(below, k, 0) == multiset{};
    }
  }

  ghost predicate PassesOn(below: seq<multiset<Hash>>, i: nat) {
    RightChild(i) < |below| && below[i] == below[LeftChild(i)] + below[RightChild(i)]
  }

  // The slots k..2k are a frontier: swapping slot k for its two children turns frontier k
  // into frontier k+1 and loses no leaf.
  lemma {:induction false} FrontierKeepsLeaves(below: seq<multiset<Hash>>, k: nat)
    requires 2 * k < |below|
    requires forall i :: 0 <= i < k ==> PassesOn(below, i)
    ensures RunCovers(below, k, k + 1) == below[0]
  {
    if k == 0 {
      assert RunCovers(below, 0, 1) == RunCovers(below, 0, 0) + below[0];
    } else {
      var j := k - 1;
      assert PassesOn(below, j);
      FrontierKeepsLeaves(below, j);
      RunFromTheFront(below, j, k);
      assert RunCovers(below, k, k + 1) == RunCovers(below, k, k) + below[RightChild(j)];
      assert RunCovers(below, k, k) == RunCovers(below, k, j) + below[LeftChild(j)];
    }
  }

  lemma {:induction false} RunOfLeaves(below: seq<multiset<Hash>>, k: nat, values: seq<Hash>)
    requires k + |values| <= |below|
    requires forall i :: 0 <= i < |values| ==> below[k + i] == multiset{values[i]}
    ensures RunCovers(below, k, |values|) == multiset(values)
    decreases |values|
  {
    if values == [] {
    } else {
      var init, last := values[..|values| - 1], values[|values| - 1];
      assert init + [last] == values;
      RunOfLeaves(below, k, init);
    }
  }

  lemma {:induction false} ReversedHasSameMultiset(a: seq<Hash>, b: seq<Hash>)
    requires |a| == |b| && forall i :: 0 <= i < |a| ==> a[i] == b[|b| - 1 - i]
    ensures multiset(a) == multiset(b)
    decreases |a|
  {
    if a == [] {
    } else {
      var m := |a| - 1;
      assert a == a[..m] + [a[m]] && b == [b[0]] + b[1..];
      ReversedHasSameMultiset(a[..m], b[1..]);
    }
  }

  lemma LeavesAreTheTail(t: seq<Hash>, leaves: seq<Hash>)
    requires leaves != [] && HoldsLeaves(t, leaves)
    ensures multiset(t[|leaves| - 1..]) == multiset(leaves)
  {
    var tail := t[|leaves| - 1..];
    forall i | 0 <= i < |tail|
      ensures tail[i] == leaves[|leaves| - 1 - i]
    {
      assert t[|t| - 1 - (|leaves| - 1 - i)] == leaves[|leaves| - 1 - i];
    }
    ReversedHasSameMultiset(tail, leaves);
  }

  // The inner slots pass their leaves on, the leaf slots cover themselves.
  lemma CoversByKind(t: seq<Hash>, i: nat)
    requires |t| % 2 == 1 && i < |t|
    ensures |Covers(t)| == |t| && Covers(t)[0] == LeavesBelow(t, 0)
    ensures LeftChild(i) < |t| ==> RightChild(i) < |t|
    ensures LeftChild(i) < |t| ==> Covers(t)[i] == Covers(t)[LeftChild(i)] + Covers(t)[RightChild(i)]
    ensures IsLeafIndex(|t|, i) ==> Covers(t)[i] == multiset{t[i]}
  {
    if LeftChild(i) < |t| {
      ChildrenInRange(|t|, i);
      InnerSlotCovers(t, i);
    }
  }

  lemma CoversPassOn(t: seq<Hash>, k: nat)
    requires |t| == 2 * k + 1
    ensures forall i :: 0 <= i < k ==> PassesOn(Covers(t), i)
  {
    forall i | 0 <= i < k
      ensures PassesOn(Covers(t), i)
    {
      CoversByKind(t, i);
    }
  }

  // The frontier made of all leaf slots covers what the root covers.
  lemma LeafSlotsCoverAll(t: seq<Hash>, k: nat)
    requires |t| == 2 * k + 1
    ensures multiset(t[k..]) == LeavesBelow(t, 0)
  {
    var below := Covers(t);
    CoversPassOn(t, k);
    CoversByKind(t, 0);
    LeafSlotsCoverThemselves(t, k);
    FrontierIsLeaves(below, k, t[k..]);
  }

  lemma FrontierIsLeaves(below: seq<multiset<Hash>>, k: nat, values: seq<Hash>)
    requires |values| == k + 1 && 2 * k < |below|
    requires forall i :: 0 <= i < k ==> PassesOn(below, i)
    requires forall i :: 0 <= i < |values| ==> below[k + i] == multiset{values[i]}
    ensures multiset(values) == below[0]
  {
    FrontierKeepsLeaves(below, k);
    RunOfLeaves(below, k, values);
  }

  lemma LeafSlotsCoverThemselves(t: seq<Hash>, k: nat)
    requires |t| == 2 * k + 1
    ensures |Covers(t)| == |t| && forall i :: 0 <= i < |t[k..]| ==> Covers(t)[k + i] == multiset{t[k..][i]}
  {
    forall i | 0 <= i < |t[k..]|
      ensures Covers(t)[k + i] == multiset{t[k..][i]}
    {
      CoversByKind(t, k + i);
    }
  }

  // Every leaf lies below the root exactly once.
  lemma RootCoversLeaves(t: seq<Hash>, leaves: seq<Hash>)
    requires leaves != [] && HoldsLeaves(t, leaves)
    ensures LeavesBelow(t, 0) == multiset(leaves)
  {
    LeafSlotsCoverAll(t, |leaves| - 1);
    LeavesAreTheTail(t, leaves);
  }

  // Equal hashes in two trees head subtrees over the same leaves, whatever the shapes.
  lemma {:induction false} EqualSlotsEqualLeaves(h: PairHash, s: seq<Hash>, i: nat, t: seq<Hash>, j: nat)
    requires Honest(h, s) && Honest(h, t) && i < |s| && j < |t| && s[i] == t[j]
    ensures LeavesBelow(s, i) == LeavesBelow(t, j)
    decreases |s| - i
  {
    if IsLeafIndex(|s|, i) {
      GenuineValueIsLeaf(h, t, j);
    } else {
      var l, r := LeftChild(i), RightChild(i);
      ChildrenInRange(|s|, i);
      assert HashesItsChildren(h, s, i);
      var c := PairNamesChildren(h, t, j, s[l], s[r]);
      InnerSlotCovers(s, i);
      FamilyCovers(t, c);
      EqualSlotsEqualLeaves(h, s, l, t, c);
      EqualSlotsEqualLeaves(h, s, r, t, Sibling(c));
    }
  }

  /** Root binding: non-empty leaf lists of any two lengths with the same root hold the same
      leaves, each the same number of times. */
  lemma RootBinding(h: PairHash, a: seq<Hash>, b: seq<Hash>)
    requires Ideal(h) && a != [] && b != [] && AllOutsidePairs(h, a) && AllOutsidePairs(h, b)
    requires Root(h, a) == Root(h, b)
    ensures multiset(a) == multiset(b)
  {
    TreeIsHonest(h, a);
    TreeIsHonest(h, b);
    TreeIsWellFormed(h, a);
    TreeIsWellFormed(h, b);
    EqualSlotsEqualLeaves(h, Tree(h, a), 0, Tree(h, b), 0);
    RootCoversLeaves(Tree(h, a), a);
    RootCoversLeaves(Tree(h, b), b);
  }
}
