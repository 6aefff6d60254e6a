/**
 The complete binary Merkle tree kept in one flat array, its single proofs and its
 multi-proofs (types/src/cryptography/merkle_tree.rs).

 `hash_pair` is a parameter `h` of everything below, so whatever is proved here holds for
 any hash function; the soundness modules add hypotheses about it where they need them.
 */
module MerkleTree {
  import opened Wrappers

  // A 32-byte hash, compared as the big-endian number it spells.
  type Hash = nat

  type PairHash = (Hash, Hash) -> Hash

  // The one slot of a tree without leaves.
  const DEFAULT_HASH: Hash := 0

  datatype MerkleError = InvalidIndex(index: nat)

  datatype Result<+T> = Ok(value: T) | Err(error: MerkleError)

  datatype MultiProof = MultiProof(path: seq<Hash>, flags: seq<bool>)

  // `verify_multi_proof` returns a boolean or panics on an empty stack.
  datatype Verdict = Accepted | Rejected | Panicked

  function CommutativeHashPair(h: PairHash, left: Hash, right: Hash): Hash {
    if left < right then h(left, right) else h(right, left)
  }

  lemma CommutativeHashPairCommutes(h: PairHash, a: Hash, b: Hash)
    ensures CommutativeHashPair(h, a, b) == CommutativeHashPair(h, b, a)
  {
  }

  // The smaller hash goes first, whichever way round the two are given.
  lemma SmallerGoesFirst(h: PairHash, low: Hash, high: Hash)
    requires low <= high
    ensures CommutativeHashPair(h, low, high) == h(low, high) == CommutativeHashPair(h, high, low)
  {
  }

  // ----- index arithmetic -----

  function LeftChild(i: nat): nat { 2 * i + 1 }

  function RightChild(i: nat): nat { 2 * i + 2 }

  function Parent(i: nat): nat
    requires i > 0
  {
    (i - 1) / 2
  }

  function Sibling(i: nat): nat
    requires i > 0
  {
    if i % 2 == 0 then i - 1 else i + 1
  }

  predicate IsLeafIndex(treeLen: nat, i: nat) {
    i < treeLen && LeftChild(i) >= treeLen
  }

  function Depth(i: nat): nat {
    if i == 0 then 0 else 1 + Depth(Parent(i))
  }

  // Parent, sibling and children are one and the same family.
  lemma Family(i: nat)
    requires i > 0
    ensures Parent(i) < i && Sibling(i) > 0 && Sibling(i) != i
    ensures Parent(Sibling(i)) == Parent(i) && Sibling(Sibling(i)) == i
    ensures (i == LeftChild(Parent(i)) && Sibling(i) == RightChild(Parent(i)))
         || (i == RightChild(Parent(i)) && Sibling(i) == LeftChild(Parent(i)))
  {
  }

  // A tree has an odd number of slots, so no sibling is missing.
  lemma SiblingInRange(treeLen: nat, i: nat)
    requires treeLen % 2 == 1 && 0 < i < treeLen
    ensures Sibling(i) < treeLen && Parent(i) < treeLen
  {
  }

  lemma ChildrenInRange(treeLen: nat, i: nat)
    requires treeLen % 2 == 1 && LeftChild(i) < treeLen
    ensures RightChild(i) < treeLen
  {
  }

  // ----- the tree -----

  // The value of slot `i` in the tree over `leaves`: leaves are stored reversed at the end
  // of the array and every other slot hashes its two children.
  function Node(h: PairHash, leaves: seq<Hash>, i: nat): Hash
    requires i < 2 * |leaves| - 1
    decreases 2 * |leaves| - i
  {
    if i < |leaves| - 1
    then CommutativeHashPair(h, Node(h, leaves, LeftChild(i)), Node(h, leaves, RightChild(i)))
    else leaves[2 * |leaves| - 2 - i]
  }

  function Tree(h: PairHash, leaves: seq<Hash>): (t: seq<Hash>)
    ensures |t| == if leaves == [] then 1 else 2 * |leaves| - 1
    ensures leaves == [] ==> t == [0]
  {
    if leaves == [] then [DEFAULT_HASH]
    else seq(2 * |leaves| - 1, i requires 0 <= i < 2 * |leaves| - 1 => Node(h, leaves, i))
  }

  function Root(h: PairHash, leaves: seq<Hash>): Hash {
    Tree(h, leaves)[0]
  }

  ghost predicate HashesItsChildren(h: PairHash, t: seq<Hash>, i: nat)
    requires |t| % 2 == 1 && LeftChild(i) < |t|
  {
    t[i] == CommutativeHashPair(h, t[LeftChild(i)], t[RightChild(i)])
  }

  // The shape every tree has: an odd number of slots, every slot with a child is the hash
  // of its two children.
  ghost predicate WellFormed(h: PairHash, t: seq<Hash>) {
    && |t| % 2 == 1
    && forall i {:trigger HashesItsChildren(h, t, i)} :: 0 <= i && LeftChild(i) < |t| ==> HashesItsChildren(h, t, i)
  }

  // `t` has the leaves in reverse order at its end.
  ghost predicate HoldsLeaves(t: seq<Hash>, leaves: seq<Hash>) {
    && |t| == 2 * |leaves| - 1
    && forall i :: 0 <= i < |leaves| ==> t[|t| - 1 - i] == leaves[i]
  }

  lemma TreeIsWellFormed(h: PairHash, leaves: seq<Hash>)
    ensures WellFormed(h, Tree(h, leaves))
    ensures leaves != [] ==> HoldsLeaves(Tree(h, leaves), leaves)
  {
    var t := Tree(h, leaves);
    forall i: nat | LeftChild(i) < |t|
      ensures HashesItsChildren(h, t, i)
    {
      assert t[i] == Node(h, leaves, i);
    }
  }

  lemma InnerSlot(h: PairHash, leaves: seq<Hash>, i: nat)
    requires i < |leaves| - 1
    ensures var t := Tree(h, leaves);
            t[i] == CommutativeHashPair(h, t[LeftChild(i)], t[RightChild(i)])
  {
  }

  lemma LeafSlot(h: PairHash, leaves: seq<Hash>, k: nat)
    requires k < |leaves|
    ensures Tree(h, leaves)[2 * |leaves| - 2 - k] == leaves[k]
  {
  }

  lemma {:induction false} SlotIsUnique(h: PairHash, leaves: seq<Hash>, t: seq<Hash>, i: nat)
    requires leaves != [] && WellFormed(h, t) && HoldsLeaves(t, leaves) && i < |t|
    ensures t[i] == Node(h, leaves, i)
    decreases |t| - i
  {
    if i < |leaves| - 1 {
      SlotIsUnique(h, leaves, t, LeftChild(i));
      SlotIsUnique(h, leaves, t, RightChild(i));
      assert HashesItsChildren(h, t, i);
    } else {
      var k := |t| - 1 - i;
      assert t[|t| - 1 - k] == leaves[k];
    }
  }

  // The two conditions pin the array down completely.
  lemma TreeIsUnique(h: PairHash, leaves: seq<Hash>, t: seq<Hash>)
    requires leaves != [] && WellFormed(h, t) && HoldsLeaves(t, leaves)
    ensures t == Tree(h, leaves)
  {
    forall i | 0 <= i < |t|
      ensures t[i] == Tree(h, leaves)[i]
    {
      SlotIsUnique(h, leaves, t, i);
    }
  }

  /** `MerkleTree::new`: fills the array in place, leaves first, then the inner slots from
      the last one down to the root. */
  method New(h: PairHash, leaves: seq<Hash>) returns (tree: seq<Hash>)
    ensures tree == Tree(h, leaves)
  {
    if leaves == [] {
      return [DEFAULT_HASH];
    }
    var treeLen := 2 * |leaves| - 1;
    var a := new Hash[treeLen](_ => DEFAULT_HASH);
    for i := 0 to |leaves|
      invariant forall k :: 0 <= k < i ==> a[treeLen - 1 - k] == leaves[k]
    {
      a[treeLen - 1 - i] := leaves[i];
    }
    forall j | |leaves| - 1 <= j < treeLen
      ensures a[j] == Tree(h, leaves)[j]
    {
      var k := treeLen - 1 - j;
      assert a[treeLen - 1 - k] == leaves[k];
      LeafSlot(h, leaves, k);
    }
    ghost var t := Tree(h, leaves);
    for i := treeLen - |leaves| downto 0
      invariant forall j :: i <= j < treeLen ==> a[j] == t[j]
    {
      InnerSlot(h, leaves, i);
      a[i] := CommutativeHashPair(h, a[LeftChild(i)], a[RightChild(i)]);
    }
    tree := a[..];
  }

  // ----- single proofs -----

  // The siblings met on the way from slot `i` to the root.
  function ProofPath(t: seq<Hash>, i: nat): (path: seq<Hash>)
    requires |t| % 2 == 1 && i < |t|
    ensures |path| == Depth(i)
  {
    if i == 0 then [] else [t[Sibling(i)]] + ProofPath(t, Parent(i))
  }

  /** `MerkleTree::generate_proof`. The guard `sibling < tree_len` is kept; the result shows
      that it never drops a sibling. */
  method GenerateProof(t: seq<Hash>, index: nat) returns (r: Result<seq<Hash>>)
    requires |t| % 2 == 1
    ensures IsLeafIndex(|t|, index) ==> r == Ok(ProofPath(t, index))
    ensures !IsLeafIndex(|t|, index) ==> r == Err(InvalidIndex(index))
  {
    if !IsLeafIndex(|t|, index) {
      return Err(InvalidIndex(index));
    }
    var path: seq<Hash>, current: nat := [], index;
    while current > 0
      invariant current < |t|
      invariant path + ProofPath(t, current) == ProofPath(t, index)
    {
      var sibling := Sibling(current);
      if sibling < |t| {
        path := path + [t[sibling]];
      }
      current := Parent(current);
    }
    assert path + [] == path;
    r := Ok(path);
  }

  // The leaf hashed with the path entries, one after the other.
  function Fold(h: PairHash, leaf: Hash, path: seq<Hash>): Hash
    decreases |path|
  {
    if path == [] then leaf else Fold(h, CommutativeHashPair(h, leaf, path[0]), path[1..])
  }

  predicate VerifyProof(h: PairHash, root: Hash, leaf: Hash, path: seq<Hash>) {
    root == Fold(h, leaf, path)
  }

  // ----- multi-proofs: the generator's work queue -----

  predicate InRange(queue: seq<nat>, treeLen: nat) {
    forall k :: 0 <= k < |queue| ==> queue[k] < treeLen
  }

  // The front node's sibling is next in the queue, so the two are merged.
  predicate Merges(queue: seq<nat>)
    requires queue != [] && queue[0] > 0
  {
    |queue| > 1 && queue[1] == Sibling(queue[0])
  }

  // One turn of the loop: the front (and its sibling, when merged) leave, their parent
  // joins at the back.
  function Advance(queue: seq<nat>): (next: seq<nat>)
    requires queue != [] && queue[0] > 0
    ensures |next| == if Merges(queue) then |queue| - 1 else |queue|
    ensures Sum(next) < Sum(queue)
  {
    var rest := if Merges(queue) then queue[2..] else queue[1..];
    SumSnoc(rest, Parent(queue[0]));
    rest + [Parent(queue[0])]
  }

  // The loop's variant: every turn replaces a node by its parent.
  function Sum(queue: seq<nat>): nat {
    if queue == [] then 0 else queue[0] + Sum(queue[1..])
  }

  lemma {:induction false} SumSnoc(queue: seq<nat>, x: nat)
    ensures Sum(queue + [x]) == Sum(queue) + x
  {
    if queue != [] {
      assert (queue + [x])[1..] == queue[1..] + [x];
      SumSnoc(queue[1..], x);
    } else {
      assert queue + [x] == [x];
    }
  }

  predicate Stopped(queue: seq<nat>) {
    queue == [] || queue[0] == 0
  }

  // The queue at the moment the loop stops, before the final pop.
  function Drain(queue: seq<nat>): (rest: seq<nat>)
    ensures Stopped(rest)
    decreases Sum(queue)
  {
    if Stopped(queue) then queue else Drain(Advance(queue))
  }

  lemma AdvanceInRange(queue: seq<nat>, treeLen: nat)
    requires InRange(queue, treeLen) && !Stopped(queue)
    ensures InRange(Advance(queue), treeLen)
  {
  }

  // One flag per turn: was the front merged with its sibling?
  function EmitFlags(queue: seq<nat>): seq<bool>
    decreases Sum(queue)
  {
    if Stopped(queue) then [] else [Merges(queue)] + EmitFlags(Advance(queue))
  }

  // The path entry of one turn: the sibling's hash, unless it was merged.
  function Taken(t: seq<Hash>, queue: seq<nat>): seq<Hash>
    requires |t| % 2 == 1 && InRange(queue, |t|) && !Stopped(queue)
  {
    SiblingInRange(|t|, queue[0]);
    if Merges(queue) then [] else [t[Sibling(queue[0])]]
  }

  function EmitPath(t: seq<Hash>, queue: seq<nat>): seq<Hash>
    requires |t| % 2 == 1 && InRange(queue, |t|)
    decreases Sum(queue)
  {
    if Stopped(queue) then []
    else
      AdvanceInRange(queue, |t|);
      Taken(t, queue) + EmitPath(t, Advance(queue))
  }

  // What has been emitted so far, followed by what the rest of the queue will emit.
  lemma EmitStep(t: seq<Hash>, queue: seq<nat>, path: seq<Hash>, flags: seq<bool>)
    requires |t| % 2 == 1 && InRange(queue, |t|) && !Stopped(queue)
    ensures InRange(Advance(queue), |t|)
    ensures path + EmitPath(t, queue) == (path + Taken(t, queue)) + EmitPath(t, Advance(queue))
    ensures flags + EmitFlags(queue) == (flags + [Merges(queue)]) + EmitFlags(Advance(queue))
  {
    AdvanceInRange(queue, |t|);
    Regrouped(path, Taken(t, queue), EmitPath(t, Advance(queue)));
    Regrouped(flags, [Merges(queue)], EmitFlags(Advance(queue)));
  }

  lemma Regrouped<T>(a: seq<T>, b: seq<T>, c: seq<T>)
    ensures a + (b + c) == (a + b) + c
  {
  }

  predicate AllLeafIndices(treeLen: nat, indices: seq<nat>) {
    forall k :: 0 <= k < |indices| ==> IsLeafIndex(treeLen, indices[k])
  }

  function MultiProofFor(t: seq<Hash>, indices: seq<nat>): Option<MultiProof>
    requires |t| % 2 == 1
  {
    if !AllLeafIndices(|t|, indices) then None
    else if indices == [] then Some(MultiProof([t[0]], []))
    else Some(MultiProof(EmitPath(t, indices), EmitFlags(indices)))
  }

  /** `MerkleTree::generate_multi_proof`. It terminates on every index list, sorted or not,
      and every sibling it reads exists. */
  method GenerateMultiProof(t: seq<Hash>, indices: seq<nat>) returns (r: Option<MultiProof>)
    requires |t| % 2 == 1
    ensures r == MultiProofFor(t, indices)
  {
    if !AllLeafIndices(|t|, indices) {
      return None;
    }
    var stack: seq<nat>, path: seq<Hash>, flags: seq<bool> := indices, [], [];
    while stack != []
      invariant InRange(stack, |t|)
      invariant path + EmitPath(t, stack) == EmitPath(t, indices)
      invariant flags + EmitFlags(stack) == EmitFlags(indices)
      decreases Sum(stack), |stack|
    {
      var j := stack[0];
      if j == 0 {
        break;
      }
      ghost var before, path0, flags0 := stack, path, flags;
      AdvanceInRange(before, |t|);
      SiblingInRange(|t|, j);
      stack := stack[1..];
      var s, p := Sibling(j), Parent(j);
      if stack != [] && stack[0] == s {
        flags := flags + [true];
        stack := stack[1..];
      } else {
        flags := flags + [false];
        path := path + [t[s]];
      }
      stack := stack + [p];
      assert stack == Advance(before);
      assert path == path0 + Taken(t, before) && flags == flags0 + [Merges(before)];
      EmitStep(t, before, path0, flags0);
    }
    assert Stopped(stack);
    assert path == EmitPath(t, indices) && flags == EmitFlags(indices);
    if indices == [] {
      path := path + [t[0]];
      assert path == [t[0]];
    }
    r := Some(MultiProof(path, flags));
  }

  // ----- multi-proofs: the verifier's stack machine -----

  // The machine's configuration when the flags have run out, or a panic.
  datatype Replayed = Crashed | Finished(stack: seq<Hash>, unread: seq<Hash>)

  function Replay(h: PairHash, stack: seq<Hash>, path: seq<Hash>, flags: seq<bool>): Replayed
    decreases |flags|
  {
    if flags == [] then Finished(stack, path)
    else if flags[0] then
      if |stack| < 2 then Crashed
      else Replay(h, stack[2..] + [CommutativeHashPair(h, stack[0], stack[1])], path, flags[1..])
    else
      if stack == [] || path == [] then Crashed
      else Replay(h, stack[1..] + [CommutativeHashPair(h, stack[0], path[0])], path[1..], flags[1..])
  }

  function CountFalse(flags: seq<bool>): nat {
    if flags == [] then 0 else (if flags[0] then 0 else 1) + CountFalse(flags[1..])
  }

  // The two length checks made before the replay.
  predicate CountsMatch(leafCount: nat, proof: MultiProof) {
    && CountFalse(proof.flags) <= |proof.path|
    && leafCount + |proof.path| == |proof.flags| + 1
  }

  function VerifyMulti(h: PairHash, root: Hash, leaves: seq<Hash>, proof: MultiProof): Verdict {
    if !CountsMatch(|leaves|, proof) then Rejected
    else match Replay(h, leaves, proof.path, proof.flags)
      case Crashed => Panicked
      case Finished(stack, unread) =>
        if |stack| == 1 && |unread| == 0 then (if root == stack[0] then Accepted else Rejected)
        else if |stack| == 0 && |unread| == 1 then (if root == unread[0] then Accepted else Rejected)
        else Rejected
  }

  /** `MerkleTree::verify_multi_proof`, with its cursor into the path. */
  method VerifyMultiProof(h: PairHash, root: Hash, leaves: seq<Hash>, proof: MultiProof)
    returns (verdict: Verdict)
    ensures verdict == VerifyMulti(h, root, leaves, proof)
  {
    var falses := 0;
    for i := 0 to |proof.flags|
      invariant falses + CountFalse(proof.flags[i..]) == CountFalse(proof.flags)
    {
      if !proof.flags[i] {
        falses := falses + 1;
      }
    }
    if |proof.path| < falses {
      return Rejected;
    }
    if |leaves| + |proof.path| != |proof.flags| + 1 {
      return Rejected;
    }
    var stack, path, cursor := leaves, proof.path, 0;
    for i := 0 to |proof.flags|
      invariant cursor + CountFalse(proof.flags[i..]) <= |path|
      invariant Replay(h, stack, path[cursor..], proof.flags[i..])
             == Replay(h, leaves, proof.path, proof.flags)
    {
      if stack == [] {
        return Panicked;
      }
      var a := stack[0];
      stack := stack[1..];
      var b;
      if proof.flags[i] {
        if stack == [] {
          return Panicked;
        }
        b := stack[0];
        stack := stack[1..];
      } else {
        b := path[cursor];
        cursor := cursor + 1;
      }
      stack := stack + [CommutativeHashPair(h, a, b)];
    }
    if |stack| == 1 && |path| - cursor == 0 {
      return if root == stack[0] then Accepted else Rejected;
    } else if |stack| == 0 && |path| - cursor == 1 {
      return if root == path[cursor] then Accepted else Rejected;
    } else {
      return Rejected;
    }
  }
}
