/**
 What a receipt's root proves: the proofs a receipt hands out verify, a verified leaf is in
 the receipt, and the root fixes every field that goes into the tree.
 */
module ReceiptProofs {
  import opened Collections
  import opened Decimal
  import opened Wrappers
  import opened MerkleTree
  import opened MerkleSoundness
  import opened MerklePaths
  import opened StandardMerkleTrees
  import opened Receipts
  import opened ReceiptPaths

  // ----- completeness: no two leaves hash alike -----

  // Hashing a leaf with its path is free of collisions.
  ghost predicate LeafHashInjective(H: Hasher) {
    forall a, b :: HashLeaf(H, a) == HashLeaf(H, b) ==> a == b
  }

  lemma ReceiptLeafHashesAreDistinct(H: Hasher, r: Receipt)
    requires LeafHashInjective(H)
    ensures NoRepeats(HashAll(H, ReceiptLeaves(H, r)))
  {
    ReceiptPathsAreDistinct(H, r);
    var leaves := ReceiptLeaves(H, r);
    forall i, j | 0 <= i < j < |leaves|
      ensures HashLeaf(H, leaves[i]) != HashLeaf(H, leaves[j])
    {
      assert leaves[i] != leaves[j];
    }
  }

  /** `generate_proof_for_log_hash`: a proof that verifies for every log of the receipt,
      nothing for any other index. It needs no assumption about the hash. */
  lemma LogHashProofComplete(H: Hasher, r: Receipt, i: nat)
    ensures i >= |r.logs| ==> ProofForLogHash(H, r, i) == None
    ensures i < |r.logs| ==>
              && ProofForLogHash(H, r, i).Some?
              && VerifyProof(PairOf(H), ReceiptRoot(H, r), LogHashLeaf(H, i, r.logs[i]), ProofForLogHash(H, r, i).value)
  {
    if i < |r.logs| {
      var hashes, leaf := HashAll(H, ReceiptLeaves(H, r)), LogHashLeaf(H, i, r.logs[i]);
      var position := LogHashLeafPosition(H, r, i);
      assert hashes[position] == leaf;
      LeafProofComplete(PairOf(H), hashes, leaf);
    }
  }

  // Any run of the receipt's leaves gets a multi-proof that verifies.
  lemma RunProofComplete(H: Hasher, r: Receipt, offset: nat, run: seq<Leaf>)
    requires LeafHashInjective(H) && RunAt(ReceiptLeaves(H, r), offset, run)
    ensures var proof := MultiProofForLeaves(ReceiptTree(H, r), HashAll(H, run));
            proof.Some? && VerifyMulti(PairOf(H), ReceiptRoot(H, r), HashAll(H, run), proof.value) == Accepted
  {
    var leaves := ReceiptLeaves(H, r);
    var positions: seq<nat> := seq(|run|, k requires 0 <= k < |run| => offset + k);
    forall k | 0 <= k < |run|
      ensures HashAll(H, run)[k] == HashAll(H, leaves)[positions[k]]
    {
      assert leaves[offset..offset + |run|][k] == leaves[offset + k];
    }
    ReceiptLeafHashesAreDistinct(H, r);
    LeavesMultiProofComplete(PairOf(H), HashAll(H, leaves), positions, HashAll(H, run));
  }

  /** `generate_multi_proof_for_log`: panics exactly on an index without a log; otherwise it
      returns the log's own leaves with a proof that verifies. */
  lemma LogMultiProofComplete(H: Hasher, r: Receipt, i: nat)
    requires LeafHashInjective(H)
    ensures MultiProofForLog(H, r, i) == Aborted <==> i >= |r.logs|
    ensures i < |r.logs| ==>
              && MultiProofForLog(H, r, i).value.Some?
              && var (leaves, proof) := MultiProofForLog(H, r, i).value.value;
                 |leaves| == |r.logs[i].data.topics| + 2
                 && leaves == HashAll(H, Under(IndexPrefix("logs", i), LogLeaves(H, r.logs[i])))
                 && VerifyMulti(PairOf(H), ReceiptRoot(H, r), leaves, proof) == Accepted
  {
    if i < |r.logs| {
      LogLeavesCount(H, r.logs[i]);
      var offset := LogRun(H, r, i);
      RunProofComplete(H, r, offset, Under(IndexPrefix("logs", i), LogLeaves(H, r.logs[i])));
    }
  }

  // The leaves of one log stand side by side, and so do those of all logs.
  lemma LogRun(H: Hasher, r: Receipt, i: nat) returns (offset: nat)
    requires i < |r.logs|
    ensures RunAt(ReceiptLeaves(H, r), offset, Under(IndexPrefix("logs", i), LogLeaves(H, r.logs[i])))
  {
    var part := LogsRun(H, r);
    var item := ItemRun("logs", LogsLeaves(H, r.logs), i);
    var run := Under(IndexPrefix("logs", i), LogLeaves(H, r.logs[i]));
    RunOfRun(ReceiptLeaves(H, r), part, UnderIndices("logs", LogsLeaves(H, r.logs)), item, run);
    offset := part + item;
  }

  lemma LogsRun(H: Hasher, r: Receipt) returns (offset: nat)
    ensures RunAt(ReceiptLeaves(H, r), offset, UnderIndices("logs", LogsLeaves(H, r.logs)))
  {
    offset := PartIsRun(ReceiptParts(H, r), 2);
  }

  lemma RunOfRun(leaves: seq<Leaf>, offset: nat, part: seq<Leaf>, inner: nat, run: seq<Leaf>)
    requires RunAt(leaves, offset, part) && RunAt(part, inner, run)
    ensures RunAt(leaves, offset + inner, run)
  {
    var o := offset + inner;
    forall k | 0 <= k < |run|
      ensures leaves[o + k] == run[k]
    {
      assert leaves[offset..offset + |part|][inner + k] == part[inner + k];
      assert part[inner..inner + |run|][k] == run[k];
    }
  }

  /** `generate_multi_proof_for_logs` never panics: it returns the leaves of all logs with a
      proof that verifies. */
  lemma {:induction false} LogsMultiProofComplete(H: Hasher, r: Receipt)
    requires LeafHashInjective(H)
    ensures MultiProofForLogs(H, r).Returned?
    ensures var (leaves, proof) := MultiProofForLogs(H, r).value;
            leaves == HashAll(H, UnderIndices("logs", LogsLeaves(H, r.logs)))
            && |leaves| == 2 * |r.logs| + TopicCount(r.logs)
            && VerifyMulti(PairOf(H), ReceiptRoot(H, r), leaves, proof) == Accepted
  {
    var offset := LogsRun(H, r);
    LogsLeavesCount(H, r.logs);
    RunProofComplete(H, r, offset, UnderIndices("logs", LogsLeaves(H, r.logs)));
  }

  // The path formed for a log hash has a dot that the stored path does not have.
  lemma FormedPathIsNotStored(H: Hasher, r: Receipt, value: Hash)
    ensures Leaf("log_hashes.[0]", value) !in ReceiptLeaves(H, r)
  {
    var leaf := Leaf("log_hashes.[0]", value);
    if leaf in ReceiptLeaves(H, r) {
      ReceiptIsWellNamed(H, r);
      var k := PartOfLeaf(ReceiptParts(H, r), leaf);
      NoStartFits(k);
    }
  }

  lemma NoStartFits(k: nat)
    requires k < |STARTS|
    ensures !(STARTS[k] <= "log_hashes.[0]")
  {
    assert "log_hashes["[10] == '[' && "log_hashes.[0]"[10] == '.';
    assert "logs["[3] == 's' && "logs_root"[3] == 's' && "log_hashes.[0]"[3] == '_';
    assert "status"[0] == 's' && "actual_gas_used"[0] == 'a' && "tx_hash"[0] == 't' && "attested_tx"[0] == 'a';
  }

  /** `generate_multi_proof_for_log_hashes` looks for `log_hashes.[i]` while the receipt
      stores `log_hashes[i]`: it panics exactly when the receipt has a log. Without logs it
      returns the empty proof, which verifies. */
  lemma {:induction false} LogHashesMultiProofExact(H: Hasher, r: Receipt)
    requires LeafHashInjective(H)
    ensures MultiProofForLogHashes(H, r).Returned? <==> r.logs == []
    ensures r.logs == [] ==>
              var (leaves, proof) := MultiProofForLogHashes(H, r).value;
              leaves == [] && VerifyMulti(PairOf(H), ReceiptRoot(H, r), leaves, proof) == Accepted
  {
    var hashes := LogHashes(H, r.logs);
    var formed := Under("log_hashes", UnderIndices("", HashesLeaves(hashes)));
    if r.logs == [] {
      assert formed == [];
      assert RunAt(ReceiptLeaves(H, r), 0, []);
      RunProofComplete(H, r, 0, []);
    } else {
      var item := ItemRun("", HashesLeaves(hashes), 0);
      var run := Under(IndexPrefix("", 0), HashesLeaves(hashes)[0]);
      assert UnderIndices("", HashesLeaves(hashes))[item..item + 1][0] == run[0];
      var leaf := Leaf("log_hashes.[0]", hashes[0]);
      assert formed[item] == leaf;
      assert HashAll(H, formed)[item] == HashLeaf(H, leaf);
      FormedPathIsNotStored(H, r, hashes[0]);
      assert HashLeaf(H, leaf) !in HashAll(H, ReceiptLeaves(H, r));
      UnknownLeafGetsNone(PairOf(H), HashAll(H, ReceiptLeaves(H, r)), HashAll(H, formed), HashLeaf(H, leaf));
    }
  }

  // ----- soundness: one ideal hash -----

  ghost function KeccakOf(H: Hasher, bytes: seq<nat>): Hash { H.keccak(bytes) }

  ghost function WordOf(H: Hasher, n: nat): seq<nat> { H.word32(n) }

  // keccak256 never collides; words have 32 bytes; words and encoded logs tell what they encode.
  ghost predicate IdealHasher(H: Hasher) {
    && (forall a, b :: KeccakOf(H, a) == KeccakOf(H, b) ==> a == b)
    && (forall n :: |WordOf(H, n)| == 32)
    && (forall m, n :: WordOf(H, m) == WordOf(H, n) ==> m == n)
    && (forall a, b :: H.abiLog(a) == H.abiLog(b) ==> a == b)
  }

  // Byte strings with the same last 32 bytes, taken apart.
  lemma SplitWord(a: seq<nat>, v: seq<nat>, b: seq<nat>, w: seq<nat>)
    requires |v| == |w| && a + v == b + w
    ensures a == b && v == w
  {
    assert |a| == |b|;
    assert (a + v)[..|a|] == a && (b + w)[..|a|] == b;
    assert (a + v)[|a|..] == v && (b + w)[|a|..] == w;
  }

  lemma PairsAreIdeal(H: Hasher)
    requires IdealHasher(H)
    ensures Ideal(PairOf(H))
  {
    forall a, b, c, d | PairHashOf(PairOf(H), a, b) == PairHashOf(PairOf(H), c, d)
      ensures a == c && b == d
    {
      assert KeccakOf(H, WordOf(H, a) + WordOf(H, b)) == KeccakOf(H, WordOf(H, c) + WordOf(H, d));
      SplitWord(WordOf(H, a), WordOf(H, b), WordOf(H, c), WordOf(H, d));
    }
  }

  lemma CodesAreInjective(p: string, q: string)
    requires Codes(p) == Codes(q)
    ensures p == q
  {
    assert |Codes(p)| == |p| && |Codes(q)| == |q|;
    forall k | 0 <= k < |p|
      ensures p[k] == q[k]
    {
      assert Codes(p)[k] == Codes(q)[k];
    }
  }

  lemma LeafHashesAreInjective(H: Hasher)
    requires IdealHasher(H)
    ensures LeafHashInjective(H)
  {
    forall a, b | HashLeaf(H, a) == HashLeaf(H, b)
      ensures a == b
    {
      var x, y := Codes(a.path) + WordOf(H, a.value), Codes(b.path) + WordOf(H, b.value);
      assert KeccakOf(H, x) == KeccakOf(H, y);
      SplitWord(Codes(a.path), WordOf(H, a.value), Codes(b.path), WordOf(H, b.value));
      CodesAreInjective(a.path, b.path);
    }
  }

  // The path's bytes spell a word: it has 32 of them.
  ghost predicate SpellsWord(H: Hasher, path: string) {
    exists x :: Codes(path) == WordOf(H, x)
  }

  /** A leaf and a pair are hashed by the same function over bytes. They are told apart exactly
      when the leaf's path does not spell a word. */
  lemma LeafIsPairIff(H: Hasher, leaf: Leaf)
    requires IdealHasher(H)
    ensures OutsidePairs(PairOf(H), HashLeaf(H, leaf)) <==> !SpellsWord(H, leaf.path)
  {
    if SpellsWord(H, leaf.path) {
      var x :| Codes(leaf.path) == WordOf(H, x);
      assert PairHashOf(PairOf(H), x, leaf.value) == HashLeaf(H, leaf);
    }
    if !SpellsWord(H, leaf.path) {
      forall a, b
        ensures PairHashOf(PairOf(H), a, b) != HashLeaf(H, leaf)
      {
        if PairHashOf(PairOf(H), a, b) == HashLeaf(H, leaf) {
          assert KeccakOf(H, WordOf(H, a) + WordOf(H, b)) == KeccakOf(H, Codes(leaf.path) + WordOf(H, leaf.value));
          SplitWord(WordOf(H, a), WordOf(H, b), Codes(leaf.path), WordOf(H, leaf.value));
        }
      }
    }
  }

  // The path cannot spell a word.
  predicate Plain(path: string) {
    |path| != 32
  }

  lemma PlainLeafIsNoPair(H: Hasher, leaf: Leaf)
    requires IdealHasher(H) && Plain(leaf.path)
    ensures OutsidePairs(PairOf(H), HashLeaf(H, leaf))
  {
    LeafIsPairIff(H, leaf);
  }

  ghost predicate AllPlain(leaves: seq<Leaf>) {
    forall k :: 0 <= k < |leaves| ==> Plain(leaves[k].path)
  }

  // No path of the receipt has 32 bytes.
  ghost predicate PlainReceipt(H: Hasher, r: Receipt) {
    AllPlain(ReceiptLeaves(H, r))
  }

  lemma HashedLeavesAreGenuine(H: Hasher, leaves: seq<Leaf>)
    requires IdealHasher(H) && AllPlain(leaves)
    ensures AllOutsidePairs(PairOf(H), HashAll(H, leaves))
  {
    forall k | 0 <= k < |leaves|
      ensures OutsidePairs(PairOf(H), HashAll(H, leaves)[k])
    {
      PlainLeafIsNoPair(H, leaves[k]);
    }
  }

  // ----- receipts are plain -----

  ghost predicate PathsWithin(leaves: seq<Leaf>, n: nat) {
    forall k :: 0 <= k < |leaves| ==> |leaves[k].path| <= n
  }

  lemma {:induction false} IndexedPathsWithin(prefix: string, items: seq<seq<Leaf>>, digits: nat, n: nat)
    requires digits > 0 && |items| <= Pow10(digits) && forall i :: 0 <= i < |items| ==> PathsWithin(items[i], n)
    ensures PathsWithin(UnderIndices(prefix, items), |prefix| + digits + n + 3)
    decreases |items|
  {
    if items == [] {
    } else {
      var m := |items| - 1;
      IndexedPathsWithin(prefix, items[..m], digits, n);
      DigitsLength(m, digits);
      assert |IndexPrefix(prefix, m)| <= |prefix| + digits + 2;
    }
  }

  lemma LogPathsWithin(H: Hasher, log: Log)
    requires |log.data.topics| <= 100_000
    ensures PathsWithin(LogLeaves(H, log), 19)
  {
    HundredThousand();
    IndexedPathsWithin("topics", HashesLeaves(log.data.topics), 5, 0);
    assert PathsWithin(LogDataLeaves(H, log.data), 14);
    assert forall k :: 0 <= k < |LogDataLeaves(H, log.data)| ==>
        |Under("data", LogDataLeaves(H, log.data))[k].path| <= 19;
  }

  lemma HundredThousand()
    ensures Pow10(5) == 100_000
  {
    assert Pow10(3) == 1_000 && Pow10(4) == 10_000;
  }

  // Up to a hundred thousand logs with up to a hundred thousand topics each.
  predicate Modest(r: Receipt) {
    |r.logs| <= 100_000 && forall i :: 0 <= i < |r.logs| ==> |r.logs[i].data.topics| <= 100_000
  }

  /** No path of a receipt has 32 bytes, unless it has more than a hundred thousand logs, or a log
      with as many topics. */
  lemma ModestReceiptIsPlain(H: Hasher, r: Receipt)
    requires Modest(r)
    ensures PlainReceipt(H, r)
  {
    var parts, leaves := ReceiptParts(H, r), ReceiptLeaves(H, r);
    HundredThousand();
    forall i | 0 <= i < |r.logs|
      ensures PathsWithin(LogsLeaves(H, r.logs)[i], 19)
    {
      LogPathsWithin(H, r.logs[i]);
    }
    IndexedPathsWithin("logs", LogsLeaves(H, r.logs), 5, 19);
    IndexedPathsWithin("log_hashes", HashesLeaves(LogHashes(H, r.logs)), 5, 0);
    forall k | 0 <= k < |leaves|
      ensures Plain(leaves[k].path)
    {
      var n := PartOfLeaf(parts, leaves[k]);
      assert PathsWithin(parts[n], 31);
    }
  }

  lemma ReceiptHasLeaves(H: Hasher, r: Receipt)
    ensures Leaf("status", WordHash(H, StatusWord(r.status))) in ReceiptLeaves(H, r)
    ensures Leaf("actual_gas_used", WordHash(H, r.actualGasUsed)) in ReceiptLeaves(H, r)
    ensures Leaf("logs_root", WordHash(H, r.logsRoot)) in ReceiptLeaves(H, r)
    ensures Leaf("tx_hash", r.txHash) in ReceiptLeaves(H, r)
    ensures Leaf("attested_tx.hash", r.attestedTx.hash) in ReceiptLeaves(H, r)
    ensures Leaf("attested_tx.committee_epoch", WordHash(H, r.attestedTx.committeeEpoch)) in ReceiptLeaves(H, r)
  {
    var p := ReceiptParts(H, r);
    assert "attested_tx" + "." + "hash" == "attested_tx.hash";
    assert "attested_tx" + "." + "committee_epoch" == "attested_tx.committee_epoch";
    MemberOfPart(p, 0, 0);
    MemberOfPart(p, 1, 0);
    MemberOfPart(p, 4, 0);
    MemberOfPart(p, 5, 0);
    MemberOfPart(p, 6, 0);
    MemberOfPart(p, 6, 1);
  }

  lemma {:induction false} MemberOfPart(parts: seq<seq<Leaf>>, k: nat, i: nat)
    requires k < |parts| && i < |parts[k]|
    ensures parts[k][i] in Flatten(parts)
  {
    var offset := PartIsRun(parts, k);
    assert Flatten(parts)[offset..offset + |parts[k]|][i] == Flatten(parts)[offset + i];
  }

  /** A leaf proved against a receipt's root, path and value, is in the receipt. */
  lemma ProvedLeafIsInReceipt(H: Hasher, r: Receipt, leaf: Leaf, path: seq<Hash>)
    requires IdealHasher(H) && PlainReceipt(H, r) && Plain(leaf.path)
    requires VerifyProof(PairOf(H), ReceiptRoot(H, r), HashLeaf(H, leaf), path)
    ensures leaf in ReceiptLeaves(H, r)
  {
    var leaves := ReceiptLeaves(H, r);
    ReceiptHasLeaves(H, r);
    HashedLeavesAreGenuine(H, leaves);
    PairsAreIdeal(H);
    LeafHashesAreInjective(H);
    PlainLeafIsNoPair(H, leaf);
    SingleProofSoundness(PairOf(H), HashAll(H, leaves), HashLeaf(H, leaf), path);
    var k :| 0 <= k < |leaves| && HashAll(H, leaves)[k] == HashLeaf(H, leaf);
    assert HashLeaf(H, leaves[k]) == HashLeaf(H, leaf);
  }

  /** So are leaves proved together, each at a position of its own. */
  lemma ProvedLeavesAreInReceipt(H: Hasher, r: Receipt, claimed: seq<Leaf>, proof: MultiProof)
    requires IdealHasher(H) && PlainReceipt(H, r) && AllPlain(claimed)
    requires VerifyMulti(PairOf(H), ReceiptRoot(H, r), HashAll(H, claimed), proof) == Accepted
    ensures exists positions :: FoundAt(HashAll(H, ReceiptLeaves(H, r)), HashAll(H, claimed), positions)
    ensures forall k :: 0 <= k < |claimed| ==> claimed[k] in ReceiptLeaves(H, r)
  {
    var leaves := ReceiptLeaves(H, r);
    ReceiptHasLeaves(H, r);
    HashedLeavesAreGenuine(H, leaves);
    HashedLeavesAreGenuine(H, claimed);
    PairsAreIdeal(H);
    LeafHashesAreInjective(H);
    MultiProofSoundness(PairOf(H), HashAll(H, leaves), HashAll(H, claimed), proof);
    var positions :| FoundAt(HashAll(H, leaves), HashAll(H, claimed), positions);
    forall k | 0 <= k < |claimed|
      ensures claimed[k] in leaves
    {
      assert HashAll(H, leaves)[positions[k]] == HashAll(H, claimed)[k];
      assert HashLeaf(H, leaves[positions[k]]) == HashLeaf(H, claimed[k]);
    }
  }

  lemma LogHashIsInjective(H: Hasher, a: Log, b: Log)
    requires IdealHasher(H) && LogHash(H, a) == LogHash(H, b)
    ensures a == b
  {
    assert KeccakOf(H, H.abiLog(a)) == KeccakOf(H, H.abiLog(b));
  }

  lemma WordHashIsInjective(H: Hasher, m: nat, n: nat)
    requires IdealHasher(H) && WordHash(H, m) == WordHash(H, n)
    ensures m == n
  {
    assert KeccakOf(H, WordOf(H, m)) == KeccakOf(H, WordOf(H, n));
  }

  /** A verifiable log that passes against a receipt root, with any path, is the log that receipt
      has at the very index the log carries (0 when it carries none). */
  lemma VerifiableLogSound(H: Hasher, v: VerifiableLog, r: Receipt, path: seq<Hash>)
    requires IdealHasher(H) && PlainReceipt(H, r) && Plain(IndexPrefix("log_hashes", IndexOf(v)))
    requires VerifyLog(H, v, ReceiptRoot(H, r), path)
    ensures var i := if v.logIndex.Some? then v.logIndex.value else 0;
            i < |r.logs| && r.logs[i] == v.log
  {
    var i := IndexOf(v);
    var leaf := Leaf(IndexPrefix("log_hashes", i), LogHash(H, v.log));
    assert VerifiableLogLeaf(H, v) == HashLeaf(H, leaf);
    ProvedLeafIsInReceipt(H, r, leaf, path);
    LogHashLeafExact(H, r, i, LogHash(H, v.log));
    LogHashIsInjective(H, r.logs[i], v.log);
  }

  // A verifiable log generates a proof exactly when it carries the index of a log of its receipt,
  // and the proof passes against that receipt's root when the log is the one at the index.
  lemma VerifiableLogComplete(H: Hasher, v: VerifiableLog)
    ensures VerifiableLogProof(H, v).Some? <==> v.logIndex.Some? && v.logIndex.value < |v.receipt.logs|
    ensures VerifiableLogProof(H, v).Some? && v.log == v.receipt.logs[v.logIndex.value] ==>
              VerifyLog(H, v, ReceiptRoot(H, v.receipt), VerifiableLogProof(H, v).value)
  {
    if v.logIndex.Some? {
      LogHashProofComplete(H, v.receipt, v.logIndex.value);
    }
  }

  // ----- the root binds the receipt -----

  // The fields that go into the tree are the same.
  predicate SameCommitted(a: Receipt, b: Receipt) {
    && a.status == b.status && a.actualGasUsed == b.actualGasUsed && a.logs == b.logs
    && a.logsRoot == b.logsRoot && a.txHash == b.txHash && a.attestedTx == b.attestedTx
  }

  ghost predicate SameRoot(H: Hasher, a: Receipt, b: Receipt) {
    IdealHasher(H) && PlainReceipt(H, a) && PlainReceipt(H, b) && ReceiptRoot(H, a) == ReceiptRoot(H, b)
  }

  lemma SameRootSameLeaves(H: Hasher, a: Receipt, b: Receipt, leaf: Leaf)
    requires SameRoot(H, a, b)
    requires leaf in ReceiptLeaves(H, a)
    ensures leaf in ReceiptLeaves(H, b)
  {
    var la, lb := ReceiptLeaves(H, a), ReceiptLeaves(H, b);
    ReceiptHasLeaves(H, b);
    HashedLeavesAreGenuine(H, la);
    HashedLeavesAreGenuine(H, lb);
    PairsAreIdeal(H);
    LeafHashesAreInjective(H);
    RootBinding(PairOf(H), HashAll(H, la), HashAll(H, lb));
    var k :| 0 <= k < |la| && la[k] == leaf;
    assert HashAll(H, la)[k] in multiset(HashAll(H, la));
    assert HashLeaf(H, leaf) in multiset(HashAll(H, lb));
    var n :| 0 <= n < |lb| && HashAll(H, lb)[n] == HashLeaf(H, leaf);
    assert HashLeaf(H, lb[n]) == HashLeaf(H, leaf);
  }

  // The receipt's leaf at a path has one value only.
  lemma OneValuePerPath(H: Hasher, r: Receipt, path: string, v: Hash, w: Hash)
    requires Leaf(path, v) in ReceiptLeaves(H, r) && Leaf(path, w) in ReceiptLeaves(H, r)
    ensures v == w
  {
    ReceiptPathsAreDistinct(H, r);
  }

  lemma FieldExact(H: Hasher, r: Receipt, path: string, own: Hash, value: Hash)
    requires Leaf(path, own) in ReceiptLeaves(H, r)
    ensures Leaf(path, value) in ReceiptLeaves(H, r) <==> value == own
  {
    if Leaf(path, value) in ReceiptLeaves(H, r) {
      OneValuePerPath(H, r, path, value, own);
    }
  }

  /** The six leaves a receipt has of its own, each with its one value; the status is the word 1
      or 0. */
  lemma ReceiptFieldsExact(H: Hasher, r: Receipt, value: Hash)
    ensures Leaf("status", value) in ReceiptLeaves(H, r) <==> value == WordHash(H, if r.status then 1 else 0)
    ensures Leaf("actual_gas_used", value) in ReceiptLeaves(H, r) <==> value == WordHash(H, r.actualGasUsed)
    ensures Leaf("logs_root", value) in ReceiptLeaves(H, r) <==> value == WordHash(H, r.logsRoot)
    ensures Leaf("tx_hash", value) in ReceiptLeaves(H, r) <==> value == r.txHash
    ensures Leaf("attested_tx.hash", value) in ReceiptLeaves(H, r) <==> value == r.attestedTx.hash
    ensures Leaf("attested_tx.committee_epoch", value) in ReceiptLeaves(H, r)
       <==> value == WordHash(H, r.attestedTx.committeeEpoch)
  {
    ReceiptHasLeaves(H, r);
    FieldExact(H, r, "status", WordHash(H, StatusWord(r.status)), value);
    FieldExact(H, r, "actual_gas_used", WordHash(H, r.actualGasUsed), value);
    FieldExact(H, r, "logs_root", WordHash(H, r.logsRoot), value);
    FieldExact(H, r, "tx_hash", r.txHash, value);
    FieldExact(H, r, "attested_tx.hash", r.attestedTx.hash, value);
    FieldExact(H, r, "attested_tx.committee_epoch", WordHash(H, r.attestedTx.committeeEpoch), value);
  }

  lemma SameRootSameValue(H: Hasher, a: Receipt, b: Receipt, path: string, v: Hash, w: Hash)
    requires SameRoot(H, a, b)
    requires Leaf(path, v) in ReceiptLeaves(H, a) && Leaf(path, w) in ReceiptLeaves(H, b)
    ensures v == w
  {
    SameRootSameLeaves(H, a, b, Leaf(path, v));
    OneValuePerPath(H, b, path, v, w);
  }

  lemma SameRootSharesLog(H: Hasher, a: Receipt, b: Receipt, i: nat)
    requires SameRoot(H, a, b)
    requires i < |a.logs|
    ensures i < |b.logs| && a.logs[i] == b.logs[i]
  {
    LogHashLeafExact(H, a, i, LogHash(H, a.logs[i]));
    SameRootSameLeaves(H, a, b, Leaf(IndexPrefix("log_hashes", i), LogHash(H, a.logs[i])));
    LogHashLeafExact(H, b, i, LogHash(H, a.logs[i]));
    LogHashIsInjective(H, a.logs[i], b.logs[i]);
  }

  lemma SameRootContainsLogs(H: Hasher, a: Receipt, b: Receipt)
    requires SameRoot(H, a, b)
    ensures a.logs <= b.logs
  {
    if a.logs != [] {
      SameRootSharesLog(H, a, b, |a.logs| - 1);
    }
    forall i | 0 <= i < |a.logs|
      ensures a.logs[i] == b.logs[i]
    {
      SameRootSharesLog(H, a, b, i);
    }
  }

  /** Two receipts have the same root exactly when all their committed fields agree: status,
      gas used, every log with its topics and data, logs root, transaction hash, attested
      transaction. The other four fields do not influence the root. */
  lemma ReceiptRootBinds(H: Hasher, a: Receipt, b: Receipt)
    requires IdealHasher(H) && PlainReceipt(H, a) && PlainReceipt(H, b)
    ensures ReceiptRoot(H, a) == ReceiptRoot(H, b) <==> SameCommitted(a, b)
  {
    if ReceiptRoot(H, a) == ReceiptRoot(H, b) {
      ReceiptHasLeaves(H, a);
      ReceiptHasLeaves(H, b);
      SameRootSameValue(H, a, b, "status", WordHash(H, StatusWord(a.status)), WordHash(H, StatusWord(b.status)));
      SameRootSameValue(H, a, b, "actual_gas_used", WordHash(H, a.actualGasUsed), WordHash(H, b.actualGasUsed));
      SameRootSameValue(H, a, b, "logs_root", WordHash(H, a.logsRoot), WordHash(H, b.logsRoot));
      SameRootSameValue(H, a, b, "tx_hash", a.txHash, b.txHash);
      SameRootSameValue(H, a, b, "attested_tx.hash", a.attestedTx.hash, b.attestedTx.hash);
      SameRootSameValue(H, a, b, "attested_tx.committee_epoch",
                        WordHash(H, a.attestedTx.committeeEpoch), WordHash(H, b.attestedTx.committeeEpoch));
      WordHashIsInjective(H, StatusWord(a.status), StatusWord(b.status));
      WordHashIsInjective(H, a.actualGasUsed, b.actualGasUsed);
      WordHashIsInjective(H, a.logsRoot, b.logsRoot);
      WordHashIsInjective(H, a.attestedTx.committeeEpoch, b.attestedTx.committeeEpoch);
      SameRootContainsLogs(H, a, b);
      SameRootContainsLogs(H, b, a);
    }
    if SameCommitted(a, b) {
      assert ReceiptParts(H, a) == ReceiptParts(H, b);
    }
  }
}
