/**
 Receipts and logs as lists of named leaves, and the proofs a receipt hands out about its
 own logs (types/src/ledger/receipt.rs, types/src/ledger/log.rs).
 */
module Receipts {
  import opened Addresses
  import opened Collections
  import opened Wrappers
  import opened MerkleTree
  import opened MerklePaths
  import opened StandardMerkleTrees

  datatype LogData = LogData(topics: seq<Hash>, data: seq<nat>)

  datatype Log = Log(address: Address, data: LogData)

  datatype AttestedTx = AttestedTx(hash: Hash, committeeEpoch: nat)

  datatype Receipt = Receipt(
    status: bool,
    actualGasUsed: nat,
    maxFeePerGas: nat,
    logs: seq<Log>,
    logsRoot: Hash,
    txHash: Hash,
    attestedTx: AttestedTx,
    signer: Address,
    to: Option<Address>,
    contractAddress: Option<Address>)

  // keccak256 over bytes, and the byte strings it is given: a 32-byte word, an address, the ABI
  // encoding of a log. A byte is any natural number here, so that an injective hash exists.
  datatype Hasher = Hasher(
    keccak: seq<nat> -> Hash,
    word32: nat -> seq<nat>,
    address20: Address -> seq<nat>,
    abiLog: Log -> seq<nat>)

  function Codes(path: string): seq<nat> {
    seq(|path|, k requires 0 <= k < |path| => path[k] as int)
  }

  // Two words side by side.
  function PairOf(H: Hasher): PairHash {
    (left: Hash, right: Hash) => H.keccak(H.word32(left) + H.word32(right))
  }

  // The path's bytes and then the value's word.
  function PathHash(H: Hasher, path: string, value: Hash): Hash {
    H.keccak(Codes(path) + H.word32(value))
  }

  function WordHash(H: Hasher, n: nat): Hash { H.keccak(H.word32(n)) }

  function AddressHash(H: Hasher, a: Address): Hash { H.keccak(H.address20(a)) }

  function LogHash(H: Hasher, log: Log): Hash { H.keccak(H.abiLog(log)) }

  // A call that may panic.
  datatype Outcome<+T> = Returned(value: T) | Aborted

  // ----- leaves -----

  // A bare hash is one leaf with an empty path.
  function HashLeaves(hash: Hash): seq<Leaf> { [Leaf("", hash)] }

  function HashesLeaves(hashes: seq<Hash>): seq<seq<Leaf>> {
    seq(|hashes|, i requires 0 <= i < |hashes| => HashLeaves(hashes[i]))
  }

  function LogDataLeaves(H: Hasher, d: LogData): seq<Leaf> {
    UnderIndices("topics", HashesLeaves(d.topics)) + [Leaf("data", H.keccak(d.data))]
  }

  function LogLeaves(H: Hasher, log: Log): seq<Leaf> {
    [Leaf("address", AddressHash(H, log.address))] + Under("data", LogDataLeaves(H, log.data))
  }

  function LogsLeaves(H: Hasher, logs: seq<Log>): seq<seq<Leaf>> {
    seq(|logs|, i requires 0 <= i < |logs| => LogLeaves(H, logs[i]))
  }

  function LogHashes(H: Hasher, logs: seq<Log>): seq<Hash> {
    seq<Hash>(|logs|, i requires 0 <= i < |logs| => LogHash(H, logs[i]))
  }

  function AttestedTxLeaves(H: Hasher, tx: AttestedTx): seq<Leaf> {
    [Leaf("hash", tx.hash), Leaf("committee_epoch", WordHash(H, tx.committeeEpoch))]
  }

  function StatusWord(status: bool): nat { if status then 1 else 0 }

  // The seven groups of leaves `Receipt::append_leaves` adds, in order.
  function ReceiptParts(H: Hasher, r: Receipt): (parts: seq<seq<Leaf>>)
    ensures |parts| == 7
  {
    [ [Leaf("status", WordHash(H, StatusWord(r.status)))],
      [Leaf("actual_gas_used", WordHash(H, r.actualGasUsed))],
      UnderIndices("logs", LogsLeaves(H, r.logs)),
      UnderIndices("log_hashes", HashesLeaves(LogHashes(H, r.logs))),
      [Leaf("logs_root", WordHash(H, r.logsRoot))],
      [Leaf("tx_hash", r.txHash)],
      Under("attested_tx", AttestedTxLeaves(H, r.attestedTx)) ]
  }

  function ReceiptLeaves(H: Hasher, r: Receipt): seq<Leaf> {
    Flatten(ReceiptParts(H, r))
  }

  lemma FlattenTake(parts: seq<seq<Leaf>>, k: nat)
    requires k < |parts|
    ensures Flatten(parts[..k + 1]) == Flatten(parts[..k]) + parts[k]
  {
    assert parts[..k + 1][..k] == parts[..k];
  }

  method AppendLogDataLeaves(H: Hasher, d: LogData, builder: MerkleBuilder)
    modifies builder
    ensures builder.leaves == old(builder.leaves) + LogDataLeaves(H, d)
  {
    builder.AddSlice("topics", HashesLeaves(d.topics));
    builder.AddField("data", H.keccak(d.data));
  }

  method AppendLogLeaves(H: Hasher, log: Log, builder: MerkleBuilder)
    modifies builder
    ensures builder.leaves == old(builder.leaves) + LogLeaves(H, log)
  {
    builder.AddField("address", AddressHash(H, log.address));
    builder.AddMerkleizable("data", LogDataLeaves(H, log.data));
  }

  /** `Receipt::append_leaves`. */
  method AppendReceiptLeaves(H: Hasher, r: Receipt, builder: MerkleBuilder)
    modifies builder
    ensures builder.leaves == old(builder.leaves) + ReceiptLeaves(H, r)
  {
    ghost var start := builder.leaves;
    builder.AddField("status", WordHash(H, StatusWord(r.status)));
    builder.AddField("actual_gas_used", WordHash(H, r.actualGasUsed));
    builder.AddSlice("logs", LogsLeaves(H, r.logs));
    builder.AddSlice("log_hashes", HashesLeaves(LogHashes(H, r.logs)));
    builder.AddField("logs_root", WordHash(H, r.logsRoot));
    builder.AddField("tx_hash", r.txHash);
    builder.AddMerkleizable("attested_tx", AttestedTxLeaves(H, r.attestedTx));
    AppendSevenParts(start, ReceiptParts(H, r));
  }

  lemma {:induction false} AppendSevenParts(start: seq<Leaf>, p: seq<seq<Leaf>>)
    requires |p| == 7
    ensures start + p[0] + p[1] + p[2] + p[3] + p[4] + p[5] + p[6] == start + Flatten(p)
  {
    PartAdded(start, start, p, 0);
    PartAdded(start, start + p[0], p, 1);
    PartAdded(start, start + p[0] + p[1], p, 2);
    PartAdded(start, start + p[0] + p[1] + p[2], p, 3);
    PartAdded(start, start + p[0] + p[1] + p[2] + p[3], p, 4);
    PartAdded(start, start + p[0] + p[1] + p[2] + p[3] + p[4], p, 5);
    PartAdded(start, start + p[0] + p[1] + p[2] + p[3] + p[4] + p[5], p, 6);
    assert p[..7] == p;
  }

  // Appending part `k` after the first `k` parts.
  lemma PartAdded(start: seq<Leaf>, before: seq<Leaf>, p: seq<seq<Leaf>>, k: nat)
    requires k < |p| && before == start + Flatten(p[..k])
    ensures before + p[k] == start + Flatten(p[..k + 1])
  {
    FlattenTake(p, k);
  }

  // ----- trees and proofs -----

  function HashLeaf(H: Hasher, leaf: Leaf): Hash { PathHash(H, leaf.path, leaf.value) }

  function HashAll(H: Hasher, leaves: seq<Leaf>): seq<Hash> {
    seq(|leaves|, k requires 0 <= k < |leaves| => HashLeaf(H, leaves[k]))
  }

  function ReceiptTree(H: Hasher, r: Receipt): (s: StandardMerkleTree)
    ensures Usable(s)
  {
    StandardIsUsable(PairOf(H), HashAll(H, ReceiptLeaves(H, r)));
    Standard(PairOf(H), HashAll(H, ReceiptLeaves(H, r)))
  }

  // `Receipt::hash_custom`
  function ReceiptRoot(H: Hasher, r: Receipt): Hash {
    Root(PairOf(H), HashAll(H, ReceiptLeaves(H, r)))
  }

  // `Merkleizable::generate_multi_proof`: the hashed leaves of an item and their proof.
  function MultiProofForItem(H: Hasher, r: Receipt, prefix: string, item: seq<Leaf>)
    : Option<(seq<Hash>, MultiProof)>
  {
    var leaves := HashAll(H, Under(prefix, item));
    match MultiProofForLeaves(ReceiptTree(H, r), leaves)
    case None => None
    case Some(proof) => Some((leaves, proof))
  }

  function LogHashLeaf(H: Hasher, index: nat, log: Log): Hash {
    PathHash(H, JoinPrefix(IndexPrefix("log_hashes", index), ""), LogHash(H, log))
  }

  // `generate_proof_for_log_hash`
  function ProofForLogHash(H: Hasher, r: Receipt, logIndex: nat): Option<seq<Hash>> {
    if logIndex >= |r.logs| then None
    else ProofForLeaf(ReceiptTree(H, r), LogHashLeaf(H, logIndex, r.logs[logIndex]))
  }

  // `generate_multi_proof_for_log`: `self.logs[log_index]` panics out of range.
  function MultiProofForLog(H: Hasher, r: Receipt, logIndex: nat): Outcome<Option<(seq<Hash>, MultiProof)>> {
    if logIndex >= |r.logs| then Aborted
    else Returned(MultiProofForItem(H, r, IndexPrefix("logs", logIndex), LogLeaves(H, r.logs[logIndex])))
  }

  // `generate_multi_proof_for_logs`: panics if a leaf is missing.
  function MultiProofForLogs(H: Hasher, r: Receipt): Outcome<(seq<Hash>, MultiProof)> {
    var leaves := HashAll(H, UnderIndices("logs", LogsLeaves(H, r.logs)));
    match MultiProofForLeaves(ReceiptTree(H, r), leaves)
    case None => Aborted
    case Some(proof) => Returned((leaves, proof))
  }

  // `generate_multi_proof_for_log_hashes`: panics if a leaf is missing.
  function MultiProofForLogHashes(H: Hasher, r: Receipt): Outcome<(seq<Hash>, MultiProof)> {
    match MultiProofForItem(H, r, "log_hashes", UnderIndices("", HashesLeaves(LogHashes(H, r.logs))))
    case None => Aborted
    case Some(p) => Returned(p)
  }

  // ----- a log as a client received it -----

  // `MetadataWrappedItem<RPCLog, PodLogMetadata>`, without its attestations.
  datatype VerifiableLog = VerifiableLog(log: Log, logIndex: Option<nat>, receipt: Receipt)

  function VerifiableLogProof(H: Hasher, v: VerifiableLog): Option<seq<Hash>> {
    match v.logIndex
    case None => None
    case Some(i) => ProofForLogHash(H, v.receipt, i)
  }

  // A missing index counts as 0.
  function IndexOf(v: VerifiableLog): nat {
    if v.logIndex.Some? then v.logIndex.value else 0
  }

  // `get_leaf`
  function VerifiableLogLeaf(H: Hasher, v: VerifiableLog): Hash {
    LogHashLeaf(H, IndexOf(v), v.log)
  }

  predicate VerifyLog(H: Hasher, v: VerifiableLog, receiptRoot: Hash, path: seq<Hash>) {
    VerifyProof(PairOf(H), receiptRoot, VerifiableLogLeaf(H, v), path)
  }
}
