/**
 Trees and certificates together: what two clients, each checking its own log against its
 own certified receipt, can rely on.
 */
module CertifiedLogs {
  import opened MerkleTree
  import opened MerklePaths
  import opened Receipts
  import opened ReceiptProofs
  import opened Committees
  import opened CertificateSafety

  // `VerifiableLog::verify`: the attestations' signatures, checked on the receipt's root.
  function VerifyReceipt(H: Hasher, p: Protocol, v: VerifiableLog, signatures: seq<Signature>): Verification {
    Attest(p.recover, p.committee, ReceiptRoot(H, v.receipt), signatures)
  }

  // The log comes with a certificate of its receipt, unforged at the end of `run`, and a
  // proof that it belongs to the receipt.
  ghost predicate Verified(H: Hasher, p: Protocol, run: seq<Event>, v: VerifiableLog,
                           signatures: seq<Signature>, path: seq<Hash>) {
    && VerifyReceipt(H, p, v, signatures) == Valid
    && Available(p, run, ReceiptRoot(H, v.receipt), signatures)
    && VerifyLog(H, v, ReceiptRoot(H, v.receipt), path)
  }

  /** Certified receipts of one slot agree on every committed field. */
  lemma CertifiedReceiptsAgree(H: Hasher, p: Protocol, run: seq<Event>, a: Receipt, b: Receipt)
    requires IdealHasher(H) && Legal(p, run)
    requires 2 * p.committee.quorumSize > |p.committee.validators| + |FaultyMembers(p)|
    requires Certifiable(p, run, ReceiptRoot(H, a)) && Certifiable(p, run, ReceiptRoot(H, b))
    requires p.slotOf(ReceiptRoot(H, a)) == p.slotOf(ReceiptRoot(H, b))
    requires PlainReceipt(H, a) && PlainReceipt(H, b)
    ensures SameCommitted(a, b)
  {
    if ReceiptRoot(H, a) != ReceiptRoot(H, b) {
      ConflictingCertificatesAreImpossible(p, run, ReceiptRoot(H, a), ReceiptRoot(H, b));
    }
    ReceiptRootBinds(H, a, b);
  }

  /** Two verified logs with the same index in the same slot are the same log, whoever served
      them and with whatever signatures and paths. */
  lemma VerifiedLogsAgree(H: Hasher, p: Protocol, run: seq<Event>,
                          v: VerifiableLog, vSignatures: seq<Signature>, vPath: seq<Hash>,
                          w: VerifiableLog, wSignatures: seq<Signature>, wPath: seq<Hash>)
    requires IdealHasher(H) && Legal(p, run)
    requires 2 * p.committee.quorumSize > |p.committee.validators| + |FaultyMembers(p)|
    requires Verified(H, p, run, v, vSignatures, vPath) && Verified(H, p, run, w, wSignatures, wPath)
    requires p.slotOf(ReceiptRoot(H, v.receipt)) == p.slotOf(ReceiptRoot(H, w.receipt))
    requires PlainReceipt(H, v.receipt) && PlainReceipt(H, w.receipt)
    requires IndexOf(v) == IndexOf(w) && Plain(IndexPrefix("log_hashes", IndexOf(v)))
    ensures v.log == w.log
  {
    assert Certifies(p, run, ReceiptRoot(H, v.receipt), vSignatures);
    assert Certifies(p, run, ReceiptRoot(H, w.receipt), wSignatures);
    CertifiedReceiptsAgree(H, p, run, v.receipt, w.receipt);
    VerifiableLogSound(H, v, v.receipt, vPath);
    VerifiableLogSound(H, w, w.receipt, wPath);
  }
}
