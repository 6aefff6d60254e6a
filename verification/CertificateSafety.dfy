/**
 Runs of a committee in which honest validators sign at most one digest per slot, and never
 one they have refused: exactly when is it impossible to certify two digests of one slot, and
 exactly when can a digest never be certified any more?
 */
module CertificateSafety {
  import opened Addresses
  import opened Collections
  import opened Wrappers
  import opened Committees

  type Slot = nat

  datatype Protocol = Protocol(committee: Committee, faulty: set<Address>, slotOf: Digest -> Slot, recover: Recover)

  // Validator `signer` signs `digest`, or refuses to.
  datatype Event = Sign(signer: Address, digest: Digest) | Refuse(signer: Address, digest: Digest)

  // All that has been signed and refused in a run.
  function Happened(run: seq<Event>): set<Event> {
    set i | 0 <= i < |run| :: run[i]
  }

  // Nothing stops an honest validator from signing: it has not refused the digest and has
  // signed no other one of the slot.
  ghost predicate MaySign(p: Protocol, run: seq<Event>, v: Address, digest: Digest) {
    && Refuse(v, digest) !in Happened(run)
    && forall d :: Sign(v, d) in Happened(run) && p.slotOf(d) == p.slotOf(digest) ==> d == digest
  }

  // Faulty validators do anything; an honest one signs no second digest of a slot, and keeps
  // to what it has refused or signed.
  ghost predicate Allowed(p: Protocol, run: seq<Event>, e: Event) {
    e.signer in p.faulty
    || match e
       case Sign(v, digest) => MaySign(p, run, v, digest)
       case Refuse(v, digest) => Sign(v, digest) !in Happened(run)
  }

  ghost predicate Legal(p: Protocol, run: seq<Event>) {
    forall k :: 0 <= k < |run| ==> Allowed(p, run[..k], run[k])
  }

  // No signature is forged: whoever is recovered has signed.
  ghost predicate Available(p: Protocol, run: seq<Event>, digest: Digest, signatures: seq<Signature>) {
    forall a :: a in Signers(p.recover, p.committee, digest, signatures) ==> Sign(a, digest) in Happened(run)
  }

  ghost predicate Certifies(p: Protocol, run: seq<Event>, digest: Digest, signatures: seq<Signature>) {
    Available(p, run, digest, signatures) && Attest(p.recover, p.committee, digest, signatures) == Valid
  }

  // Somebody could put together a certificate for `digest` now.
  ghost predicate Certifiable(p: Protocol, run: seq<Event>, digest: Digest) {
    exists signatures :: Certifies(p, run, digest, signatures)
  }

  predicate Conflict(p: Protocol, d: Digest, e: Digest) {
    d != e && p.slotOf(d) == p.slotOf(e)
  }

  function FaultyMembers(p: Protocol): set<Address> {
    p.faulty * p.committee.validators
  }

  // ----- safety -----

  lemma HappenedSnoc(run: seq<Event>, e: Event)
    ensures Happened(run + [e]) == Happened(run) + {e}
  {
    var more := run + [e];
    forall x
      ensures x in Happened(more) <==> x in Happened(run) || x == e
    {
      if x in Happened(run) {
        var i :| 0 <= i < |run| && run[i] == x;
        assert more[i] == x;
      }
      assert more[|run|] == e;
    }
  }

  lemma LegalPrefix(p: Protocol, run: seq<Event>, k: nat)
    requires Legal(p, run) && k <= |run|
    ensures Legal(p, run[..k])
  {
    forall j | 0 <= j < k
      ensures Allowed(p, run[..k][..j], run[..k][j])
    {
      assert run[..k][..j] == run[..j];
    }
  }

  // The invariant of every run: an honest validator's digests of one slot are one digest.
  lemma {:induction false} HonestSignOncePerSlot(p: Protocol, run: seq<Event>, v: Address, d: Digest, e: Digest)
    requires Legal(p, run) && v !in p.faulty
    requires Sign(v, d) in Happened(run) && Sign(v, e) in Happened(run) && p.slotOf(d) == p.slotOf(e)
    ensures d == e
    decreases |run|
  {
    var m := |run| - 1;
    var before, last := run[..m], run[m];
    assert before + [last] == run;
    HappenedSnoc(before, last);
    LegalPrefix(p, run, m);
    assert Allowed(p, before, last);
    if Sign(v, d) in Happened(before) && Sign(v, e) in Happened(before) {
      HonestSignOncePerSlot(p, before, v, d, e);
    }
  }

  lemma CertifiableHasQuorum(p: Protocol, run: seq<Event>, digest: Digest) returns (q: set<Address>)
    requires Certifiable(p, run, digest)
    ensures IsQuorum(p.committee, q) && forall a :: a in q ==> Sign(a, digest) in Happened(run)
  {
    var signatures :| Certifies(p, run, digest, signatures);
    AttestedIffQuorum(p.recover, p.committee, digest, signatures);
    q := Signers(p.recover, p.committee, digest, signatures);
  }

  /** Safety of every legal run: with 2q > n + faulty, no two digests of a slot can both be
      certified. */
  lemma ConflictingCertificatesAreImpossible(p: Protocol, run: seq<Event>, d: Digest, e: Digest)
    requires Legal(p, run) && Conflict(p, d, e)
    requires 2 * p.committee.quorumSize > |p.committee.validators| + |FaultyMembers(p)|
    ensures !(Certifiable(p, run, d) && Certifiable(p, run, e))
  {
    if Certifiable(p, run, d) && Certifiable(p, run, e) {
      var a := CertifiableHasQuorum(p, run, d);
      var b := CertifiableHasQuorum(p, run, e);
      var v := HonestInBoth(p, a, b);
      HonestSignOncePerSlot(p, run, v, d, e);
    }
  }

  lemma HonestInBoth(p: Protocol, a: set<Address>, b: set<Address>) returns (v: Address)
    requires IsQuorum(p.committee, a) && IsQuorum(p.committee, b)
    requires 2 * p.committee.quorumSize > |p.committee.validators| + |FaultyMembers(p)|
    ensures v in a && v in b && v !in p.faulty
  {
    UnionSize(a, b, p.committee.validators);
    if a * b <= FaultyMembers(p) {
      SubsetSize(a * b, FaultyMembers(p));
    }
    v :| v in a * b && v !in FaultyMembers(p);
  }

  // ----- the bound is tight -----

  // Everyone can produce a signature on everything.
  ghost predicate EveryoneCanSign(recover: Recover) {
    forall d, a :: CanSign(recover, d, a)
  }

  ghost predicate CanSign(recover: Recover, digest: Digest, a: Address) {
    exists s :: recover(digest, s) == Some(a)
  }

  // Let the members of `who` sign `d`, one after the other.
  lemma {:induction false} LetSign(p: Protocol, run: seq<Event>, who: set<Address>, d: Digest) returns (longer: seq<Event>)
    requires Legal(p, run)
    requires forall v :: v in who && v !in p.faulty ==> MaySign(p, run, v, d)
    ensures Legal(p, longer) && run <= longer
    ensures Happened(longer) == Happened(run) + (set v | v in who :: Sign(v, d))
    decreases |who|
  {
    if who == {} {
      longer := run;
    } else {
      var v :| v in who;
      var next := run + [Sign(v, d)];
      HappenedSnoc(run, Sign(v, d));
      LegalSnoc(p, run, Sign(v, d));
      longer := LetSign(p, next, who - {v}, d);
      forall x
        ensures x in Happened(longer) <==> x in Happened(run) + (set u | u in who :: Sign(u, d))
      {
        assert x.signer in who <==> x.signer == v || x.signer in who - {v};
      }
    }
  }

  lemma LegalSnoc(p: Protocol, run: seq<Event>, e: Event)
    requires Legal(p, run) && Allowed(p, run, e)
    ensures Legal(p, run + [e])
  {
    var more := run + [e];
    forall k | 0 <= k < |more|
      ensures Allowed(p, more[..k], more[k])
    {
      assert more[..k] == run[..k];
      assert run[..|run|] == run;
    }
  }

  // A set of members who signed makes a certificate of exactly their signatures.
  lemma {:induction false} CollectSignatures(p: Protocol, digest: Digest, who: set<Address>) returns (signatures: seq<Signature>)
    requires EveryoneCanSign(p.recover) && who <= p.committee.validators
    ensures Signers(p.recover, p.committee, digest, signatures) == who
    decreases |who|
  {
    if who == {} {
      signatures := [];
    } else {
      var v :| v in who;
      var rest := CollectSignatures(p, digest, who - {v});
      assert CanSign(p.recover, digest, v);
      var s :| p.recover(digest, s) == Some(v);
      signatures := rest + [s];
      SignersSnoc(p.recover, p.committee, digest, rest, s);
    }
  }

  lemma QuorumMakesCertifiable(p: Protocol, run: seq<Event>, digest: Digest, q: set<Address>)
    requires EveryoneCanSign(p.recover) && IsQuorum(p.committee, q)
    requires forall a :: a in q ==> Sign(a, digest) in Happened(run)
    ensures Certifiable(p, run, digest)
  {
    var signatures := CollectSignatures(p, digest, q);
    AttestedIffQuorum(p.recover, p.committee, digest, signatures);
    assert Certifies(p, run, digest, signatures);
  }

  // Two halves of the honest members, either of which makes a quorum with the faulty ones.
  lemma SplitHonest(p: Protocol) returns (left: set<Address>, right: set<Address>)
    requires p.committee.quorumSize <= |p.committee.validators|
    requires 2 * p.committee.quorumSize <= |p.committee.validators| + |FaultyMembers(p)|
    ensures left !! right && left <= p.committee.validators - p.faulty && right <= p.committee.validators - p.faulty
    ensures IsQuorum(p.committee, left + FaultyMembers(p)) && IsQuorum(p.committee, right + FaultyMembers(p))
  {
    var faulty, honest := FaultyMembers(p), p.committee.validators - p.faulty;
    assert honest + faulty == p.committee.validators && honest !! faulty;
    assert |honest| + |faulty| == |p.committee.validators|;
    var need := if p.committee.quorumSize > |faulty| then p.committee.quorumSize - |faulty| else 0;
    left := SubsetOfSize(honest, need);
    assert |honest - left| == |honest| - need;
    right := SubsetOfSize(honest - left, need);
    assert left !! faulty && right !! faulty;
    assert |left + faulty| == need + |faulty| && |right + faulty| == need + |faulty|;
  }

  /** If 2q <= n + faulty, some legal run certifies two digests of the same slot. */
  lemma ConflictIsReachable(p: Protocol, d: Digest, e: Digest) returns (run: seq<Event>)
    requires p.committee.quorumSize <= |p.committee.validators|
    requires 2 * p.committee.quorumSize <= |p.committee.validators| + |FaultyMembers(p)|
    requires EveryoneCanSign(p.recover) && Conflict(p, d, e)
    ensures Legal(p, run) && Certifiable(p, run, d) && Certifiable(p, run, e)
  {
    var left, right := SplitHonest(p);
    var faulty := FaultyMembers(p);
    var first := LetSign(p, [], left + faulty, d);
    run := LetSign(p, first, right + faulty, e);
    QuorumMakesCertifiable(p, run, d, left + faulty);
    QuorumMakesCertifiable(p, run, e, right + faulty);
  }

  /** The exact bound: every legal run is free of conflicting certificates if and only if
      2q > n + faulty. */
  lemma SafetyExact(p: Protocol, d: Digest, e: Digest)
    requires p.committee.quorumSize <= |p.committee.validators|
    requires EveryoneCanSign(p.recover) && Conflict(p, d, e)
    ensures 2 * p.committee.quorumSize > |p.committee.validators| + |FaultyMembers(p)|
       <==> forall run :: Legal(p, run) ==> !(Certifiable(p, run, d) && Certifiable(p, run, e))
  {
    if 2 * p.committee.quorumSize > |p.committee.validators| + |FaultyMembers(p)| {
      forall run | Legal(p, run)
        ensures !(Certifiable(p, run, d) && Certifiable(p, run, e))
      {
        ConflictingCertificatesAreImpossible(p, run, d, e);
      }
    } else {
      var run := ConflictIsReachable(p, d, e);
    }
  }

  // ----- what can never be certified -----

  lemma {:induction false} RefusedIsNotSigned(p: Protocol, run: seq<Event>, v: Address, d: Digest)
    requires Legal(p, run) && v !in p.faulty
    ensures !(Sign(v, d) in Happened(run) && Refuse(v, d) in Happened(run))
    decreases |run|
  {
    if run == [] {
    } else {
      var m := |run| - 1;
      assert run[..m] + [run[m]] == run;
      HappenedSnoc(run[..m], run[m]);
      LegalPrefix(p, run, m);
      assert Allowed(p, run[..m], run[m]);
      RefusedIsNotSigned(p, run[..m], v, d);
    }
  }

  // The honest members that will not sign the digest any more.
  ghost function Barred(p: Protocol, run: seq<Event>, d: Digest): set<Address> {
    set v | v in p.committee.validators && v !in p.faulty && !MaySign(p, run, v, d)
  }

  lemma HappenedGrows(run: seq<Event>, more: seq<Event>)
    requires run <= more
    ensures Happened(run) <= Happened(more)
  {
    forall e | e in Happened(run)
      ensures e in Happened(more)
    {
      var i :| 0 <= i < |run| && run[i] == e;
      assert more[i] == e;
    }
  }

  lemma BarredNeverSigns(p: Protocol, run: seq<Event>, longer: seq<Event>, v: Address, d: Digest)
    requires Legal(p, longer) && run <= longer && v in Barred(p, run, d)
    ensures Sign(v, d) !in Happened(longer)
  {
    HappenedGrows(run, longer);
    if Sign(v, d) in Happened(longer) {
      RefusedIsNotSigned(p, longer, v, d);
      var x :| Sign(v, x) in Happened(run) && p.slotOf(x) == p.slotOf(d) && x != d;
      HonestSignOncePerSlot(p, longer, v, d, x);
    }
  }

  // No way of going on makes the digest certifiable.
  ghost predicate NeverCertifiable(p: Protocol, run: seq<Event>, d: Digest) {
    forall longer :: run <= longer && Legal(p, longer) ==> !Certifiable(p, longer, d)
  }

  lemma EnoughAreBarred(p: Protocol, run: seq<Event>, d: Digest)
    requires p.committee.quorumSize <= |p.committee.validators|
    requires |Barred(p, run, d)| >= FPlusOne(p.committee)
    ensures NeverCertifiable(p, run, d)
  {
    forall longer | run <= longer && Legal(p, longer)
      ensures !Certifiable(p, longer, d)
    {
      if Certifiable(p, longer, d) {
        var q := CertifiableHasQuorum(p, longer, d);
        FPlusOneMeetsEveryQuorum(p.committee, Barred(p, run, d));
        var v :| v in q * Barred(p, run, d);
        BarredNeverSigns(p, run, longer, v, d);
      }
    }
  }

  /** Exactly when a digest can never be certified any more: when at least f+1 honest members have
      refused it or have signed another digest of its slot. Refusals by faulty members do not
      count. */
  lemma NeverCertifiableIff(p: Protocol, run: seq<Event>, d: Digest)
    requires p.committee.quorumSize <= |p.committee.validators|
    requires EveryoneCanSign(p.recover) && Legal(p, run)
    ensures NeverCertifiable(p, run, d) <==> |Barred(p, run, d)| >= FPlusOne(p.committee)
  {
    var barred := Barred(p, run, d);
    if |barred| >= FPlusOne(p.committee) {
      EnoughAreBarred(p, run, d);
    } else {
      var rest := p.committee.validators - barred;
      assert rest + barred == p.committee.validators && |rest| + |barred| == |p.committee.validators|;
      var longer := LetSign(p, run, rest, d);
      QuorumMakesCertifiable(p, longer, d, rest);
      assert run <= longer && Legal(p, longer) && Certifiable(p, longer, d);
    }
  }

  /** What f+1 honest members have refused is not certified, then or later. */
  lemma RejectedIsNeverCertified(p: Protocol, run: seq<Event>, digest: Digest, refusing: set<Address>)
    requires p.committee.quorumSize <= |p.committee.validators|
    requires refusing <= p.committee.validators - p.faulty && |refusing| >= FPlusOne(p.committee)
    requires forall a :: a in refusing ==> Refuse(a, digest) in Happened(run)
    ensures NeverCertifiable(p, run, digest)
  {
    assert refusing <= Barred(p, run, digest);
    SubsetSize(refusing, Barred(p, run, digest));
    EnoughAreBarred(p, run, digest);
  }
}
