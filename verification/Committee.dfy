/**
 Quorum certificates (types/src/consensus/committee.rs). Signature recovery is a parameter;
 it may fail, as ECDSA recovery may.
 */
module Committees {
  import opened Addresses
  import opened Collections
  import opened Wrappers
  import opened MerkleTree

  type Digest = Hash
  type Signature = nat
  type Recover = (Digest, Signature) -> Option<Address>

  datatype Committee = Committee(validators: set<Address>, quorumSize: nat)

  datatype Verification = Valid | InsufficientQuorum(got: nat, required: nat)

  // The committee members recovered from the signatures, each counted once.
  function Signers(recover: Recover, c: Committee, digest: Digest, signatures: seq<Signature>): set<Address> {
    set i | 0 <= i < |signatures| && recover(digest, signatures[i]).Some?
            && recover(digest, signatures[i]).value in c.validators
          :: recover(digest, signatures[i]).value
  }

  function Attest(recover: Recover, c: Committee, digest: Digest, signatures: seq<Signature>): Verification {
    var signers := |Signers(recover, c, digest, signatures)|;
    if |signatures| < c.quorumSize then InsufficientQuorum(|signatures|, c.quorumSize)
    else if signers < c.quorumSize then InsufficientQuorum(signers, c.quorumSize)
    else Valid
  }

  /** `verify_aggregate_attestation`: signatures that recover nobody, or somebody outside the
      committee, are skipped. */
  method VerifyAggregateAttestation(recover: Recover, c: Committee, digest: Digest, signatures: seq<Signature>)
    returns (r: Verification)
    ensures r == Attest(recover, c, digest, signatures)
  {
    if |signatures| < c.quorumSize {
      return InsufficientQuorum(|signatures|, c.quorumSize);
    }
    var recovered: set<Address> := {};
    for i := 0 to |signatures|
      invariant recovered == Signers(recover, c, digest, signatures[..i])
    {
      SignersSnoc(recover, c, digest, signatures[..i], signatures[i]);
      assert signatures[..i] + [signatures[i]] == signatures[..i + 1];
      var address := recover(digest, signatures[i]);
      if address == None {
        continue;
      }
      if address.value !in c.validators {
        continue;
      }
      recovered := recovered + {address.value};
    }
    assert signatures[..|signatures|] == signatures;
    if |recovered| < c.quorumSize {
      return InsufficientQuorum(|recovered|, c.quorumSize);
    }
    r := Valid;
  }

  function Counted(recover: Recover, c: Committee, digest: Digest, signature: Signature): set<Address> {
    var address := recover(digest, signature);
    if address.Some? && address.value in c.validators then {address.value} else {}
  }

  lemma SignersSnoc(recover: Recover, c: Committee, digest: Digest, signatures: seq<Signature>, last: Signature)
    ensures Signers(recover, c, digest, signatures + [last])
         == Signers(recover, c, digest, signatures) + Counted(recover, c, digest, last)
  {
    var all := signatures + [last];
    forall a
      ensures a in Signers(recover, c, digest, all)
         <==> a in Signers(recover, c, digest, signatures) || a in Counted(recover, c, digest, last)
    {
      if i :| 0 <= i < |signatures| && recover(digest, signatures[i]) == Some(a) && a in c.validators {
        assert all[i] == signatures[i];
      }
      if a in Counted(recover, c, digest, last) {
        assert all[|signatures|] == last;
      }
    }
  }

  lemma {:induction false} NoMoreSignersThanSignatures(recover: Recover, c: Committee, digest: Digest,
                                                       signatures: seq<Signature>)
    ensures |Signers(recover, c, digest, signatures)| <= |signatures|
    decreases |signatures|
  {
    if signatures == [] {
    } else {
      var init, last := signatures[..|signatures| - 1], signatures[|signatures| - 1];
      NoMoreSignersThanSignatures(recover, c, digest, init);
      SignersSnoc(recover, c, digest, init, last);
      assert init + [last] == signatures;
    }
  }

  /** The early length check changes no verdict: a digest is attested exactly when the
      distinct recovered members number at least the quorum. */
  lemma AttestedIffQuorum(recover: Recover, c: Committee, digest: Digest, signatures: seq<Signature>)
    ensures Attest(recover, c, digest, signatures) == Valid
       <==> |Signers(recover, c, digest, signatures)| >= c.quorumSize
  {
    NoMoreSignersThanSignatures(recover, c, digest, signatures);
  }

  /** Neither the order of the signatures nor their repetition matters. */
  lemma OrderAndRepetitionAreIrrelevant(recover: Recover, c: Committee, digest: Digest,
                                        s: seq<Signature>, t: seq<Signature>)
    requires forall x :: x in s <==> x in t
    ensures Attest(recover, c, digest, s) == Valid <==> Attest(recover, c, digest, t) == Valid
  {
    AttestedIffQuorum(recover, c, digest, s);
    AttestedIffQuorum(recover, c, digest, t);
    SameSignersIfContained(recover, c, digest, s, t);
    SameSignersIfContained(recover, c, digest, t, s);
    assert Signers(recover, c, digest, s) == Signers(recover, c, digest, t);
  }

  lemma SameSignersIfContained(recover: Recover, c: Committee, digest: Digest, s: seq<Signature>, t: seq<Signature>)
    requires forall x :: x in s ==> x in t
    ensures Signers(recover, c, digest, s) <= Signers(recover, c, digest, t)
  {
    forall a | a in Signers(recover, c, digest, s)
      ensures a in Signers(recover, c, digest, t)
    {
      var i :| 0 <= i < |s| && recover(digest, s[i]) == Some(a);
      assert s[i] in t;
    }
  }

  // ----- quorum arithmetic -----

  // `fault_tolerance`; the subtraction wants a quorum no larger than the committee.
  function FaultTolerance(c: Committee): nat
    requires c.quorumSize <= |c.validators|
  {
    |c.validators| - c.quorumSize
  }

  function FPlusOne(c: Committee): nat
    requires c.quorumSize <= |c.validators|
  {
    FaultTolerance(c) + 1
  }

  ghost predicate IsQuorum(c: Committee, q: set<Address>) {
    q <= c.validators && |q| >= c.quorumSize
  }

  lemma UnionSize(a: set<Address>, b: set<Address>, all: set<Address>)
    requires a <= all && b <= all
    ensures |a * b| + |all| >= |a| + |b|
  {
    SubsetSize(a + b, all);
    assert |a + b| == |a| + |b| - |a * b|;
  }

  // A set has subsets of every smaller size.
  lemma {:induction false} SubsetOfSize(s: set<Address>, k: nat) returns (t: set<Address>)
    requires k <= |s|
    ensures t <= s && |t| == k
    decreases |s|
  {
    if k == |s| {
      t := s;
    } else {
      var x :| x in s;
      t := SubsetOfSize(s - {x}, k);
    }
  }

  /** `f_plus_one` is exact: a set of members meets every quorum exactly when it has at least
      that many. */
  lemma FPlusOneMeetsEveryQuorum(c: Committee, r: set<Address>)
    requires c.quorumSize <= |c.validators| && r <= c.validators
    ensures |r| >= FPlusOne(c) <==> forall q :: IsQuorum(c, q) ==> q * r != {}
  {
    if |r| >= FPlusOne(c) {
      forall q | IsQuorum(c, q)
        ensures q * r != {}
      {
        UnionSize(q, r, c.validators);
      }
    } else {
      var rest := c.validators - r;
      assert rest + r == c.validators && |rest| + |r| == |c.validators|;
      assert IsQuorum(c, rest) && rest * r == {};
    }
  }

  /** A failure reports the quorum wanted and the smaller number that fell short of it: the
      signatures, when there were too few of them, and the distinct members otherwise. */
  lemma FailureReports(recover: Recover, c: Committee, digest: Digest, signatures: seq<Signature>)
    ensures match Attest(recover, c, digest, signatures)
            case Valid => |Signers(recover, c, digest, signatures)| >= c.quorumSize
            case InsufficientQuorum(got, required) =>
              && required == c.quorumSize && got < required
              && got == if |signatures| < c.quorumSize then |signatures| else |Signers(recover, c, digest, signatures)|
  {
  }

  // A member counts exactly when some signature recovers to it.
  lemma SignersExact(recover: Recover, c: Committee, digest: Digest, signatures: seq<Signature>, a: Address)
    ensures a in Signers(recover, c, digest, signatures)
       <==> a in c.validators && exists i :: 0 <= i < |signatures| && recover(digest, signatures[i]) == Some(a)
  {
  }
}
