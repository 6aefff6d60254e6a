/**
 An ideal hash over bytes exists, so the hypotheses of the soundness theorems can be met: byte
 strings are numbered with Cantor's pairing, and a word is a number followed by 31 zeros.
 */
module IdealHash {
  import opened Addresses
  import opened Receipts
  import opened ReceiptProofs

  function Triangle(n: nat): nat {
    if n == 0 then 0 else n + Triangle(n - 1)
  }

  function Cantor(a: nat, b: nat): nat {
    Triangle(a + b) + b
  }

  lemma {:induction false} TriangleGrows(m: nat, n: nat)
    requires m < n
    ensures Triangle(m) + m < Triangle(n)
    decreases n
  {
    if m + 1 < n {
      TriangleGrows(m, n - 1);
    }
  }

  lemma CantorIsInjective(a: nat, b: nat, c: nat, d: nat)
    requires Cantor(a, b) == Cantor(c, d)
    ensures a == c && b == d
  {
    if a + b < c + d {
      TriangleGrows(a + b, c + d);
    }
    if c + d < a + b {
      TriangleGrows(c + d, a + b);
    }
  }

  // A number for every sequence of numbers.
  function Number(s: seq<nat>): nat {
    if s == [] then 0 else 1 + Cantor(Number(s[..|s| - 1]), s[|s| - 1])
  }

  lemma {:induction false} NumberIsInjective(s: seq<nat>, t: seq<nat>)
    requires Number(s) == Number(t)
    ensures s == t
    decreases |s|
  {
    if s != [] && t != [] {
      var m, n := |s| - 1, |t| - 1;
      CantorIsInjective(Number(s[..m]), s[m], Number(t[..n]), t[n]);
      NumberIsInjective(s[..m], t[..n]);
      assert s == s[..m] + [s[m]] && t == t[..n] + [t[n]];
    }
  }

  function PaddedWord(n: nat): (w: seq<nat>)
    ensures |w| == 32 && w[0] == n
  {
    [n] + seq(31, _ => 0)
  }

  // The lengths are written down, so that the parts can be told apart.
  function EncodedLog(log: Log): seq<nat> {
    [log.address, |log.data.topics|] + log.data.topics + log.data.data
  }

  function Exemplar(): Hasher {
    Hasher(Number, PaddedWord, (a: Address) => [a], EncodedLog)
  }

  lemma EncodedLogIsInjective(a: Log, b: Log)
    requires EncodedLog(a) == EncodedLog(b)
    ensures a == b
  {
    var x, y, n := EncodedLog(a), EncodedLog(b), |a.data.topics|;
    assert x[0] == a.address && y[0] == b.address && x[1] == n && y[1] == |b.data.topics|;
    assert x[2..n + 2] == a.data.topics && y[2..n + 2] == b.data.topics;
    assert x[n + 2..] == a.data.data && y[n + 2..] == b.data.data;
  }

  /** A hasher that meets every hypothesis made about hashes in this project. */
  lemma IdealHasherExists()
    ensures IdealHasher(Exemplar())
  {
    var H := Exemplar();
    forall a, b | KeccakOf(H, a) == KeccakOf(H, b)
      ensures a == b
    {
      NumberIsInjective(a, b);
    }
    forall m, n | WordOf(H, m) == WordOf(H, n)
      ensures m == n
    {
      assert WordOf(H, m)[0] == m && WordOf(H, n)[0] == n;
    }
    forall a: Log, b: Log | H.abiLog(a) == H.abiLog(b)
      ensures a == b
    {
      EncodedLogIsInjective(a, b);
    }
  }
}
