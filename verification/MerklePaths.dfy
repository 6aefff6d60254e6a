/**
 The string paths that name the leaves of a structured value: `join_prefix`, `index_prefix`
 and `MerkleBuilder`. A tree can be asked for a leaf by its path only because different
 leaves never get the same path.
 */
module MerklePaths {
  import opened Decimal
  import opened MerkleTree

  // A hash and the path that names it.
  datatype Leaf = Leaf(path: string, value: Hash)

  function JoinPrefix(prefix: string, sub: string): string {
    if prefix == "" then sub
    else if sub == "" then prefix
    else prefix + "." + sub
  }

  // Both branches of the source spell the same string when the prefix is empty.
  function IndexPrefix(prefix: string, index: nat): string {
    prefix + "[" + Digits(index) + "]"
  }

  // The leaves of an item placed under a prefix.
  function Under(prefix: string, leaves: seq<Leaf>): (r: seq<Leaf>)
    ensures |r| == |leaves|
  {
    seq(|leaves|, k requires 0 <= k < |leaves| => Leaf(JoinPrefix(prefix, leaves[k].path), leaves[k].value))
  }

  // The leaves of a list of items, item `i` under `prefix[i]`.
  function UnderIndices(prefix: string, items: seq<seq<Leaf>>): seq<Leaf> {
    if items == [] then []
    else
      var m := |items| - 1;
      UnderIndices(prefix, items[..m]) + Under(IndexPrefix(prefix, m), items[m])
  }

  /** `MerkleBuilder`. What an item appends is what its `leaves()` returns, so items are given
      by their leaves. */
  class MerkleBuilder {
    var leaves: seq<Leaf>

    constructor ()
      ensures leaves == []
    {
      leaves := [];
    }

    method AddField(name: string, hash: Hash)
      modifies this
      ensures leaves == old(leaves) + [Leaf(name, hash)]
    {
      leaves := leaves + [Leaf(name, hash)];
    }

    method AddMerkleizable(prefix: string, item: seq<Leaf>)
      modifies this
      ensures leaves == old(leaves) + Under(prefix, item)
    {
      for i := 0 to |item|
        invariant leaves == old(leaves) + Under(prefix, item)[..i]
      {
        leaves := leaves + [Leaf(JoinPrefix(prefix, item[i].path), item[i].value)];
      }
    }

    method AddSlice(prefix: string, items: seq<seq<Leaf>>)
      modifies this
      ensures leaves == old(leaves) + UnderIndices(prefix, items)
    {
      for i := 0 to |items|
        invariant leaves == old(leaves) + UnderIndices(prefix, items[..i])
      {
        AddMerkleizable(IndexPrefix(prefix, i), items[i]);
        assert items[..i + 1][..i] == items[..i];
      }
      assert items[..|items|] == items;
    }
  }

  // ----- different leaves have different paths -----

  ghost predicate DistinctPaths(leaves: seq<Leaf>) {
    forall i, j :: 0 <= i < j < |leaves| ==> leaves[i].path != leaves[j].path
  }

  ghost predicate AllStartWith(leaves: seq<Leaf>, p: string) {
    forall k :: 0 <= k < |leaves| ==> p <= leaves[k].path
  }

  // No string starts with both `p` and `q`.
  predicate Incompatible(p: string, q: string) {
    !(p <= q) && !(q <= p)
  }

  lemma StartsAreComparable(p: string, q: string, s: string)
    requires p <= s && q <= s
    ensures !Incompatible(p, q)
  {
    if |p| <= |q| {
      assert p == s[..|p|] == q[..|p|];
    } else {
      assert q == s[..|q|] == p[..|q|];
    }
  }

  lemma IncompatibleStarts(p: string, q: string, s: string)
    requires Incompatible(p, q) && p <= s
    ensures !(q <= s)
  {
    if q <= s {
      StartsAreComparable(p, q, s);
    }
  }

  lemma DistinctConcat(a: seq<Leaf>, b: seq<Leaf>, p: string, q: string)
    requires DistinctPaths(a) && DistinctPaths(b)
    requires AllStartWith(a, p) && AllStartWith(b, q) && Incompatible(p, q)
    ensures DistinctPaths(a + b)
  {
    forall i, j | 0 <= i < |a| && 0 <= j < |b|
      ensures a[i].path != b[j].path
    {
      IncompatibleStarts(p, q, a[i].path);
    }
  }

  lemma JoinPrefixIsInjective(prefix: string, a: string, b: string)
    requires JoinPrefix(prefix, a) == JoinPrefix(prefix, b)
    ensures a == b
  {
    if prefix != "" && a != "" && b != "" {
      assert JoinPrefix(prefix, a)[|prefix| + 1..] == a;
      assert JoinPrefix(prefix, b)[|prefix| + 1..] == b;
    }
  }

  lemma JoinPrefixStarts(prefix: string, sub: string)
    ensures prefix <= JoinPrefix(prefix, sub)
  {
  }

  lemma UnderIsDistinct(prefix: string, leaves: seq<Leaf>)
    requires DistinctPaths(leaves)
    ensures DistinctPaths(Under(prefix, leaves)) && AllStartWith(Under(prefix, leaves), prefix)
  {
    var r := Under(prefix, leaves);
    forall k | 0 <= k < |r|
      ensures prefix <= r[k].path
    {
      JoinPrefixStarts(prefix, leaves[k].path);
    }
    forall i, j | 0 <= i < j < |r|
      ensures r[i].path != r[j].path
    {
      if r[i].path == r[j].path {
        JoinPrefixIsInjective(prefix, leaves[i].path, leaves[j].path);
      }
    }
  }

  // The closing bracket ends the number, so an index is read off the front of a path.
  lemma IndexPrefixNamesIndex(prefix: string, i: nat, j: nat)
    requires IndexPrefix(prefix, i) <= IndexPrefix(prefix, j)
    ensures i == j
  {
    var p, q := IndexPrefix(prefix, i), IndexPrefix(prefix, j);
    var open, di, dj := prefix + "[", Digits(i), Digits(j);
    assert p == open + di + "]" && q == open + dj + "]";
    var close := |open| + |di|;
    assert p[close] == ']' && q[close] == ']';
    assert forall k :: |open| <= k < |open| + |dj| ==> q[k] == dj[k - |open|];
    assert |di| == |dj|;
    assert di == p[|open|..close] == q[|open|..close] == dj;
    DigitsAreInjective(i, j);
  }

  lemma IndexPrefixesAreIncompatible(prefix: string, i: nat, j: nat)
    requires i != j
    ensures Incompatible(IndexPrefix(prefix, i), IndexPrefix(prefix, j))
  {
    if IndexPrefix(prefix, i) <= IndexPrefix(prefix, j) {
      IndexPrefixNamesIndex(prefix, i, j);
    }
    if IndexPrefix(prefix, j) <= IndexPrefix(prefix, i) {
      IndexPrefixNamesIndex(prefix, j, i);
    }
  }

  // Every leaf of the list belongs to one of its items.
  ghost predicate Indexed(leaves: seq<Leaf>, prefix: string, n: nat) {
    forall k :: 0 <= k < |leaves| ==> exists i :: 0 <= i < n && IndexPrefix(prefix, i) <= leaves[k].path
  }

  lemma {:induction false} UnderIndicesIsDistinct(prefix: string, items: seq<seq<Leaf>>)
    requires forall i :: 0 <= i < |items| ==> DistinctPaths(items[i])
    ensures DistinctPaths(UnderIndices(prefix, items))
    ensures Indexed(UnderIndices(prefix, items), prefix, |items|)
    decreases |items|
  {
    if items == [] {
    } else {
      var m := |items| - 1;
      var front, back := UnderIndices(prefix, items[..m]), Under(IndexPrefix(prefix, m), items[m]);
      UnderIndicesIsDistinct(prefix, items[..m]);
      UnderIsDistinct(IndexPrefix(prefix, m), items[m]);
      forall i, j | 0 <= i < |front| && 0 <= j < |back|
        ensures front[i].path != back[j].path
      {
        var n :| 0 <= n < m && IndexPrefix(prefix, n) <= front[i].path;
        IndexPrefixesAreIncompatible(prefix, n, m);
        IncompatibleStarts(IndexPrefix(prefix, n), IndexPrefix(prefix, m), front[i].path);
      }
    }
  }

  lemma {:induction false} UnderIndicesStarts(prefix: string, items: seq<seq<Leaf>>)
    requires forall i :: 0 <= i < |items| ==> DistinctPaths(items[i])
    ensures AllStartWith(UnderIndices(prefix, items), prefix + "[")
  {
    UnderIndicesIsDistinct(prefix, items);
    var r := UnderIndices(prefix, items);
    forall k | 0 <= k < |r|
      ensures prefix + "[" <= r[k].path
    {
      var i :| 0 <= i < |items| && IndexPrefix(prefix, i) <= r[k].path;
      assert prefix + "[" <= IndexPrefix(prefix, i);
    }
  }

  // ----- where an item's leaves sit in the list's leaves -----

  // `part` is the run of `leaves` that starts at `offset`.
  ghost predicate RunAt(leaves: seq<Leaf>, offset: nat, part: seq<Leaf>) {
    offset + |part| <= |leaves| && leaves[offset..offset + |part|] == part
  }

  lemma {:induction false} ItemRun(prefix: string, items: seq<seq<Leaf>>, i: nat) returns (offset: nat)
    requires i < |items|
    ensures RunAt(UnderIndices(prefix, items), offset, Under(IndexPrefix(prefix, i), items[i]))
    decreases |items|
  {
    var m := |items| - 1;
    var front := UnderIndices(prefix, items[..m]);
    if i == m {
      offset := |front|;
    } else {
      offset := ItemRun(prefix, items[..m], i);
      assert items[..m][i] == items[i];
      RunExtends(front, offset, Under(IndexPrefix(prefix, i), items[i]), Under(IndexPrefix(prefix, m), items[m]));
    }
  }

  lemma RunExtends(leaves: seq<Leaf>, offset: nat, part: seq<Leaf>, more: seq<Leaf>)
    requires RunAt(leaves, offset, part)
    ensures RunAt(leaves + more, offset, part)
  {
    assert (leaves + more)[offset..offset + |part|] == leaves[offset..offset + |part|];
  }
}
