/**
 A receipt never gives two of its leaves the same path, and a path says which leaf it is.
 */
module ReceiptPaths {
  import opened Collections
  import opened MerkleTree
  import opened MerklePaths
  import opened Receipts

  // ----- lists of parts, each with its own beginning -----

  // Part `k` is made of leaves with distinct paths, all starting with `starts[k]`, and no
  // two of the beginnings can be confused.
  ghost predicate WellNamed(parts: seq<seq<Leaf>>, starts: seq<string>) {
    && |parts| == |starts|
    && (forall k :: 0 <= k < |parts| ==> DistinctPaths(parts[k]) && AllStartWith(parts[k], starts[k]))
    && forall i, j :: 0 <= i < j < |starts| ==> Incompatible(starts[i], starts[j])
  }

  // A leaf of the whole list that starts like part `n` is a leaf of part `n`.
  lemma LeafOfPart(parts: seq<seq<Leaf>>, starts: seq<string>, leaf: Leaf, n: nat)
    requires WellNamed(parts, starts) && n < |starts|
    requires leaf in Flatten(parts) && starts[n] <= leaf.path
    ensures leaf in parts[n]
  {
    var k := PartOfLeaf(parts, leaf);
    assert starts[k] <= leaf.path;
    StartsAreComparable(starts[k], starts[n], leaf.path);
  }

  lemma {:induction false} PartOfLeaf(parts: seq<seq<Leaf>>, leaf: Leaf) returns (k: nat)
    requires leaf in Flatten(parts)
    ensures k < |parts| && leaf in parts[k]
    decreases |parts|
  {
    var m := |parts| - 1;
    if leaf in parts[m] {
      k := m;
    } else {
      k := PartOfLeaf(parts[..m], leaf);
    }
  }

  lemma {:induction false} PartIsRun(parts: seq<seq<Leaf>>, k: nat) returns (offset: nat)
    requires k < |parts|
    ensures RunAt(Flatten(parts), offset, parts[k]) && offset == |Flatten(parts[..k])|
    decreases |parts|
  {
    var m := |parts| - 1;
    if k == m {
      offset := |Flatten(parts[..m])|;
    } else {
      offset := PartIsRun(parts[..m], k);
      assert parts[..m][..k] == parts[..k];
      RunExtends(Flatten(parts[..m]), offset, parts[k], parts[m]);
    }
  }

  lemma {:induction false} FlattenIsDistinct(parts: seq<seq<Leaf>>, starts: seq<string>)
    requires WellNamed(parts, starts)
    ensures DistinctPaths(Flatten(parts))
    decreases |parts|
  {
    if parts == [] {
    } else {
      var m := |parts| - 1;
      var front := Flatten(parts[..m]);
      FlattenIsDistinct(parts[..m], starts[..m]);
      forall i, j | 0 <= i < |front| && 0 <= j < |parts[m]|
        ensures front[i].path != parts[m][j].path
      {
        var k := PartOfLeaf(parts[..m], front[i]);
        IncompatibleStarts(starts[k], starts[m], front[i].path);
      }
    }
  }

  // ----- the paths of a receipt -----

  lemma HashesLeavesNamed(prefix: string, hashes: seq<Hash>)
    ensures DistinctPaths(UnderIndices(prefix, HashesLeaves(hashes)))
    ensures AllStartWith(UnderIndices(prefix, HashesLeaves(hashes)), prefix + "[")
  {
    UnderIndicesIsDistinct(prefix, HashesLeaves(hashes));
    UnderIndicesStarts(prefix, HashesLeaves(hashes));
  }

  lemma LogLeavesDistinct(H: Hasher, log: Log)
    ensures DistinctPaths(LogLeaves(H, log))
  {
    HashesLeavesNamed("topics", log.data.topics);
    var data := [Leaf("data", H.keccak(log.data.data))];
    assert "topics[" == "topics" + "[";
    assert "topics["[0] != "data"[0];
    DistinctConcat(UnderIndices("topics", HashesLeaves(log.data.topics)), data, "topics[", "data");
    UnderIsDistinct("data", LogDataLeaves(H, log.data));
    assert "address"[0] != "data"[0];
    DistinctConcat([Leaf("address", AddressHash(H, log.address))], Under("data", LogDataLeaves(H, log.data)),
                   "address", "data");
  }

  const STARTS: seq<string> :=
    ["status", "actual_gas_used", "logs[", "log_hashes[", "logs_root", "tx_hash", "attested_tx"]

  lemma StartsAreIncompatible()
    ensures forall i, j :: 0 <= i < j < |STARTS| ==> Incompatible(STARTS[i], STARTS[j])
  {
    // The first letter separates s, l and t from a; the second letter the two of a.
    assert "actual_gas_used"[1] != "attested_tx"[1];
    assert "logs["[4] == '[' && "logs_root"[4] == '_';
    assert "log_hashes["[3] == '_' && "logs["[3] == 's' && "logs_root"[3] == 's';
    assert "status"[0] == 's' && "tx_hash"[0] == 't' && "actual_gas_used"[0] == 'a' && "attested_tx"[0] == 'a';
  }

  lemma ReceiptIsWellNamed(H: Hasher, r: Receipt)
    ensures WellNamed(ReceiptParts(H, r), STARTS)
  {
    forall i | 0 <= i < |r.logs|
      ensures DistinctPaths(LogsLeaves(H, r.logs)[i])
    {
      LogLeavesDistinct(H, r.logs[i]);
    }
    UnderIndicesIsDistinct("logs", LogsLeaves(H, r.logs));
    UnderIndicesStarts("logs", LogsLeaves(H, r.logs));
    assert "logs[" == "logs" + "[";
    HashesLeavesNamed("log_hashes", LogHashes(H, r.logs));
    assert "log_hashes[" == "log_hashes" + "[";
    AttestedTxNamed(H, r.attestedTx);
    StartsAreIncompatible();
  }

  lemma AttestedTxNamed(H: Hasher, tx: AttestedTx)
    ensures DistinctPaths(Under("attested_tx", AttestedTxLeaves(H, tx)))
    ensures AllStartWith(Under("attested_tx", AttestedTxLeaves(H, tx)), "attested_tx")
  {
    assert "hash"[0] != "committee_epoch"[0];
    UnderIsDistinct("attested_tx", AttestedTxLeaves(H, tx));
  }

  /** No two leaves of a receipt share a path, however many logs and topics it has. */
  lemma ReceiptPathsAreDistinct(H: Hasher, r: Receipt)
    ensures DistinctPaths(ReceiptLeaves(H, r))
  {
    ReceiptIsWellNamed(H, r);
    FlattenIsDistinct(ReceiptParts(H, r), STARTS);
  }

  // ----- the leaf `log_hashes[i]` -----

  lemma {:induction false} HashUnderIndex(prefix: string, hashes: seq<Hash>, n: nat, leaf: Leaf) returns (i: nat)
    requires n <= |hashes| && leaf in UnderIndices(prefix, HashesLeaves(hashes)[..n])
    ensures i < n && leaf == Leaf(JoinPrefix(IndexPrefix(prefix, i), ""), hashes[i])
  {
    var items := HashesLeaves(hashes);
    var m := n - 1;
    if leaf in Under(IndexPrefix(prefix, m), items[m]) {
      i := m;
    } else {
      assert items[..n][..m] == items[..m];
      i := HashUnderIndex(prefix, hashes, m, leaf);
    }
  }

  /** The leaf at `log_hashes[i]` exists exactly for the receipt's own log indices and holds
      exactly that log's hash. */
  lemma LogHashLeafExact(H: Hasher, r: Receipt, i: nat, value: Hash)
    ensures Leaf(IndexPrefix("log_hashes", i), value) in ReceiptLeaves(H, r)
       <==> i < |r.logs| && value == LogHash(H, r.logs[i])
  {
    var leaf, hashes := Leaf(IndexPrefix("log_hashes", i), value), LogHashes(H, r.logs);
    var parts, items := ReceiptParts(H, r), HashesLeaves(hashes);
    assert items[..|items|] == items;
    if leaf in ReceiptLeaves(H, r) {
      ReceiptIsWellNamed(H, r);
      assert STARTS[3] == "log_hashes" + "[" <= leaf.path;
      LeafOfPart(parts, STARTS, leaf, 3);
      var k := HashUnderIndex("log_hashes", hashes, |hashes|, leaf);
      IndexPrefixNamesIndex("log_hashes", i, k);
    }
    if i < |r.logs| && value == LogHash(H, r.logs[i]) {
      var _ := LogHashLeafPosition(H, r, i);
    }
  }

  lemma LogHashLeafPosition(H: Hasher, r: Receipt, i: nat) returns (position: nat)
    requires i < |r.logs|
    ensures position < |ReceiptLeaves(H, r)|
    ensures ReceiptLeaves(H, r)[position] == Leaf(IndexPrefix("log_hashes", i), LogHash(H, r.logs[i]))
  {
    var leaves, parts := ReceiptLeaves(H, r), ReceiptParts(H, r);
    var items := HashesLeaves(LogHashes(H, r.logs));
    var part := PartIsRun(parts, 3);
    var item := ItemRun("log_hashes", items, i);
    position := part + item;
    var run := Under(IndexPrefix("log_hashes", i), items[i]);
    assert leaves[part..part + |parts[3]|][item] == leaves[position];
    assert parts[3][item..item + |run|][0] == parts[3][item];
  }

  // ----- every leaf by its path -----

  lemma {:induction false} ItemOfLeaf(prefix: string, items: seq<seq<Leaf>>, leaf: Leaf) returns (i: nat)
    requires leaf in UnderIndices(prefix, items)
    ensures i < |items| && leaf in Under(IndexPrefix(prefix, i), items[i])
    decreases |items|
  {
    var m := |items| - 1;
    if leaf in Under(IndexPrefix(prefix, m), items[m]) {
      i := m;
    } else {
      i := ItemOfLeaf(prefix, items[..m], leaf);
    }
  }

  // A path under a prefix names the leaf it stands for.
  lemma UnderExact(prefix: string, leaves: seq<Leaf>, sub: string, value: Hash)
    ensures Leaf(JoinPrefix(prefix, sub), value) in Under(prefix, leaves) <==> Leaf(sub, value) in leaves
  {
    var leaf, under := Leaf(JoinPrefix(prefix, sub), value), Under(prefix, leaves);
    if k :| 0 <= k < |leaves| && under[k] == leaf {
      JoinPrefixIsInjective(prefix, leaves[k].path, sub);
      assert leaves[k] == Leaf(sub, value);
    }
    if k :| 0 <= k < |leaves| && leaves[k] == Leaf(sub, value) {
      assert under[k] == leaf;
    }
  }

  // A path under an index of a list names the item and the leaf in it.
  lemma UnderIndexExact(prefix: string, items: seq<seq<Leaf>>, i: nat, sub: string, value: Hash)
    ensures Leaf(JoinPrefix(IndexPrefix(prefix, i), sub), value) in UnderIndices(prefix, items)
       <==> i < |items| && Leaf(sub, value) in items[i]
  {
    var p := IndexPrefix(prefix, i);
    var leaf := Leaf(JoinPrefix(p, sub), value);
    if leaf in UnderIndices(prefix, items) {
      var k := ItemOfLeaf(prefix, items, leaf);
      UnderStarts(IndexPrefix(prefix, k), items[k], leaf);
      JoinPrefixStarts(p, sub);
      if k != i {
        IndexPrefixesAreIncompatible(prefix, i, k);
        StartsAreComparable(p, IndexPrefix(prefix, k), leaf.path);
      }
      UnderExact(p, items[i], sub, value);
    }
    if i < |items| && Leaf(sub, value) in items[i] {
      UnderExact(p, items[i], sub, value);
      var offset := ItemRun(prefix, items, i);
      var run := Under(p, items[i]);
      var k :| 0 <= k < |run| && run[k] == leaf;
      assert UnderIndices(prefix, items)[offset..offset + |run|][k] == UnderIndices(prefix, items)[offset + k];
    }
  }

  lemma UnderStarts(prefix: string, leaves: seq<Leaf>, leaf: Leaf)
    requires leaf in Under(prefix, leaves)
    ensures prefix <= leaf.path
  {
    var k :| 0 <= k < |leaves| && Under(prefix, leaves)[k] == leaf;
    JoinPrefixStarts(prefix, leaves[k].path);
  }

  lemma TopicLeafExact(H: Hasher, d: LogData, j: nat, value: Hash)
    ensures Leaf(IndexPrefix("topics", j), value) in LogDataLeaves(H, d) <==> j < |d.topics| && value == d.topics[j]
  {
    assert "topics" <= IndexPrefix("topics", j) && "topics"[0] != "data"[0];
    assert IndexPrefix("topics", j) != "data";
    UnderIndexExact("topics", HashesLeaves(d.topics), j, "", value);
  }

  lemma DataLeafExact(H: Hasher, d: LogData, value: Hash)
    ensures Leaf("data", value) in LogDataLeaves(H, d) <==> value == H.keccak(d.data)
  {
    var leaf, topics := Leaf("data", value), UnderIndices("topics", HashesLeaves(d.topics));
    HashesLeavesNamed("topics", d.topics);
    assert ("topics" + "[")[0] == 't' && "data"[0] == 'd';
    forall k | 0 <= k < |topics|
      ensures topics[k].path[..1] != "data"[..1]
    {
      assert ("topics" + "[")[0] == topics[k].path[0];
    }
    var own := Leaf("data", H.keccak(d.data));
    assert LogDataLeaves(H, d)[|topics|] == own;
  }

  // Which paths under `data` and which bare ones a log has.
  lemma LogLeafExact(H: Hasher, log: Log, sub: string, value: Hash)
    ensures Leaf("address", value) in LogLeaves(H, log) <==> value == AddressHash(H, log.address)
    ensures Leaf(JoinPrefix("data", sub), value) in LogLeaves(H, log) <==> Leaf(sub, value) in LogDataLeaves(H, log.data)
  {
    var address, under := Leaf("address", AddressHash(H, log.address)), Under("data", LogDataLeaves(H, log.data));
    assert LogLeaves(H, log) == [address] + under;
    assert "address"[0] == 'a' && "data"[0] == 'd';
    JoinPrefixStarts("data", sub);
    assert "data" <= JoinPrefix("data", sub);
    assert JoinPrefix("data", sub)[0] == 'd';
    UnderExact("data", LogDataLeaves(H, log.data), sub, value);
    forall k | 0 <= k < |under|
      ensures under[k].path != "address"
    {
      JoinPrefixStarts("data", LogDataLeaves(H, log.data)[k].path);
      assert under[k].path[0] == 'd';
    }
    assert LogLeaves(H, log)[0] == address;
  }

  // A path under `logs[i]` names a leaf of log `i`.
  lemma LogsPartExact(H: Hasher, r: Receipt, i: nat, sub: string, value: Hash)
    ensures Leaf(JoinPrefix(IndexPrefix("logs", i), sub), value) in ReceiptLeaves(H, r)
       <==> i < |r.logs| && Leaf(sub, value) in LogLeaves(H, r.logs[i])
  {
    var parts, leaf := ReceiptParts(H, r), Leaf(JoinPrefix(IndexPrefix("logs", i), sub), value);
    UnderIndexExact("logs", LogsLeaves(H, r.logs), i, sub, value);
    ReceiptIsWellNamed(H, r);
    JoinPrefixStarts(IndexPrefix("logs", i), sub);
    assert STARTS[2] == "logs" + "[" <= IndexPrefix("logs", i) <= leaf.path;
    if leaf in ReceiptLeaves(H, r) {
      LeafOfPart(parts, STARTS, leaf, 2);
    }
    if leaf in parts[2] {
      PartAt(parts, 2, |Flatten(parts[..2])|);
    }
  }

  // The paths below `logs[i]`, spelled out.
  lemma LogPaths(i: nat, topic: string)
    requires topic != ""
    ensures IndexPrefix("logs", i) + ".data." + topic == JoinPrefix(IndexPrefix("logs", i), JoinPrefix("data", topic))
    ensures IndexPrefix("logs", i) + ".address" == JoinPrefix(IndexPrefix("logs", i), "address")
  {
    var log := IndexPrefix("logs", i);
    assert ".data." == "." + ("data" + ".");
    assert log + ".data." + topic == log + "." + (("data" + ".") + topic);
    assert log + ".address" == log + "." + "address" by {
      assert ".address" == "." + "address";
    }
  }

  /** The leaf at `logs[i].data.topics[j]` exists exactly for a topic of a log of the receipt, and
      holds that topic. */
  lemma LogTopicLeafExact(H: Hasher, r: Receipt, i: nat, j: nat, value: Hash)
    ensures Leaf(IndexPrefix("logs", i) + ".data." + IndexPrefix("topics", j), value) in ReceiptLeaves(H, r)
       <==> i < |r.logs| && j < |r.logs[i].data.topics| && value == r.logs[i].data.topics[j]
  {
    var topic := IndexPrefix("topics", j);
    LogPaths(i, topic);
    LogsPartExact(H, r, i, JoinPrefix("data", topic), value);
    if i < |r.logs| {
      LogLeafExact(H, r.logs[i], topic, value);
      TopicLeafExact(H, r.logs[i].data, j, value);
    }
  }

  /** So does `logs[i].data.data`, with the hash of the log's bytes, and `logs[i].address`, with the
      hash of its address. */
  lemma LogDataLeafExact(H: Hasher, r: Receipt, i: nat, value: Hash)
    ensures Leaf(IndexPrefix("logs", i) + ".data." + "data", value) in ReceiptLeaves(H, r)
       <==> i < |r.logs| && value == H.keccak(r.logs[i].data.data)
    ensures Leaf(IndexPrefix("logs", i) + ".address", value) in ReceiptLeaves(H, r)
       <==> i < |r.logs| && value == H.keccak(H.address20(r.logs[i].address))
  {
    LogPaths(i, "data");
    LogsPartExact(H, r, i, JoinPrefix("data", "data"), value);
    LogsPartExact(H, r, i, "address", value);
    if i < |r.logs| {
      LogLeafExact(H, r.logs[i], "data", value);
      DataLeafExact(H, r.logs[i].data, value);
    }
  }

  // ----- how many leaves there are -----

  function TopicCount(logs: seq<Log>): nat {
    if logs == [] then 0 else TopicCount(logs[..|logs| - 1]) + |logs[|logs| - 1].data.topics|
  }

  lemma {:induction false} HashesLeavesCount(prefix: string, hashes: seq<Hash>)
    ensures |UnderIndices(prefix, HashesLeaves(hashes))| == |hashes|
    decreases |hashes|
  {
    if hashes == [] {
    } else {
      var m := |hashes| - 1;
      assert HashesLeaves(hashes)[..m] == HashesLeaves(hashes[..m]);
      HashesLeavesCount(prefix, hashes[..m]);
    }
  }

  lemma LogLeavesCount(H: Hasher, log: Log)
    ensures |LogLeaves(H, log)| == |log.data.topics| + 2
  {
    HashesLeavesCount("topics", log.data.topics);
  }

  lemma {:induction false} LogsLeavesCount(H: Hasher, logs: seq<Log>)
    ensures |UnderIndices("logs", LogsLeaves(H, logs))| == TopicCount(logs) + 2 * |logs|
    decreases |logs|
  {
    if logs == [] {
    } else {
      var m := |logs| - 1;
      assert LogsLeaves(H, logs)[..m] == LogsLeaves(H, logs[..m]);
      LogsLeavesCount(H, logs[..m]);
      LogLeavesCount(H, logs[m]);
    }
  }

  lemma FlattenSeven(p: seq<seq<Leaf>>)
    requires |p| == 7
    ensures |Flatten(p)| == |p[0]| + |p[1]| + |p[2]| + |p[3]| + |p[4]| + |p[5]| + |p[6]|
  {
    AppendSevenParts([], p);
    assert [] + Flatten(p) == Flatten(p);
  }

  /** A receipt has six leaves of its own, three for each log and one for each topic. */
  lemma ReceiptLeavesCount(H: Hasher, r: Receipt)
    ensures |ReceiptLeaves(H, r)| == 6 + 3 * |r.logs| + TopicCount(r.logs)
  {
    FlattenSeven(ReceiptParts(H, r));
    LogsLeavesCount(H, r.logs);
    HashesLeavesCount("log_hashes", LogHashes(H, r.logs));
  }

  // ----- the order of the leaves -----

  lemma {:induction false} HashesInOrder(prefix: string, hashes: seq<Hash>, i: nat)
    requires i < |hashes|
    ensures |UnderIndices(prefix, HashesLeaves(hashes))| == |hashes|
    ensures UnderIndices(prefix, HashesLeaves(hashes))[i] == Leaf(IndexPrefix(prefix, i), hashes[i])
    decreases |hashes|
  {
    var m := |hashes| - 1;
    assert HashesLeaves(hashes)[..m] == HashesLeaves(hashes[..m]);
    HashesLeavesCount(prefix, hashes[..m]);
    if i < m {
      HashesInOrder(prefix, hashes[..m], i);
    }
  }

  // The address first, then the topics in order, then the data.
  lemma LogInOrder(H: Hasher, log: Log)
    ensures var l, n := LogLeaves(H, log), |log.data.topics|;
            && |l| == n + 2 && l[0] == Leaf("address", AddressHash(H, log.address))
            && (forall j :: 0 <= j < n ==> l[1 + j] == Leaf(JoinPrefix("data", IndexPrefix("topics", j)), log.data.topics[j]))
            && l[1 + n] == Leaf(JoinPrefix("data", "data"), H.keccak(log.data.data))
  {
    LogLeavesCount(H, log);
    forall j | 0 <= j < |log.data.topics|
      ensures LogDataLeaves(H, log.data)[j] == Leaf(IndexPrefix("topics", j), log.data.topics[j])
    {
      HashesInOrder("topics", log.data.topics, j);
    }
  }

  ghost predicate AppearsAt(leaves: seq<Leaf>, offset: nat, part: seq<Leaf>) {
    offset + |part| <= |leaves| && forall k :: 0 <= k < |part| ==> leaves[offset + k] == part[k]
  }

  // Item `i` stands behind the items before it.
  lemma {:induction false} ItemInOrder(prefix: string, items: seq<seq<Leaf>>, i: nat)
    requires i < |items|
    ensures AppearsAt(UnderIndices(prefix, items), |UnderIndices(prefix, items[..i])|, Under(IndexPrefix(prefix, i), items[i]))
    decreases |items|
  {
    var m := |items| - 1;
    if i < m {
      ItemInOrder(prefix, items[..m], i);
      assert items[..m][..i] == items[..i];
    }
  }

  lemma LogsInOrder(H: Hasher, logs: seq<Log>, i: nat)
    requires i < |logs|
    ensures AppearsAt(UnderIndices("logs", LogsLeaves(H, logs)), TopicCount(logs[..i]) + 2 * i,
                      Under(IndexPrefix("logs", i), LogLeaves(H, logs[i])))
  {
    var items := LogsLeaves(H, logs);
    assert items[..i] == LogsLeaves(H, logs[..i]);
    LogsLeavesCount(H, logs[..i]);
    ItemInOrder("logs", items, i);
  }

  lemma PartAt(parts: seq<seq<Leaf>>, k: nat, offset: nat)
    requires k < |parts| && offset == |Flatten(parts[..k])|
    ensures AppearsAt(Flatten(parts), offset, parts[k]) && |Flatten(parts[..k + 1])| == offset + |parts[k]|
  {
    var found := PartIsRun(parts, k);
    assert parts[..k + 1][..k] == parts[..k];
    forall i | 0 <= i < |parts[k]|
      ensures Flatten(parts)[offset + i] == parts[k][i]
    {
      assert Flatten(parts)[offset..offset + |parts[k]|][i] == Flatten(parts)[offset + i];
    }
  }

  lemma SevenInOrder(p: seq<seq<Leaf>>, c: nat, n: nat)
    requires |p| == 7 && |p[2]| == c && |p[3]| == n && |p[6]| == 2
    requires |p[0]| == 1 && |p[1]| == 1 && |p[4]| == 1 && |p[5]| == 1
    ensures var l := Flatten(p);
            && |l| == 6 + c + n && AppearsAt(l, 0, p[0]) && AppearsAt(l, 1, p[1]) && AppearsAt(l, 2, p[2])
            && AppearsAt(l, 2 + c, p[3]) && AppearsAt(l, 2 + c + n, p[4]) && AppearsAt(l, 3 + c + n, p[5])
            && AppearsAt(l, 4 + c + n, p[6])
  {
    PartAt(p, 0, 0);
    PartAt(p, 1, 1);
    PartAt(p, 2, 2);
    PartAt(p, 3, 2 + c);
    PartAt(p, 4, 2 + c + n);
    PartAt(p, 5, 3 + c + n);
    PartAt(p, 6, 4 + c + n);
    assert p[..7] == p;
  }

  lemma SevenHeads(p: seq<seq<Leaf>>, c: nat, n: nat)
    requires |p| == 7 && |p[2]| == c && |p[3]| == n && |p[6]| == 2
    requires |p[0]| == 1 && |p[1]| == 1 && |p[4]| == 1 && |p[5]| == 1
    ensures var l := Flatten(p);
            && |l| == 6 + c + n && l[0] == p[0][0] && l[1] == p[1][0] && l[2 + c + n] == p[4][0]
            && l[3 + c + n] == p[5][0] && l[4 + c + n] == p[6][0] && l[5 + c + n] == p[6][1]
  {
    SevenInOrder(p, c, n);
  }

  lemma ReceiptPartsInOrder(H: Hasher, r: Receipt)
    ensures var p := ReceiptParts(H, r);
            |p[2]| == TopicCount(r.logs) + 2 * |r.logs| && |p[3]| == |r.logs|
            && (forall i :: 0 <= i < |r.logs| ==> p[3][i].path == IndexPrefix("log_hashes", i))
            && |p[6]| == 2 && p[6][0].path == "attested_tx" + "." + "hash"
            && p[6][1].path == "attested_tx" + "." + "committee_epoch"
  {
    LogsLeavesCount(H, r.logs);
    HashesLeavesCount("log_hashes", LogHashes(H, r.logs));
    forall i | 0 <= i < |r.logs|
      ensures ReceiptParts(H, r)[3][i].path == IndexPrefix("log_hashes", i)
    {
      HashesInOrder("log_hashes", LogHashes(H, r.logs), i);
    }
  }

  /** The order of a receipt's leaves: two fields, the logs, the log hashes, and four more fields. */
  lemma ReceiptInOrder(H: Hasher, r: Receipt)
    ensures var l, n, c := ReceiptLeaves(H, r), |r.logs|, TopicCount(r.logs) + 2 * |r.logs|;
            && |l| == 6 + c + n && l[0].path == "status" && l[1].path == "actual_gas_used"
            && (forall i :: 0 <= i < n ==> l[2 + c + i].path == IndexPrefix("log_hashes", i))
            && l[2 + c + n].path == "logs_root" && l[3 + c + n].path == "tx_hash"
            && l[4 + c + n].path == "attested_tx" + "." + "hash" && l[5 + c + n].path == "attested_tx" + "." + "committee_epoch"
  {
    ReceiptPartsInOrder(H, r);
    SevenHeads(ReceiptParts(H, r), TopicCount(r.logs) + 2 * |r.logs|, |r.logs|);
    LogHashesInOrder(H, r);
  }

  lemma LogHashesInOrder(H: Hasher, r: Receipt)
    ensures var l, n, c := ReceiptLeaves(H, r), |r.logs|, TopicCount(r.logs) + 2 * |r.logs|;
            |l| == 6 + c + n && forall i :: 0 <= i < n ==> l[2 + c + i].path == IndexPrefix("log_hashes", i)
  {
    ReceiptPartsInOrder(H, r);
    SevenInOrder(ReceiptParts(H, r), TopicCount(r.logs) + 2 * |r.logs|, |r.logs|);
  }

  /** Within them a log's leaves stand behind those of the logs before it: its address, its topics
      in order, and its data. */
  lemma LogLeavesInOrder(H: Hasher, r: Receipt, i: nat, j: nat)
    requires i < |r.logs| && j < |r.logs[i].data.topics| + 2
    ensures var l, k := ReceiptLeaves(H, r), 2 + TopicCount(r.logs[..i]) + 2 * i + j;
            var d, log := r.logs[i].data, IndexPrefix("logs", i);
            && k < |l|
            && l[k] == if j == 0 then Leaf(log + ".address", H.keccak(H.address20(r.logs[i].address)))
                       else if j <= |d.topics| then Leaf(log + ".data." + IndexPrefix("topics", j - 1), d.topics[j - 1])
                       else Leaf(log + ".data." + "data", H.keccak(d.data))
  {
    LogInOrder(H, r.logs[i]);
    LogPaths(i, if 0 < j <= |r.logs[i].data.topics| then IndexPrefix("topics", j - 1) else "data");
    LogAt(H, r, i, j);
  }

  lemma LogsAt(H: Hasher, r: Receipt)
    ensures AppearsAt(ReceiptLeaves(H, r), 2, UnderIndices("logs", LogsLeaves(H, r.logs)))
  {
    ReceiptPartsInOrder(H, r);
    SevenInOrder(ReceiptParts(H, r), TopicCount(r.logs) + 2 * |r.logs|, |r.logs|);
  }

  lemma AppearsWithin(leaves: seq<Leaf>, offset: nat, part: seq<Leaf>, inner: nat, run: seq<Leaf>)
    requires AppearsAt(leaves, offset, part) && AppearsAt(part, inner, run)
    ensures AppearsAt(leaves, offset + inner, run)
  {
    forall k | 0 <= k < |run|
      ensures leaves[offset + inner + k] == run[k]
    {
      assert leaves[offset + (inner + k)] == part[inner + k];
    }
  }

  lemma LogRunAt(H: Hasher, r: Receipt, i: nat)
    requires i < |r.logs|
    ensures AppearsAt(ReceiptLeaves(H, r), 2 + (TopicCount(r.logs[..i]) + 2 * i),
                      Under(IndexPrefix("logs", i), LogLeaves(H, r.logs[i])))
  {
    LogsAt(H, r);
    LogsInOrder(H, r.logs, i);
    AppearsWithin(ReceiptLeaves(H, r), 2, UnderIndices("logs", LogsLeaves(H, r.logs)), TopicCount(r.logs[..i]) + 2 * i,
                  Under(IndexPrefix("logs", i), LogLeaves(H, r.logs[i])));
  }

  lemma LogAt(H: Hasher, r: Receipt, i: nat, j: nat)
    requires i < |r.logs| && j < |LogLeaves(H, r.logs[i])|
    ensures var l, k, own := ReceiptLeaves(H, r), 2 + TopicCount(r.logs[..i]) + 2 * i + j, LogLeaves(H, r.logs[i])[j];
            k < |l| && l[k] == Leaf(JoinPrefix(IndexPrefix("logs", i), own.path), own.value)
  {
    LogRunAt(H, r, i);
    assert ReceiptLeaves(H, r)[2 + (TopicCount(r.logs[..i]) + 2 * i) + j]
        == Under(IndexPrefix("logs", i), LogLeaves(H, r.logs[i]))[j];
  }
}
