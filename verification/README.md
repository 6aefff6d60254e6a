# Proofs about the pod SDKs

A Dafny model of the hard parts of the pod SDK repository, and proofs about it. It covers

- the Merkle tree in one flat array, its proofs and multi-proofs, and what they mean for
  receipts and logs (`MerkleTree`, `MerkleReplay`, `MerkleCompleteness`, `MerkleSoundness`,
  `MerkleServable`, `StandardMerkleTrees`, `MerklePaths`, `Receipts`, `ReceiptPaths`, `ReceiptProofs`, `IdealHash`);
- quorum certificates, and safety over whole runs of signing validators (`Committees`,
  `CertificateSafety`), joined with the trees in `CertifiedLogs`;
- live account arithmetic in 18-decimal fixed point (`FixedPoint`, `LivePositions`, `ZeroSum`,
  `OrderPreviews`);
- candle series over a subscription that may drop at any moment (`Candles`, `CandleBars`,
  `CandleSession`, `CandleSeed`, `CandlePages`, `CandleSeriesObject`, `CandleHistory`), and the
  WebSocket client under it (`WsClient`, `WsClientObject`, `WsRegistry`);
- printing and parsing decimal amounts (`Units`, `Decimal`).

`dafny verify dfyconfig.toml` checks everything. Code that works by changing variables in place
is modelled by methods and classes that do the same, each proved against a specification
function; the theorems are about those functions and about runs of them.

## Assumptions

- The pair hash is a parameter. Completeness holds for any function at all; completeness by leaf
  path needs leaf hashes that do not collide. Soundness for receipts assumes one injective hash
  over byte strings, used for pairs and leaves alike, with words of 32 bytes. Both are then
  ideal, except that a leaf whose path has 32 bytes has the form of a pair
  (`ReceiptProofs.LeafIsPairIff`): soundness is stated for receipts and claims without such a
  path, which a receipt with up to 100,000 logs and topics never has.
  `IdealHash.IdealHasherExists` shows the assumptions can be met together; a byte is any natural
  number there, because no injective hash into 32 bytes exists.
- Signature recovery is a parameter that may fail. A run is legal when each honest validator
  signs at most one digest per slot and none it has refused; a certificate is made of
  signatures that exist.
- A server tick log has strictly increasing timestamps and is replayed strictly after `since`.
  The WebSocket server answers requests of the current connection only and never reuses an id;
  an owner does not ask again while a request of its own is outstanding.
- Closed bars returned for a page lie in that page's window.

## Where the code differs from what is said about it

The model follows the code.

- `generate_multi_proof_for_log_hashes` expects to find its leaves but forms `log_hashes.[i]`
  where the receipt stores `log_hashes[i]`; it panics for every receipt with a log
  (`ReceiptProofs.LogHashesMultiProofExact`).
- The comment on `VerifiableLog::generate_multi_proof` (types/src/ledger/log.rs:74) promises none
  for an index without a log; the code indexes the vector and panics
  (`ReceiptProofs.LogMultiProofComplete`).
- `generate_multi_proof` neither sorts nor removes repetitions. Which lists it serves is stated
  exactly, as a condition on the list (`MerkleServable.GeneratedVerifiesIffServable`), with a
  failing input (`MerkleCompleteness.AscendingCounterexample`).
- `verify_multi_proof` can panic instead of returning false (`MerkleReplay.VerifierOutcome`).
- `resubscribe` of a running subscription forgets its id without cancelling it on the server
  (`WsRegistry.ResubscribingLiveLeaks`, `LeakingRun`).
- An owner that has unsubscribed can still get `onError`, namely for a request refused after it
  left (`WsRegistry.RefusalReachesLeaver`). `WsRegistry.LeaverIsCalledIff` says exactly when.
- A page of closed bars that was loaded while it was still the trailing page, or whose request
  failed, is stored and never requested again by a load once it has passed, although its window
  has grown (`CandleHistory.GapAfterTrailing`, `GapAfterFailure`). When a range is complete is
  stated exactly (`CandleHistory.RangeAnsweredIff`, `PassedPageIff`). A load rounds its range down to
  whole seconds, and so do these statements.
- A rejection by f+1 validators is final if they are honest; exactly which refusals are final is
  `CertificateSafety.NeverCertifiableIff`.
- `1M` pages are commented as calendar months (ts-sdk/src/codec/resolution.ts:13); the series
  divides by the nominal 30 days.

## Model

| member | source | states |
|---|---|---|
| `MerkleTree.New` | `types/src/cryptography/merkle_tree.rs:313-335` | The two in-place loops leave the array `Tree(h, leaves)`, for every leaf list and every pair hash; no leaves give the single default slot. |
| `MerkleTree.SmallerGoesFirst` | `types/src/cryptography/merkle_tree.rs:59-65` | Of two hashes the smaller one goes first, whichever way round they are given. |
| `MerkleTree.TreeIsWellFormed` | `types/src/cryptography/merkle_tree.rs:313-335` | Every slot with children is the hash of its two children, and the leaves stand reversed at the end. |
| `MerkleTree.TreeIsUnique` | `types/src/cryptography/merkle_tree.rs:313-335` | Those two conditions determine the whole array, so `Tree` is the only value `New` could return. |
| `MerkleTree.Family` | `types/src/cryptography/merkle_tree.rs:67-85` | Parent, sibling and children are one family: the sibling of the sibling is the slot itself, both have one parent, and they are its two children. |
| `MerkleTree.GenerateProof` | `types/src/cryptography/merkle_tree.rs:345-363` | Leaf indices get one sibling per level up to the root (the bounds guard never drops one); every other index gets the invalid-index error. |
| `MerkleTree.GenerateMultiProof` | `types/src/cryptography/merkle_tree.rs:365-402` | The work queue terminates on every index list, sorted or not, repeated or not, with all sibling accesses in bounds, and emits exactly the path and flags of the specification; any index that is not a leaf gives none. |
| `MerkleTree.VerifyMultiProof` | `types/src/cryptography/merkle_tree.rs:408-448` | The loop with its cursor computes the verdict of the stack machine: accepted, rejected, or a panic on an empty stack. What the verdict means is stated by the rows that follow. |
| `MerkleReplay.ReplayConserves` | `types/src/cryptography/merkle_tree.rs:420-436` | Stack plus unread path shrinks by exactly one per flag, and something stays on the stack. |
| `MerkleReplay.VerifierOutcome` | `types/src/cryptography/merkle_tree.rs:408-445` | The verifier panics exactly when the count checks pass and a flag underflows the stack, a condition on the leaf count and flags only; otherwise exactly one hash is left, so the catch-all arm is unreachable and the cursor never overruns. |
| `MerkleReplay.OneRootPerProof` | `types/src/cryptography/merkle_tree.rs:408-448` | One proof fits one root: the same leaves, path and flags are accepted against no two roots, for any pair hash. |
| `MerkleReplay.SomeRootFits` | `types/src/cryptography/merkle_tree.rs:408-448` | Whatever passes the two counts without a panic is accepted against some root, so against exactly one. |
| `MerkleReplay.EmptyClaimExact` | `types/src/cryptography/merkle_tree.rs:437-445` | Without leaves a proof is accepted if and only if it is the root alone, with no flags. |
| `MerkleReplay.PanicExample` | `types/src/cryptography/merkle_tree.rs:425-428` | A one-leaf, one-flag proof that passes the count checks and panics, for any hash and root. |
| `MerkleCompleteness.ProofFoldsToRoot` | `types/src/cryptography/merkle_tree.rs:345-363` | For every slot of every tree, folding its value up its generated path gives the root. |
| `MerkleCompleteness.ReplayFollowsQueue` | `types/src/cryptography/merkle_tree.rs:375-395` | Simulation: replaying what the generator emits keeps the stack pointwise equal to the values of the generator's queue, never crashes, and reads the path exactly to its end. |
| `MerkleCompleteness.EmittedCounts` | `types/src/cryptography/merkle_tree.rs:375-395` | Path entries are the false flags; indices plus path entries are flags plus what is left in the queue. |
| `MerkleCompleteness.OnlyLeavesAreServed` | `types/src/cryptography/merkle_tree.rs:365-369` | A list gets a multi-proof if and only if every index in it is a slot without children. |
| `MerkleServable.GeneratedVerifiesIffServable` | `types/src/cryptography/merkle_tree.rs:365-402` | For every list of leaf indices, in any order and with any repetitions: the generated proof verifies if and only if the list is empty, or has no repeats, depths that do not increase, and, with the deepest indices moved behind the others, consecutive indices below every slot. It is rejected otherwise and never crashes the verifier. |
| `MerkleServable.TurnKeepsCourse` | `types/src/cryptography/merkle_tree.rs:375-394` | One turn of the queue keeps that condition, generalised to queues over two adjacent depths, in both directions. |
| `MerkleServable.DrainsToRootIff` | `types/src/cryptography/merkle_tree.rs:375-394` | The queue ends as the root alone if and only if it starts on course. |
| `MerkleServable.ServedIndicesAreDistinct` | `types/src/cryptography/merkle_tree.rs:365-402` | If the proof generated for a list of leaf indices verifies, the indices are pairwise distinct: repetition is never served. |
| `MerkleServable.DescendingIsServable` | `types/src/cryptography/merkle_tree.rs:108-117` | Strictly descending lists, which in-order leaves give, are servable. |
| `MerkleCompleteness.OrderlyDrainsToRoot` | `types/src/cryptography/merkle_tree.rs:375-394` | From descending leaves, slot 0 is popped only from a one-element queue. |
| `MerkleCompleteness.MultiProofCompleteness` | `types/src/cryptography/merkle_tree.rs:365-402` | Every strictly descending list of leaf indices, the empty one included, yields a proof that verifies, for any pair hash. |
| `MerkleCompleteness.AscendingCounterexample` | `types/src/cryptography/merkle_tree.rs:365-402` | Order matters: indices 2, 3 of a five-slot tree give a proof that is rejected. |
| `MerkleSoundness.CommutativeHashPairIsInjective` | `types/src/cryptography/merkle_tree.rs:59-65` | With an injective pair hash the commutative one forgets the order of its arguments and nothing else. |
| `MerkleSoundness.SingleProofExact` | `types/src/cryptography/merkle_tree.rs:404-406` | Ideal hash: a (leaf, path) is accepted if and only if it is the value of a slot at depth |path| together with that slot's generated path. |
| `MerkleSoundness.SingleProofSoundness` | `types/src/cryptography/merkle_tree.rs:404-406` | Ideal hash: a genuine leaf that is accepted is in the leaf list. |
| `MerkleSoundness.MultiProofSoundness` | `types/src/cryptography/merkle_tree.rs:408-448` | Ideal hash: whatever path and flags, accepted genuine leaves sit at pairwise distinct positions of the tree and form a sub-multiset of its leaves. |
| `MerkleSoundness.FrontierKeepsLeaves` | `types/src/cryptography/merkle_tree.rs:328-332` | The slots k..2k cover every leaf exactly once, for every inner k: swapping a slot for its children loses nothing. |
| `MerkleSoundness.RootCoversLeaves` | `types/src/cryptography/merkle_tree.rs:313-335` | The leaves below the root are the leaf list as a multiset. |
| `MerkleSoundness.RootBinding` | `types/src/cryptography/merkle_tree.rs:313-339` | Ideal hash: two non-empty leaf lists of any lengths with the same root are the same multiset. |
| `IdealHash.IdealHasherExists` | `types/src/cryptography/merkle_tree.rs:52-57` | One injective hash over byte strings and an injective 32-byte encoding of words exist together, with pairs and leaves hashed as concatenations. |
| `ReceiptProofs.PairsAreIdeal` | `types/src/cryptography/merkle_tree.rs:52-57` | An injective hash of two words side by side is injective on pairs. |
| `ReceiptProofs.LeafHashesAreInjective` | `types/src/cryptography/merkle_tree.rs:104-106` | An injective hash of path bytes followed by a word is injective on leaves. |
| `ReceiptProofs.LeafIsPairIff` | `types/src/cryptography/merkle_tree.rs:52-57` | Leaves and pairs go through the same hash: a leaf is the hash of a pair if and only if its path spells a word, which takes 32 bytes. |
| `StandardMerkleTrees.NewStandard` | `types/src/cryptography/merkle_tree.rs:108-117` | Tree and leaf-to-slot map are built as specified, the last of equal leaves winning. |
| `StandardMerkleTrees.SlotsHoldLeaves` | `types/src/cryptography/merkle_tree.rs:108-117` | The map knows exactly the leaves and sends each to a leaf slot holding it. |
| `StandardMerkleTrees.LastOfEqualLeaves` | `types/src/cryptography/merkle_tree.rs:108-117` | The slot kept for a leaf is that of its last occurrence. |
| `StandardMerkleTrees.GenerateProofForLeaf` | `types/src/cryptography/merkle_tree.rs:119-125` | The inner `expect` never fails; the proof is the path of the slot found for the leaf. |
| `StandardMerkleTrees.LeafProofComplete` | `types/src/cryptography/merkle_tree.rs:119-125` | A leaf gets a proof that verifies if and only if it is in the list, repeated or not; otherwise none. |
| `StandardMerkleTrees.GenerateMultiProofForLeaves` | `types/src/cryptography/merkle_tree.rs:127-138` | The lookup loop gives none at an unknown leaf, and otherwise the multi-proof of the slots found. |
| `StandardMerkleTrees.LeavesMultiProofComplete` | `types/src/cryptography/merkle_tree.rs:127-138` | Among distinct leaves every selection in tree order, including none and all, gets a multi-proof that verifies. |
| `StandardMerkleTrees.LeavesMultiProofExact` | `types/src/cryptography/merkle_tree.rs:127-138` | For any request over any leaves, repeated or not: none if a leaf is unknown, otherwise a proof that verifies if and only if the slots found are servable. |
| `StandardMerkleTrees.UnknownLeafGetsNone` | `types/src/cryptography/merkle_tree.rs:127-135` | A request containing a leaf not in the tree gets none. |
| `MerklePaths.JoinPrefixIsInjective` | `types/src/cryptography/merkle_tree.rs:149-156` | Under one prefix, different sub-paths give different paths. |
| `MerklePaths.IndexPrefixNamesIndex` | `types/src/cryptography/merkle_tree.rs:158-164` | An indexed prefix that starts another one has the same index: the closing bracket ends the number. |
| `MerklePaths.MerkleBuilder.AddMerkleizable` | `types/src/cryptography/merkle_tree.rs:195-199` | Appends the item's leaves in order, each under the prefix. |
| `MerklePaths.MerkleBuilder.AddSlice` | `types/src/cryptography/merkle_tree.rs:201-205` | Appends the leaves of all items in order, item i under `prefix[i]`. |
| `MerklePaths.UnderIndicesIsDistinct` | `types/src/cryptography/merkle_tree.rs:201-205` | Items with distinct paths give a list with distinct paths, every path naming its item's index. |
| `Receipts.AppendReceiptLeaves` | `types/src/ledger/receipt.rs:79-93` | The builder calls append exactly the seven groups of leaves the specification flattens. |
| `Receipts.AppendLogDataLeaves` | `types/src/ledger/log.rs:49-54` | Appends one leaf per topic and one for the data. Which leaves these are, by path, is `ReceiptPaths.LogTopicLeafExact` and `LogDataLeafExact`. |
| `Receipts.AppendLogLeaves` | `types/src/ledger/log.rs:56-61` | Appends the address leaf and the data leaves under `data`. |
| `ReceiptPaths.AttestedTxNamed` | `types/src/consensus/attestation.rs:150-158` | The attested transaction's leaves have distinct paths under their prefix. |
| `ReceiptPaths.ReceiptPathsAreDistinct` | `types/src/ledger/receipt.rs:79-93` | No two leaves of a receipt share a path, for any number of logs and topics. |
| `ReceiptPaths.LogHashLeafExact` | `types/src/ledger/receipt.rs:88` | The leaf `log_hashes[i]` with a value exists if and only if i is a log of the receipt and the value is that log's hash. |
| `ReceiptPaths.LogTopicLeafExact` | `types/src/ledger/log.rs:49-54` | The leaf `logs[i].data.topics[j]` with a value exists if and only if i is a log, j one of its topics, and the value that topic. |
| `ReceiptPaths.LogDataLeafExact` | `types/src/ledger/log.rs:49-61` | The leaves `logs[i].data.data` and `logs[i].address` exist exactly for the logs of the receipt, with the hash of the bytes and of the address. |
| `ReceiptPaths.ReceiptLeavesCount` | `types/src/ledger/receipt.rs:79-93` | A receipt has six leaves of its own, three for each log and one for each topic. |
| `ReceiptPaths.ReceiptInOrder` | `types/src/ledger/receipt.rs:79-93` | Their order: status, gas used, the logs, the log hashes by index, logs root, transaction hash, attested transaction. |
| `ReceiptPaths.LogLeavesInOrder` | `types/src/ledger/log.rs:49-61` | The place of every leaf of every log, behind those of the logs before it: address, topics in order, data. |
| `ReceiptProofs.ModestReceiptIsPlain` | `types/src/ledger/receipt.rs:79-93` | With at most 100,000 logs of at most 100,000 topics, no path of the receipt has 32 bytes. |
| `ReceiptProofs.ReceiptFieldsExact` | `types/src/ledger/receipt.rs:79-93` | Each of the six leaves a receipt has of its own exists with exactly one value: the status as the word 1 or 0, gas used and logs root as words, the hashes as they are, the committee epoch as a word. |
| `ReceiptProofs.LogHashProofComplete` | `types/src/ledger/receipt.rs:41-45` | Every log index gets a proof of its hash that verifies against the receipt root, every other index none; no hash assumption. |
| `ReceiptProofs.LogMultiProofComplete` | `types/src/ledger/receipt.rs:65-70` | Collision-free leaf hashing: panics exactly on an index without a log, otherwise returns the log's own leaves, two more than it has topics, with a proof that verifies. |
| `ReceiptProofs.LogsMultiProofComplete` | `types/src/ledger/receipt.rs:73-76` | Never panics; returns the leaves of all logs, two for each log and one for each topic, with a proof that verifies. |
| `ReceiptProofs.FormedPathIsNotStored` | `types/src/cryptography/merkle_tree.rs:300-309` | The path `log_hashes.[0]` formed for a list of hashes is no path of any receipt. |
| `ReceiptProofs.LogHashesMultiProofExact` | `types/src/ledger/receipt.rs:59-62` | Panics if and only if the receipt has a log; with none, the empty proof it returns verifies. |
| `ReceiptProofs.ProvedLeafIsInReceipt` | `types/src/cryptography/merkle_tree.rs:404-406` | Injective hash, no 32-byte path: a leaf proved against a receipt root, path and value, is a leaf of that receipt. |
| `ReceiptProofs.ProvedLeavesAreInReceipt` | `types/src/cryptography/merkle_tree.rs:408-448` | Injective hash, no 32-byte path: leaves proved together are leaves of the receipt, each at its own position. |
| `ReceiptProofs.VerifiableLogSound` | `types/src/ledger/log.rs:148-151` | Injective hash, no 32-byte path: a log that passes against a receipt root is the log that receipt has at the very index the log carries (0 when it carries none). |
| `ReceiptProofs.VerifiableLogComplete` | `types/src/ledger/log.rs:99-113` | The proof a log generates passes against its own receipt's root, and there is one if and only if the log carries an index its receipt has. |
| `ReceiptProofs.ReceiptRootBinds` | `types/src/ledger/receipt.rs:79-99` | Injective hash, no 32-byte path: two receipts have the same root if and only if status, gas used, all logs, logs root, transaction hash and attested transaction agree. |
| `Committees.VerifyAggregateAttestation` | `types/src/consensus/committee.rs:65-106` | The loop counts the set of distinct recovered members, with the two error cases and the counts they report. |
| `Committees.AttestedIffQuorum` | `types/src/consensus/committee.rs:65-106` | Ok if and only if the distinct recovered members number at least the quorum; the early length check changes no verdict. |
| `Committees.SignersExact` | `types/src/consensus/committee.rs:77-96` | A member counts if and only if some signature recovers to it. |
| `Committees.FailureReports` | `types/src/consensus/committee.rs:71-103` | A failure reports the quorum and the smaller number that fell short of it: the signatures if there were too few, otherwise the distinct members. |
| `Committees.OrderAndRepetitionAreIrrelevant` | `types/src/consensus/committee.rs:77-103` | Signature lists with the same elements get the same verdict. |
| `Committees.FPlusOneMeetsEveryQuorum` | `types/src/consensus/committee.rs:36-42` | A set of members meets every quorum if and only if it has at least f+1 members. |
| `CertificateSafety.HonestSignOncePerSlot` | `types/src/consensus/committee.rs:65-106` | In every legal run an honest validator's signatures on one slot are on one digest. |
| `CertificateSafety.ConflictingCertificatesAreImpossible` | `types/src/consensus/committee.rs:108-116` | With 2q > n + faulty, no state of any legal run lets two digests of one slot both be certified. |
| `CertificateSafety.ConflictIsReachable` | `types/src/consensus/committee.rs:108-116` | With 2q <= n + faulty, a legal run is built that certifies two digests of one slot. |
| `CertificateSafety.SafetyExact` | `types/src/consensus/committee.rs:65-106` | All legal runs are safe if and only if 2q > n + faulty. |
| `CertificateSafety.NeverCertifiableIff` | `rust-sdk/src/provider/mod.rs:391-393` | A digest is not certifiable now or after any legal continuation if and only if at least f+1 honest members have refused it or signed another digest of its slot. |
| `CertificateSafety.RejectedIsNeverCertified` | `rust-sdk/src/provider/mod.rs:391-393` | What f+1 honest members have refused is not certified then or later. |
| `CertifiedLogs.CertifiedReceiptsAgree` | `types/src/ledger/log.rs:83-93` | Two certified receipts of one slot agree on every committed field. |
| `CertifiedLogs.VerifiedLogsAgree` | `types/src/ledger/log.rs:83-151` | Two logs verified independently, with the same index in the same slot, are the same log. |
| `FixedPoint.Mul` | `ts-sdk/src/codec/fixed.ts:9-12` | The product over 10^18 rounded toward zero, for all signs. |
| `FixedPoint.Div` | `ts-sdk/src/codec/fixed.ts:15-19` | The scaled quotient rounded toward zero for every divisor of either sign, 0 for a zero divisor. |
| `FixedPoint.MulFloor` | `ts-sdk/src/codec/fixed.ts:22-25` | Exactly the floor, for all signs. |
| `FixedPoint.MulDivCeil` | `ts-sdk/src/codec/fixed.ts:28-36` | Exactly the ceiling, for all signs; 0 when the divisor is not positive. |
| `FixedPoint.ImRate` | `ts-sdk/src/codec/fixed.ts:39-41` | The floor of one over the leverage, 0 for a leverage that is not positive. |
| `FixedPoint.RoundingsInOrder` | `ts-sdk/src/codec/fixed.ts:9-36` | Floor, truncation and ceiling are ordered, at most one step apart, and truncation is one of the other two according to sign. |
| `LivePositions.EnrichPositions` | `ts-sdk/src/sync/positions-live.ts:29-102` | The pass with its seven accumulators computes the specified snapshot. What that snapshot says is stated by the rows that follow. |
| `LivePositions.FindIsLast` | `ts-sdk/src/sync/positions-live.ts:30` | The market of an id is the last one listed with it, and there is none only if no market has the id. |
| `LivePositions.PositionAtMarket` | `ts-sdk/src/sync/positions-live.ts:39-40` | Each position is updated in its own place by the market of its own id; a spot without an id by none. |
| `LivePositions.PerpAtMarket` | `ts-sdk/src/sync/positions-live.ts:42-71` | A perp is marked at the positive market mark, else its own, else its entry price with no gain; gain is the floor, notional truncated, funding the ceiling of its own product; without live funding it is kept. The other fields are untouched. |
| `LivePositions.SpotAtMarket` | `ts-sdk/src/sync/positions-live.ts:74-76` | A spot is marked at the last clearing price, else the mark, else its own; its gain moves with the value of the balance. |
| `LivePositions.UpdateConserves` | `ts-sdk/src/sync/positions-live.ts:79-101` | Conservation: cash plus funding shown, account value less equity and spot value, and total gain less the gains shown are unchanged; equity is cash plus the gains shown on the perps; realized gain is unchanged. |
| `LivePositions.MarginBounds` | `ts-sdk/src/codec/fixed.ts:39-41` | Margin times leverage is at most the notional, and falls short of it by less than the two roundings allow. |
| `LivePositions.WithdrawableAboveMargins` | `ts-sdk/src/sync/positions-live.ts:84-87` | Withdrawable cash is what equity leaves above the margins of the perps, at the notional shown and the leverage of their markets, and never negative. |
| `LivePositions.EarlierUpdateLeavesNoTrace` | `ts-sdk/src/sync/positions-live.ts:40-101` | enrich(enrich(s, m1), m2) = enrich(s, m2) in every field if and only if, position by position, m2 quotes what m1 changed. |
| `LivePositions.Idempotent` | `ts-sdk/src/sync/positions-live.ts:29-102` | enrich(enrich(s, m), m) = enrich(s, m), for every account and every market list. |
| `LivePositions.PathIndependence` | `ts-sdk/src/sync/positions-live.ts:40-101` | After any run of updates, one that quotes every position gives what it gives on the original snapshot. |
| `LivePositions.MaintenanceWithinInitial` | `ts-sdk/src/sync/positions-live.ts:47-53` | With non-negative entry prices, total maintenance margin is at most total initial margin. |
| `LivePositions.WithdrawableIsFreeMargin` | `ts-sdk/src/sync/positions-live.ts:84-87` | So the maintenance guard never changes the result: withdrawable cash is max(0, equity - initial margin). |
| `ZeroSum.ZeroSumFloors` | `ts-sdk/src/sync/positions-live.ts:49` | Floors over sizes summing to 0 lose at most k-1 units and gain none. |
| `ZeroSum.ZeroSumCeilings` | `ts-sdk/src/sync/positions-live.ts:57-67` | Ceilings over sizes summing to 0 cost at most k-1 units and gain none, for every divisor. |
| `ZeroSum.ZeroSumEquity` | `ts-sdk/src/sync/positions-live.ts:47-86` | k accounts with opposite positions of one market: total equity lies between total native cash - 2(k-1) and total native cash, at every mark and funding index. |
| `ZeroSum.ZeroSumMarkets` | `ts-sdk/src/sync/positions-live.ts:40-86` | Accounts with any number of perps in several markets, and spots: if the perps of each market cancel out, equity falls short of cash before funding by at most two units per position beyond the first of each market, and never exceeds it. |
| `ZeroSum.LowerBoundIsReached` | `ts-sdk/src/sync/positions-live.ts:47-86` | For every k up to 10^18 there are k such accounts whose total equity is total native cash - 2(k-1). |
| `OrderPreviews.SufficientMarginExact` | `ts-sdk/src/sync/order-preview.ts:94-118` | The margin check passes exactly up to a largest notional, which is at least the shown one and exceeds it by at most ceil(1/rate). |
| `OrderPreviews.PreviewShows` | `ts-sdk/src/sync/order-preview.ts:89-121` | The size has the sign of the side and the truncated magnitude of notional over price, 0 without a price; the fee is at the maker rate exactly for limit orders; a spot locks all its notional; a market without leverage asks nothing. |
| `OrderPreviews.PreviewMargin` | `ts-sdk/src/sync/order-preview.ts:94-98` | For a perp the margin times the leverage is at most the notional, and falls short of it by less than the two roundings allow. |
| `OrderPreviews.LivePreviewBounds` | `ts-sdk/src/sync/order-preview.ts:94-118` | On a snapshot recomputed from live markets: within the shown maximum the check passes, and passing means at most ceil(1/rate) above it. |
| `Candles.FoldIsByBucket` | `ts-sdk/src/sync/candles.ts:249-274` | Folding a stream gives each bucket its seed bar with the bucket's own non-zero-price ticks in order, and no others. |
| `Candles.BarSummarises` | `ts-sdk/src/sync/candles.ts:253-273` | A bar opens and closes at the prices of its first and last tick, its high and low are attained and bound all prices, and its volumes are the sums. |
| `Candles.BucketHoldsTick` | `ts-sdk/src/sync/candles.ts:252-253` | A tick lies in its bucket, which starts at a multiple of the width. |
| `Candles.NewestAreEight` | `ts-sdk/src/sync/candles.ts:281-285` | Pruning keeps eight buckets, or all if there are fewer, and every one it drops is older than every one it keeps. |
| `Candles.FoldCommutesWithNewest` | `ts-sdk/src/sync/candles.ts:281-285` | Pruning before or after a tick that opens no older bucket gives the same eight buckets. |
| `Candles.PruneThenFold` | `ts-sdk/src/sync/candles.ts:281-285` | The same for any ordered stream. |
| `Candles.BatchingIsIrrelevant` | `ts-sdk/src/sync/candles.ts:244-287` | Every way of cutting an ordered stream into batches leaves the eight newest buckets of the whole stream, fully folded. |
| `CandleBars.SortedValues` | `ts-sdk/src/sync/candles.ts:323` | Lists exactly the bars of the map in strictly increasing time. |
| `CandleBars.EnumerationIsUnique` | `ts-sdk/src/sync/candles.ts:323` | There is only one such list, so the output is determined by the map. |
| `CandleSession.StepKeeps` | `ts-sdk/src/sync/candles.ts:244-287` | Invariant of every produce, connect, accept, send, receive and disconnect step: what is in flight is exactly the stretch of the log between client and server, and the map is the fold of what was taken. |
| `CandleSession.ExactlyOnce` | `ts-sdk/src/sync/candles.ts:86-97` | In every reachable state of every run with lossy disconnects: stored `since` = `lastTickUs`, and each kept bucket is the fold, each tick once, of its logged non-zero-price ticks between the anchor and `lastTickUs`. |
| `CandleSession.CaughtUp` | `ts-sdk/src/transport/ws.ts:207-223` | Once a live subscription has drained, the map holds the whole log after the anchor, whatever was lost on earlier connections. |
| `CandleSession.BatchesAreKnown` | `ts-sdk/src/transport/ws.ts:306-308` | In every reachable state a batch that arrives finds its subscription registered: the reply always came first, and nothing is dropped for want of an id. |
| `CandleSession.CanCatchUp` | `ts-sdk/src/sync/candles.ts:86-97` | From every reachable state some steps of connection and server alone bring the series to hold everything logged after the anchor. |
| `CandleSeed.ResolutionSeconds` | `ts-sdk/src/codec/resolution.ts:4-14` | Every width is a whole number of minutes, and of hours above one hour. |
| `CandleSeed.WidthsNest` | `ts-sdk/src/codec/resolution.ts:4-14` | Each width is its multiple of the one before, from the minute to the week and the 30-day month. |
| `CandleSeed.PrepareLiveEdge` | `ts-sdk/src/sync/candles.ts:207-242` | The requests tile [bucket start, last full hour) without gap or overlap, at most 500 hours each; a failed request leaves no seed; `since` is one microsecond before the edge. Where the edge lies is `CandleSeed.EdgeExact`. |
| `CandleSeed.EdgeExact` | `ts-sdk/src/sync/candles.ts:207-241` | Up to an hour, a tick is after `since` if and only if its bucket is not older than that of the clock; above, if and only if its hour is not older than that of the clock. |
| `CandleSeed.FetchAllJoins` | `ts-sdk/src/sync/candles.ts:217-224` | The bars are those of the requests in order, and there are none if any request fails. |
| `CandleSeed.TileOf` | `ts-sdk/src/sync/candles.ts:217-224` | Every moment of the range lies in exactly one request. |
| `CandleSeed.HourlyBarsMakeTheBar` | `ts-sdk/src/sync/candles.ts:225-238` | The bar combined from the hourly bars of a stretch of ticks is the bar those ticks make in the coarse bucket. |
| `CandleBars.SortFindsListing` | `ts-sdk/src/sync/candles.ts:226` | Sorting bars of different times, in whatever order they came, lists them in time order. |
| `CandleBars.SortIsStable` | `ts-sdk/src/sync/candles.ts:226` | Sorted times do not fall, and bars of one time keep their order. |
| `CandleSeed.SeedThenFold` | `ts-sdk/src/sync/candles.ts:207-274` | Seeding from hourly bars, in whatever order they came, and folding the later ticks equals folding all ticks. |
| `CandleSeed.EdgeIsSafeAnchor` | `ts-sdk/src/sync/candles.ts:209-241` | No tick after `since` can open a bucket older than the seeded one, for every resolution. |
| `CandleSeed.SeededSession` | `ts-sdk/src/sync/candles.ts:86-97` | For every resolution, a session started at the edge on the seed made there shows in every reachable state what folding every tick since the start of the forming bucket would show. |
| `CandlePages.WindowsTile` | `ts-sdk/src/sync/candles.ts:164-168` | At one instant: a moment lies in the window of exactly the page it belongs to, if and only if its bucket has closed. What whole loads request is `CandleHistory`. |
| `CandlePages.ClosedExact` | `ts-sdk/src/sync/candles.ts:164` | A moment lies before the forming bucket if and only if its own bucket has ended by the clock. |
| `CandlePages.PagesOfRange` | `ts-sdk/src/sync/candles.ts:139-142` | The pages of a range are the pages its seconds belong to, and no others. |
| `CandlePages.WindowRows` | `ts-sdk/src/sync/candles.ts:164-182` | Every window is a whole number of buckets, between one and the page's row limit. |
| `CandlePages.PageBuckets` | `ts-sdk/src/codec/resolution.ts:23-33` | Every page size is within the server's cap of 500 rows. |
| `CandlePages.PagesSpan` | `ts-sdk/src/codec/resolution.ts:23-33` | How long the pages are: six hours, a day, a week, thirty days, a year, five years, ten years. |
| `CandlePages.SetPageExact` | `ts-sdk/src/sync/candles.ts:183` | Storing a page changes that page only and keeps one entry per index. |
| `CandlePages.MergedBarIsItsPages` | `ts-sdk/src/sync/candles.ts:317-320` | Given bars in their own page, a merged bar comes from the one page its time belongs to. |
| `CandlePages.ArrivalOrderIsIrrelevant` | `ts-sdk/src/sync/candles.ts:317-322` | Page maps with the same entries inserted in different orders give the same view. |
| `CandlePages.ViewShows` | `ts-sdk/src/sync/candles.ts:317-325` | At every time the output shows the REST bar where its page has one, the live bar otherwise, and nothing else. |
| `CandleSeriesObject.PagesAfterExact` | `ts-sdk/src/sync/candles.ts:165-190` | Every requested page ends with its own response, or what it had if the request failed or nothing has closed; no other page changes. |
| `CandleSeriesObject.SettlingOrderIsIrrelevant` | `ts-sdk/src/sync/candles.ts:165-190` | Responses settling in any order store the same pages. |
| `CandleHistory.FirstLoadCovers` | `ts-sdk/src/sync/candles.ts:138-182` | With nothing stored, one load requests a window around every closed moment of its range. |
| `CandleHistory.StoredIffTouched` | `ts-sdk/src/sync/candles.ts:146-151` | Over any history, a page is stored if and only if something touched it before, and a load requests a page if and only if it is the trailing page or nothing touched it before. |
| `CandleHistory.StoredIsLastAnswer` | `ts-sdk/src/sync/candles.ts:183-188` | Over any history, a stored page holds what its last answered request brought, and nothing if none was. |
| `CandleHistory.RangeAnsweredIff` | `ts-sdk/src/sync/candles.ts:138-190` | Over any history of loads and failures: every closed moment of a range has been requested and answered if and only if every page the range needs had an answered request after the needed part of the page had closed. |
| `CandleHistory.PassedPageIff` | `ts-sdk/src/sync/candles.ts:147-189` | All of a page that has passed is requested and answered if and only if it had already passed when first touched, or when `loadOlder` asked for it, and that request was answered. |
| `CandleHistory.GapAfterTrailing` | `ts-sdk/src/sync/candles.ts:147-149` | Two loads, all requests answered, after which a closed moment of the range has never been requested. |
| `CandleHistory.GapAfterFailure` | `ts-sdk/src/sync/candles.ts:187-189` | A failed request for a passed page is not made again by the same load. |
| `CandleSeriesObject.EighthNewest` | `ts-sdk/src/sync/candles.ts:283` | The cutoff is a key with exactly seven newer ones. |
| `CandleSeriesObject.CutoffKeepsNewest` | `ts-sdk/src/sync/candles.ts:282-285` | Deleting what is older than the cutoff keeps exactly the eight newest buckets. |
| `CandleSeriesObject.MergedView` | `ts-sdk/src/sync/candles.ts:319-322` | The two merging loops give the view: live bars only where REST has none. |
| `CandleSeriesObject.CandleSeries.OnTick` | `ts-sdk/src/sync/candles.ts:244-287` | New map, watermark and stored `since` in terms of the old ones; pages untouched; the shown list is the view in time order. |
| `CandleSeriesObject.CandleSeries.Rebuild` | `ts-sdk/src/sync/candles.ts:317-325` | The shown list is the merged view in strictly increasing time. |
| `CandleSeriesObject.CandleSeries.LoadWindow` | `ts-sdk/src/sync/candles.ts:138-151` | Requests, without repetition, exactly the pages of the range that are missing, and the trailing page always. |
| `CandleSeriesObject.CandleSeries.FetchPages` | `ts-sdk/src/sync/candles.ts:153-195` | Stores each page as it settles and shows the result; live bars and watermark untouched. |
| `CandleSeriesObject.CandleSeries.StartLive` | `ts-sdk/src/sync/candles.ts:86-97` | After the start the forming bar is seeded and `since` = `lastTickUs` = the edge, which is where the session begins. |
| `WsClientObject.PodWsClient.Subscribe` | `ts-sdk/src/transport/ws.ts:179-188` | Keeps the invariant; the new owner is in `subs`, is not running, and has a request travelling if and only if the connection is open. |
| `WsClientObject.PodWsClient.Unsubscribe` | `ts-sdk/src/transport/ws.ts:292-299` | Keeps the invariant; no id leads to the owner any more, and what it was running is cancelled on an open connection. |
| `WsClientObject.PodWsClient.Resubscribe` | `ts-sdk/src/transport/ws.ts:192-196` | With no request outstanding, keeps the invariant; on an open connection the owner stops running and waits for a new reply. |
| `WsClientObject.PodWsClient.OnOpen` | `ts-sdk/src/transport/ws.ts:207-213` | Keeps the invariant; every subscription has a request on the new connection and none runs. |
| `WsClientObject.PodWsClient.OnClose` | `ts-sdk/src/transport/ws.ts:216-222` | Keeps the invariant; nothing runs any more, every subscription, request and stored `since` is kept, and the client is connecting again if it is wanted and closed otherwise. |
| `WsClientObject.PodWsClient.OnReply` | `ts-sdk/src/transport/ws.ts:271-290` | A reply on the current connection with a new id keeps the invariant: a present owner runs under it and waits no more, an absent one has it cancelled. |
| `WsClientObject.PodWsClient.OnUpdate` | `ts-sdk/src/transport/ws.ts:306-308` | An update reaches exactly the subscription running under its id, and nobody if there is none. |
| `WsClientObject.PodWsClient.OnEnd` | `ts-sdk/src/transport/ws.ts:311-325` | Keeps the invariant; the close reaches exactly the subscription that was running, and nothing runs under that id afterwards. |
| `WsRegistry.StepKeeps` | `ts-sdk/src/transport/ws.ts:179-223` | Invariant of every step of client and server: registry inverse, handles distinct, at most one request per subscription, server and registry in step. |
| `WsRegistry.WantedIsConnected` | `ts-sdk/src/transport/ws.ts:161-177` | In every reachable state the client is open or connecting if and only if it is wanted, and it is wanted while anybody is subscribed. |
| `WsRegistry.CanAlwaysRun` | `ts-sdk/src/transport/ws.ts:207-235` | From every reachable state, for every subscription, some steps of the socket and the server alone, with no call by any owner, make it run on both sides. |
| `WsRegistry.SinceIsLastGiven` | `ts-sdk/src/transport/ws.ts:185-191` | In every reachable state the stored `since` of a subscription is the one last given: when it was made, by `update`, or by a close that says where to resume. |
| `WsRegistry.RequestsCarrySince` | `ts-sdk/src/transport/ws.ts:271-272` | Every request any step sends carries the `since` stored for its subscription. |
| `WsRegistry.SubscriptionsInOrder` | `ts-sdk/src/transport/ws.ts:186-212` | In every reachable state the subscriptions stand in the order they were made, which is the order opening asks in. |
| `WsRegistry.SilentUnlessOpen` | `ts-sdk/src/transport/ws.ts:254-260` | No step sends anything while the connection is not open, except the opening itself. |
| `WsRegistry.RegistryIsExact` | `ts-sdk/src/transport/ws.ts:271-299` | In every reachable state `bySubId` and the `subId` fields of live subscriptions are mutually inverse. |
| `WsRegistry.ServerRunsRegistered` | `ts-sdk/src/transport/ws.ts:207-299` | In every reachable state the server runs exactly the registered ids and the forgotten ones. |
| `WsRegistry.NothingLeaks` | `ts-sdk/src/transport/ws.ts:190-196` | In runs without a `resubscribe` of a running subscription, the server runs exactly the registered ids. |
| `WsRegistry.ResubscribingLiveLeaks` | `ts-sdk/src/transport/ws.ts:192-196` | A `resubscribe` of a running subscription always leaves its old id running and unknown to the client. |
| `WsRegistry.LeakingRun` | `ts-sdk/src/transport/ws.ts:192-196` | A run of four steps from the start after which the server runs an id the client does not know. |
| `WsRegistry.LateReplyIsCancelled` | `ts-sdk/src/transport/ws.ts:279-286` | A reply whose owner has left is answered by `eth_unsubscribe`, registers nothing and leaves nothing running. |
| `WsRegistry.OpeningResumes` | `ts-sdk/src/transport/ws.ts:212` | Opening sends one request per subscription, in order, with consecutive ids, each from its stored `since`. |
| `WsRegistry.LeaverIsCalledIff` | `ts-sdk/src/transport/ws.ts:272-299` | For an owner that has left, in every reachable state: some continuation in which it does not ask again calls it if and only if the connection is open and a request of its own travels on it. |
| `WsRegistry.RemovedOwnerIsNeverCalled` | `ts-sdk/src/transport/ws.ts:292-299` | So an owner that left with no request travelling, whatever dropped connections have left in `pending`, is never called in the rest of the run unless it asks again. |
| `WsRegistry.OnlyRefusalReachesRemoved` | `ts-sdk/src/transport/ws.ts:272-278` | Whoever has left is called if and only if a request it had sent is refused. |
| `WsRegistry.WhoIsCalled` | `ts-sdk/src/transport/ws.ts:271-325` | In every reachable state an update or a close calls the subscription that stores its id, a refusal the one that asked, and nothing else calls anybody. |
| `WsRegistry.CloseSilences` | `ts-sdk/src/transport/ws.ts:166-177` | After `close` no message calls anybody, not even one still on its way. |
| `WsRegistry.RefusalReachesLeaver` | `ts-sdk/src/transport/ws.ts:272-278` | A run of four steps from the start in which an owner that has left is called. |
| `Units.ParsePrinted` | `ts-sdk/src/codec/units.ts:58-100` | For every amount, decimals and precision, trimmed or not: parsing the printed text gives the amount truncated toward zero to the printed digits. |
| `Units.RoundTrip` | `ts-sdk/src/codec/units.ts:58-100` | With no precision, or one of at least all decimals, the round trip is exact. |
| `Units.PrintedShape` | `ts-sdk/src/codec/units.ts:58-74` | The text is the sign of a negative amount, the whole units, and a fraction if any is left: as wide as the decimals, cut to the precision, and with trimming less its zeros at the end, all of them and nothing else. |
| `Units.ParseExact` | `ts-sdk/src/codec/units.ts:96-98` | Unsigned text with a point is worth its whole units and the first digits of its fraction, whatever follows a second point. |
| `Units.ParseWhole` | `ts-sdk/src/codec/units.ts:96-98` | Without a point there are whole units only. |
| `Units.ParseSigned` | `ts-sdk/src/codec/units.ts:94-99` | A leading minus negates the value of what follows it. |
| `Units.SpaceAroundIgnored` | `ts-sdk/src/codec/units.ts:94-95` | White space in front and behind does not count. |
| `Units.OneUnit` | `ts-sdk/src/codec/units.ts:5` | The text 1 at 18 decimals is 10^18. |

## Left out

- Keccak, ABI and RLP encoding, ECDSA recovery, serde: parameters or not needed. Hashes are
  unbounded natural numbers, ordered as the code orders them.
- Machine widths (`usize`, `u64`, JS safe integers): unbounded integers, no overflow.
- `generate_proofs` and `Committee::verify_attestation`.
- Committees.FPlusOneMeetsEveryQuorum: requires a quorum no larger than the committee, because
  the unsigned subtraction in `fault_tolerance` underflows otherwise.
- Attestation timestamps and the other accessors of `VerifiableLog`.
- Side, leverage and token fields of positions, which are copied; JS number displays
  (`impliedLeverage`, `priceForReturn`, `toNumber`); close previews and trigger picking.
- `onSubError`, and stopping and restarting a series within one bucket: both rewind the
  watermark without clearing the live map, so exactly-once does not extend to them. A close frame
  with a resume point is modelled in the client, not in the session.
- Ticks with equal timestamps in the session's log (`Candles.BatchingIsIrrelevant` allows them);
  decoding of tick fields.
- Interleavings inside one round of page requests: responses are taken one at a time, in any
  order, and ticks before or after the round (ticks touch no page, responses no live
  bar). The clock is read once per round. `minPage`, `maxPage`, `hasMore` and `loading` are bookkeeping; `loadOlder`
  asks for any page here.
- JS `sort` and map iteration are modelled by taking out the newest or oldest entry; their
  results are determined by the contracts.
- Reconnect timers, jitter, idle timeout, listeners, blobs; events of a socket already dropped by
  `close()`; `subscribe` called synchronously from an `open` listener. Channels, callbacks and
  parameters other than `since` are not modelled; a logical subscription is a handle.
- Spellings `BigInt` accepts in `parseAmount` other than digits (hexadecimal, an inner sign or
  spaces); printed amounts contain none. Negative or fractional decimals and precision.
- Order history, market merging, order books, transaction builders, delegation, REST wrappers.
