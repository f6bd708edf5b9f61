# Witnz tamper detection, modelled and proved in Dafny

Witnz watches PostgreSQL tables for changes made behind its back. Inserts are recorded as numbered
hash entries in an ordered key-value store, optionally through a Raft log; from time to time a table is
read and its Merkle root is compared with one rebuilt from the entries and the newest checkpoint.

The project models that engine and proves what it can be relied on for:

- **Merkle trees** (`MerkleShape`, `MerkleBinding`, `MerkleProofs`, `ProofMeaning`, `MerkleWalks`, `WalkIndices`,
  `MerkleTreeBuilder`, `MerkleTree`). Heap nodes with real pointers, an odd last node being both children of its
  parent.
  What equal roots force, what proofs mean, what the two recursive walks visit, and that the two
  implementations agree.
- **Comparison and verification** (`LeafMaps`, `ReportMeanings`, `RecordIds`, `VerificationPass`, `MerkleVerifier`,
  `StoredCheckpoints`, `ChainHashes`). The pass over a table, the checkpoint it leaves and the shortcut that one
  allows, and the record-id parser.
- **Detection over runs** (`Detection`, `DetectionRuns`, `DetectionExample`, `StoredPasses`, `StoreRuns`,
  `EventRuns`, `UntouchedTables`, `Ledgers`, `ScanOrders`, `LedgerRuns`, `LedgerMeanings`, `QuietRuns`). Inserts, arbitrary
  edits and passes in any order, first over a history, then over the stored buckets themselves, which refine a
  ledger of ten rows, and over the change events the handler is given; a pass succeeds exactly when it should.
- **Stores** (`Buckets`, `DecimalKeys`, `Storage`, `TableViews`, `TableNames`, `BigEndian`, `BoltStore`). Sorted
  byte-string maps read by a cursor, with unpadded decimal keys in one store and big-endian keys in the
  other.
- **Numbering and replication** (`Numbering`, `Handlers`, `RaftNodes`, `RaftHandlers`, `Fsm`, `CatchingUp`,
  `Cluster`, `ClusterCheckpoints`, `ClusterNumbering`, `CommittedChains`, `ClusterDetection`, `ClusterLimits`).
  The handlers, the state machine with its
  late snapshots, and a cluster in every interleaving of its events; a number is computed, proposed and
  committed in separate events.

`ByteStrings`, `Hashing`, `Powers`, `MapValues` and `Options` hold what the others share.

**The hasher** is any function to hex strings of one fixed positive width. It is not assumed injective.
A result that depends on it reads "the inputs agree, or two different strings of this finite set have the
same digest", where the set holds strings that were really hashed. `MerkleBinding.FindClash` computes the
pair by walking two trees down.

**Where the code falls short of what it is meant to do**, the model keeps the code and says exactly when it
holds:

- The store's keys print numbers without padding, so "latest" is the last numeral in byte order. It is the
  greatest number if and only if no number, padded with zeros on the right, exceeds it
  (`TableViews.DecimalLastIsMaxIff`). A chain therefore stays complete up to ten inserts and never grows
  beyond ten entries (`Handlers.HandlerRuns`), and a first pass over an untouched table reports tampering if
  and only if it had more than ten inserts (`UntouchedTables.UntouchedTableIsReportedIff`). Later passes keep
  leaf maps, and whether they succeed beyond ten rows depends on where the passes fell
  (`QuietRuns.QuietPassesIff`). What passes mean is stated for runs of any length over these very keys
  (`LedgerRuns.LedgerRunsAreExact`, `StoreRuns.StoreRunsAreExact`), and up to ten inserts they tell exactly the
  inserted table from every other (`StoreRuns.StoreRunsTellTable`, `EventRuns.EventRunsTellTable`).
- A scan lists the tenth entry second. If the tenth brings an id back, the second to the ninth count as later
  (`LedgerMeanings.LastRecordedIsListedLastIff`).
- A first pass over an empty chain takes over whatever the table holds
  (`DetectionRuns.UnrecordedRowsAreAdopted`); later passes then accept those rows together with the recorded
  ones, until a detailed pass succeeds without them. An overwritten entry's row stays behind in the same way.
  `DetectionRuns.RunsAreExact` states success for all runs, `DetectionRuns.RunsTellTable` for runs in which
  nothing is adopted.
- The tampered-leaf walk derives indices from midpoints that leave the tree's shape; they are right if and only
  if the number of leaves is a power of two or one less (`MerkleWalks.WalkIsExactIff`). Which index it reports for
  which leaf, for every number of leaves, is `WalkIndices.TamperedIndices`.
- The record-id parser takes the first `id:` in the printed key, which an earlier column may print. Exactly
  when it still finds the id is `RecordIds.ParserUndoesPrinter`; a key it fails on is
  `RecordIds.EarlierTagMisleads`.
- A log payload of 2^32 bytes or more does not survive the log codec (`BoltStores.RoundTripIff`).
- A leader numbers from its own store. A table's committed inserts are its entries 1 to n if and only if
  each was numbered from a store holding the greatest number committed by the time of its own commit and, with
  the decimal keys, n is at most ten (`CommittedChains.CommittedNumbers`). A leader that has not applied its
  own last entry repeats its number (`ClusterLimits.StaleLeaderOverwrites`).
- Snapshots carry no checkpoints. A node holds the checkpoints of what it applied if and only if the last one
  it wrote under each key is the last one of its prefix (`ClusterCheckpoints.CheckpointsFollowIff`), and a
  restore leaves that so if and only if the entries jumped over change no checkpoint
  (`ClusterCheckpoints.RestoreKeepsCheckpointsIff`); one that is lost is in
  `ClusterLimits.RestoredNodeLacksCheckpoint`. A node that never jumped ahead, saved none of its own and is not
  in the middle of a replay holds them all (`ClusterCheckpoints.CompleteNodesFollow`).
- A node compares the table with what it has applied itself, so a lagging node reports rows it has not seen
  (`ClusterDetection.LaggingNodeReports`).
- `Verify` checks neither the length of a proof nor what its strings are. What a proof of any length means is
  `ProofMeaning.VerifiedProofMeans`; one that is too long and verifies without a collision is
  `ProofMeaning.HalvedRowVerifies`.
- A comment in `internal/hash/merkle.go:443-444` promises that matching subtrees are skipped; the code
  compares root entries only, and so does `LeafMaps.CompareLeafMapsWithNodes`.

## Model

| member | source | states |
|---|---|---|
| MerkleTreeBuilders.MerkleTreeBuilder.AddLeaf | internal/hash/merkle.go:38-44 | appends the hash of the row text and indexes it by record id and by hash; an already built tree stays |
| MerkleTreeBuilders.MerkleTreeBuilder.AddLeafHash | internal/hash/merkle.go:46-51 | appends the hash and indexes it by record id and by hash |
| MerkleTreeBuilders.MerkleTreeBuilder.Build | internal/hash/merkle.go:68-84 | no leaves is an error and leaves the old root; otherwise the heap nodes spell out exactly the tree over the sorted leaves, shared pointers included |
| MerkleTreeBuilders.MerkleTreeBuilder.BuildLevels | internal/hash/merkle.go:86-115 | the in-place level loop and its recursion produce the level-by-level tree, an odd last node being both children of its parent |
| MerkleTreeBuilders.MerkleTreeBuilder.GetRoot | internal/hash/merkle.go:117-122 | the hash of the built tree, empty before a build |
| MerkleTreeBuilders.MerkleTreeBuilder.GetProof | internal/hash/merkle.go:124-160 | unknown id and unbuilt tree are errors; otherwise the proof carries the first index of the leaf in sorted order and the path found in the built tree |
| MerkleTreeBuilders.MerkleTreeBuilder.BuildProof | internal/hash/merkle.go:162-190 | the search appends to the proof exactly the siblings and directions of the path, and nothing when the leaf is not below the node |
| MerkleTreeBuilders.MerkleProof.Verify | internal/hash/merkle.go:192-211 | accepts exactly when climbing from the leaf hash over the siblings ends in the expected root |
| MerkleTreeBuilders.MerkleTreeBuilder.FindTamperedLeaves | internal/hash/merkle.go:213-227 | unbuilt tree is an error, an equal root reports nothing, a differing root the whole walk |
| MerkleTreeBuilders.MerkleTreeBuilder.FindTamperedLeavesRecursive | internal/hash/merkle.go:229-249 | the pointer walk, skipping a right child that is the left one, appends the walk over the tree shape |
| MerkleTreeBuilders.MerkleTreeBuilder.GetInternalNodes | internal/hash/merkle.go:274-283 | the path-to-hash map of the built tree, empty before a build |
| MerkleTreeBuilders.MerkleTreeBuilder.CollectInternalNodes | internal/hash/merkle.go:285-300 | adds to the given map exactly the paths below the node, a shared right child having none |
| MerkleShape.AssembleIsTopDown | internal/hash/merkle.go:86-115 | building level by level gives the tree that a top-down split at the largest power of two describes |
| MerkleShape.BuildTreeShape | internal/hash/merkle.go:68-115 | the tree of n leaves is perfect of height ceil(log2 n), every node hashes its children, and its leaf row begins with the sorted leaves and repeats leaves after them |
| Powers.HeightIsCeilingLog | internal/hash/merkle.go:86-115 | the height is the least h with n <= 2^h |
| MerkleBinding.ClashOrSameLeaves | internal/hash/merkle.go:86-115 | walking two equally high trees with one root down in step either returns two colliding strings hashed in them, or their leaf rows are equal |
| MerkleBinding.RootAndCountBind | internal/verify/merkle_verifier.go:129 | root and count are equal if and only if the leaves are equal as multisets, unless the two trees contain a collision |
| MerkleBinding.CountIsNeeded | internal/hash/merkle.go:97-101 | leaves a,b,c and a,b,c,c have the same root, so the count cannot be dropped |
| MerkleBinding.SameRootSameLeaves | internal/hash/merkle.go:86-115 | trees of any two shapes with one root have one leaf row, or a collision is found: a row text starts with a brace and can never be the hex text of an inner node |
| MerkleBinding.RootAloneBinds | internal/hash/merkle.go:333-336 | equal roots of two trees of any sizes force equal id-to-hash maps, unless a collision is found |
| LeafMaps.CompareBuiltTrees | internal/hash/merkle.go:328-373 | the root shortcut returns what the full comparison of the two leaf maps would, unless a collision is found |
| MerkleProofs.PathIsComplete | internal/hash/merkle.go:162-190 | the search finds every leaf; one step per level, climbing to the root, directions spelling the first index in binary |
| MerkleTreeBuilders.ProofsAreComplete | internal/hash/merkle.go:124-211 | every leaf of a fresh tree has a proof of exactly ceil(log2 n) steps that verifies, its directions being the binary digits of the reported index |
| ProofMeaning.ClimbIsSound | internal/hash/merkle.go:192-211 | a climb to the root of at most as many steps as the tree is high starts at the hash of the node its directions lead to, if nothing hashed collides; only its start need have the width of a digest |
| ProofMeaning.VerifiedProofMeans | internal/hash/merkle.go:192-211 | every proof that verifies, of any length and with any strings in it: with no steps it starts at the root; with at most as many as the tree is high its first step hashed the two children of the node the other directions lead to; with more, a step hashed a text whose digest is the leaf at the position the last directions spell; or it exposes a collision |
| ProofMeaning.VerifiedProofIsSound | internal/hash/merkle.go:192-211 | a verified proof as long as the tree is high is about a real leaf, at the position its directions spell, or exposes a collision |
| ProofMeaning.LongProofHashesRow | internal/hash/merkle.go:192-211 | a longer verified proof over a tree of rows hashed some row's very text in one of its steps, or exposes a collision |
| ProofMeaning.LongProofCollides | internal/hash/merkle.go:192-211 | if its strings are hex text, as digests are, it always exposes a collision |
| ProofMeaning.HalvedRowVerifies | internal/hash/merkle.go:192-211 | without that it need not: the two halves of a row's text verify as a leaf hash and its sibling |
| ProofMeaning.ExtraDirectionsDoNotMatter | internal/hash/merkle.go:192-206 | directions beyond the siblings change nothing |
| ProofMeaning.ClimbFollows | internal/hash/merkle.go:192-206 | a chain of hashes, each the digest of the one before with its sibling on the right for a true direction and on the left for a false one, ends where the climb ends |
| MerkleWalks.WalkMeetsEachLeafOnce | internal/hash/merkle.go:229-249 | the tampered-leaf walk reports as many indices as there are leaves, however halves are shared |
| MerkleWalks.WalkIsExactIff | internal/hash/merkle.go:229-249 | the reported indices are 0..n-1 if and only if n is a power of two or one less than one |
| MerkleTreeBuilders.TamperedReport | internal/hash/merkle.go:213-249 | the same for every freshly built tree |
| WalkIndices.TamperedIndices | internal/hash/merkle.go:229-249 | for every number of leaves n: the index reported for a leaf is the number of earlier leaves whose position, written in ceil(log2 n) binary digits and read backwards, is below n |
| WalkIndices.IndexIsRightIff | internal/hash/merkle.go:229-249 | so no index exceeds the leaf's own, and it is the leaf's own if and only if all earlier positions are below n when read backwards |
| MerkleWalks.ChildPathsAreApart | internal/hash/merkle.go:285-300 | no path below the left child is a path below the right one, nor is either the parent's |
| MerkleWalks.NodeMapSize | internal/hash/merkle.go:274-300 | the node map has n + ceil(n/2) + ceil(n/4) + ... paths |
| MerkleWalks.NodeEquationsHold | internal/hash/merkle.go:285-300 | every stored node hash is the digest of its children's stored hashes, a missing right path standing for the left one |
| MerkleTreeBuilders.StoredNodeMap | internal/hash/merkle.go:274-300 | both facts for every freshly built tree, and the bound 2n+h-1 |
| MerkleTrees.MerkleTree.AddLeaf | internal/hash/hash.go:178-185 | appends the hash of the data |
| MerkleTrees.MerkleTree.AddLeafHash | internal/hash/hash.go:187-189 | appends the hash |
| MerkleTrees.MerkleTree.Reset | internal/hash/hash.go:227-229 | no leaf is left |
| MerkleTrees.MerkleTree.GetRoot | internal/hash/hash.go:191-201 | the second implementation: the root over the sorted leaves, empty for none |
| MerkleTrees.MerkleTree.CalculateRoot | internal/hash/hash.go:203-225 | its level loop and recursion compute the root of the hashes in the given order |
| MerkleTrees.RootsAgree | internal/hash/hash.go:203-225 | pairing strings level by level ends in the hash the node tree has |
| MerkleTrees.ImplementationsAgree | internal/hash/hash.go:191-225 | over the same leaves added in any two orders both implementations give the same root |
| LeafMaps.CompareLeafMaps | internal/hash/merkle.go:405-441 | exactly one correctly classified record for each id on which the maps differ, whatever the iteration order |
| LeafMaps.CompareTreesDetailed | internal/hash/merkle.go:328-373 | nil for a missing tree, nothing for equal roots, otherwise the complete report on the two leaf maps |
| LeafMaps.CompareLeafMapsWithNodes | internal/hash/merkle.go:445-464 | nothing when both stored roots are present and equal, otherwise the complete report |
| LeafMaps.CompareStoredTrees | internal/hash/merkle.go:445-464 | between the stored maps of two fresh trees of rows that read back, the shortcut gives the complete report on the two leaf maps, unless a collision is found |
| LeafMaps.EmptyReport | internal/hash/merkle.go:405-441 | a complete report is empty if and only if the maps are equal |
| ReportMeanings.ReportCorrects | internal/hash/merkle.go:405-441 | what a complete report says, without the function that makes its records: writing its actual side over the expected map gives the actual map, writing its expected side over the actual map gives the expected one; no id twice, each kind if and only if the id is in the maps that kind names, a missing side's hash empty |
| MerkleVerifiers.FindTampering | internal/verify/merkle_verifier.go:159-246 | the phantom, deleted and adjusted-map passes report exactly what one comparison of the unadjusted maps does; nothing if and only if the maps are equal |
| MerkleVerifiers.OnlyModified | internal/verify/merkle_verifier.go:185-246 | with one-sided ids removed from both maps only modified records are left, classified as before |
| MerkleVerifiers.MerkleVerifier.VerifyTable | internal/verify/merkle_verifier.go:113-146 | a node that does not lead never fails, leaves the log alone and saves the checkpoint of a passing verdict; a leader writes nothing itself and fails if and only if there is a checkpoint and the log does not commit it; if it does, the log grows by the one entry whose application saves what a local pass would have saved; tampering is reported record by record and changes nothing |
| MerkleVerifiers.MerkleVerifier.PerformDetailedVerification | internal/verify/merkle_verifier.go:148-260 | reports how table and chain differ record by record and changes nothing, or makes a checkpoint without tree data that a follower saves and a leader appends, failing only if the log does not take it |
| MerkleVerifiers.MerkleVerifier.BuildLeafMapFromBoltDB | internal/verify/merkle_verifier.go:262-278 | extracted id to recorded hash, a later entry winning |
| MerkleVerifiers.MerkleVerifier.BuildLeafMapFromPostgreSQL | internal/verify/merkle_verifier.go:280-332 | row id to row hash and the root over the row hashes |
| MerkleVerifiers.MerkleVerifier.CalculateCurrentMerkleRootFromPG | internal/verify/merkle_verifier.go:334-382 | root, count and tree data of the table as queried |
| MerkleVerifiers.MerkleVerifier.CalculateMerkleRootFromBoltDB | internal/verify/merkle_verifier.go:384-413 | root and count over the newest checkpoint's map with later entries laid over it, or over every entry when it has no map |
| MerkleVerifiers.MerkleVerifier.CalculateMerkleRootFromCheckpoint | internal/verify/merkle_verifier.go:417-450 | the same for one checkpoint, whatever order the map is walked in |
| MerkleVerifiers.MerkleVerifier.CreateCheckpoint | internal/verify/merkle_verifier.go:457-513 | the checkpoint, field by field, under the latest entry's number or 0: saved locally without fail, or by the leader appended to the log if it commits; only that can fail |
| MerkleVerifiers.CheckpointLands | internal/verify/merkle_verifier.go:479-513 | applying a checkpoint's log entry leaves any node with what a local pass would have saved |
| VerificationPass.DetailedResultConcludes | internal/verify/merkle_verifier.go:134-145 | after a failed fast comparison the verdict, and the checkpoint made, are those of the detailed comparison |
| VerificationPass.RowMapTakesLast | internal/verify/merkle_verifier.go:298-320 | of the rows with one id the last one queried counts |
| VerificationPass.ChainMapTakesLast | internal/verify/merkle_verifier.go:262-278 | of the entries that show one id the one listed last counts |
| VerificationPass.OverlayTakesLast | internal/verify/merkle_verifier.go:430-437 | of the entries after the checkpoint with one record id the one listed last counts |
| ChainHashes.OverlayAddsLater | internal/verify/merkle_verifier.go:430-437 | laying later entries over a leaf map adds exactly their hashes |
| ChainHashes.CheckpointPathIsFullScan | internal/verify/merkle_verifier.go:384-450 | the cache law: if the map holds the hashes of the entries up to its number and later ids are new, checkpoint and full scan give the same root and count |
| ChainHashes.SameHashesInAnyOrder | internal/verify/merkle_verifier.go:392-412 | the hashes up to a number do not depend on the order of the scan |
| RecordIds.ExtractIDFromRecordID | internal/verify/merkle_verifier.go:515-533 | the index loops compute the extraction function |
| RecordIds.ParserUndoesPrinter | internal/verify/merkle_verifier.go:515-533 | for every printed key: the id comes back if and only if, when the columns printed before it show no tag, it has no space and no closing bracket and, when they do, it happens to equal the value after the first tag |
| RecordIds.IdKeyReadsBack | internal/verify/handler_raft.go:57 | a key printed from an id column alone reads back exactly for such ids |
| RecordIds.EarlierTagMisleads | internal/verify/merkle_verifier.go:518-523 | a key it fails on: the value of a column that prints first and whose name ends in id is taken for the id |
| RecordIds.OtherTextUnchanged | internal/verify/merkle_verifier.go:515-533 | text that is no printed map is its own id |
| RecordIds.NoTagIsOwnId | internal/verify/merkle_verifier.go:518-533 | so is a printed map in which no "id:" is followed by another byte |
| RecordIds.FirstTagIsId | internal/verify/merkle_verifier.go:518-531 | of any other printed map it is the text after the first such "id:", up to the next space, closing bracket or the end |
| Detection.RowsShowTable | internal/verify/merkle_verifier.go:350-371 | a query in any order shows the table: its ids with their hashes, its hashes as leaves |
| Detection.ChainShowsRecorded | internal/verify/merkle_verifier.go:262-278 | the chain in any scan order shows exactly the recorded rows |
| Detection.ExpectedShowsHistory | internal/verify/merkle_verifier.go:384-450 | whichever checkpoint is used, the expected leaves are the hashes of the adopted rows, of all recorded rows, and once more of the entries the leaf map covers beyond its number |
| Detection.SameHashesIff | internal/verify/merkle_verifier.go:129 | without collisions the table's hashes are those of adopted plus recorded rows if and only if the table is their disjoint union |
| DetectionRuns.VerdictIsExact | internal/verify/merkle_verifier.go:113-146 | a pass succeeds if and only if it should: nothing to compare with, table equals recorded rows, or, unless entries are expected twice, table equals adopted plus recorded rows |
| DetectionRuns.TwiceNeverMatches | internal/verify/merkle_verifier.go:430-437 | a leaf map that covers entries beyond its number makes them expected twice, and no table has their hashes twice |
| DetectionRuns.PassTellsTableIff | internal/verify/merkle_verifier.go:124-132 | without adopted rows, success means "table equals recorded rows" if and only if the chain is not empty or the table is |
| DetectionRuns.SavedCheckpointIsSound | internal/verify/merkle_verifier.go:457-477 | the leaf map a passing verification stores holds exactly the hashes of the adopted rows and of all entries there are, whichever entry it takes for the latest |
| StoredCheckpoints.PassStores | internal/verify/merkle_verifier.go:457-477 | a passing verification writes one checkpoint, under the latest entry's number or 0: the table, the time, the verifier's algorithm and the root of the tree over all row hashes, empty for no rows |
| StoredCheckpoints.StoredCountIs | internal/verify/merkle_verifier.go:457-477 | its count is the number of rows, or after a detailed comparison the number of their ids; the number of rows whenever ids are distinct |
| StoredCheckpoints.StoresTreeIff | internal/verify/merkle_verifier.go:124-132 | it keeps tree data, both maps, if and only if there are rows and nothing was expected or the fast comparison matched |
| StoredCheckpoints.StoredTreeAgrees | internal/verify/merkle_verifier.go:473-477 | with distinct ids the tree data agrees with the rest: the root is the stored node "root" and the root over the leaf map alone, every stored node hashes its stored children, the leaf map is the rows' hashes by id and has as many ids as were counted |
| StoredCheckpoints.StoredRootIsExpectedNext | internal/verify/merkle_verifier.go:417-450 | as long as nothing is recorded after it, the next pass expects exactly that checkpoint's root and count |
| DetectionRuns.StepKeepsSound | internal/verify/merkle_verifier.go:113-146 | inserts, inserts that overwrite the last entry, outside edits and passes all keep that invariant |
| DetectionRuns.OverwriteKeepsSound | internal/verify/handler.go:59-74 | an overwritten entry leaves the recorded rows; its row counts as adopted if the newest leaf map covers it |
| DetectionRuns.RunsAreExact | internal/verify/merkle_verifier.go:113-146 | detection over whole runs: after any inserts of ids not recorded at the time, overwriting inserts, edits and passes, a pass succeeds exactly when it should, unless strings hashed in the run collide |
| DetectionRuns.RunsTellTable | internal/verify/merkle_verifier.go:113-146 | if every pass finds a chain or an empty table and nothing is overwritten, passes succeed exactly on the recorded table |
| DetectionRuns.UnrecordedRowsAreAdopted | internal/verify/merkle_verifier.go:124-127 | why that condition is needed: a first pass over an empty chain takes unrecorded rows over |
| DetectionRuns.EmptyIsSound | internal/verify/merkle_verifier.go:124-127 | an empty chain with no checkpoint satisfies the invariant |
| DetectionExample.DeletedRowIsReported | internal/verify/merkle_verifier.go:113-146 | a run from the empty history, for any digest: a recorded row deleted from outside is reported by the next pass |
| StoredPasses.PassIsStep | internal/verify/merkle_verifier.go:113-146 | over a store whose checkpoint lookup finds the newest, what the verifier reads and writes is a pass of the history the store holds, whatever the decimal keys make the latest entry |
| StoredPasses.StoredPassIsExact | internal/verify/merkle_verifier.go:113-146 | one pass over such buckets: success exactly when deserved, and the store holds a sound history again |
| StoredPasses.ScanPermutesChain | internal/storage/storage.go:206-231 | a scan lists the chain's entries, each once |
| StoreRuns.LatestNumber | internal/storage/storage.go:106-135 | in a chain of at most ten entries the latest has the number of the last up to nine entries, and nine of ten |
| StoreRuns.StoredInsertIsStep | internal/verify/handler.go:59-74 | the handler's insert into the decimal buckets appends an entry to the table's chain up to the tenth and overwrites the tenth from then on |
| StoreRuns.StoreRunsAreExact | internal/verify/merkle_verifier.go:113-146 | over the decimal buckets, for runs of any length: rows show before or after their insert is handled, other tables move, passes fall anywhere; as long as no id is recorded while it is still recorded, a pass succeeds exactly when it should, unless strings hashed in the run collide |
| StoreRuns.StoreRunsTellTable | internal/verify/merkle_verifier.go:113-146 | with at most ten inserts, of an id each, if every pass finds a chain or an empty table, a pass succeeds if and only if the table is exactly what was inserted |
| EventRuns.EventIsMove | internal/verify/handler.go:47-75 | a handled insert event is a recording of its own row, under the row's id |
| EventRuns.EventRunIsStoreRun | internal/verify/handler.go:47-75 | so every run of change events is one of the runs over the stored buckets, and what is proved of those holds of it |
| EventRuns.EventRunsTellTable | internal/verify/merkle_verifier.go:113-146 | told from the events alone: with at most ten insert events, of an id each, if every pass finds a chain or an empty table, a pass succeeds if and only if the table is exactly the rows of those events |
| Ledgers.JudgeFollowsRule | internal/verify/merkle_verifier.go:113-260 | the verdict, for any record ids, row ids and entries: nothing expected, the same row texts as expected, or the same rows as recorded; the verifier decides by that rule unless strings hashed collide |
| ScanOrders.ScanListsChain | internal/storage/storage.go:206-231 | a scan lists a chain of up to nine entries in order, and of ten the tenth second |
| LedgerRuns.LedgerRunsAreExact | internal/verify/merkle_verifier.go:113-146 | the handler, the buckets and the verifier refine a ledger of ten slots: in every run, ids inserted again included, a pass succeeds if and only if the ledger's does, unless strings hashed collide |
| LedgerMeanings.WithoutLeafMapIff | internal/verify/merkle_verifier.go:403-413 | without a leaf map a pass succeeds if and only if nothing was recorded or the table is, for each recorded id, the row a scan lists last |
| LedgerMeanings.WithLeafMapIff | internal/verify/merkle_verifier.go:417-450 | with one, if and only if nothing is expected, the table is made of exactly the leaf map's rows with the later slots laid over them, or it is the table of recorded rows |
| LedgerMeanings.LastRecordedIsListedLastIff | internal/verify/merkle_verifier.go:262-278 | the row listed last under each id is the one recorded last if and only if there are fewer than ten slots or the second to the ninth hold no other row under the tenth's id |
| LedgerMeanings.RunsWithoutLeafMap | internal/verify/merkle_verifier.go:113-146 | so in every run a pass that finds no leaf map tells exactly that |
| QuietRuns.QuietPassesIff | internal/verify/merkle_verifier.go:113-146 | over a table nobody touches a pass succeeds if and only if there are at most ten rows, or an odd number of passes fell on ten rows, at least one on each number of rows since, and none on this one |
| QuietRuns.QuietStoreRuns | internal/verify/merkle_verifier.go:113-146 | the same for runs over the stored buckets |
| Storages.Storage.SaveHashEntry | internal/storage/storage.go:69-82 | one key of the bucket is overwritten |
| Storages.Storage.GetHashEntry | internal/storage/storage.go:84-104 | the entry stored under the printed key, or not found |
| Storages.Storage.GetLatestHashEntry | internal/storage/storage.go:106-135 | the last entry the prefix scan meets |
| Storages.Storage.SaveMerkleCheckpoint | internal/storage/storage.go:160-173 | one key of the bucket is overwritten |
| Storages.Storage.GetLatestMerkleCheckpoint | internal/storage/storage.go:175-204 | the last checkpoint the prefix scan meets |
| Storages.Storage.GetAllHashEntries | internal/storage/storage.go:206-231 | the prefix scan |
| Storages.Storage.GetAllHashEntriesAllTables | internal/storage/storage.go:233-257 | the whole bucket in key order |
| Buckets.Seek | internal/storage/storage.go:116 | the cursor goes to the least key at or above the given one |
| Buckets.Next | internal/storage/storage.go:116 | the cursor goes to the least key above the current one |
| Buckets.CollectFollowsOrder | internal/storage/storage.go:116 | collecting by least key yields the values in ascending key order |
| TableViews.KeysAreInjective | internal/storage/storage.go:73 | table and number determine the key and are determined by it, for names in the allowed alphabet |
| TableViews.PrefixScanIsTable | internal/storage/storage.go:206-231 | a scan returns exactly one table's records, each once, in the byte order of their numerals, however tables are interleaved and their names begin |
| TableViews.LatestIsDecimalLast | internal/storage/storage.go:106-135 | "latest" is the record under the last numeral in byte order; nothing exactly for an empty table |
| TableViews.DecimalLastIsMaxIff | internal/storage/storage.go:106-135 | the last numeral is the greatest number if and only if no number, padded with zeros to as many digits, exceeds it |
| TableViews.SameDigitsMeansMax | internal/storage/storage.go:106-135 | in particular while all numbers have equally many digits |
| TableViews.ViewAfterPut | internal/storage/storage.go:69-82 | writing one record changes one slot of one table |
| DecimalKeys.DecimalOrder | internal/storage/storage.go:73 | exactly when the byte order of two unpadded numerals agrees with their numeric order |
| DecimalKeys.DecimalReadsBack | internal/storage/storage.go:73 | a printed number consists of digits, has no leading zero and stands for the number |
| Handlers.HashChainHandler.AddTable | internal/verify/handler.go:38-45 | accepts exactly the names of the allowed alphabet and configures them |
| TableNames.NamesAre | internal/verify/handler.go:14 | a name is accepted if and only if it is not empty, starts with one of the 52 letters or an underscore, and goes on with these and the ten digits |
| TableNames.NamesCombine | internal/verify/handler.go:14 | accepted names joined by an underscore, or extended by digits, are accepted |
| TableNames.SampleNames | internal/verify/handler.go:14 | `audit_log` is accepted; the empty name and names with a leading digit or a dash are not |
| Handlers.HashChainHandler.HandleChange | internal/verify/handler.go:47-75 | other tables are ignored, updates and deletes are tampering; an insert saves, under the number after the latest entry's, the hash of the new row, the time, the operation and the printed key |
| Handlers.HandledInsertReadsBack | internal/verify/handler.go:57-74 | after a handled insert the table's chain has one new entry: it holds the hash of the event's row, and its record id reads back to the id column's value exactly when a printed key does |
| Handlers.NextNumberIsNext | internal/verify/handler.go:59-63 | the number the handler computes is the one after the last numeral |
| Handlers.TableChainGrows | internal/verify/handler.go:47-75 | however inserts into tables are interleaved, each table's chain grows by its own inserts |
| Handlers.HandlerRuns | internal/verify/handler.go:59-74 | after any run a table's inserts are exactly its entries 1..n if and only if n <= 10; from n = 10 on there are exactly ten entries, the tenth being the last insert's |
| UntouchedTables.UntouchedTableIsReportedIff | internal/verify/merkle_verifier.go:113-146 | a pass without leaf map over a table nobody touched reports tampering if and only if it had more than ten inserts |
| Numbering.ByNumberIsGapless | internal/verify/handler.go:59-63 | numbering after the greatest number gives entries 1..n for every n |
| Numbering.ByNumeralStopsAtTen | internal/storage/storage.go:106-135 | numbering after the last numeral gives 1..n up to ten and is stuck at ten entries from there on |
| Numbering.ByNumeralIsGaplessIff | internal/storage/storage.go:106-135 | so the decimal keys keep every insert's entry if and only if there are at most ten |
| RaftHandlers.RaftHashChainHandler.HandleChange | internal/verify/handler_raft.go:24-79 | the leader proposes, field by field, the insert under the number after its store's latest entry and writes nothing itself; a failed proposal is an error only for whoever leads after it, otherwise the insert is dropped; without Raft the entry is saved locally |
| RaftHandlers.EventTravels | internal/verify/handler_raft.go:42-60 | applying that log entry succeeds and writes the row's hash, the time, the operation and the printed key under the proposed number |
| RaftNodes.Node.ApplyLog | internal/consensus/node.go:165-181 | only the leader appends, and only an entry that commits |
| RaftNodes.Node.ApplyCheckpoint | internal/consensus/node.go:185-214 | the same for a checkpoint, field by field, empty maps left out |
| RaftNodes.InsertTravels | internal/verify/handler_raft.go:50-60 | applying a leader's log entry succeeds and writes the very hash entry a single node would have saved |
| RaftNodes.CheckpointTravels | internal/consensus/node.go:191-206 | applying a checkpoint's log entry succeeds and gives the leader's checkpoint back, maps included |
| Fsms.FSM.Apply | internal/consensus/fsm.go:25-42 | dispatch by entry type; what each command writes, and whether it is applied, rejected or panics |
| Fsms.FSM.ApplyHashChain | internal/consensus/fsm.go:44-70 | one hash entry is written, a data hash that is no string becoming empty; a failed type assertion writes nothing |
| Fsms.FSM.ApplyCheckpoint | internal/consensus/fsm.go:72-114 | one checkpoint is written with the string members of its maps; a failed type assertion writes nothing |
| Fsms.DecodeStrings | internal/consensus/fsm.go:85-89 | the copy loop keeps exactly the string members |
| Fsms.FSM.Snapshot | internal/consensus/fsm.go:116-123 | a snapshot refers to the live storage |
| Fsms.FsmSnapshot.Persist | internal/consensus/fsm.go:153-177 | what is written is what the storage holds at that moment: hash entries only |
| Fsms.FSM.Restore | internal/consensus/fsm.go:125-147 | a snapshot that does not decode changes nothing; otherwise its entries are saved on top of the store |
| Fsms.RestoreOverlays | internal/consensus/fsm.go:125-177 | restoring what was persisted of a bucket lays that bucket over the one restored onto |
| Fsms.PutAllTakesLast | internal/consensus/fsm.go:140-144 | of the restored entries with one key the last one stays |
| Fsms.FoldInTurn | internal/consensus/fsm.go:25-70 | applying two logs in turn is applying their concatenation |
| Fsms.LateSnapshotConverges | internal/consensus/fsm.go:116-177 | a snapshot named after A but persisted after B, restored onto the store of any prefix of the log and followed by B and C, gives exactly the bucket of A, B and C |
| CatchingUp.CatchesUpAfterApply | internal/consensus/fsm.go:44-70 | applying the next entry moves the replay position by one |
| CatchingUp.CatchesUpFromEarlier | internal/consensus/fsm.go:116-123 | a store ahead of an index may be replayed from that index |
| CatchingUp.RestoreCatchesUp | internal/consensus/fsm.go:140-144 | a snapshot restored onto any store of this log catches up from the snapshot's index |
| Clusters.EventKeepsSound | internal/consensus/fsm.go:25-177 | every cluster event keeps the invariant: replaying the log from its index brings each node and each stored snapshot up to date |
| Clusters.NodesFollowLog | internal/consensus/fsm.go:44-70 | in every run a node that applied the whole log, never replayed, or has replayed past all it had seen, holds exactly the bucket of its applied prefix |
| Clusters.EquallyAdvancedNodesAgree | internal/consensus/fsm.go:44-70 | so nodes that got equally far hold the same entries |
| ClusterCheckpoints.CheckpointsFollowIff | internal/consensus/fsm.go:72-114 | in every run and for every node, restored, restarted or saving checkpoints of its own: it holds the checkpoints of its applied prefix if and only if, under every key, the last checkpoint it applied or saved itself is the last one of the prefix |
| ClusterCheckpoints.CheckpointsAgreeIff | internal/consensus/fsm.go:72-114 | two nodes hold the same checkpoints if and only if they last applied or saved the same under every key |
| ClusterCheckpoints.CompleteNodesFollow | internal/consensus/fsm.go:72-114 | a node that never jumped ahead of what it had applied, saved none of its own and is not in the middle of a replay holds the checkpoints of its applied prefix, restarted or not |
| ClusterCheckpoints.RestoreKeepsCheckpointsIff | internal/consensus/fsm.go:125-147 | a node that holds the checkpoints of its prefix still does after a restore if and only if the entries it jumps over change no checkpoint |
| ClusterCheckpoints.CompleteNodesAgree | internal/consensus/fsm.go:72-114 | so such nodes that got equally far hold the same checkpoints |
| ClusterNumbering.EventKeepsNumbered | internal/verify/handler_raft.go:42-60 | every event, numbering, proposing and committing apart, keeps each table's committed numbers an initial segment, and those each store and proposal has seen initial segments of it |
| ClusterNumbering.RunIsNumbered | internal/verify/handler_raft.go:42-60 | so in every run, however late an insert is committed after it was numbered |
| CommittedChains.GaplessAfterCommit | internal/verify/handler_raft.go:42-64 | one more commit keeps a chain gapless if and only if it was gapless and the commit takes the next free number |
| CommittedChains.CommittedNumbers | internal/verify/handler_raft.go:42-64 | in every run a table's committed inserts are its entries 1..n if and only if each was numbered from a store that held the greatest number committed by the time it was committed itself and, with decimal keys, n <= 10; there are never more entries than inserts, and with decimal keys never more than ten |
| CommittedChains.CaughtUpHoldsAll | internal/verify/handler_raft.go:44-48 | a node that has applied the whole log numbers from every number there is |
| CommittedChains.NumbersAsHandler | internal/verify/handler_raft.go:44-48 | in every run under decimal keys, the number any node gives is the one the handler computes from that node's store |
| ClusterLimits.StaleLeaderOverwrites | internal/verify/handler_raft.go:44-64 | a leader that has not applied its last entry repeats the number and overwrites the entry |
| ClusterLimits.RestoredNodeLacksCheckpoint | internal/consensus/fsm.go:132-146 | snapshots carry no checkpoints: a restored node may differ in them from one that got equally far |
| ClusterDetection.NodePassIff | internal/verify/merkle_verifier.go:113-146 | if a table's inserts were numbered from up-to-date stores, a pass without leaf map on a settled node succeeds if and only if the table is what the node's applied prefix recorded, or that is nothing |
| ClusterDetection.LaggingNodeReports | internal/verify/merkle_verifier.go:113-146 | over a table that shows exactly what the whole log recorded, such a node passes if and only if it has applied none of its inserts or all of them |
| BoltStores.BoltStore.FirstIndex | internal/consensus/bbolt_store.go:62-75 | the minimum index, 0 when empty |
| BoltStores.BoltStore.LastIndex | internal/consensus/bbolt_store.go:78-91 | the maximum index, 0 when empty |
| BoltStores.BoltStore.GetLog | internal/consensus/bbolt_store.go:94-105 | the last log stored at an index; not found leaves the record alone |
| BoltStores.BoltStore.StoreLogs | internal/consensus/bbolt_store.go:113-129 | each index of the batch maps to its last log, all others are kept |
| BoltStores.BoltStore.StoreLog | internal/consensus/bbolt_store.go:108-110 | one index is overwritten |
| BoltStores.StoredTakesLast | internal/consensus/bbolt_store.go:113-129 | of the logs of a batch with one index the last one is stored |
| BoltStores.BoltStore.DeleteRange | internal/consensus/bbolt_store.go:132-148 | exactly the indices in [min, max] are gone, for all bounds up to 2^64-1 |
| BoltStores.DeleteFromBucket | internal/consensus/bbolt_store.go:141-145 | the cursor loop terminates and removes exactly that range |
| BoltStores.KeyOrder | internal/consensus/bbolt_store.go:97-98 | eight-byte big-endian keys are ordered and distinguished as the numbers are |
| BoltStores.EncodeLog | internal/consensus/bbolt_store.go:198-218 | the buffer filled in place holds index, term, type, payload length and payload |
| BoltStores.DecodeLog | internal/consensus/bbolt_store.go:221-247 | too short or incomplete by the declared length is an error, each its own; otherwise every field is read from its place, and which fields a rejected buffer has already overwritten |
| BoltStores.RoundTripIff | internal/consensus/bbolt_store.go:198-247 | decoding undoes encoding if and only if the payload is shorter than 2^32 bytes |
| BoltStores.AcceptedIff | internal/consensus/bbolt_store.go:221-247 | a buffer is accepted if and only if it holds the header and the declared payload; encoding again gives it back up to trailing bytes |

## Left out

- PostgreSQL, queries and logical replication: a table is a finite map from printed id to row text, a query lists it in any order, and change events and queries are taken to produce the same row text.
- JSON, `fmt` and value normalisation: row texts start with a brace and determine their id; log entries, snapshots and stored records come back as they were written, except that a log entry or a snapshot may fail to decode.
- The concrete hash algorithms: any function to hex strings of one fixed positive width.
- Raft elections, log replication and transport: one append-only committed log and a leader flag; an election changes the flag.
- bbolt transactions, pages and cursor invalidation while deleting: a sorted map whose cursor moves to the next greater key. Records that fail to decode, which scans skip, do not occur.
- Mutexes, goroutines, tickers and a table that changes between two reads of one pass: every step is atomic, and the rows of a pass are read once.
- Number widths outside the Raft log: sequence numbers and counts are unbounded, so neither wrap-around at 2^64 nor the rounding of JSON numbers above 2^53 is modelled; numbers in log entries are natural numbers, so converting a negative or fractional one is not.
- Time: timestamps are parameters. Console output, alerts, configuration, the command line and leadership rotation have no counterpart.
- MerkleVerifiers.MerkleVerifier.VerifyTable: whether the node leads is settled before the pass starts; only while the log is asked to take the checkpoint may leadership change.
- MerkleTreeBuilders.MerkleTreeBuilder.FindTamperedLeavesRecursive: the slice is passed in and handed back instead of being changed through a pointer.
- MerkleTreeBuilders.MerkleTreeBuilder.CollectInternalNodes: the map is passed in and handed back instead of being changed in place.
- DetectionRuns.RunsAreExact: an id is not inserted again while it is still recorded, and ids read back from their printed keys; LedgerRuns.LedgerRunsAreExact asks neither.
- StoreRuns.StoreRunsAreExact: likewise, and an overwritten row was not adopted under the same id before.
- EventRuns.EventRunsTellTable: an inserted row's id is plain and no column printed before its id column shows an `id:`; what is read of other keys is in RecordIds.ParserUndoesPrinter.
- ClusterDetection.NodePassIff: covers passes that find no leaf map; what leaf map a node's newest checkpoint has depends on the tables other nodes saw.
- `CompareTrees`, `compareByRecordID`, `GetRecordIDByHash`, `GetRecordIDByIndex`, `GetSortedLeaves`, `GetLeafCount`, `HashChain`, the stable store of the Raft log, metadata and `VerifyHashChain`: they would only add easy members.
- Capturing every insert exactly once across a leader change: the code does not provide it, since followers drop their events.
- The text of error messages and the shortened hashes in them; a finding stands for one printed line.
