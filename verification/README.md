# A verified model of a sharded, verifiable ledger database

The system is a transactional front end over shards, each backed by one of three authenticated ledger
stores. This project models its hardest parts in Dafny and proves what they promise. `dafny verify
dfyconfig.toml` checks all of it.

| files | part of the system |
|---|---|
| `OccStore.dfy`, `TwoPhaseCommit.dfy`, `Coordinator.dfy` | two-phase commit over optimistic shards, in stored-procedure mode |
| `AtMostOnce.dfy`, `VrLog.dfy` | request deduplication between VR clients and leader; dump and install of the replica log |
| `BTreeEntries.dfy`, `BTreeNodes.dfy`, `BTree.dfy`, `BTreeRange.dfy` | QLDB's B+-tree of named nodes with a dirty overlay |
| `Trie.dfy`, `TrieStore.dfy`, `TrieProof.dfy`, `TrieBytes.dfy` | LedgerDB's Merkle Patricia trie: tree, content-addressed store, proofs, bytes |
| `Merkle.dfy`, `LedgerTree.dfy`, `QldbDigest.dfy`, `SqlChain.dfy` | the from-scratch Merkle tree and the three incremental ones, with SQLLedger's block chain |
| `QldbHistory.dfy` | QLDB's ledger with its tables of document versions |
| `SkipList.dfy` | LedgerDB's skip list of records |
| `Wal.dfy`, `Codec.dfy` | the write-ahead log and its index; document bytes |
| `Options.dfy` | the option type |

How the model is built:

- A database is a map, and the network a set of messages or the sequence of all sent. Records whose names the source builds as strings
  have structured names (a tree node is named by level, index and, where it is incomplete, commit).
- Hash functions are parameters, never assumed injective. A Merkle binding theorem ends in "or here is a
  collision" between inputs it names. The trie overwrites and finds nodes by hash, so its theorems ask that no
  two chunks of an explicit finite set (`Apart`) have the same hash. Base 32 (section 6 of RFC 4648) is an
  encoding with an inverse.
- Commits are modelled as steps of shards, coordinators and messages that are handled at most once (which is
  what `AtMostOnce` establishes for the channel), in any order, or lost. Any application may give up before
  preparing. Transaction ids are unique; a coordinator waits for all votes, since its promises never time out.
- State that the source changes in place is a class (or a method over the value of the state, where one class
  method would be too large a proof), and its loops are loops.

Where code and expectation differ, the model follows the code:

- Inserting the key that the skip list's head already has writes a record that no search reaches, so the old
  value stays. `InsertReadBack` says exactly when an insertion can be read back.
- `GetHistory(key, n)` returns the current document and up to `n` earlier ones, `n + 1` in all; two entries for
  one key in a batch get the same version, and the later one is kept.
- `VerifyProof` of the trie follows hashes from the digest and compares a value only where it meets one. It never
  looks at the key of a claimed value (`ClaimVerdict`), and it accepts an empty proof, or one cut short before the node
  that holds the value, for any value at all (`EmptyProofIsAccepted`, `TruncatedProofIsAccepted`).
  `AcceptedProofIsRight` is the exact condition: a proof without empty nodes that spells the key is accepted if and only
  if it is the key's own proof and the value is the key's. It does not look at the kind of a chunk that is not a full
  node, and reads it as a short one; what such a cast finds is a parameter (`Casts`) about which nothing is required.
  `EmptyNodeIsRead` shows why empty nodes are excluded.
- For a proof without a value `VerifyProof` compares a short node's nibbles with the key's own bytes and does not go
  on to its child. `AbsenceVerdict` says exactly when the honest proof of an absent key is accepted, and
  `AbsenceProofIsRejected` gives a key for which it is not.

## Model

| member | source | states |
|---|---|---|
| TwoPhaseCommit.Serializable | distributed/store/strongstore/client.cc:353-433 | in every interleaving of steps, each value read at a shard's commit is the value in the serial execution of the committed transactions in the order of the coordinators' decisions |
| TwoPhaseCommit.AtomicCommitment | distributed/store/strongstore/client.cc:243-288 | in every run no assertion fails, prepared transactions on a shard never conflict, no transaction is carried out at one participant and abandoned at another, and where it is carried out or abandoned it is no longer held |
| TwoPhaseCommit.PrepareVerdict | distributed/store/strongstore/occstore.cc:31-64 | in every run a prepare that arrives gets a yes vote, and is held from then on, exactly if it conflicts with nothing the shard holds |
| TwoPhaseCommit.CommitVerdict | distributed/store/strongstore/occstore.cc:79-111 | in every run a commit that arrives gives the keys that the transaction writes on the shard their values, and leaves the others |
| TwoPhaseCommit.FreeTransactionCanCommit | distributed/store/strongstore/client.cc:243-443 | every run can be continued so that a transaction not yet started, which conflicts with nothing held, commits at all its participants |
| TwoPhaseCommit.DecisionVerdict | distributed/store/strongstore/client.cc:243-288 | in every run the decision is to commit exactly if all participants hold the transaction, and it is sent to every participant |
| TwoPhaseCommit.DrainedRunIsSettled | distributed/store/strongstore/client.cc:353-443 | a run that has lost no message and has none to deliver has every decision carried out at every participant, nothing abandoned held, and all votes of what is undecided |
| TwoPhaseCommit.QuiescentDataIsSerial | distributed/store/strongstore/occstore.cc:79-111 | once every decided commit has been carried out, each shard holds exactly its part of the result of the serial execution, and nothing else |
| TwoPhaseCommit.EveryRunKeepsInv | distributed/store/strongstore/client.cc:353-443 | the protocol and history invariants hold after every run of steps, over any number of shards and transactions |
| TwoPhaseCommit.StepKeepsInv | distributed/store/strongstore/client.cc:353-443 | every step (prepare, vote, decide, commit, abort, give up, loss) keeps the invariants |
| TwoPhaseCommit.CommitFindsPrepared | distributed/store/strongstore/occstore.cc:84-85 | a commit that arrives finds its part of the transaction prepared, so the store's assertion holds |
| TwoPhaseCommit.CommitDecisionKeepsHistory | distributed/store/strongstore/client.cc:269-288 | deciding to commit while every participant holds the transaction puts it in the order after everything it conflicts with |
| TwoPhaseCommit.NoConflictWithHeld | distributed/store/strongstore/occstore.cc:42-59 | a transaction that all participants hold conflicts with nothing that is decided and still pending |
| TwoPhaseCommit.PendingIsIsolated | distributed/store/strongstore/occstore.cc:42-63 | between decision and commit no other writer of a transaction's keys is pending or decided later: prepared sets act as locks |
| TwoPhaseCommit.PendingReads | distributed/store/strongstore/occstore.cc:89-96 | what a pending transaction will read is already the serial value at its place |
| TwoPhaseCommit.ReplayLate | distributed/store/strongstore/occstore.cc:102-108 | carrying out a commit late gives the same data as carrying it out in turn, if nobody after it wrote its keys |
| OccStore.PrepareKeepsCompatible | distributed/store/strongstore/occstore.cc:31-64 | preparing keeps the prepared transactions pairwise free of conflicts |
| OccStore.GatheredSetsDecide | distributed/store/strongstore/occstore.cc:38-59 | checking reads against all prepared writes, and writes against all prepared reads and writes, decides conflict with every prepared transaction |
| OccStore.OCCStore.Prepare | distributed/store/strongstore/occstore.cc:31-64 | votes yes exactly if already prepared or free of conflict, and then holds the transaction; otherwise nothing changes |
| OccStore.OCCStore.Commit | distributed/store/strongstore/occstore.cc:79-111 | reports the values of the read set before applying the write set, and releases the transaction |
| OccStore.OCCStore.CommitWrites | distributed/store/strongstore/occstore.cc:137-153 | outside stored-procedure mode: applies the writes of a prepared transaction, and nothing for an unknown id |
| OccStore.OCCStore.Abort | distributed/store/strongstore/occstore.cc:66-70 | afterwards the transaction is not prepared, and every other one and the data are as before |
| OccStore.OCCStore.GetPreparedWrites | distributed/store/strongstore/occstore.cc:155-166 | the union of the write sets of all prepared transactions |
| OccStore.OCCStore.GetPreparedReadWrites | distributed/store/strongstore/occstore.cc:168-182 | the union of the read and write sets of all prepared transactions |
| OccStore.LeaderUpcall | distributed/exes/strong-server.cc:33-93 | dispatches to the store as the step system's shard does; only a refused prepare is not replicated |
| Transactions.KeyToShard | distributed/store/common/frontend/client.h:44-52 | the loop computes the 64-bit hash of the key, with sign-extended bytes, modulo the number of shards |
| Transactions.Djb2Is | distributed/store/common/frontend/client.h:44-52 | wrapping around at every step gives 5381 and the bytes weighted with powers of 33, wrapped around once |
| Coordinator.CountAnswers | distributed/store/strongstore/client.cc:269-287 | OK exactly if all answers are OK, FAIL exactly if one is FAIL, else the last refusal; the timestamp is the largest |
| Coordinator.Client.Begin | distributed/store/strongstore/client.cc:72-82 | a new id, no participants, and an empty buffer for every shard |
| Coordinator.Client.Get | distributed/store/common/frontend/bufferclient.cc:66-79 | the read set gains the key unless it has been written, and its shard is contacted; the transaction stays the one that the calls since `Begin` gather |
| Coordinator.Client.Put | distributed/store/common/frontend/bufferclient.cc:83-89 | the write set has the value, in the buffer of the key's shard, and all else is as before; the transaction stays the one that the calls since `Begin` gather |
| Coordinator.GatheredIsOne | distributed/store/common/frontend/bufferclient.cc:66-89 | each key has its last put value, and the reads are exactly the keys got before any put of them: for every sequence of calls this is one transaction |
| Coordinator.Client.SendPrepares | distributed/store/strongstore/client.cc:262-267 | sends every participant its part of the transaction, as the step system does |
| Coordinator.Client.Decide | distributed/store/strongstore/client.cc:400-432 | commits to all participants if every answer is OK, aborts to all otherwise |
| AtMostOnce.RequestsRunAtMostOnce | distributed/replication/vr/replica.cc:357-435 | under loss, duplication and reordering each request reaches the upcall at most once, and its continuation is called at most once, with that upcall's result |
| AtMostOnce.EveryRunKeepsInv | distributed/replication/vr/client.cc:27-138 | client numbers, client table, replies and upcalls stay consistent in every run |
| AtMostOnce.ReplyMatches | distributed/replication/vr/client.cc:123-138 | a reply that meets a waiting request carries the result of that very request |
| AtMostOnce.VRReplica.HandleRequest | distributed/replication/vr/replica.cc:357-435 | calls up exactly for a client's first request or one with a larger number than its last; repeats the stored reply for the last one; ignores older ones |
| AtMostOnce.NewRequestIsCalled | distributed/replication/vr/replica.cc:380-435 | in every run a request that arrives has its upcall exactly if every call of its client so far is older; the result is sent back, with the next operation number if the request is replicated |
| AtMostOnce.OldRequestIsAnswered | distributed/replication/vr/replica.cc:380-399 | in every run a client's last call that arrives again has its reply sent again and nothing else happens; an older one does nothing |
| AtMostOnce.InvokeIsAnswered | distributed/replication/vr/client.cc:27-138 | after any run, a call whose request and then whose reply arrive has its upcall and its continuation called with that result |
| AtMostOnce.OpNumbersNameRequests | distributed/replication/vr/replica.cc:410-434 | operation numbers count the replicated requests, and a reply that carries one is to the request of that number |
| AtMostOnce.VRReplica.UpdateClientTable | distributed/replication/vr/replica.cc:240-254 | the client's entry becomes the new request without a reply |
| AtMostOnce.VRClient.Invoke | distributed/replication/vr/client.cc:27-45 | a fresh number, and the request waits for its reply |
| AtMostOnce.VRClient.ResendRequest | distributed/replication/vr/client.cc:93-102 | sends what the step system's resend adds to the messages: for a request that waits, one that was issued before; otherwise nothing |
| AtMostOnce.ResentRunsNoMore | distributed/replication/vr/client.cc:93-102 | in every run what a resend adds was issued before, and delivering it again after its upcall makes no other |
| AtMostOnce.VRClient.HandleReply | distributed/replication/vr/client.cc:123-138 | the continuation is called exactly if the request still waits, which it then no longer does |
| VrLog.TransferLog | distributed/replication/common/log-impl.h:4-53 | truncating past the sender's last operation and installing its dump gives the sender's viewstamps and requests, if the receiver has the sender's operations below the dump and equal views name equal operations; an entry of the result is the receiver's own or prepared |
| VrLog.InstallMakesEqual | distributed/replication/common/log-impl.h:22-53 | the same on the sequences of entries, for every dump point |
| VrLog.Log.Install | distributed/replication/common/log-impl.h:22-53 | keeps its own entries, state included, up to the first one of another view, and continues with the new ones as prepared |
| VrLog.Log.Dump | distributed/replication/common/log-impl.h:4-20 | the end of the log that holds exactly the operations from the given number on |
| VrLog.Log.Append | distributed/replication/common/log.cc:22-41 | adds the entry and keeps the log contiguous |
| VrLog.Log.Find | distributed/replication/common/log.cc:44-62 | the entry with that operation number, exactly if the log has it |
| VrLog.Log.RemoveAfter | distributed/replication/common/log.cc:93-112 | the beginning of the log that holds exactly the operations below the given number |
| BTree.LookupAfterRun | ledger/qldb/ql_btree.cc:129-160 | after any run of batches a lookup gives the last value set for the key, or nothing |
| BTree.LookupLastEntry | ledger/qldb/ql_btree.cc:129-160 | that is the value at the last place of the last batch that has the key |
| BTree.LookupPutAll | ledger/qldb/ql_btree.cc:129-160 | after a batch a lookup gives the last value the batch sets for the key, or what it gave before |
| BTree.QLBTree.Set | ledger/qldb/ql_btree.cc:129-160 | the contents become the old ones with the batch put in key order; the tree stays well-formed, no node exceeds its fanout, and the overlay is empty again |
| BTree.QLBTree.Get | ledger/qldb/ql_btree.cc:23-26 | looks the key up in the contents |
| BTree.QLBTree.NumElements | ledger/qldb/ql_btree_node.cc:79-115 | the root's element count is the number of distinct keys |
| BTree.TryGet | ledger/qldb/ql_btree.cc:28-64 | descending by maximum keys finds the key if the node holds it |
| BTree.BinarySearch | ledger/qldb/ql_btree_node.cc:180-197 | the first index whose key is not smaller, although the descent may stop early |
| BTree.Insert | ledger/qldb/ql_btree.cc:186-273 | the one or two dirty nodes in place of the node hold its entries with the key set; nothing outside its key range changes, and no dirty node exceeds its fanout |
| BTree.InsertLeaf | ledger/qldb/ql_btree.cc:209-269 | the same for a leaf, with its split |
| BTree.UpdateChild | ledger/qldb/ql_btree_node.cc:199-262 | the new inner node, split if too large, holds the entries with the changed child; counts and fanout stay right |
| BTree.SpliceChild | ledger/qldb/ql_btree_node.cc:199-235 | the lists of keys and counts with the child's result in place |
| BTree.InsertAll | ledger/qldb/ql_btree.cc:133-156 | the batch inserted key by key, with a new root whenever the root splits |
| BTree.CommitNode | ledger/qldb/ql_btree.cc:275-301 | after the commit the database alone holds what was read through the overlay, and only records in the node's range change, to the overlay's |
| BTree.CommitKids | ledger/qldb/ql_btree.cc:286-300 | the same for all children of an inner node |
| BTreeEntries.LookupPut | ledger/qldb/ql_btree.cc:209-240 | putting into the sorted entries is map update |
| BTreeNodes.NodeEntries | ledger/qldb/ql_btree.cc:186-273 | the entries below a well-formed node are sorted and in its range |
| BTreeNodes.ReplaceKid | ledger/qldb/ql_btree_node.cc:199-262 | replacing a child by the nodes that now hold its entries with a key set does that to the parent |
| BTreeNodes.SumIsCount | ledger/qldb/ql_btree_node.cc:79-115 | the counts of an inner node add up to the entries below it |
| BTreeRange.Range | ledger/qldb/ql_btree.cc:66-71 | exactly the stored entries with keys in the range |
| BTreeRange.TryRange | ledger/qldb/ql_btree.cc:73-101 | finds all entries of the node in the range, and none outside, even when it falls through to the shared `_INFI_` child |
| BTreeRange.FindKey | ledger/qldb/ql_btree.cc:103-127 | the leaf's entries in the range; stopping at the first larger key misses none |
| BTreeRange.SpineOf | ledger/qldb/ql_btree.cc:82-90 | the `_INFI_` node of every level below is stored and part of the tree, so falling through is harmless |
| Nibbles.KeybytesToHex | ledger/ledgerdb/mpt/mpt_config.h:12-22 | the high and the low nibble of every byte, then the terminator |
| Nibbles.HexInjective | ledger/ledgerdb/mpt/mpt_config.h:12-22 | distinct keys have distinct paths |
| Nibbles.ComputePrefixLen | ledger/ledgerdb/mpt/mpt_config.h:24-30 | the length of the longest common prefix |
| TrieTree.HistoryIndependence | ledger/ledgerdb/mpt/trie.cc:82-181 | any two runs of batches that end in the same map build the same tree |
| TrieTree.BuildConcat | ledger/ledgerdb/mpt/trie.cc:82-95 | two batches one after the other build what the one long batch builds |
| TrieTree.LookupBuildAll | ledger/ledgerdb/mpt/trie.cc:82-95 | after any run of batches a lookup gives the last value set for the key, or nothing |
| TrieTree.Canonical | ledger/ledgerdb/mpt/trie.cc:97-181 | canonical trees that hold the same map are equal |
| TrieTree.InsertProper | ledger/ledgerdb/mpt/trie.cc:97-181 | inserting keeps the canonical form |
| TrieTree.LookupInsert | ledger/ledgerdb/mpt/trie.cc:97-181 | inserting is map update |
| TrieTree.LookupBuild | ledger/ledgerdb/mpt/trie.cc:82-95 | after a batch a lookup gives the last value set for the key, or what was there before |
| TrieTree.CountInsert | ledger/ledgerdb/mpt/mpt_node.cc:158-180 | the count grows by one exactly if the key is new |
| TrieTree.CountBuild | ledger/ledgerdb/mpt/mpt_node.cc:68-82 | the root's count is the number of distinct keys set |
| TrieStore.RootHashOfMap | ledger/ledgerdb/mpt/trie.cc:82-95 | runs of batches that end in the same map give the same root node and root hash, whatever the hash function |
| TrieStore.CommitBatches | ledger/ledgerdb/ledgerdb.cc:79-94 | after any run of commits, each opening the trie at the last root hash and setting a batch, every root hash of the run opens the tree of its own batches |
| TrieStore.HashDeterminesTree | ledger/ledgerdb/mpt/trie.cc:307-320 | conversely equal root hashes mean equal trees, unless two of their chunks collide |
| TrieStore.InsertNode | ledger/ledgerdb/mpt/trie.cc:97-181 | returns the chunk of the tree with the key inserted, with every new node in the overlay and every other one still reachable |
| TrieStore.InsertFork | ledger/ledgerdb/mpt/trie.cc:137-165 | where two keys part inside a short node, a full node takes both below what they share |
| TrieStore.FetchKid | ledger/ledgerdb/mpt/trie.cc:287-305 | following a child's hash through overlay and database gives that child |
| TrieStore.EncodeFull | ledger/ledgerdb/mpt/mpt_node.cc:68-101 | sums the children's counts and refers to the first sixteen by hash |
| TrieStore.SetChildIs | ledger/ledgerdb/mpt/mpt_node.cc:158-202 | changing one child and the count is the same as encoding the changed list of children |
| TrieStore.Commit | ledger/ledgerdb/mpt/trie.cc:322-377 | every node reachable from the new root is in the database afterwards, and no record changes |
| TrieStore.KidInMore | ledger/ledgerdb/mpt/trie.cc:322-377 | what is saved stays saved as the database grows: older root hashes keep their trees |
| TrieStore.TryGet | ledger/ledgerdb/mpt/trie.cc:30-69 | the value that the tree holds for the key, or the empty string |
| TrieStore.OpenRoot | ledger/ledgerdb/mpt/trie.cc:307-320 | a saved root hash opens its tree |
| TrieStore.Trie.Get | ledger/ledgerdb/mpt/trie.cc:24-28 | the value for the key in the opened tree |
| TrieStore.Trie.NumElements | ledger/ledgerdb/mpt/mpt_node.cc:23-34 | the tree's element count |
| TrieStore.Trie.Set | ledger/ledgerdb/mpt/trie.cc:82-95 | returns the root hash of the tree with the batch inserted, all of it saved; the database only grows |
| TrieProof.ProofIsAccepted | ledger/ledgerdb/mpt/trie.cc:379-474 | the proof of a key that is present is accepted against the root hash |
| TrieProof.PresentKeyVerdict | ledger/ledgerdb/mpt/trie.cc:379-474 | so the proof of every key with a non-empty value is accepted |
| TrieProof.AcceptedProofIsRight | ledger/ledgerdb/mpt/trie.cc:432-474 | unless two of the chunks collide, a proof that spells the key, of chunks of any kind but the empty node, is accepted if and only if it is the key's own proof and the value is the key's |
| TrieProof.EmptyNodeIsRead | ledger/ledgerdb/mpt/trie.cc:459-472 | the failing input with an empty node: read as a short node, it may show a value in the empty tree |
| TrieProof.EmptyProofIsAccepted | ledger/ledgerdb/mpt/trie.cc:432-438 | the failing input: without nodes any value is accepted against any digest |
| TrieProof.TruncatedProofIsAccepted | ledger/ledgerdb/mpt/trie.cc:438-474 | the failing family: a proof cut short before the node that holds the value is accepted for any value |
| TrieProof.ClaimVerdict | ledger/ledgerdb/mpt/trie.cc:446-474 | the verdict on a claimed value does not depend on the key |
| TrieProof.AbsenceVerdict | ledger/ledgerdb/mpt/trie.cc:446-487 | the honest proof of a key without a value is accepted exactly if all its nodes are full ones, except that the last may be a short one whose nibbles start the rest of the key's own bytes |
| TrieProof.AbsenceProofIsRejected | ledger/ledgerdb/mpt/trie.cc:474-482 | a tree and an absent key whose honest proof is rejected |
| TrieProof.TryGetProof | ledger/ledgerdb/mpt/trie.cc:387-430 | appends the nodes on the way to the key, and sets the value |
| TrieProof.GetProof | ledger/ledgerdb/mpt/trie.cc:379-385 | the nodes from the root to the key, and its value |
| TrieProof.VerifyProof | ledger/ledgerdb/mpt/trie.cc:432-487 | the verdict on chunks of any kind and any value, empty or not: each node must hash to what the one before refers to, and a value that is met must be the claimed one; it may also be that none is met |
| TrieBytes.SetChildAtIndex | ledger/ledgerdb/mpt/mpt_node.cc:158-202 | the byte splice writes the encoding of the changed list of children and count |
| TrieBytes.ChildReadBack | ledger/ledgerdb/mpt/mpt_node.cc:36-42 | child and count are read back from a full node's bytes |
| TrieEncoding.SpliceNode | ledger/ledgerdb/mpt/mpt_node.cc:158-202 | the byte splice of a stored full node writes the bytes of the node that the trie's insertion makes of it |
| TrieEncoding.SpliceIsSetChild | ledger/ledgerdb/mpt/mpt_node.cc:158-202 | the bytes of the trie's changed node are those the splice writes |
| TrieEncoding.ElemsOfEncoded | ledger/ledgerdb/mpt/mpt_node.cc:158-177 | the count read from a child's bytes is the child's count |
| Merkle.PathReachesRoot | ledger/ledgerdb/merkletree.cc:122-146 | the authentication path of every leaf leads to the from-scratch root |
| Merkle.AcceptedProofBinds | ledger/ledgerdb/merkletree.cc:122-146 | a proof of the honest length and sides that reaches the honest root starts at the real leaf, or names two inputs with one hash |
| Merkle.AnyAcceptedProofBinds | ledger/ledgerdb/merkletree.cc:122-146 | for any sides and any length up to the tree's height: an accepted proof starts at the node that its sides lead to, or names two inputs with one hash |
| Merkle.RootIsTop | ledger/sqlledger/sqlldg_mt.cc:21-46 | pairing up until one node is left gives the top level |
| Merkle.SameRootSameLeaves | ledger/qldb/qldb.cc:206-239 | lists with the same root and trees of the same height are the same, or two nodes at one place have other inputs and one hash |
| Merkle.RowHasSameRoot | ledger/qldb/qldb.cc:206-239 | the height has to be known: the row above the leaves has the same root |
| Merkle.WholeNodesAreFinal | ledger/ledgerdb/merkletree.cc:44-67 | a node whose leaves are all present never changes when leaves are added |
| LedgerTree.MerkleTree.Update | ledger/ledgerdb/merkletree.cc:8-75 | the root hash is the from-scratch root of all leaves so far, for every run of batches; nothing stored changes |
| LedgerTree.PreviousNode | ledger/ledgerdb/merkletree.cc:30-43 | every previous node that an update loads is complete and stored without a commit suffix |
| LedgerTree.CommitsStayStored | ledger/ledgerdb/merkletree.cc:44-67 | the tree of every earlier commit is still stored after an update |
| LedgerTree.MerkleTree.GetProof | ledger/ledgerdb/merkletree.cc:77-120 | for every commit and block up to its tip the proof is accepted against that commit's root, however many updates followed |
| LedgerTree.Verify | ledger/ledgerdb/merkletree.cc:122-146 | accepts exactly if climbing the proof from the value reaches the digest |
| QldbDigest.CalculateBlockHash | ledger/qldb/qldb.cc:204-238 | the block hash is the Merkle root of the block's hashes, with every inner node stored |
| QldbDigest.CalculateDigest | ledger/qldb/qldb.cc:240-282 | extending the last path gives the Merkle root of all block hashes |
| QldbDigest.Ledger.Set | ledger/qldb/qldb.cc:99-197 | adds one block, whose leaves are the hashes of its documents, of the block before (or the genesis hash), of the statement and of the address, in that order; the stored digest is again the Merkle root of all block hashes |
| QldbDigest.BlockHashBindsPast | ledger/qldb/qldb.cc:167-185 | ledgers with the same hash of one block, and block trees of the same heights back to another, have the same hash there too, or two node inputs have one hash |
| QldbDigest.DigestBindsLedger | ledger/qldb/qldb.cc:241-286 | ledgers with the same digest and trees of the same heights have the same documents, or two chunks or two node inputs have one hash |
| QldbDigest.Ledger.GetProof | ledger/qldb/qldb.cc:298-362 | the document, with a two-level proof that is accepted against the current digest |
| QldbDigest.Verify | ledger/qldb/qldb.cc:11-40 | accepts exactly if climbing the proof from the document hash reaches the digest |
| QldbDigest.TwoLevelPath | ledger/qldb/qldb.cc:298-362 | a document's path in its block followed by the block's path in the ledger leads to the digest |
| QldbDigest.AcceptedDocumentBinds | ledger/qldb/qldb.cc:11-40 | a document whose proof of the honest lengths and sides is accepted is the real document, or two document chunks have one hash, or two node inputs have |
| QldbDigest.TwoLevelBinding | ledger/qldb/qldb.cc:15-39 | the same for the hash that the climb starts from: it is the real leaf's, or two node inputs have one hash |
| Documents.RoundTrip | ledger/qldb/qlnode.cc:7-62 | an encoded document is read back |
| Documents.EncodingDetermines | ledger/qldb/qlnode.cc:7-39 | distinct documents have distinct chunks |
| Documents.WriteDocument | ledger/qldb/qlnode.cc:7-39 | writes the document's fields one after the other |
| QldbHistory.QLDB.Set | ledger/qldb/qldb.cc:99-197 | adds one block of documents, and one more version of every key of the batch: the last document it has for the key |
| QldbHistory.QLDB.GetHistory | ledger/qldb/qldb.cc:85-97 | the current document and up to n earlier versions, newest first, as they were set |
| QldbHistory.QLDB.GetNVersions | distributed/store/common/backend/versionstore.cc:66-88 | after any run of sets every version of a key is a document of the ledger, and its two-level proof is accepted against the current digest |
| QldbHistory.BatchInLedger | ledger/qldb/qldb.cc:134-193 | every version ever set stays the document at the block and place that it names |
| QldbHistory.BatchStored | ledger/qldb/qldb.cc:134-165 | current documents and versions stay those of the past batches |
| SqlChain.Build | ledger/sqlledger/sqlldg_mt.cc:8-47 | stores the whole tree and returns its height and from-scratch root |
| SqlChain.GetProof | ledger/sqlledger/sqlldg_mt.cc:49-72 | the authentication path of the leaf, and the root |
| SqlChain.SqlLedger.UpdateLedger | ledger/sqlledger/sqlledger.cc:30-74 | adds one block with an entry for every buffered transaction, which holds its id, its place and the root and height of its documents; the block is chained to the ones before, whose records stay |
| SqlChain.AddTxns | ledger/sqlledger/sqlledger.cc:43-58 | one tree and one entry for every transaction, with the root and height of the tree of its documents; the trees and entry records of earlier ones stay |
| SqlChain.EntryFields | ledger/sqlledger/sqlledger.cc:44-53 | the five fields of an entry, read back by splitting it |
| SqlChain.EntryBindsDocs | ledger/sqlledger/sqlledger.cc:44-53 | one entry is of one transaction, one place and one list of documents, or two texts or two node inputs have one hash |
| SqlChain.AcceptedDocumentsBind | ledger/sqlledger/sqlledger.cc:182-233 | documents whose entry is accepted against the root of a chain accepted against the digest are the real ones, or two named inputs have one hash |
| SqlChain.DigestBindsLedger | ledger/sqlledger/sqlledger.cc:66-74 | ledgers with the same digest record have the same transactions at the same places with the same documents, or two named inputs have one hash |
| SqlChain.ChainBlock | ledger/sqlledger/sqlledger.cc:60-74 | the new record names the hash of the last one, and the digest record names the new one's |
| SqlChain.SqlLedger.GetDigest | ledger/sqlledger/sqlledger.cc:128-134 | the number and the hash of the last block |
| SqlChain.SqlLedger.GetBlockProof | ledger/sqlledger/sqlledger.cc:182-195 | for every block the proof is accepted against the current digest, and gives exactly that block's root |
| SqlChain.SqlLedger.GetTxnProof | ledger/sqlledger/sqlledger.cc:213-215 | for every entry of a block the tree proof is accepted against that root |
| SqlChain.AcceptedEntryBinds | ledger/sqlledger/sqlldg_mt.cc:74-99 | a text whose proof of the honest length and sides is accepted is the real entry, or two texts have one hash, or two node inputs have |
| SqlChain.VerifyChain | ledger/sqlledger/sqlledger.cc:222-233 | accepts exactly chained records, and returns the first one's root |
| SqlChain.HonestChain | ledger/sqlledger/sqlledger.cc:222-233 | any run of records up to a block is accepted against that block's hash |
| SqlChain.AcceptedChainBinds | ledger/sqlledger/sqlledger.cc:222-233 | accepted records of the honest number are the honest ones, or two texts have one hash |
| SqlChain.ChainIsUnique | ledger/sqlledger/sqlledger.cc:65-74 | the records are determined by the transaction entries |
| SkipList.DistinctKeysRun | ledger/ledgerdb/skiplist/skiplist.cc:153-200 | after any run of insertions of distinct keys, with any levels, each key has the value inserted for it and no other key has any |
| SkipList.InsertIsUpdate | ledger/ledgerdb/skiplist/skiplist.cc:153-200 | insertion is map update, unless the key is an existing head's: then nothing changes |
| SkipList.InsertReadBack | ledger/ledgerdb/skiplist/skiplist.cc:165-170 | an inserted value is found exactly if the key is not an existing head's, or the value is the old one |
| SkipList.HeadKeepsItsValue | ledger/ledgerdb/skiplist/skiplist.cc:165-170 | an input for which the inserted value is not found |
| SkipList.LevelsNest | ledger/ledgerdb/skiplist/skiplist.cc:178-194 | each level is a strictly descending sublist of the one below, and the lowest holds all nodes |
| SkipList.NextIsNext | ledger/ledgerdb/skiplist/skiplist.cc:178-194 | the pointers of a level lead through exactly that level's nodes |
| SkipList.NodeLevel | ledger/ledgerdb/skiplist/skiplist.cc:77-93 | the number of leading levels that are not empty, at least one |
| SkipList.Search | ledger/ledgerdb/skiplist/skiplist.cc:116-142 | terminates with the key's record, exactly if there is one |
| SkipList.Splice | ledger/ledgerdb/skiplist/skiplist.cc:172-199 | the collected records and the new one are those of the list with the key at its place |
| SkipList.SkipList.Find | ledger/ledgerdb/skiplist/skiplist.cc:116-142 | the value held for the key |
| SkipList.SkipList.Insert | ledger/ledgerdb/skiplist/skiplist.cc:153-200 | the contents change as an insertion changes them, a new node is on the given levels, and the records follow |
| SkipList.SkipList.Scan | ledger/ledgerdb/skiplist/skiplist.cc:202-214 | the head, then the other records in descending order, at most n |
| Wal.Encode | ledger/common/logger.cc:5-45 | writes the transaction's bytes |
| Wal.Parse | ledger/common/logger.cc:47-68 | reads back the transaction that was encoded there |
| Wal.ParseTxnEntries | ledger/common/logger.cc:70-81 | reads back exactly the transactions that were written |
| Wal.Logger.Log | ledger/common/logger.h:84-86 | the transaction's bytes go to the end of the log |
| Wal.Logger.Advance | ledger/common/logger.h:88-91 | counts the next transaction by its size |
| Wal.Logger.Index | ledger/common/logger.h:93-109 | a new index entry from the last mark to what is counted |
| Wal.Logger.Read | ledger/common/logger.h:70-83 | the bytes of exactly the transactions counted between two index calls |
| Wal.Logger.ReadTxns | ledger/common/logger.h:70-83 | reading and parsing an index entry gives exactly those transactions |
| Wal.RangesCover | ledger/common/logger.h:93-109 | the index ranges tile the log |

## Left out

- Transport, timers, protobuf, threads, locks and RocksDB; clocks, timestamps and commit waits.
- VR replication, view changes and state transfer: the leader advances its counters without appending to the log.
- Serializability outside stored-procedure mode, where reads are not validated; versioned and range reads, which are not in the read set.
- The ledgers under a shard are one map there; the link from each ledger's `Set` to that map is by its own theorems.
- Strings as database names: clashes between user keys and record names, and `|` inside skip list values, are not modelled.
- Widths: counters that grow by one (ids, versions, sequence numbers) are unbounded; 32- and 64-bit fields are modelled where they are written to bytes.
- B+-tree node bytes, and `QLBlock` bytes: a node or block is a value, with its entries or stored documents. Keys are only compared, and are integers.
- The single-key `Set` of the B+-tree, which encodes another level than the batch one and is not what the ledgers call.
- A leaf's `next` pointer is read only as the mark of the last leaf.
- `CreateLedger` of QLDB: runs start from an empty ledger.
- BTree.QLBTree.Set: expects fanouts of at least one and no user key named `_INFI_`.
- BTree.UpdateChild: works on the value of the overlay, as do the other tree methods; update in place is the class method's.
- QldbDigest.Ledger.GetProof: says nothing for the three extra leaves of a block, where the source reads past the documents; statement and address hashes and times are given.
- QldbHistory.QLDB.GetHistory: expects a key that has a document; for others the source parses a missing chunk.
- TrieStore.Trie.Set: expects that no two of the chunks involved have the same hash, and key bytes below 128.
- TrieProof.VerifyProof: takes positions up to 16 and short nodes whose keys are nibbles; reading a child past the last of a full node is undefined in the source.
- `Remove` of the trie, whose collapse step is never reached.
- TrieBytes.SetChildAtIndex: expects a chunk that is an encoded full node.
- VrLog.Log.Append: has no hash chain, which VR does not use.
- Wal.Parse: expects bytes that were encoded; on others the source reads out of bounds.
- LedgerDB and SQLLedger audits and `DetailProof`, whose keys and digests do not line up with what is built.
