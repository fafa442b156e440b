# tinyBackend: a verified model of its algorithmic cores

tinyBackend is a C++ library of back-end building blocks. This project models the parts of it that
carry an algorithm of their own, and proves what each of them is for:

- **The disk B+ tree** (`SortedEntries`, `Trees`, `BlockStore`, `LeafScan`, `TreeEdits`, `BPTree`, `Sessions`).
  The file is a map from block index to block, with index 0 for "none". `BlockStore.dfy` holds the block
  operations and the list of deleted blocks, `BPTree.dfy` the recursive insert and erase and the scans.
  A ghost tree records which blocks make up the tree; insert and erase compute functions on such trees
  (`Insertion`, `Erasure`); the sequence of all pairs in key order is the abstract value, and `Sessions.dfy` relates that to a map.
- **The list of deleted blocks** (`BlockStore`): the head block, then chained record blocks made of deleted
  blocks themselves, are one last-in-first-out stack, and together with the blocks of the tree they
  account for every block of the file.
- **Leader election** (`RaftNode`, `RaftCluster`, `RaftRepeats`, `RaftRuns`). `RaftNode.dfy` holds the handlers and role loops
  as methods, proved to compute a transition function; `RaftCluster.dfy` is the step system of a
  whole cluster over its packets in flight, and proves election safety over all runs; `RaftRepeats.dfy` says for
  which clusters it survives repeated votes.
- **The buddy allocator** (`BuddyTree`, `BufferPool`): the array of "largest free run below here" is proved to be
  a function of the set of buffers that are out, and the descent through it to be a best fit.
- **The write-back cache** (`LRUCache`, `LRUSessions`): coherence, eviction and write-back order, and whole
  sessions against a plain store.
- **The link log** (`LinkLog`): back-pointer chains on the writing side, and the heap that merges them on the
  reading side.
- **The logger timeout handshake** (`LinkLogServer`): flag cells shared by nodes and timers, and what may be registered
  under a node over its life.
- **Supporting structures**: the ring buffer (`RingBuffer`), the pointer list (`List`), Julian day numbers (`Date`) and
  wrapping version numbers (`VersionNumber`).

Objects that the program updates in place are classes with `modifies` clauses; a `Valid()` predicate is
their invariant and every operation keeps it.

## Assumptions

- B+ tree: fixed-size values; keys are integers, standing for any total order; one session from an empty file
  without extra data in the head block; a data block has room for a pair and an index block for two
  separators. The program's own check of the sizes is a `static_assert` whose conditional binds weaker than
  the `+` behind it (`Base/BPTree_impls/DataBlock_Impl.hpp:396-399`), so that the size of the key is left out when the
  value is longer than a pointer.
- Election: all nodes know each other from the start; packets may be lost, delayed, reordered and repeated;
  versions do not wrap (`VersionNumbers.OrderOfCounters` says how far that carries over to the wrapping ones);
  what the user's state machine answers, and whether a leader's time to repeat its check has passed, are
  arbitrary. The latter includes turns in which the handler itself set the clock back by following another
  leader or an accepted campaign (`Distributed/raft/src/RaftAgent.cpp:411-412`), where the check is only repeated if the
  handler took longer than a second; after a refused campaign the clock is not set, and the check is repeated
  whenever it was due.
- Cache: an entry may be created while fewer than a fixed number are in the cache, which is what the helper of
  the block cache amounts to (`BuddyTree.RoomForBlock`); the clients say of the last pin of an entry they give back
  whether they changed it.
- Buffer pool: the requested size needs at most 30 halvings, as the shift of an `int` in the program does.
- Link log: file names grow; the nodes asked for are distinct and registered.
- Logger server: the entry of a parent is still there, and created, when its child is created.

## Where the code does not do what one would expect

Each of these is stated as an if-and-only-if or shown by a run.

- **Votes are counted, not recorded by voter.** UDP may repeat packets. With votes in favour repeated, a cluster
  has one leader a version at most if and only if it has at most three nodes (`RaftRepeats.SafeExactlyUpToThree`);
  without, whatever its size (`RaftCluster.ElectionSafety`).
- **A leader may repeat its check after stepping down.** `Distributed/raft/src/RaftInstance.cpp:148-153` handles the message
  first and then, if time has passed, sends a check to all peers, even if the message made the node
  a follower; the check carries the new version. Apart from this case every check comes from the winner of its
  version (`RaftCluster.ChecksStayUnlessStale`, both directions). Because of it a rightful leader can end
  itself on a check of its own version (`RaftRuns.StaleCheckEndsTheLeader`).
- **A leader ends its process on a check of an older leader** exactly when its state machine refuses to let it
  overrule that leader (`RaftCluster.ExitsExactlyWhenOverruled`).
- **A node alone never leads.** The count of votes is looked at when a vote comes in, so a leader can be elected exactly
  in clusters of two or more (`RaftRuns.ElectsExactlyFromTwoOn`); there it can be from every state in which no node has
  ended itself (`RaftRuns.Recovers`).
- **round_size** returns 2^63 for larger targets, which is too little (`BufferPools.RoundedIsLeast`).
- **A full log file breaks a chain.** The index entry is written before the record is
  accounted for, so the first record in a new file is entered at the end of the old one
  (`LinkLogs.LinkLogStorage.HandleLog`; `LinkLogs.FilledUp` gets there from a new storage).
- **The ring buffer adds offset and size in 32 bits.** `try_read`, `try_write`, `change_written` and `read_array`
  (`Base/Buffer/src/RingBufferWrapper.cpp:41`, `:101`, `:126`, `:152`) do what they should exactly if the sum fits or the offset
  lies past the end (`RingBuffers.RingBuffer.TryRead` and the others; `ReadArrayMisses` for an instance).
- **The ring buffer's empty()** compares positions and misses an empty queue whose write position stands at the
  end of the array (`RingBuffers.RingBuffer.Empty`, `EmptyMissed`).
- The second adjustment in `find_data` (`Base/BPTree_impls/BPTree.hpp:487-507`) never changes the block found, and erasing
  lowers the root by one level at most; both are modelled as they are.

## Model

| member | source | states |
|---|---|---|
| Sessions.Session | Base/BPTree_impls/BPTree.hpp:424-473 | any sequence of inserts, erases and look-ups on a new tree answers exactly as a map does, leaves the tree holding that map, and every block of the file is the head, in use, or on the deleted list |
| Sessions.Serve | Base/BPTree_impls/BPTree.hpp:424-473 | one request to a tree that holds a map: the reply and the map it holds afterwards are those of the map |
| Sessions.AgreeCount | Base/BPTree_impls/BPTree.hpp:424-473 | the pairs of a sorted sequence that agrees with a map are the items of that map, one pair a key |
| BPTrees.BPTree.Insert | Base/BPTree_impls/BPTree.hpp:424-453 | true exactly when the key was absent; the tree is well-formed again (sorted blocks, separators equal to the least keys of the children, leaves at one depth, no block empty or over capacity, leaf chain right in both directions, no block lost) and holds the old pairs plus this one; the tree itself, the indices of its blocks and what is left on the deleted list are those of a function on trees |
| BPTrees.BPTree.FirstLeaf | Base/BPTree_impls/BPTree.hpp:429-434 | the first pair goes into a new leaf, which becomes the root |
| BPTrees.BPTree.NewRoot | Base/BPTree_impls/BPTree.hpp:437-450 | a root that was split gets a new root over both halves, with the exact least key of each, and no pair moves |
| BPTrees.BPTree.InsertImpl | Base/BPTree_impls/BPTree.hpp:510-519 | on a subtree anywhere in the tree: either the key is present and nothing changes, or one or two well-formed trees of the same depth hold the pairs with the new one, the second is reported with its least key, and no other block loses content; the trees and the block indices taken are those of the function Insertion |
| BPTrees.BPTree.IndexBlockInsert | Base/BPTree_impls/BPTree.hpp:521-546 | the same through an index block: the search, the lowering of the first separator, and taking in the second half of a split child |
| BPTrees.BPTree.SearchInsert | Base/BPTree_impls/BPTree.hpp:524-532 | the child chosen is the one where the key belongs; a separator equal to the key means it is present |
| BPTrees.BPTree.AfterChild | Base/BPTree_impls/BPTree.hpp:534-544 | after the child changed, the separators are again the exact least keys of all children |
| BPTrees.BPTree.AddLink | Base/BPTree_impls/BPTree.hpp:535-544 | a second tree reported by a child becomes one more separator, or a split exactly when the block was full |
| BPTrees.BPTree.SplitIndex | Base/BPTree_impls/BPTree.hpp:538-542 | the children are shared between the block and a new one, the lower half staying; the link carries the least key of the upper half |
| BPTrees.BPTree.DataBlockInsert | Base/BPTree_impls/BPTree.hpp:548-567 | the same on a leaf: inserted in place, or split exactly when the leaf was full |
| BPTrees.BPTree.SplitHere | Base/BPTree_impls/BPTree.hpp:561-566 | the pairs and the new one are cut in the middle; the chain of leaves runs through both halves |
| BPTrees.BPTree.LinkSplit | Base/BPTree_impls/DataBlock_Impl.hpp:207-259 | splitting a leaf keeps the chain of leaves: the new leaf comes right behind, and its successor points back at it |
| BPTrees.BPTree.Erase | Base/BPTree_impls/BPTree.hpp:456-473 | true exactly when the key was present; the tree is well-formed again and holds the other pairs; a root index block that stays has at least two children, and one that goes leaves its only child as the root and its block last on the deleted list; the tree and the list are those of a function on trees |
| BPTrees.BPTree.LowerRoot | Base/BPTree_impls/BPTree.hpp:464-471 | a root index block with a single child is dropped, its block going on the deleted list, and the child becomes the root; one with several children stays |
| BPTrees.BPTree.SplitsExactlyWhenFull | Base/BPTree_impls/BPTree.hpp:521-567 | an insertion cuts a tree in two, and so may add a level, exactly when every block on the way to the leaf is full |
| BPTrees.BPTree.EraseImpl | Base/BPTree_impls/BPTree.hpp:570-578 | on a subtree with the sibling before it: either the key is absent and nothing changes, or the pair is gone from both together, the sibling keeps its least key, the result reports the least key of what is left of the subtree or that nothing is left, and no other block loses content; the trees and the blocks given back are those of the function Erasure |
| BPTrees.BPTree.IndexBlockErase | Base/BPTree_impls/BPTree.hpp:580-622 | the same through an index block |
| BPTrees.BPTree.SearchErase | Base/BPTree_impls/BPTree.hpp:582-586 | the child chosen is the one where the key is if it is anywhere; a key below the first separator is absent |
| BPTrees.BPTree.AfterErase | Base/BPTree_impls/BPTree.hpp:597-620 | after a child lost a pair, its separator is repaired or removed; the block stays as it is unless a child went, it is no more than half full and there is a sibling before it, with which it then shares its children; it goes when empty |
| BPTrees.BPTree.RebalanceIndex | Base/BPTree_impls/BPTree.hpp:610-620 | two neighbouring index blocks end up merged if their separators fit in one, halved if one is fuller by half a block or more, and as they were otherwise |
| BPTrees.BPTree.DataBlockErase | Base/BPTree_impls/BPTree.hpp:624-650 | the same on a leaf; it stays as it is while more than half full or without a sibling before it (but goes when empty), and shares its pairs with the sibling otherwise |
| BPTrees.BPTree.TakeOut | Base/BPTree_impls/BPTree.hpp:631-632 | the pair is gone from the leaf; true exactly when the leaf is still more than half full, and so not empty |
| BPTrees.BPTree.RebalanceLeaf | Base/BPTree_impls/BPTree.hpp:640-649 | two neighbouring leaves end up merged (the second unlinked and freed) if their pairs fit in one, halved if one is fuller by half a block or more, and as they were otherwise |
| BPTrees.BPTree.LeafErasureMeans | Base/BPTree_impls/BPTree.hpp:624-650 | a leaf that loses a pair goes when empty and alone; with a sibling before it, it stays while more than half full, else the two become one leaf, the second block being given back, exactly if all pairs fit there, and otherwise share them about evenly |
| BPTrees.BPTree.NodeErasureMeans | Base/BPTree_impls/BPTree.hpp:597-620 | likewise for an index block of which a child went; one that kept all its children stays |
| BPTrees.BPTree.DropLeaf | Base/BPTree_impls/BPTree.hpp:633-645 | a leaf is taken out of the chain and freed; the rest of the forest stays |
| BPTrees.BPTree.DropIndex | Base/BPTree_impls/BPTree.hpp:602-615 | an index block is freed; the forest below it stays |
| BPTrees.BPTree.FindData | Base/BPTree_impls/BPTree.hpp:487-507 | the leaf found is the one where the key belongs: all pairs of earlier leaves are below it, all of later ones above |
| BPTrees.BPTree.Seek | Base/BPTree_impls/BPTree.hpp:487-507 | the position in that leaf is the rank of the key among all pairs |
| BPTrees.BPTree.Find | Base/BPTree_impls/BPTree.hpp:192-203 | the value of the key if it is present, nothing otherwise |
| BPTrees.BPTree.LowerBound | Base/BPTree_impls/BPTree.hpp:229-242 | the first pair whose key is not below the given one, found in the next leaf if need be |
| BPTrees.BPTree.UpperBound | Base/BPTree_impls/BPTree.hpp:244-261 | the first pair whose key is above the given one |
| BPTrees.BPTree.FindRange | Base/BPTree_impls/BPTree.hpp:205-227 | the pairs with begin <= key < end in order, cut off at the limit; none if begin is not below end |
| BPTrees.BPTree.CollectBelow | Base/BPTree_impls/BPTree.hpp:214-226 | from a cursor on, the pairs below the end key through the leaves behind it, up to the limit |
| BPTrees.BPTree.AboveOrEqual | Base/BPTree_impls/BPTree.hpp:263-283 | the pairs whose keys are not below the given one, in order, cut off at the limit |
| BPTrees.BPTree.Collect | Base/BPTree_impls/BPTree.hpp:272-282 | from a cursor on, the pairs of all leaves behind it, up to the limit |
| BPTrees.BPTree.SearchFromBegin | Base/BPTree_impls/BPTree.hpp:324-359 | all pairs in key order, cut off at the limit |
| BPTrees.BPTree.SearchFromEnd | Base/BPTree_impls/BPTree.hpp:361-394 | all pairs in reverse key order, cut off at the limit |
| BPTrees.BPTree.Moves | Base/BPTree_impls/BPTree.hpp:338-394 | following next and prev from a cursor moves through the whole sorted sequence without a gap, and the sequence ends exactly where the links do |
| BPTrees.BPTree.Readable | Base/BPTree_impls/BPTree.hpp:324-394 | the pairs read off the chain of leaves are the pairs of the tree |
| BPTrees.BPTree.Counted | Base/BPTree_impls/BPTree_impl.hpp:202-222 | total blocks = head + valid blocks + deleted blocks |
| BPTrees.BPTree.constructor | Base/BPTree_impls/BPTree_impl.hpp:225-245 | a new tree is well-formed and empty; needs room for one pair in a data block and two separators in an index block |
| SortedEntries.BetweenIsInterval | Base/BPTree_impls/BPTree.hpp:205-227 | the slice a range look-up returns holds the pairs of the half-open interval and no others |
| SortedEntries.PutIsMapUpdate | Base/BPTree_impls/BPTree.hpp:424-453 | the sequence with one more pair maps the new key to its value and every other key as before |
| SortedEntries.DelIsMapRemove | Base/BPTree_impls/BPTree.hpp:456-473 | the sequence without a pair maps that key to nothing and every other key as before |
| SortedEntries.LookupIsMembership | Base/BPTree_impls/BPTree.hpp:192-203 | looking a key up finds exactly the pairs of the sequence |
| SortedEntries.PutSorted | Base/BPTree_impls/BPTree.hpp:424-453 | inserting an absent key keeps the sequence strictly sorted |
| SortedEntries.DelSorted | Base/BPTree_impls/BPTree.hpp:456-473 | erasing a present key keeps the sequence strictly sorted, one pair shorter |
| LeafScan.StoredIsFlat | Base/BPTree_impls/BPTree.hpp:324-394 | the pairs of the leaves in chain order are the pairs of the tree in key order |
| LeafScan.ChooseFind | Base/BPTree_impls/BPTree.hpp:494-503 | the child taken by the descent is the one all other children lie around |
| LeafScan.RankInLeaf | Base/BPTree_impls/BPTree.hpp:487-507 | the rank of a key in its leaf is its rank in the whole sequence |
| TreeEdits.ChooseChild | Base/BPTree_impls/BPTree.hpp:525-532 | where the binary search over the separators sends a new key, the key belongs |
| TreeEdits.ChooseErase | Base/BPTree_impls/BPTree.hpp:583-586 | where the binary search sends a key to erase, the key is if it is anywhere |
| TreeEdits.ChildReplaced | Base/BPTree_impls/BPTree.hpp:534-544 | replacing a child by the one or two trees it became puts the new pair where it belongs, and changes the separators by one update and one insertion |
| TreeEdits.KidErased | Base/BPTree_impls/BPTree.hpp:597-608 | replacing a child and the sibling before it by what is left of them takes exactly one pair away, and changes the separators by one update or one removal |
| TreeEdits.LeafRebalanced | Base/BPTree_impls/BPTree.hpp:641-649 | pairs moved between neighbouring leaves keep their order and the least key of the first |
| TreeEdits.NodesShared | Base/BPTree_impls/BPTree.hpp:611-620 | children moved between neighbouring index blocks keep their order and the least key of the first |
| BlockStore.BPTreeImpl.EraseBlock | Base/BPTree_impls/BPTree_impl.hpp:163-199 | a leaf is unlinked; the block goes on top of the deleted list; blocks in use keep their content; the counters say how many blocks are in use and deleted |
| BlockStore.BPTreeImpl.PushDeleted | Base/BPTree_impls/BPTree_impl.hpp:169-197 | the list grows by this block at its end, whether it is kept in the head block, in the current record block, or in a new record block made of the last deleted one; other blocks stay |
| BlockStore.BPTreeImpl.StartRecord | Base/BPTree_impls/BPTree_impl.hpp:170-179 | the last deleted block becomes a record block that holds the new index and chains to the one before |
| BlockStore.BPTreeImpl.GetNewBlockIndex | Base/BPTree_impls/BPTree_impl.hpp:250-272 | the index handed out is the one deleted last, the list loses exactly it, and it serves as a record block no more |
| BlockStore.BPTreeImpl.PopRecord | Base/BPTree_impls/BPTree_impl.hpp:253-268 | taking the last entry of a record block ends its service and goes back to the record block before it |
| BlockStore.BPTreeImpl.TakeIndex | Base/BPTree_impls/BPTree_impl.hpp:202-222 | a block for new content is the one deleted last, or else a new one at the end; it is neither in use nor deleted |
| BlockStore.BPTreeImpl.CreateBlock | Base/BPTree_impls/BPTree_impl.hpp:202-222 | the new block, the one deleted last or else a new one at the end, holds the given content; blocks in use keep theirs; every block is in use or deleted, never both |
| BlockStore.BPTreeImpl.Conservation | Base/BPTree_impls/BPTree_impl.hpp:202-222 | every block of the file is the head, in use, or deleted |
| BlockStore.BPTreeImpl.StackNoDup | Base/BPTree_impls/BPTree_impl.hpp:250-272 | the deleted list holds no index twice, none out of range and none in use |
| BlockStore.BPTreeImpl.UnlinkLeaf | Base/BPTree_impls/DataBlock_Impl.hpp:464-477 | taking a leaf out of the doubly linked chain links its neighbours with each other and changes nothing else |
| BlockStore.BPTreeImpl.DataLowerBound | Base/BPTree_impls/DataBlock_Impl.hpp:314-336 | the binary search returns the number of pairs below the key |
| BlockStore.BPTreeImpl.DataCanInsert | Base/BPTree_impls/DataBlock_Impl.hpp:378-381 | true exactly when one more pair fits |
| BlockStore.BPTreeImpl.DataErase | Base/BPTree_impls/DataBlock_Impl.hpp:174-183 | the pair at the position goes; true exactly when more than half of the block is in use afterwards |
| BlockStore.BPTreeImpl.DataChoose | Base/BPTree_impls/DataBlock_Impl.hpp:304-311 | merge exactly when both fit in one block; average exactly when they do not and differ by half a block or more |
| BlockStore.BPTreeImpl.DataAverage | Base/BPTree_impls/DataBlock_Impl.hpp:262-301 | the joined pairs of both blocks are cut again in the middle, give or take one |
| BlockStore.BPTreeImpl.SplitDataSlots | Base/BPTree_impls/DataBlock_Impl.hpp:207-229 | splitting puts the new pair in its place and cuts the whole in the middle, whichever half it falls in |
| BlockStore.BPTreeImpl.DataSplit | Base/BPTree_impls/DataBlock_Impl.hpp:207-259 | and links the new block in behind the old one |
| BlockStore.BPTreeImpl.IndexLowerBound | Base/BPTree_impls/IndexBlock_Impl.hpp:243-258 | the binary search returns the first separator not below the key |
| BlockStore.BPTreeImpl.IndexCanInsert | Base/BPTree_impls/IndexBlock_Impl.hpp:276-278 | true exactly when one more separator fits |
| BlockStore.BPTreeImpl.IndexErase | Base/BPTree_impls/IndexBlock_Impl.hpp:164-172 | the separator at the position goes; true exactly when more than half of the block is in use afterwards |
| BlockStore.BPTreeImpl.IndexChoose | Base/BPTree_impls/IndexBlock_Impl.hpp:233-240 | merge exactly when both fit in one block; average exactly when they do not and differ by half a block or more |
| BlockStore.BPTreeImpl.IndexAverage | Base/BPTree_impls/IndexBlock_Impl.hpp:218-230 | the joined separators of both blocks are cut again in the middle, give or take one |
| BlockStore.BPTreeImpl.IndexSplit | Base/BPTree_impls/IndexBlock_Impl.hpp:196-215 | splitting puts the new separator in its place and cuts the whole in the middle |
| BlockStore.ServingIsBuried | Base/BPTree_impls/BPTree_impl.hpp:250-272 | a record block that still stores entries lies strictly below the top of the deleted list, so the block handed out next is never one of those |
| BlockStore.PoppedIsNotServing | Base/BPTree_impls/BPTree_impl.hpp:250-272 | the block handed out does not serve as a record block any more |
| BlockStore.GrowRecord | Base/BPTree_impls/BPTree_impl.hpp:169-182 | adding an entry to the current record block keeps the chain of record blocks spelling out the list |
| BlockStore.ShrinkRecord | Base/BPTree_impls/BPTree_impl.hpp:253-268 | so does taking one away, also when the record block is used up |
| BlockStore.SlotsFit | Base/BPTree_impls/DataBlock_Impl.hpp:378-381 | counting bytes and counting slots give the same capacity |
| BlockStore.SplitSlices | Base/BPTree_impls/DataBlock_Impl.hpp:207-229 | cutting first and inserting into the right half is inserting first and cutting then |
| BlockStore.CutIsFair | Base/BPTree_impls/DataBlock_Impl.hpp:262-311 | two neighbouring blocks become one exactly if they fit in one; else both are within capacity and not empty, and differ by less than half a block or by one slot at most |
| BlockStore.GiveTake | Base/BPTree_impls/BPTree_impl.hpp:163-222 | a block given back is the next one handed out |
| BlockStore.AverageSlices | Base/BPTree_impls/DataBlock_Impl.hpp:262-301 | the slice moved by averaging is the one between the old cut and the new |
| RaftCluster.ElectionSafety | Distributed/raft/src/RaftAgent.cpp:234-280 | in every state any sequence of deliveries, losses, timeouts, log synchronisations and repetitions of packets other than votes in favour can reach, in a cluster of any size, no two nodes have ever become leader with the same version |
| RaftCluster.OneLeaderPerVersion | Distributed/raft/src/RaftAgent.cpp:234-280 | the same without the record of the past: whoever leads with a version at one time of a run, nobody else leads with it at that or any other time |
| RaftCluster.OneVotePerVersion | Distributed/raft/src/RaftAgent.cpp:241-261 | a node never has votes in favour of two candidates of one version in flight, nor two copies of one vote, nor a vote for another at a version it runs with itself |
| RaftCluster.ReachableInv | Distributed/raft/src/RaftAgent.cpp:19-132 | the invariant behind these holds in every reachable state |
| RaftCluster.StepInv | Distributed/raft/src/RaftAgent.cpp:19-132 | every event but the repetition of a vote in favour keeps it |
| RaftCluster.UniqueWinner | Distributed/raft/src/RaftAgent.cpp:263-280 | two majorities of one cluster share a voter, and that voter stood for one candidate only |
| RaftCluster.StepGrows | Distributed/raft/src/RaftAgent.cpp:386-414 | no event lowers the version of any node or forgets a vote or a victory |
| RaftCluster.RunGrows | Distributed/raft/src/RaftAgent.cpp:386-414 | nor does any run |
| RaftCluster.TurnOfNode | Distributed/raft/src/RaftAgent.cpp:19-132 | what any turn of the work thread does to a node: versions do not fall, a campaign starts with the one vote of the node itself, only a counted vote makes a leader and exactly at the majority, a vote in favour raises the version |
| RaftCluster.TurnSends | Distributed/raft/src/RaftAgent.cpp:19-132 | what any turn sends: a request for votes only when starting a campaign, a vote in favour only to the asker, for the version asked for, and once |
| RaftCluster.TurnCounts | Distributed/raft/src/RaftAgent.cpp:263-280 | a candidate has counted itself and exactly as many different voters as its counter says |
| RaftCluster.TurnVotesFresh | Distributed/raft/src/RaftAgent.cpp:241-261 | every vote in favour in flight is the only copy, stands for a grant and has not been counted |
| RaftCluster.StepDown | Distributed/raft/src/RaftInstance.cpp:143-154 | a leader steps down exactly for a higher version in a request for votes or a check of another leader, and its next check, if due in the same turn, carries the new version |
| RaftCluster.ChecksStayUnlessStale | Distributed/raft/src/RaftInstance.cpp:143-154 | that every LeaderCheck in flight is from the winner of its version is kept by an event if and only if the event is not a leader repeating its check in the very turn in which it stepped down |
| RaftCluster.ChecksAreTheWinners | Distributed/raft/src/RaftAgent.cpp:218-261 | in every run without such events, each LeaderCheck in flight at a version is from the one node that won it |
| RaftCluster.ExitsExactlyWhenOverruled | Distributed/raft/src/RaftAgent.cpp:372-384 | where checks come from winners, a leader ends its process exactly on the check of an older leader that its state machine does not let it overrule, never on one of its own version |
| RaftCluster.WinnerIsFollowed | Distributed/raft/src/RaftAgent.cpp:118-121 | the check of a winner, delivered to a node that does not lead and is not ahead of it, makes the node the follower of the only winner of that version, answers it, and changes nothing else: a candidate that lost gives up |
| RaftRepeats.SafeExactlyUpToThree | Distributed/raft/src/RaftAgent.cpp:234-280 | if the network may repeat any packet, votes in favour included, no two nodes ever become leader with the same version if and only if the cluster has at most three nodes |
| RaftRepeats.FourForTwoWinners | Distributed/raft/src/RaftAgent.cpp:241-280 | however often votes are repeated, two winners of one version take four nodes: each needs a voter other than itself, the other winner and the voter of the other |
| RaftRepeats.TwoLeaders | Distributed/raft/src/RaftAgent.cpp:263-280 | in every cluster of four nodes or more there is a run that makes two leaders of version 1, each on one vote repeated: votes are counted, not recorded by voter |
| RaftRepeats.ReachableWeak | Distributed/raft/src/RaftAgent.cpp:19-132 | what holds in every reachable state even so: one grant a voter and version, votes in flight stand for grants, every winner was granted by somebody else |
| RaftRepeats.StepWeak | Distributed/raft/src/RaftAgent.cpp:19-132 | every event keeps that |
| RaftRuns.StaleCheckEndsTheLeader | Distributed/raft/src/RaftInstance.cpp:143-154 | a run of three nodes in which a leader steps down for a campaign it finds unfit, is late with its check, sends it with the version of that campaign, and so ends the real leader of that version |
| RaftRuns.Recovers | Distributed/raft/src/RaftAgent.cpp:234-280 | from every state, reached or not, in which no node has ended itself, any node that does not lead can still be elected in a cluster of two or more, without votes repeated, with all other nodes following it at a version above all before |
| RaftRuns.ElectsExactlyFromTwoOn | Distributed/raft/src/RaftAgent.cpp:234-280 | some run makes a leader if and only if the cluster has at least two nodes: alone, a candidate never gets the message on which it looks at its count |
| RaftNode.Quorum | Distributed/raft/src/RaftAgent.cpp:274-274 | a majority of all nodes, and the least one |
| RaftNode.AnswersCheck | Distributed/raft/src/RaftAgent.cpp:38-121 | a check of a newer leader, or for a candidate or follower of one of its own version, is followed and answered by an acknowledgement or a request for logs; a leader overrules an older leader if the state machine lets it and ends itself otherwise; what is outdated is dropped |
| RaftNode.AnswersCampaign | Distributed/raft/src/RaftAgent.cpp:241-261 | in any role, a campaign above the own version gets a vote in favour and a follower if the state machine accepts it, and a refusal and a follower of nobody if not; others are refused |
| RaftNode.AnswersVote | Distributed/raft/src/RaftAgent.cpp:263-280 | a candidate counts votes in favour and leads, telling all peers, from the first count above half of the cluster on; nobody else is moved by a vote |
| RaftNode.AnswersSilence | Distributed/raft/src/RaftAgent.cpp:134-149 | after a silence a leader stays and all others campaign with the next version |
| RaftNode.RaftInstance.constructor | Distributed/raft/src/RaftInstance.cpp:27-30 | a node starts as a follower of nobody at version 0 |
| RaftNode.RaftInstance.WorkThread | Distributed/raft/src/RaftInstance.cpp:39-62 | one pass of the loop of the current role does to the node, and sends, what the transition function of the cluster says, which AnswersCheck, AnswersCampaign, AnswersVote and AnswersSilence spell out |
| RaftNode.RaftInstance.LeaderThreadLoop | Distributed/raft/src/RaftInstance.cpp:143-154 | the pass of a leader, the check repeated when its time has passed even if it has just stepped down |
| RaftNode.RaftInstance.CandidateThreadLoop | Distributed/raft/src/RaftInstance.cpp:156-166 | the pass of a candidate |
| RaftNode.RaftInstance.FollowerThreadLoop | Distributed/raft/src/RaftInstance.cpp:168-179 | the pass of a follower, which hears its leader and other peers through different handlers |
| RaftNode.RaftInstance.HandleMessagesFromFollower | Distributed/raft/src/RaftAgent.cpp:19-65 | a leader: an older leader is overruled if the state machine says so, a newer one followed |
| RaftNode.RaftInstance.HandleMessagesFromLeader | Distributed/raft/src/RaftAgent.cpp:67-93 | a follower hearing its leader: outdated messages are dropped, votes are not counted |
| RaftNode.RaftInstance.HandleMessagesFromPeer | Distributed/raft/src/RaftAgent.cpp:95-132 | a candidate or follower hearing another peer: outdated messages are dropped |
| RaftNode.RaftInstance.VoteTo | Distributed/raft/src/RaftAgent.cpp:241-261 | a vote is given only to a version above the own one that the state machine accepts; a version it does not accept still becomes the own one |
| RaftNode.RaftInstance.AcceptVote | Distributed/raft/src/RaftAgent.cpp:263-280 | a candidate counts a vote in favour and leads from the majority on; nobody else does |
| RaftNode.RaftInstance.ChangeLeaderTo | Distributed/raft/src/RaftAgent.cpp:372-414 | the process ends on a lower version, or on the own version of a leader; otherwise the node follows |
| RaftNode.RaftInstance.RespondLeaderCheck | Distributed/raft/src/RaftAgent.cpp:218-232 | a follower takes over the version of the check and acknowledges it or asks for logs |
| RaftNode.RaftInstance.VoteToBeLeader | Distributed/raft/src/RaftAgent.cpp:234-239 | a campaign raises the version by one, counts the own vote, and asks every peer |
| RaftNode.RaftInstance.SynchronizeLogsToFollowers | Distributed/raft/src/RaftInstance.cpp:117-127 | only a leader sends its check to all peers |
| BufferPools.BufferPool.Get | Base/Buffer/src/BufferPool.cpp:52-69 | a buffer is handed out exactly when some aligned run of the rounded size is wholly free; it is such a run, and no other would leave a larger free run in the pool; nothing changes otherwise |
| BufferPools.BufferPool.Put | Base/Buffer/src/BufferPool.cpp:71-87 | the array is again the one determined by the buffers still out |
| BufferPools.BufferPool.TakeRun | Base/Buffer/src/BufferPool.cpp:58-67 | marking a free run and walking up with early exit gives the array determined by the buffers out |
| BufferPools.BufferPool.Positioning | Base/Buffer/src/BufferPool.cpp:89-98 | the descent ends at a free run of exactly the wanted size, the one that best fit prescribes, and the address is that of the run |
| BufferPools.BufferPool.Location | Base/Buffer/src/BufferPool.cpp:100-105 | address and size lead back to the array position of the run |
| BufferPools.BufferPool.Fill | Base/Buffer/src/BufferPool.cpp:39-41 | every level of the array holds the full size of its runs |
| BufferPools.BufferPool.constructor | Base/Buffer/src/BufferPool.cpp:30-42 | a new pool has the rounded size and all of it free |
| BufferPools.BufferPool.BuffersOut | Base/Buffer/src/BufferPool.cpp:52-87 | buffers that are out lie in the pool at multiples of their size and share no byte |
| BufferPools.BufferPool.Determined | Base/Buffer/src/BufferPool.cpp:52-87 | the whole array is a function of the set of buffers that are out |
| BufferPools.BufferPool.AllBack | Base/Buffer/src/BufferPool.cpp:44-50 | the root shows the whole size exactly when every buffer is back, and then the array is the one the constructor built |
| BufferPools.RoundSize | Base/Buffer/src/BufferPool.cpp:21-28 | the loop computes the power of two that the next row speaks of, for every 64-bit target |
| BufferPools.RoundedIsLeast | Base/Buffer/src/BufferPool.cpp:21-28 | the result reaches the target if and only if the target is at most 2^63, and half of it would not |
| BufferPools.AlignedRuns | Base/Buffer/src/BufferPool.cpp:89-105 | the runs of the tree are exactly the runs inside the pool that lie at multiples of their size |
| BufferPools.Kin | Base/Buffer/src/BufferPool.cpp:9-19 | parent and sibling of an array position |
| BuddyTree.RestMeansRun | Base/Buffer/src/BufferPool.cpp:52-69 | the number kept for a run is at least a size exactly when a run of that size inside it is wholly free |
| BuddyTree.FittingLeavesMost | Base/Buffer/src/BufferPool.cpp:89-98 | best fit: of all free runs of a size, the one the descent ends at leaves the largest free run behind |
| BuddyTree.RestSame | Base/Buffer/src/BufferPool.cpp:60-67 | when a number on the way up need not change, none above it need change |
| BuddyTree.RestOfFree | Base/Buffer/src/BufferPool.cpp:71-87 | a wholly free run is coalesced to its full size |
| BuddyTree.RestTaken | Base/Buffer/src/BufferPool.cpp:52-69 | a run with a buffer out of it is not |
| BuddyTree.Nested | Base/Buffer/src/BufferPool.cpp:9-19 | two runs of the tree are nested or share no block |
| BuddyTree.RoomForBlock | Base/BPTree_impls/src/Impl_Scheduler.cpp:64-66 | a pool used for single blocks has room for one more exactly while fewer are out than it has blocks: the test by which the block cache decides to evict is a bound on the number of entries |
| LRUSessions.Session | Base/LRUCache.hpp:153-191 | whatever calls clients make on a new cache in whatever order, every get answers with the value written last or fails because the pinned entries of others fill the cache, and if nothing is pinned at the end the destructor leaves all those values in the store; meanwhile only such values of entries not in use get into the store, all of them on update_all, that of the entry removed on remove, and on update_one that of an entry last given back before every other that differs from the store |
| LRUSessions.Serve | Base/LRUCache.hpp:168-271 | one call: pins, values and changed entries are again what clients think they are, the list of entries to be written back keeps its order, and the store changes as said |
| LRUSessions.OldestFirst | Base/LRUCache.hpp:194-207 | when the list of dirty entries is in the order of their last put, writing back its first entry is writing back the one last put before all others that differ from the store |
| LRUSessions.AgedMore | Base/LRUCache.hpp:168-342 | every call keeps that order |
| LRUCaches.LRUCache.Get | Base/LRUCache.hpp:169-182 | a hit is pinned once more; a miss is brought in with its value from the store, clean and not persistent, and fails exactly when pinned entries alone fill the cache; the evicted entries are the first of the eviction order, no more than needed, the dirty ones written back; all three lists keep the order of their other keys; no logical value changes |
| LRUCaches.LRUCache.Put | Base/LRUCache.hpp:185-191 | the pin goes and the entry is marked; the last pin puts it at the end of its list, and at the end of the dirty list if it needs update; nothing else moves and no logical value changes |
| LRUCaches.LRUCache.PutChange | Base/LRUCache.hpp:328-342 | an entry whose last pin comes back a second or more after it was brought in becomes persistent, and stays so; the last pin appends it to its list and, if dirty, to the dirty list, and no other pin moves anything |
| LRUCaches.LRUCache.GetChange | Base/LRUCache.hpp:307-325 | the first pin takes an entry off every list, and the others keep their order |
| LRUCaches.LRUCache.Write | Base/LRUCache.hpp:169-182 | a client writing through the pointer it got changes the logical value of that key only |
| LRUCaches.LRUCache.ReserveSpace | Base/LRUCache.hpp:345-395 | terminates; evicts clean temporary, then dirty temporary, then persistent entries, each in the order they were released, only while there is no room, and never a pinned one; fails exactly when all are pinned and there is still no room |
| LRUCaches.LRUCache.EvictClean | Base/LRUCache.hpp:351-356 | the first clean temporary entry is dropped without being written |
| LRUCaches.LRUCache.EvictDirty | Base/LRUCache.hpp:365-374 | the first temporary entry is written back and dropped |
| LRUCaches.LRUCache.EvictPersistent | Base/LRUCache.hpp:380-390 | the first persistent entry is dropped, written back if dirty |
| LRUCaches.LRUCache.UpdateOne | Base/LRUCache.hpp:194-207 | the entry dirty longest is written back and becomes clean; nothing else changes |
| LRUCaches.LRUCache.UpdateAll | Base/LRUCache.hpp:210-221 | all unpinned dirty entries are written back in the order they became so; pins and values stay |
| LRUCaches.LRUCache.UpdateAllWithOrder | Base/LRUCache.hpp:224-242 | the same in any other order |
| LRUCaches.LRUCache.Remove | Base/LRUCache.hpp:245-271 | an entry not in use is dropped and taken off its lists, written back if dirty; false (an exception in the source) when there is none |
| LRUCaches.LRUCache.Close | Base/LRUCache.hpp:154-166 | fails exactly when an entry is still pinned; otherwise every entry is released once, the dirty ones are written back once, and the store holds the logical value of every key |
| LRUCaches.LRUCache.constructor | Base/LRUCache.hpp:53-54 | a new cache is empty in front of its store |
| LRUCaches.LRUCache.OrderIs | Base/LRUCache.hpp:345-395 | the eviction order lists exactly the unpinned entries |
| LRUCaches.LRUCache.OrderRanks | Base/LRUCache.hpp:345-395 | it lists clean temporary entries, then dirty temporary ones, then persistent ones, each in the order of their list |
| LRUCaches.LRUCache.FullOfPins | Base/LRUCache.hpp:345-395 | there is room after evicting all that may be evicted exactly when fewer entries are pinned than fit |
| LRUCaches.SoundPin | Base/LRUCache.hpp:307-325 | pinning keeps the lists right: a pinned entry is on none |
| LRUCaches.SoundUnpin | Base/LRUCache.hpp:328-342 | so does unpinning: an unpinned entry is on exactly one of the temporary and persistent lists, and on the dirty list exactly when it needs update |
| LRUCaches.SoundDrop | Base/LRUCache.hpp:345-395 | so does dropping an entry, and clean entries still agree with the store |
| LRUCaches.SoundFlush | Base/LRUCache.hpp:194-207 | so does writing the first dirty entry back |
| LRUCaches.FirstClean | Base/LRUCache.hpp:347-360 | dropping the first clean entry out of its list does not disturb the order of the others |
| LinkLogs.QuerySet.QueryAll | LogSystem/linkLog/src/LinkLogInterpreter.cpp:347-367 | queries repeated with a buffer of at least 65536 bytes end, and deliver every record of the selected nodes exactly once, in strictly decreasing order of file and offset |
| LinkLogs.QuerySet.Query | LogSystem/linkLog/src/LinkLogInterpreter.cpp:347-367 | one query: what it delivers comes before all that is left, nothing is lost or repeated, the buffer is not overrun, more is reported exactly when something is left, and then the newest record left is larger than what remains of the buffer |
| LinkLogs.QuerySet.QueryingALog | LogSystem/linkLog/src/LinkLogInterpreter.cpp:493-514 | the newest record left is copied out exactly if it fits, and its predecessor takes its place |
| LinkLogs.QuerySet.PrepareReadALog | LogSystem/linkLog/src/LinkLogInterpreter.cpp:474-491 | the file stands behind the fixed part of the header of the newest record, whatever file and place it was at |
| LinkLogs.FilledUp | LogSystem/linkLog/src/LinkLogInterpreter.cpp:230-246 | a new storage gets there: a node, other messages up to the limit, and its first entry is not found where the index says |
| LinkLogs.HeapStep | LogSystem/linkLog/src/LinkLogInterpreter.cpp:508-512 | replacing the top by the record it points at keeps the heap holding the heads of the chains |
| LinkLogs.TopIsGreatest | LogSystem/linkLog/src/LinkLogInterpreter.cpp:474-476 | the greatest head is the greatest of all records left |
| LinkLogs.QueryGoesOn | LogSystem/linkLog/src/LinkLogInterpreter.cpp:237-246 | what is logged meanwhile does not disturb a query under way |
| LinkLogs.LinkLogStorage.HandleLog | LogSystem/linkLog/src/LinkLogCenter.cpp:322-338 | a log entry continues the chain of its node if and only if the current file is still below its size limit; otherwise the index points to where no record lies |
| LinkLogs.LinkLogStorage.AddRecord | LogSystem/linkLog/src/LinkLogInterpreter.cpp:230-235 | the bytes are accounted for in the current file, or in a new one if that has reached its limit |
| LinkLogs.LinkLogStorage.CreateLogger | LogSystem/linkLog/src/LinkLogInterpreter.cpp:208-219 | a node is entered once, with an empty chain |
| LinkLogs.LinkLogStorage.GetQuerySet | LogSystem/linkLog/src/LinkLogInterpreter.cpp:323-336 | the heap of the newest records of the selected nodes: the query will deliver exactly the records of those nodes |
| LinkLogServers.LinkLogServer.Handshake | LogSystem/linkLog/LinkLogServer.hpp:102-146 | in every reachable state a flag cell is allocated exactly while the node or the timer that share it is not done with it, and false exactly while neither is; a timer whose flag is false points at a live node with that flag; a node not yet created has a false flag; a freed cell stays freed |
| LinkLogServers.LinkLogServer.CheckTimeout | LogSystem/linkLog/src/LinkLogServer.cpp:616-657 | every timer due is taken off; reported, once each and in order of expiry, are exactly the nodes that still shared their flag with one of them (decisions never created excepted), and exactly those never created are removed |
| LinkLogServers.LinkLogServer.TimerFires | LogSystem/linkLog/src/LinkLogServer.cpp:620-655 | one timer: no report if its node is gone or has another flag |
| LinkLogServers.LinkLogServer.NeverCreated | LogSystem/linkLog/src/LinkLogServer.cpp:636-653 | a node whose registration timed out is removed with its flag |
| LinkLogServers.LinkLogServer.RegisterLogger | LogSystem/linkLog/src/LinkLogServer.cpp:343-377 | the verdict on a child is decided by what its parent has registered; a local child gets an entry of its kind with nothing registered under it, a false flag and a timer; nothing else changes but the kind of children of the parent |
| LinkLogServers.LinkLogServer.CreateHeadLogger | LogSystem/linkLog/src/LinkLogServer.cpp:406-431 | a node without parent, and with nothing registered under it, is created at once, on the first buffer used least, if its name is free |
| LinkLogServers.LinkLogServer.CreateLogger | LogSystem/linkLog/src/LinkLogServer.cpp:453-483 | a registered node is created on the buffer of its parent; its first flag is left to the first timer, and it gets a second one; only a decision marks its parent |
| LinkLogServers.LinkLogServer.Complete | LogSystem/linkLog/src/LinkLogServer.cpp:471-481 | the flags, timers and counts of that |
| LinkLogServers.LinkLogServer.DestroyLogger | LogSystem/linkLog/src/LinkLogServer.cpp:493-506 | the node is gone; its flag is freed or left to its timer |
| LinkLogServers.LinkLogServer.GetBufferIter | LogSystem/linkLog/src/LinkLogServer.cpp:379-388 | the first of the buffers with the fewest nodes |
| LinkLogServers.LinkLogServer.AddNode | LogSystem/linkLog/src/LinkLogServer.cpp:360-367 | a new entry comes with a fresh false flag and a timer sharing it |
| LinkLogServers.LinkLogServer.FirstChild | LogSystem/linkLog/src/LinkLogServer.cpp:343-483 | right after a head node is created, a first child of any kind can be registered under it, and one that has an entry can then be created, on the same buffer |
| LinkLogServers.LinkLogServer.Siblings | LogSystem/linkLog/src/LinkLogServer.cpp:350-358 | what may come after what the parent has registered or created: nothing after a follower or a created decision, only the same kind otherwise, and of that kind anything whose id is free |
| LinkLogServers.LinkLogServer.constructor | LogSystem/linkLog/src/LinkLogServer.cpp:24-33 | a server starts without nodes and timers |
| LinkLogServers.SharedDrop | LogSystem/linkLog/src/LinkLogServer.cpp:493-506 | a node that goes leaves its flag to its timer, or frees it |
| LinkLogServers.SharedExpire | LogSystem/linkLog/src/LinkLogServer.cpp:616-635 | a timer that goes leaves its flag to its node, or frees it |
| LinkLogServers.SharedRenew | LogSystem/linkLog/src/LinkLogServer.cpp:471-481 | a node that is created leaves its first flag and gets another |
| LinkLogServers.FiredAll | LogSystem/linkLog/src/LinkLogServer.cpp:616-657 | a pass that ends has taken off exactly the timers that were due |
| LinkLogServers.LineageRegister | LogSystem/linkLog/src/LinkLogServer.cpp:350-367 | over any history of calls: the children of an entry are of one kind, a follower is the only child, and nothing is registered once a decision was created; a registration that is let through keeps this |
| LinkLogServers.LineageDecide | LogSystem/linkLog/src/LinkLogServer.cpp:467-469 | so does the creation of a decision |
| RingBuffers.RingBuffer.Read | Base/Buffer/src/RingBufferWrapper.cpp:8-19 | the first elements of the queue come out in order, as many as there are |
| RingBuffers.RingBuffer.ReadVector | Base/Buffer/src/RingBufferWrapper.cpp:21-29 | several places are filled one after the other from the front of the queue |
| RingBuffers.RingBuffer.TryRead | Base/Buffer/src/RingBufferWrapper.cpp:39-54 | the piece of the queue behind the offset is copied if and only if the offset lies past the end or its sum with the size fits 32 bits; otherwise nothing is cut to the queue, and what is copied instead is stated |
| RingBuffers.RingBuffer.Write | Base/Buffer/src/RingBufferWrapper.cpp:66-79 | the elements that fit are appended to the queue, around the end of the array if need be |
| RingBuffers.RingBuffer.WriteVector | Base/Buffer/src/RingBufferWrapper.cpp:81-89 | several pieces are appended one after the other, as far as they fit |
| RingBuffers.RingBuffer.TryWrite | Base/Buffer/src/RingBufferWrapper.cpp:99-112 | the free space is written at the offset, as far as it goes, without touching the queue, if and only if the offset lies past the end or its sum with the size fits 32 bits; otherwise nothing is cut, and what is written instead is stated |
| RingBuffers.RingBuffer.ChangeWritten | Base/Buffer/src/RingBufferWrapper.cpp:124-138 | the queue is patched in place, around the end of the array if need be, if and only if the offset lies past the end or its sum with the size fits 32 bits; otherwise the patch is not cut to the queue |
| RingBuffers.RingBuffer.ReadArray | Base/Buffer/src/RingBufferWrapper.cpp:150-161 | the two stretches handed out spell the piece of the queue behind the offset if and only if the offset lies past the end or its sum with the size fits 32 bits; otherwise they are empty |
| RingBuffers.RingBuffer.ReadArrayMisses | Base/Buffer/src/RingBufferWrapper.cpp:150-161 | so asking for all behind the first element with the greatest size gives nothing |
| RingBuffers.RingBuffer.ReadableArray | Base/Buffer/src/RingBufferWrapper.cpp:176-184 | the two stretches handed out spell the queue |
| RingBuffers.RingBuffer.WritableArray | Base/Buffer/src/RingBufferWrapper.cpp:186-194 | the two stretches handed out are the free space |
| RingBuffers.RingBuffer.ReadAdvance | Base/Buffer/src/RingBufferWrapper.cpp:196-202 | the front of the queue is dropped; the ring turns |
| RingBuffers.RingBuffer.ReadBack | Base/Buffer/src/RingBufferWrapper.cpp:204-210 | what stood before the queue is its front again |
| RingBuffers.RingBuffer.WriteAdvance | Base/Buffer/src/RingBufferWrapper.cpp:212-218 | what stands behind the queue is appended to it |
| RingBuffers.RingBuffer.WriteBack | Base/Buffer/src/RingBufferWrapper.cpp:220-226 | the end of the queue is dropped |
| RingBuffers.RingBuffer.Reposition | Base/Buffer/src/RingBufferWrapper.cpp:228-250 | the queue stays, and starts at the start of the array |
| RingBuffers.RingBuffer.Resize | Base/Buffer/src/RingBufferWrapper.cpp:252-267 | the queue goes on in another array of another size |
| RingBuffers.RingBuffer.Empty | Base/Buffer/RingBufferWrapper.hpp:167-167 | true exactly when the queue is empty and the write position is not at the end of the array |
| RingBuffers.RingBuffer.EmptyMissed | Base/Buffer/src/RingBufferWrapper.cpp:228-250 | so a full queue moved to the front and then read is empty and not reported so |
| RingBuffers.RingBuffer.constructor | Base/Buffer/RingBufferWrapper.hpp:17-18 | a new buffer is empty |
| RingBuffers.ReadBackRestores | Base/Buffer/src/RingBufferWrapper.cpp:124-210 | reading, patching what is left, and taking the reading back gives the old queue with the patch |
| RingBuffers.RotatedBack | Base/Buffer/src/RingBufferWrapper.cpp:196-210 | turning the ring forward and back is no change |
| Lists.List.Insert | Base/Container/List.hpp:182-201 | a new node comes in front of the given one; the others are the same nodes in the same order, and all pointers and the size say so |
| Lists.List.InsertNode | Base/Container/List.hpp:203-222 | the same with a node released before |
| Lists.List.MoveTo | Base/Container/List.hpp:224-250 | the same nodes in another order: the target in front of the destination |
| Lists.List.Erase | Base/Container/List.hpp:252-267 | the node is gone, the others stay |
| Lists.List.EraseRange | Base/Container/List.hpp:269-280 | the nodes of the range are gone, the others stay, and the size is right |
| Lists.List.Release | Base/Container/List.hpp:282-297 | the node is off the list and lives on with its data |
| Lists.List.Link | Base/Container/List.hpp:187-199 | linking a node in front of another, or at the end |
| Lists.List.Unlink | Base/Container/List.hpp:256-264 | unlinking a node, also at either end |
| Lists.InsertedSpells | Base/Container/List.hpp:187-198 | the pointers changed by linking a node spell the longer sequence |
| Lists.RemovedSpells | Base/Container/List.hpp:256-276 | the pointers changed by bypassing a stretch of nodes spell the shorter sequence |
| Lists.MovedMeans | Base/Container/List.hpp:224-250 | the order of the move: the target right in front of the destination, or last, and all others as they were |
| Dates.DateRoundTrip | Base/Time/src/Date.cpp:14-32 | any Gregorian date from the year -4799 on, turned into a Julian day number and back, is the same date |
| Dates.NumberRoundTrip | Base/Time/src/Date.cpp:14-32 | any day number from that of the first such date on, turned into a date and back, is the same number, and the date is a valid one |
| Dates.Consecutive | Base/Time/src/Date.cpp:14-19 | by the rules of the calendar, the day after has the next number |
| Dates.Fits | Base/Time/src/Date.cpp:21-32 | up to the day number (2^31 - 4) / 4 - 32044 nothing in the conversions leaves 32 bits |
| Dates.Epoch | Base/Time/src/Date.cpp:34-34 | 1970-01-01 has the day number 2440588 |
| VersionNumbers.VersionNumber.Next | Base/VersionNumber.hpp:97-108 | ++ is addition of one modulo 2^n |
| VersionNumbers.VersionNumber.Advance | Base/VersionNumber.hpp:110-115 | += is addition modulo 2^n for every step, also where the unsigned arithmetic wraps on the way |
| VersionNumbers.VersionNumber.Plus | Base/VersionNumber.hpp:117-121 | + is the same addition, and leaves the number itself alone |
| VersionNumbers.Trichotomy | Base/VersionNumber.hpp:131-141 | exactly one of <, == and > holds of every pair, also of numbers half the range apart |
| VersionNumbers.OrderOfCounters | Base/VersionNumber.hpp:131-141 | counters seen modulo 2^n are ordered as the counters themselves exactly while less than half the range apart |
| VersionNumbers.TransitiveInWindow | Base/VersionNumber.hpp:131-141 | < is transitive within any window shorter than half the range |
| VersionNumbers.AgreesWithSerialNumbers | Base/VersionNumber.hpp:131-141 | < agrees with section 3.2 of RFC 1982 wherever that defines an order, which is for all pairs but those half the range apart |

## Left out

Stated for less than everything the program may meet:

- RaftCluster.ElectionSafety: for runs without repeated votes in favour; with them it holds for exactly the clusters of up to three nodes (`RaftRepeats.SafeExactlyUpToThree`).
- RaftCluster.ChecksAreTheWinners: for runs without the event named in `RaftCluster.ChecksStayUnlessStale`, with which it is false.
- BufferPools.BufferPool.constructor: for pools of at most 2^30 blocks; beyond, the shift of an `int` in `positioning` and `location` is undefined.
- RingBuffers.RingBuffer.ReadVector: for pieces shorter than 2^32; the length of a longer one is narrowed on the way.
- RingBuffers.RingBuffer.WriteVector: likewise.
- RingBuffers.RingBuffer.TryRead: a copy that leaves the array is reported as such; what lies there is not modelled.
- RingBuffers.RingBuffer.TryWrite: likewise, and so is what that does to the memory around.
- RingBuffers.RingBuffer.ChangeWritten: likewise.
- LinkLogServers.LinkLogServer.CreateLogger: for a parent that is still there; the program follows its map iterator without a check.

Not modelled:

- Range erasure in the B+ tree: it can leave separators out of order before the binary searches that follow.
- `below` in the B+ tree: it adds the first element of a following leaf without comparing it to the key.
- `update` and `find_for_update` of a value in the B+ tree.
- Variable-size values: their branches in `DataBlock_Impl.hpp` do not compile as written. Blocks hold slots of pairs, not raw bytes.
- Reopening a B+ tree file, where the head block still names a record block that has been used up, and extra data in the head block.
- Reading, writing and pinning of tree blocks through the cache, and the 32-bit width of block indices and counters.
- Members of the cluster going online and offline, log contents, time stamps, clocks and liveness (beyond `RaftRuns.Recovers`).
- The memory of the buffer pool and failure to allocate it; addresses are relative to the pool.
- `LRUCache::erase`, whose callbacks depend on which of them the helper declares; callbacks that throw; times (whether an entry was held for a second is a parameter).
- The bytes of log records, the end of the service range in a query, deletion of old files and the node dictionary; a file name is a number. Read errors, which cannot happen on well-formed chains, and the query form that writes to a ring buffer.
- Buffers, messages, sockets and handlers of the logger server, and the wrapper that creates a head node when the node was not registered.
- The vectored forms of `try_read`, `try_write` and `change_written`, the forms from buffer to buffer, and `write_array`, which with an offset trims the size only when it exceeds the whole free space.
- Resizing a ring buffer into an overlapping array; copies between overlapping stretches in `reposition` count as moves.
- `move_to` of a list node onto itself.
- `++` of version numbers as a postfix, `<=` and `>=`; the comparison and arithmetic macros of dates, and formatting.
- Sockets, reactors, pollers, thread pools, timers, file wrappers, log formatting and the aspect templates: system calls, scheduling and plumbing.
