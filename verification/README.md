# Verified model of the DCP/VarDis protocol stack

A Dafny 4 model of the stateful core of a protocol stack for drones and similar swarms: the fixed-memory containers it is
built on, the beaconing protocol BP with its shared-memory queues, the safety-data store of SRP, the variable
dissemination protocol VarDis, and the flooding protocol used beside it. `dafny verify dfyconfig.toml` checks everything.

Code that changes state step by step is modelled by classes and loops; each method is proved against a specification
function, and the theorems are about these functions and about runs built from them.

- **AVL tree in an array** (`RingBuffer`, `AvlTree`, `AvlRuns`, `FixedMemAvlTree`). Nodes are array entries linked by
  index, a ring buffer lists the free entries, rotations exchange keys and data in place. The class refines a mathematical
  tree that carries entry numbers; any run of operations denotes the map one would expect and owns every entry once.
- **VarDis real-time database** (`RtdbTypes`, `RtdbSerial`, `RtdbPacking`, `RtdbSummaries`, `RtdbPacket`, `RtdbNode`,
  `Rtdb`, `RtdbNetwork`, `RtdbMonotone`, `RtdbProgress`, `RtdbRepetitions`, `RtdbRoundRobin`, `RtdbIndications`,
  `RtdbAnswers`, `RtdbFraming`, `RtdbOmissions`, `RtdbProducer`, `RtdbOldNews`, `RtdbOmittedRuns`). `Rtdb` holds the
  classes; `RtdbNode` says what they do; `RtdbNetwork` lets any node receive any beacon ever sent, any number of times, in any order, or never. Values carry,
  as a ghost of the model, the number of the update they came from, which the program does not see; the theorems about age
  are stated with it.
- **Flooding** (`FloodingNode`, `Flooding`, `FloodingNetwork`, `FloodingSilence`). A node may hear anything any node ever
  sent, so every topology and every loss is covered.
- **Shared-memory finite queue** (`FiniteQueueSpec`, `FiniteQueueRuns`, `ShmFiniteQueue`, `BpControlSegment`). Each locked
  section is one step. A method that waits on a condition variable ends there; what follows the wait is a second method.
- **SRP neighbour store** (`NodeIdentifier`, `SrpRecords`, `SrpStore`). The AVL tree and a second free list, of safety
  data records, together behave as one map.
- **Beacon printer and parser** (`Bytes`, `Sets`, `BpTransmissible`, `Area`, `BpGathering`, `BpBeaconing`,
  `BpTransmitter`, `BpReceiving`, `BpIndicating`, `BpReceiver`).

## What the proofs show about the code

Where the code and its comments differ, the model follows the code.

- `insert` on a full AVL tree does nothing even for a key it holds, against its comment. The SRP store avoids this by
  writing through a reference.
- `is_consistent` of the AVL tree tests the left child twice; what it accepts is characterised exactly.
- Sequence numbers of VarDis order updates correctly up to 126 apart; what happens at 127 and beyond is stated exactly.
- The `stop` flag of the VarDis beacon builder is not cleared before the summary loop (RTDB.cc:341-350). So a beacon has
  summaries only if it empties the update queue: one update with repetitions left suffices to keep them out. It is not
  cleared before the update-request loop either (RTDB.cc:445-450), but that never changes a beacon.
- `push_wait` of the shared queue waits while there is data (sharedmem_finite_queue.h:301), so a queue used only that way
  never holds more than one payload, and clients that drop the tail wait instead of dropping.
- `reset` does not clear `has_data`: in the once and repeat modes a transmit request that meets a payload destroys it, is
  not stored itself, and leaves the buffer unusable from then on.
- An update request for the variable of the first queued one that has repetitions left keeps all requests behind it out of
  the beacon (RTDB.cc:456-492), and two summaries of a newer value put it there. Create requests cannot do this.
- The receiver hands a client a payload only when the client has taken all earlier ones within milliseconds, however much
  room its queue has, because it uses `push_wait` (bp_receiver.cc:97); other payloads are dropped.
- An exception while a payload is written into a beacon loses the payload and its buffer, and can leave the flag wrong.
- A flooding source falls silent for a node that has seen the last sequence number of a round.

## Assumptions

One creator per VarDis variable (the create check is local, RTDB.cc:102); beacons of less than 64 KiB, so that 16-bit
section lengths do not wrap; one producer and one consumer for the waiting operations of the shared queue, and no spurious
wake-ups; push handlers that stay within the memory block of the queue. Theorems that need them say so in their
preconditions. Exceptions are results.

## Model

| member | source | states |
|---|---|---|
| RingBuffer.FixedMemRingBuffer.Push | dcp-vardis-project/dcpimplementation/src/dcp/common/fixedmem_ring_buffer.h:172-183 | a push appends to the contents exactly when they are fewer than the capacity; otherwise it fails and changes nothing |
| RingBuffer.FixedMemRingBuffer.Pop | dcp-vardis-project/dcpimplementation/src/dcp/common/fixedmem_ring_buffer.h:146-159 | a pop takes the oldest element away, or fails on the empty buffer |
| RingBuffer.FixedMemRingBuffer.Peek | dcp-vardis-project/dcpimplementation/src/dcp/common/fixedmem_ring_buffer.h:161-170 | the oldest element is shown and nothing changes |
| RingBuffer.FixedMemRingBuffer.Reset | dcp-vardis-project/dcpimplementation/src/dcp/common/fixedmem_ring_buffer.h:185-190 | afterwards the buffer is empty and valid again |
| AvlTree.InsertGet | dcp-vardis-project/dcpimplementation/src/dcp/common/fixedmem_avl_tree.h:316-370 | an insertion, rotations included, keeps the search order, makes the new data be found under its key, and changes what is found under no other key |
| AvlTree.InsertIsMapUpdate | dcp-vardis-project/dcpimplementation/src/dcp/common/fixedmem_avl_tree.h:316-370 | as a map, the tree after an insertion is the old map updated at the key |
| AvlTree.InsertSlots | dcp-vardis-project/dcpimplementation/src/dcp/common/fixedmem_avl_tree.h:316-330 | an insertion takes the spare array entry exactly when the key is new; the root keeps its index and no other entry changes hands |
| AvlTree.InsertStaysBalanced | dcp-vardis-project/dcpimplementation/src/dcp/common/fixedmem_avl_tree.h:336-367 | every balance stays -1, 0 or 1: comparing the new key with the child's key picks the right one of the four rotations because a sub-tree that grew leans towards the new key |
| AvlTree.RemoveGet | dcp-vardis-project/dcpimplementation/src/dcp/common/fixedmem_avl_tree.h:378-440 | a removal keeps the search order, removes the key, and changes what is found under no other key |
| AvlTree.RemoveIsMapRemoval | dcp-vardis-project/dcpimplementation/src/dcp/common/fixedmem_avl_tree.h:378-440 | as a map, the tree after a removal is the old map without the key |
| AvlTree.RemoveSlots | dcp-vardis-project/dcpimplementation/src/dcp/common/fixedmem_avl_tree.h:386-413 | the removal of a present key gives back exactly one array entry, although it may copy another node's key and data over the removed ones |
| AvlTree.RemoveStaysBalanced | dcp-vardis-project/dcpimplementation/src/dcp/common/fixedmem_avl_tree.h:418-440 | a removal keeps every balance in -1, 0, 1 and lowers the tree by at most one level |
| AvlTree.RemoveAbsent | dcp-vardis-project/dcpimplementation/src/dcp/common/fixedmem_avl_tree.h:378-440 | removing an absent key changes nothing, not even the shape |
| AvlTree.MinNodeIsLeast | dcp-vardis-project/dcpimplementation/src/dcp/common/fixedmem_avl_tree.h:295-302 | following the left links finds the smallest key with its data |
| AvlTree.BalancedTreesAreBushy | dcp-vardis-project/dcpimplementation/src/dcp/common/fixedmem_avl_tree.h:316-458 | a balanced tree of height h has at least Fib(h + 2) - 1 nodes |
| AvlTree.HeightOfThousand | dcp-vardis-project/dcpimplementation/src/dcp/common/fixedmem_avl_tree.h:316-458 | a balanced tree of at most 1000 nodes is at most 14 levels high |
| AvlRuns.StepIsMapStep | dcp-vardis-project/dcpimplementation/src/dcp/common/fixedmem_avl_tree.h:647-680 | one clear, insert or remove on the tree is the same step on the map it denotes |
| AvlRuns.RunIsMapRun | dcp-vardis-project/dcpimplementation/src/dcp/common/fixedmem_avl_tree.h:647-680 | after any sequence of operations the tree denotes exactly the map the sequence denotes |
| AvlRuns.RunFindsLast | dcp-vardis-project/dcpimplementation/src/dcp/common/fixedmem_avl_tree.h:452-458 | after any sequence of operations a search finds the key's last data, or nothing when the key is not in the map |
| AvlRuns.RunOwnsEverySlot | dcp-vardis-project/dcpimplementation/src/dcp/common/fixedmem_avl_tree.h:316-440 | after any sequence of operations the tree is ordered and balanced, reachable entries and free list partition the array without duplicates, the number of elements is the number of reachable entries, an insertion that is let in finds a free entry, and a removal finds room on the free list |
| AvlRuns.FullTreeIgnoresUpdate | dcp-vardis-project/dcpimplementation/src/dcp/common/fixedmem_avl_tree.h:641-652 | an insertion has its effect if and only if the tree is not full or holds the data already: a full tree also ignores new data for a key it has, against its comment |
| AvlRuns.FilledTreeLosesUpdate | dcp-vardis-project/dcpimplementation/src/dcp/common/fixedmem_avl_tree.h:647-652 | the state is reached: after insertions that fill the tree, new data for a held key is lost |
| FixedMemAvlTree.FixedMemAVLTree.constructor | dcp-vardis-project/dcpimplementation/src/dcp/common/fixedmem_avl_tree.h:572-576 | a new tree is empty and lists every array entry as free |
| FixedMemAvlTree.FixedMemAVLTree.Clear | dcp-vardis-project/dcpimplementation/src/dcp/common/fixedmem_avl_tree.h:667-680 | the array, the counters and the free list are those of an empty tree, whatever they were |
| FixedMemAvlTree.FixedMemAVLTree.RotateRightAt | dcp-vardis-project/dcpimplementation/src/dcp/common/fixedmem_avl_tree.h:230-254 | exchanging keys and data in place and re-linking turns the stored tree into its right rotation, with true heights, under the same root index, and touches no other entry |
| FixedMemAvlTree.FixedMemAVLTree.RotateLeftAt | dcp-vardis-project/dcpimplementation/src/dcp/common/fixedmem_avl_tree.h:262-286 | the same for the left rotation |
| FixedMemAvlTree.FixedMemAVLTree.FixInsertAt | dcp-vardis-project/dcpimplementation/src/dcp/common/fixedmem_avl_tree.h:336-367 | the four cases after an insertion leave the re-balanced tree in the array, with true heights |
| FixedMemAvlTree.FixedMemAVLTree.InsertAt | dcp-vardis-project/dcpimplementation/src/dcp/common/fixedmem_avl_tree.h:316-370 | the recursive insertion leaves the mathematical result in the array; entries outside the sub-tree, apart from the one taken from the free list, stay as they are |
| FixedMemAvlTree.FixedMemAVLTree.FixRemoveAt | dcp-vardis-project/dcpimplementation/src/dcp/common/fixedmem_avl_tree.h:418-440 | the four cases after a removal leave the re-balanced tree in the array |
| FixedMemAvlTree.FixedMemAVLTree.MinKeyNode | dcp-vardis-project/dcpimplementation/src/dcp/common/fixedmem_avl_tree.h:295-302 | the loop along the left links ends at the entry of the smallest key |
| FixedMemAvlTree.FixedMemAVLTree.RemoveAt | dcp-vardis-project/dcpimplementation/src/dcp/common/fixedmem_avl_tree.h:378-440 | the recursive removal leaves the mathematical result in the array, appends the entry it freed to the free list, and counts down once for a present key |
| FixedMemAvlTree.FixedMemAVLTree.RemoveRoot | dcp-vardis-project/dcpimplementation/src/dcp/common/fixedmem_avl_tree.h:405-412 | a node with two children takes over its successor's key and data, and the successor's entry is the one freed |
| FixedMemAvlTree.FixedMemAVLTree.ReplaceByChild | dcp-vardis-project/dcpimplementation/src/dcp/common/fixedmem_avl_tree.h:391-403 | a node with one child is overwritten by the child's entry, and the child's entry is the one freed |
| FixedMemAvlTree.FixedMemAVLTree.Insert | dcp-vardis-project/dcpimplementation/src/dcp/common/fixedmem_avl_tree.h:647-652 | the public insertion is the insertion step on tree and free list, and on the map: nothing happens when the tree is full |
| FixedMemAvlTree.FixedMemAVLTree.Remove | dcp-vardis-project/dcpimplementation/src/dcp/common/fixedmem_avl_tree.h:659-662 | the public removal takes exactly the key out of the map |
| FixedMemAvlTree.FixedMemAVLTree.LookupIndex | dcp-vardis-project/dcpimplementation/src/dcp/common/fixedmem_avl_tree.h:599-603 | the result is an entry that holds the key with the map's data, or null exactly when the map does not have the key |
| FixedMemAvlTree.FixedMemAVLTree.LookupData | dcp-vardis-project/dcpimplementation/src/dcp/common/fixedmem_avl_tree.h:615-623 | the data of the key, or an exception exactly when the map does not have the key |
| FixedMemAvlTree.FixedMemAVLTree.WriteData | dcp-vardis-project/dcpimplementation/src/dcp/common/fixedmem_avl_tree.h:615-623 | writing through the reference that was looked up updates the map at that key and keeps order, balance and ownership |
| FixedMemAvlTree.FixedMemAVLTree.IsMember | dcp-vardis-project/dcpimplementation/src/dcp/common/fixedmem_avl_tree.h:631-634 | true exactly for the keys of the map |
| FixedMemAvlTree.FixedMemAVLTree.FindMatchingData | dcp-vardis-project/dcpimplementation/src/dcp/common/fixedmem_avl_tree.h:547-560 | the list is the transforms of exactly the matching entries, in pre-order |
| FixedMemAvlTree.PreOrderListsMap | dcp-vardis-project/dcpimplementation/src/dcp/common/fixedmem_avl_tree.h:547-560 | the pre-order walk meets a key with its data exactly when the map has them |
| FixedMemAvlTree.PreOrderOnce | dcp-vardis-project/dcpimplementation/src/dcp/common/fixedmem_avl_tree.h:547-560 | the pre-order walk meets every key once |
| FixedMemAvlTree.CalcHeight | dcp-vardis-project/dcpimplementation/src/dcp/common/fixedmem_avl_tree.h:468-474 | the height computed over the array is the true height |
| FixedMemAvlTree.NumberReachable | dcp-vardis-project/dcpimplementation/src/dcp/common/fixedmem_avl_tree.h:483-489 | the count over the array is the number of nodes of the tree |
| FixedMemAvlTree.SearchIsLogarithmic | dcp-vardis-project/dcpimplementation/src/dcp/common/fixedmem_avl_tree.h:452-458 | a search visits d entries only if Fib(d + 2) - 1 entries are stored, so at most 14 among 1000 |
| FixedMemAvlTree.IsConsistentMeans | dcp-vardis-project/dcpimplementation/src/dcp/common/fixedmem_avl_tree.h:502-531 | the self-check accepts exactly the balanced trees with true heights whose left children are smaller |
| FixedMemAvlTree.IsConsistentMissesRightChild | dcp-vardis-project/dcpimplementation/src/dcp/common/fixedmem_avl_tree.h:502-531 | the self-check tests the left child twice: it accepts every two-entry array whose right child is smaller than its parent |
| RtdbSerial.NextSeqNoOf | simulation-code-paper/srp_vardis/src/rtdb/RTDBVariable.cc:72-86 | the number a producer holds after one more update is the next one, skipping zero |
| RtdbSerial.MoreRecentExactly | simulation-code-paper/srp_vardis/src/rtdb/RTDB.cc:719-744 | update n counts as more recent than update m exactly when the way from m's number to n's number on the circle of 256 is 1 to 127 steps long |
| RtdbSerial.MoreRecentWithinWindow | simulation-code-paper/srp_vardis/src/rtdb/RTDB.cc:719-744 | up to 126 updates apart, in either direction, the comparison is the true order of the updates |
| RtdbSerial.MoreRecentAt127 | simulation-code-paper/srp_vardis/src/rtdb/RTDB.cc:719-744 | 127 updates ahead is recognised if and only if zero is not crossed, so 126 is the exact window |
| RtdbSerial.StaleTakenForNew | simulation-code-paper/srp_vardis/src/rtdb/RTDB.cc:719-744 | a value 127 updates old is never taken for new, one 128 updates old exactly when the way forward does not cross zero, one 129 updates old always |
| RtdbSerial.MoreRecentIsRfc1982 | simulation-code-paper/srp_vardis/src/rtdb/RTDB.cc:719-744 | the comparison is the one of RFC 1982, section 3.2, for 8 bits wherever that is defined, and false elsewhere |
| RtdbTypes.ElementLengths | simulation-code-paper/srp_vardis/src/rtdb/RTDBInformationElements.cc:35-144 | the lengths of the elements on the wire |
| RtdbPacking.FillSection | simulation-code-paper/srp_vardis/src/rtdb/RTDB.cc:221-279 | the loop over a queue with its stop flag and first-element test sends and keeps exactly what the specification of a filled section says |
| RtdbPacking.TakenFits | simulation-code-paper/srp_vardis/src/rtdb/RTDB.cc:239-265 | what a section sends fits behind what precedes it and its own header |
| RtdbPacking.TakenIsMaximal | simulation-code-paper/srp_vardis/src/rtdb/RTDB.cc:232-269 | with one element per variable the loop ends only at the end of the queue or before an element that does not fit: the test for the first element put back never cuts it short |
| RtdbPacking.TakenIsMaximalOnce | simulation-code-paper/srp_vardis/src/rtdb/RTDB.cc:392-431 | nor does that test when the elements have no repetitions left, whatever variables they are of |
| RtdbPacking.TakenExactly | simulation-code-paper/srp_vardis/src/rtdb/RTDB.cc:221-279 | the loop ends at the first element in its queue that is not dropped and either does not fit or looks like the first element put back before it, and nowhere else |
| RtdbPacking.SentExactly | simulation-code-paper/srp_vardis/src/rtdb/RTDB.cc:442-499 | of a queue without elements to drop a section sends exactly those before the first one that does not fit or names the variable of the first element with repetitions left |
| RtdbPacking.SendsWanted | simulation-code-paper/srp_vardis/src/rtdb/RTDB.cc:202-279 | whatever the database, a section sends, of the elements it looks at, exactly those of variables it has and does not delete, or, for create requests, those of variables it does not have; these elements leave the front of the queue |
| RtdbPacking.SkippedWhenStopped | simulation-code-paper/srp_vardis/src/rtdb/RTDB.cc:445-450 | a section whose loop starts with the stop flag set sends nothing and leaves its queue alone |
| RtdbPacking.FillKeeps | simulation-code-paper/srp_vardis/src/rtdb/RTDB.cc:221-279 | filling a section keeps the queue free of two elements of one variable, and neither sends nor keeps anything new |
| RtdbPacking.FillConserves | simulation-code-paper/srp_vardis/src/rtdb/RTDB.cc:245-255 | each beacon that carries a variable is one of those owed to it, a repetition count below two standing for one, and nothing else changes what is owed |
| RtdbPacking.SentOnce | simulation-code-paper/srp_vardis/src/rtdb/RTDB.cc:232-255 | a section names a variable at most once |
| RtdbSummaries.FillSummaries | simulation-code-paper/srp_vardis/src/rtdb/RTDB.cc:337-384 | the round-robin loop announces and rotates exactly what the specification says, and reads the front of an empty queue if and only if it is entered and everything in the queue is to be dropped |
| RtdbSummaries.TakenFits | simulation-code-paper/srp_vardis/src/rtdb/RTDB.cc:349-369 | the announced summaries fit and are at most as many as allowed |
| RtdbSummaries.TakenIsMaximal | simulation-code-paper/srp_vardis/src/rtdb/RTDB.cc:349-376 | the loop ends only when all variables are announced, as many as allowed are, or no further summary fits |
| RtdbSummaries.AnnouncingKeeps | simulation-code-paper/srp_vardis/src/rtdb/RTDB.cc:366-377 | announcing keeps the queue free of duplicates and loses only variables that are being deleted |
| RtdbSummaries.NothingDropped | simulation-code-paper/srp_vardis/src/rtdb/RTDB.cc:337-384 | with nothing to drop a section announces a prefix of the queue and moves it to the end |
| RtdbPacket.ByteLenWrite | simulation-code-paper/srp_vardis/src/rtdb/RTDB.cc:501-569 | the packet's length is the sum of the section lengths |
| RtdbPacket.HeadersAreExact | simulation-code-paper/srp_vardis/src/rtdb/RTDB.cc:501-569 | the header in front of each list says its kind and its exact length |
| RtdbPacket.ReadElementsLoop | simulation-code-paper/srp_vardis/src/rtdb/RTDB.cc:773-782 | the do-while loop pops elements of one kind until the announced length has been read, or fails |
| RtdbPacket.ReadSectionAt | simulation-code-paper/srp_vardis/src/rtdb/RTDB.cc:763-791 | one section is read, or left alone when the header is of another kind |
| RtdbPacket.ParseLoop | simulation-code-paper/srp_vardis/src/rtdb/RTDB.cc:747-921 | reading section after section in the fixed order is the specified reading of the whole packet, errors included |
| RtdbPacket.ParseUndoesWrite | simulation-code-paper/srp_vardis/src/rtdb/RTDB.cc:501-569 | for any five lists of the right kinds, not all empty and none longer than the 16-bit length field can say, the packet written from them is read back as exactly these lists with nothing left over |
| RtdbPacket.ReadSectionsTyped | simulation-code-paper/srp_vardis/src/rtdb/RTDB.cc:747-921 | whatever the packet, what is read into a list is of that list's kind |
| RtdbFraming.ParsesExactly | simulation-code-paper/srp_vardis/src/rtdb/RTDB.cc:747-921 | a packet of less than 64 KiB is read as five lists if and only if it consists of their sections in the fixed order, each with a header whose length does not exceed the packet and is reached by its last element and not before |
| RtdbNode.ApiCreateOk | simulation-code-paper/srp_vardis/src/rtdb/RTDB.cc:100-153 | a create request keeps the node's invariant: creates waiting describe known variables, one each; updates waiting equal the current database entries, one each; the summary queue is a permutation of the known variables; no variable is marked for deletion |
| RtdbNode.ApiUpdateOk | simulation-code-paper/srp_vardis/src/rtdb/RTDB.cc:155-197 | an update request keeps the node's invariant |
| RtdbNode.ReceiveOk | simulation-code-paper/srp_vardis/src/rtdb/RTDB.cc:925-1094 | every received element keeps the node's invariant |
| RtdbNode.ProcessOk | simulation-code-paper/srp_vardis/src/rtdb/RTDB.cc:925-1095 | every received beacon keeps the node's invariant |
| RtdbNode.BuildOk | simulation-code-paper/srp_vardis/src/rtdb/RTDB.cc:212-499 | building a beacon keeps the node's invariant |
| RtdbNode.BuiltFrom | simulation-code-paper/srp_vardis/src/rtdb/RTDB.cc:212-499 | what a beacon carries comes, section by section, from the queue or the database entry of that kind |
| RtdbNode.BuildFits | simulation-code-paper/srp_vardis/src/rtdb/RTDB.cc:571-579 | beacon and initial length together exceed the maximum if and only if the initial length alone does, and then the beacon is empty; there are never more summaries than allowed: of the two sanity checks the second never fires |
| RtdbNode.BuiltIsReadBack | simulation-code-paper/srp_vardis/src/rtdb/RTDB.cc:501-569 | every beacon a node builds is read back as what was put into it |
| RtdbNode.BeaconNamesOnce | simulation-code-paper/srp_vardis/src/rtdb/RTDB.cc:212-499 | one beacon names a variable at most once among creates, once among updates, once among summaries |
| RtdbOmissions.LeavesOutWhatDoesNotFit | simulation-code-paper/srp_vardis/src/rtdb/RTDB.cc:221-339 | a beacon carries a prefix of the queue of creates and one of the queue of updates, and the first record it leaves out of each did not fit |
| RtdbOmissions.CreateRequestsFill | simulation-code-paper/srp_vardis/src/rtdb/RTDB.cc:386-440 | create requests have one repetition, so duplicates never cut their section short: it ends with the queue or before a request that does not fit |
| RtdbOmissions.CreateRequestsSent | simulation-code-paper/srp_vardis/src/rtdb/RTDB.cc:386-440 | a beacon carries the create requests for exactly the unknown variables among the first k of the queue, in order, and all k leave the queue; the next one stays only because it is for an unknown variable and does not fit |
| RtdbOmittedRuns.MissedVariableIsAskedFor | simulation-code-paper/srp_vardis/src/rtdb/RTDB.cc:386-440 | such a state is reached: a node that has missed the creation of a variable and hears an update of it asks for just that variable in its next beacon |
| RtdbOmissions.UpdateRequestsSent | simulation-code-paper/srp_vardis/src/rtdb/RTDB.cc:442-499 | a beacon carries exactly the update requests before the first one that does not fit behind the other sections or names the variable of the first request with repetitions left; the others stay queued in front of those put back |
| RtdbOmissions.DuplicateRequestKeepsOthersOut | simulation-code-paper/srp_vardis/src/rtdb/RTDB.cc:456-492 | so a request that names that variable again, wherever it stands, keeps itself and all behind it out of the beacon, whatever room there is |
| RtdbOmittedRuns.OneRequestDespiteRoom | simulation-code-paper/srp_vardis/src/rtdb/RTDB.cc:442-499 | such a state is reached: a node that has heard two newer summaries of one variable and one of another asks for the first only, in a beacon of less than 100 of 1000 bytes |
| RtdbOmissions.UpdatesEmptiedExactly | simulation-code-paper/srp_vardis/src/rtdb/RTDB.cc:283-339 | building a beacon empties the queue of updates if and only if it was empty, or none of its updates has repetitions left after this beacon and all of them fit behind the creates |
| RtdbOmissions.SummariesOnlyAfterUpdates | simulation-code-paper/srp_vardis/src/rtdb/RTDB.cc:341-384 | as the stop flag is not cleared before the summary loop, a beacon announces as many variables as have room if it empties the queue of updates and none otherwise; so it has summaries if and only if it empties that queue, knows a variable, may have summaries, and has room for one with a byte to spare |
| RtdbOmissions.RepeatedUpdateSilences | simulation-code-paper/srp_vardis/src/rtdb/RTDB.cc:307-330 | one queued update with repetitions left keeps all summaries out, whatever room there is |
| RtdbOmissions.UpdatingSilences | simulation-code-paper/srp_vardis/src/rtdb/RTDB.cc:155-197 | so a node that updates a variable of two or more repetitions before each of its beacons never sends a summary |
| RtdbOmittedRuns.NoSummariesDespiteRoom | simulation-code-paper/srp_vardis/src/rtdb/RTDB.cc:341-350 | such a state is reached: a node that may announce the variable it knows, and has 900 bytes of room left, does not |
| RtdbOmissions.MarkIsHarmless | simulation-code-paper/srp_vardis/src/rtdb/RTDB.cc:445-450 | that the flag is not cleared before the update-request loop changes nothing: when a create request did not fit, no update request does |
| RtdbOmissions.UpdateRequestsExactly | simulation-code-paper/srp_vardis/src/rtdb/RTDB.cc:386-499 | a beacon carries update requests if and only if there are any and one of them fits behind the requests for all unknown variables, and then no create request is left over |
| Rtdb.RTDBVariable.Update | simulation-code-paper/srp_vardis/src/rtdb/RTDBVariable.cc:72-86 | a producer's update replaces value and length and steps the sequence number, skipping zero |
| Rtdb.RTDBVariable.UpdateTo | simulation-code-paper/srp_vardis/src/rtdb/RTDBVariable.cc:88-97 | a received update replaces value, length and sequence number |
| Rtdb.QueueRemoveId | simulation-code-paper/srp_vardis/src/rtdb/RTDB.cc:627-703 | moving a queue to a temporary one and back, without one variable's elements, leaves exactly the others in their order |
| Rtdb.RTDB.HandleApiCreateReq | simulation-code-paper/srp_vardis/src/rtdb/RTDB.cc:100-153 | the handler takes the node to the specified state with the specified answer, in every one of its cases |
| Rtdb.RTDB.HandleApiUpdateReq | simulation-code-paper/srp_vardis/src/rtdb/RTDB.cc:155-197 | the handler takes the node to the specified state with the specified answer, in every one of its cases |
| Rtdb.RTDB.ConstructBeacon | simulation-code-paper/srp_vardis/src/rtdb/RTDB.cc:212-583 | the method leaves the node and yields the packet, or the error, that the specification says, and keeps the invariant |
| Rtdb.RTDB.HandleCreate | simulation-code-paper/srp_vardis/src/rtdb/RTDB.cc:925-964 | a received create adds an unknown variable, tells the application, and queues create and summary; a known one changes nothing |
| Rtdb.RTDB.HandleUpdate | simulation-code-paper/srp_vardis/src/rtdb/RTDB.cc:968-1013 | a received update is taken over, told and queued exactly when the variable is another node's, alive, and the number more recent; an unknown variable is requested |
| Rtdb.RTDB.HandleSummary | simulation-code-paper/srp_vardis/src/rtdb/RTDB.cc:1015-1055 | a summary leads to an update request, to a re-issued update, or to a create request, as the numbers say |
| Rtdb.RTDB.HandleCreateRequest | simulation-code-paper/srp_vardis/src/rtdb/RTDB.cc:1057-1077 | a create request for a live known variable replaces its queued create by the current one |
| Rtdb.RTDB.HandleUpdateRequest | simulation-code-paper/srp_vardis/src/rtdb/RTDB.cc:1079-1094 | an update request for a live known variable replaces its queued update by the current one |
| Rtdb.RTDB.ProcessVarDisBeacon | simulation-code-paper/srp_vardis/src/rtdb/RTDB.cc:747-1095 | a received packet takes the node to the specified state; a malformed one changes nothing |
| RtdbNetwork.StepOk | simulation-code-paper/srp_vardis/src/rtdb/RTDB.cc:100-1095 | every step of the network keeps its invariant: only genuine values in databases, queues and beacons |
| RtdbNetwork.EverythingIsGenuine | simulation-code-paper/srp_vardis/src/rtdb/RTDB.cc:925-1094 | in every run with one creator per variable, with loss, duplication and reordering, every (variable, sequence number, value) in any database, queue or beacon is one its producer really held |
| RtdbNetwork.SummaryQueueListsDatabase | simulation-code-paper/srp_vardis/src/rtdb/RTDB.cc:139-150 | in every reachable state the summary queue of every node is a permutation of the keys of its database, no variable is marked for deletion, and building a beacon never reads the front of an empty queue |
| RtdbNetwork.SpecificationsAgree | simulation-code-paper/srp_vardis/src/rtdb/RTDB.cc:925-964 | in every reachable state all nodes that know a variable agree with its producer on who that is, on the description and on the number of repetitions |
| RtdbIndications.ReceiveTells | simulation-code-paper/srp_vardis/src/rtdb/RTDB.cc:925-1013 | a received element either creates or changes one entry of the database, and the application is told the new value, or changes none, and it is told nothing |
| RtdbIndications.BeaconTells | simulation-code-paper/srp_vardis/src/rtdb/RTDB.cc:705-716 | a received beacon causes exactly one indication for each entry that one of its elements creates or changes, in their order |
| RtdbIndications.RunInforms | simulation-code-paper/srp_vardis/src/rtdb/RTDB.cc:705-716 | in every reachable state, with loss, duplication and reordering, the last each application was told of another node's variable is what its database holds; it was told something of each such variable and of no other |
| RtdbAnswers.CreateAnswered | simulation-code-paper/srp_vardis/src/rtdb/RTDB.cc:100-153 | a variable is created exactly if it is unknown and description, value and repetitions are within their bounds; a refusal names a condition that is violated and changes nothing |
| RtdbAnswers.UpdateAnswered | simulation-code-paper/srp_vardis/src/rtdb/RTDB.cc:155-197 | a variable is updated exactly if the node produces it and the value is within its bounds; the value gets the next number and replaces an older one that still waits |
| RtdbAnswers.SummaryAnswered | simulation-code-paper/srp_vardis/src/rtdb/RTDB.cc:1015-1055 | a summary at most 126 updates away: a newer one makes the node ask for the update, an older one makes it send its own record again, one of the same update or of a variable of its own nothing |
| RtdbAnswers.UnknownIsAskedFor | simulation-code-paper/srp_vardis/src/rtdb/RTDB.cc:1008-1055 | a summary or an update of an unknown variable makes the node ask for the variable, and does nothing else |
| RtdbAnswers.CreationTaken | simulation-code-paper/srp_vardis/src/rtdb/RTDB.cc:925-964 | the creation of an unknown variable is taken over as it is, passed on with all repetitions, announced, and not asked for any more |
| RtdbAnswers.UpdateTaken | simulation-code-paper/srp_vardis/src/rtdb/RTDB.cc:968-1013 | an update of another node's variable at most 126 updates away: a newer one is taken over, passed on with all repetitions and not asked for any more; any other changes nothing |
| RtdbAnswers.BeaconIsAnswered | simulation-code-paper/srp_vardis/src/rtdb/RTDB.cc:1057-1095 | after a beacon each variable it asks for, and that the node has by then, waits to be sent with its current record and all repetitions |
| RtdbAnswers.RunAsksSensibly | simulation-code-paper/srp_vardis/src/rtdb/RTDB.cc:1015-1055 | in every reachable state each queued create request is for a variable the node does not have, and each queued update request is for another node's variable and names the update the node has |
| RtdbRepetitions.ElementSettles | simulation-code-paper/srp_vardis/src/rtdb/RTDB.cc:925-1094 | a received element either puts a record of the variable into the queue, which then owes it all its repetitions, or leaves what the queue owes unchanged |
| RtdbRepetitions.BuildPays | simulation-code-paper/srp_vardis/src/rtdb/RTDB.cc:221-339 | building a beacon pays one of the beacons owed to a record if it carries the record, and nothing otherwise |
| RtdbRepetitions.CountedIsSent | simulation-code-paper/srp_vardis/src/rtdb/RTDB.cc:501-583 | a beacon counted as carrying a record has been sent, and is read by any receiver as naming the variable exactly once |
| RtdbRepetitions.OwedIsPaid | simulation-code-paper/srp_vardis/src/rtdb/RTDB.cc:221-339 | in every run, for as long as no other record of the variable takes its place, what a queue owes a record drops by exactly the number of beacons sent that carry it |
| RtdbRepetitions.CarriedExactly | simulation-code-paper/srp_vardis/src/rtdb/RTDB.cc:221-339 | in every run, a record that enters the create or the update queue and is not superseded has been carried by exactly as many different beacons as its variable has repetitions if and only if it has left the queue, and by fewer before; a repetition count of zero counts as one |
| RtdbRoundRobin.BuildRotates | simulation-code-paper/srp_vardis/src/rtdb/RTDB.cc:337-384 | building a beacon announces a prefix of the summary queue and moves it to the end |
| RtdbRoundRobin.AnnouncementsGoRound | simulation-code-paper/srp_vardis/src/rtdb/RTDB.cc:337-384 | in every run, while a node learns of no new variable, the summaries in its successive beacons are successive pieces of its queue, round and round, whatever else happens in between |
| RtdbRoundRobin.EveryRoundNamesAll | simulation-code-paper/srp_vardis/src/rtdb/RTDB.cc:337-384 | in every run, while a node learns of no new variable, any n consecutive summaries in its beacons name each of the n variables of its database exactly once |
| RtdbMonotone.NeverBack | simulation-code-paper/srp_vardis/src/rtdb/RTDB.cc:968-1006 | in every run in which no update meets a record more than 127 updates ahead of it, no node ever loses a variable or goes back to an earlier update |
| RtdbMonotone.NeverAhead | simulation-code-paper/srp_vardis/src/rtdb/RTDB.cc:968-1006 | in every run with one creator per variable no record is ahead of its producer's, who holds the last of all values |
| RtdbMonotone.NewerValueWins | simulation-code-paper/srp_vardis/src/rtdb/RTDB.cc:982-992 | at most 126 updates apart, a received update leaves the node with the newer of the two values |
| RtdbMonotone.GoesBackExactly | simulation-code-paper/srp_vardis/src/rtdb/RTDB.cc:982-992 | without the window: a received update takes a record back if and only if it is older and its number is 1 to 127 steps ahead on the circle; 129 updates always suffice |
| RtdbOldNews.OldNewsIsTaken | simulation-code-paper/srp_vardis/src/rtdb/RTDB.cc:982-992 | such a state is reached: a run of two nodes in which the delivery of a beacon sent 129 updates before takes the receiver back from update 130 to update 1 |
| RtdbMonotone.BoundedIndications | simulation-code-paper/srp_vardis/src/rtdb/RTDB.cc:705-716 | U updates of a variable cause at most (N - 1) * (U + 1) indications to the applications of the N - 1 other nodes, and none at the producer |
| RtdbProgress.LearnsFromBeacon | simulation-code-paper/srp_vardis/src/rtdb/RTDB.cc:968-1006 | after a beacon the receiver is at least as up to date as each update in it that is at most 126 ahead of the record it meets |
| RtdbProgress.CreatesAreLearned | simulation-code-paper/srp_vardis/src/rtdb/RTDB.cc:925-964 | after a beacon every variable it creates is known, whether it was before or not |
| RtdbProgress.CarriesCurrent | simulation-code-paper/srp_vardis/src/rtdb/RTDB.cc:281-339 | the updates in a beacon are the sender's current records, not those of the time they were queued |
| RtdbProgress.DeliveryTeaches | simulation-code-paper/srp_vardis/src/rtdb/RTDB.cc:747-1095 | in every reachable state the delivery of any beacon ever sent teaches the receiver each update in reach that it carries |
| RtdbProgress.ExchangeCatchesUp | simulation-code-paper/srp_vardis/src/rtdb/RTDB.cc:212-583 | when one node sends a beacon and another receives it, the receiver is afterwards at least as up to date as the sender on every variable in reach among the beacon's updates |
| Flooding.FloodingModule.ComposeHeader | simulation-code-paper/SwarmStack/src/flooding/Flooding.cc:122-140 | the header carries the own identifier, the initial time to live and the present sequence number, which then steps modulo 2^32 |
| Flooding.FloodingModule.WorkOnPacketQueue | simulation-code-paper/SwarmStack/src/flooding/Flooding.cc:260-277 | unless a packet is in hand, the oldest queued one is taken up with all its repetitions to go and the timer is started |
| Flooding.FloodingModule.HandleOtherMessage | simulation-code-paper/SwarmStack/src/flooding/Flooding.cc:144-166 | a packet from above is queued as a new flood, and the node's invariant is kept |
| Flooding.FloodingModule.HandleReceivedBroadcast | simulation-code-paper/SwarmStack/src/flooding/Flooding.cc:171-256 | a packet is handed up exactly when it is not the node's own and its number is higher than the last one seen from its source; it is forwarded with the time to live reduced unless that is zero; the invariant is kept |
| Flooding.FloodingModule.HandleSelfMessage | simulation-code-paper/SwarmStack/src/flooding/Flooding.cc:281-321 | the timer only fires with a packet in hand; it sends it once more or takes up the next one; the invariant is kept |
| FloodingNode.HearOk | simulation-code-paper/SwarmStack/src/flooding/Flooding.cc:171-256 | after a reception: what was queued is done, in hand or queued, in order; what was sent is each finished packet exactly numRepetitions times in that order and the one in hand as often as is due; numbers handed up rise for each source; the timer runs exactly while a packet is in hand |
| FloodingNode.HearExactly | simulation-code-paper/SwarmStack/src/flooding/Flooding.cc:171-256 | a packet that is another node's and higher than all of that node's packets handed up before, and no other one, is handed up and queued with the time to live reduced, unless that is zero; any other packet changes nothing |
| FloodingNode.SeenLast | simulation-code-paper/SwarmStack/src/flooding/Flooding.cc:217-238 | the number seen last of a source is that of the last packet handed up from it, and there is one exactly if something was |
| FloodingNode.FireOk | simulation-code-paper/SwarmStack/src/flooding/Flooding.cc:281-321 | the timer keeps that invariant |
| FloodingNode.FireExactly | simulation-code-paper/SwarmStack/src/flooding/Flooding.cc:281-321 | each time the timer fires the packet in hand is sent once more if it has been sent fewer times than required, and done with otherwise |
| FloodingNode.EverythingIsSent | simulation-code-paper/SwarmStack/src/flooding/Flooding.cc:260-321 | as the timer goes on firing, every queued packet has been sent exactly numRepetitions times, in order, after a number of firings that is given |
| FloodingNode.OriginateOk | simulation-code-paper/SwarmStack/src/flooding/Flooding.cc:144-166 | a new flood keeps that invariant |
| FloodingNode.SentPerQueued | simulation-code-paper/SwarmStack/src/flooding/Flooding.cc:260-321 | a node sends a flood at most numRepetitions times for each time it queued it, and exactly that often once it has nothing in hand |
| FloodingNetwork.RunOk | simulation-code-paper/SwarmStack/src/flooding/Flooding.cc:129-256 | in every run without a wrap of sequence numbers, over any topology and any loss, each queued copy has come along a chain of different nodes from its source, and carries the initial time to live less the number of times it was forwarded |
| FloodingNetwork.AcceptedIsNew | simulation-code-paper/SwarmStack/src/flooding/Flooding.cc:210-238 | a packet that a node accepts has come along a chain that does not contain the node |
| FloodingNetwork.TtlNeverStops | simulation-code-paper/SwarmStack/src/flooding/Flooding.cc:239-252 | with at most 65536 nodes a first reception never finds the time to live zero, so it is always forwarded and the reduced time to live does not wrap |
| FloodingNetwork.NewsSpreads | simulation-code-paper/SwarmStack/src/flooding/Flooding.cc:210-256 | in every run without a wrap of at most 65536 nodes a delivered packet that is another node's and higher than all of that node's packets handed up before is handed up and queued for forwarding, and any other one changes no node |
| FloodingNetwork.FloodIsBounded | simulation-code-paper/SwarmStack/src/flooding/Flooding.cc:281-305 | one flood is sent at most N * numRepetitions times by N nodes together |
| FloodingNetwork.HandedUpRising | simulation-code-paper/SwarmStack/src/flooding/Flooding.cc:210-237 | in every run, wrapped sequence numbers included, each node hands up a source's packets with strictly rising numbers, each at most once |
| FloodingNetwork.OneRoundIsAll | simulation-code-paper/SwarmStack/src/flooding/Flooding.cc:219-233 | in every run a node hands up at most 2^32 packets of one source: after the counter wraps nothing repeats |
| FloodingNetwork.SilentAfterLastNumber | simulation-code-paper/SwarmStack/src/flooding/Flooding.cc:219-233 | once a node has seen the last number of a round it hands up nothing of that source for the rest of any run |
| FloodingSilence.LastNumberSilences | simulation-code-paper/SwarmStack/src/flooding/Flooding.cc:129-233 | such a state is reached: after 2^32 floods of its source, none of their numbers used twice, a node has heard the last number, and the source's next flood reaches it and is not handed up |
| FiniteQueueSpec.PushesExactly | dcp-vardis-project/dcpimplementation/src/dcp/common/sharedmem_finite_queue.h:282-443 | while the flag is right and no buffer lost, a nonempty payload that fits is stored without waiting if and only if the queue is not full, by the waiting push at once if and only if the queue is empty, and otherwise always; what it leaves behind is given |
| FiniteQueueSpec.PushesOfNothingOrTooMuch | dcp-vardis-project/dcpimplementation/src/dcp/common/sharedmem_finite_queue.h:282-443 | pushing nothing changes nothing, except that by force it costs a full queue its oldest payload; a payload that is too long costs the buffer it was written into |
| FiniteQueueSpec.PushesWithoutRoom | dcp-vardis-project/dcpimplementation/src/dcp/common/sharedmem_finite_queue.h:311-324 | a push that finds no free buffer, or, after the wait, a full queue, raises an exception; the latter loses a buffer |
| FiniteQueueSpec.RaisingPushLoses | dcp-vardis-project/dcpimplementation/src/dcp/common/sharedmem_finite_queue.h:311-324 | a push whose handler raises stores nothing and loses a buffer; the flag stays right |
| FiniteQueueSpec.TakesExactly | dcp-vardis-project/dcpimplementation/src/dcp/common/sharedmem_finite_queue.h:467-791 | while the flag is right a retrieval from an empty queue gets nothing or waits, and one from a nonempty queue gets the oldest payload or all of them; the state left behind and the report of further payloads are given |
| FiniteQueueSpec.ForceKeepsNewest | dcp-vardis-project/dcpimplementation/src/dcp/common/sharedmem_finite_queue.h:411-443 | the forced push of a nonempty payload that fits succeeds and keeps the newest payloads up to the capacity |
| FiniteQueueSpec.PushKeepsFlagExactly | dcp-vardis-project/dcpimplementation/src/dcp/common/sharedmem_finite_queue.h:411-443 | has_data means nonempty after every push; after a forced push exactly unless nothing, or too much, is pushed into a full queue of capacity one; after a reset exactly if there was nothing to discard |
| FiniteQueueSpec.BuffersLostExactly | dcp-vardis-project/dcpimplementation/src/dcp/common/sharedmem_finite_queue.h:318-321 | a push loses a buffer exactly if its handler wrote too much; the reset gets all buffers back |
| FiniteQueueSpec.RaisingPopLoses | dcp-vardis-project/dcpimplementation/src/dcp/common/sharedmem_finite_queue.h:557-571 | a pop whose handler raises an exception loses its payload and its buffer, and leaves has_data wrong exactly if the payload was the last one |
| FiniteQueueRuns.StepKeepsOk | dcp-vardis-project/dcpimplementation/src/dcp/common/sharedmem_finite_queue.h:282-690 | each locked section keeps the invariant of the run |
| FiniteQueueRuns.RunIsSafe | dcp-vardis-project/dcpimplementation/src/dcp/common/sharedmem_finite_queue.h:282-690 | in every run of one producer and one consumer without the exceptions above: no ring buffer is found empty or full, no buffer is lost, has_data means nonempty, what was accepted has left or is stored in its order, a woken task finds what it waited for, and the two never both wait |
| FiniteQueueRuns.ConsumerGetsAll | dcp-vardis-project/dcpimplementation/src/dcp/common/sharedmem_finite_queue.h:282-572 | without forced pushes and resets the consumer gets exactly what was accepted, once each and in order, up to what is still stored |
| FiniteQueueRuns.EveryEventDoesItsPart | dcp-vardis-project/dcpimplementation/src/dcp/common/sharedmem_finite_queue.h:282-690 | in every such run, told by what was accepted and what has left so far: each push is accepted exactly if there is room, or, if it waits, exactly if all has left, and each retrieval gets the oldest payloads that have not left exactly if there are any |
| FiniteQueueRuns.WaitingPushHoldsOne | dcp-vardis-project/dcpimplementation/src/dcp/common/sharedmem_finite_queue.h:301-309 | as push_wait waits while there is data, not while the queue is full, a producer that uses only it never has more than one payload stored, whatever the capacity |
| FiniteQueueRuns.StuckForEver | dcp-vardis-project/dcpimplementation/src/dcp/common/sharedmem_finite_queue.h:242-246 | after a reset of a buffer that held a payload no later push_wait is ever let in and every single retrieval raises, for the rest of any run of such operations |
| ShmFiniteQueue.NoMoreThanSlots | dcp-vardis-project/dcpimplementation/src/dcp/common/sharedmem_finite_queue.h:150-161 | descriptors in queue and free list never outnumber the buffers |
| ShmFiniteQueue.EverySlotOnce | dcp-vardis-project/dcpimplementation/src/dcp/common/sharedmem_finite_queue.h:150-161 | unless a buffer was lost, every buffer of the memory block is in exactly one of queue and free list |
| ShmFiniteQueue.OthersKeepBytes | dcp-vardis-project/dcpimplementation/src/dcp/common/sharedmem_finite_queue.h:112-116 | writing one buffer, up to the end of its safety margin, changes the bytes of no other |
| ShmFiniteQueue.OverrunOverwrites | dcp-vardis-project/dcpimplementation/src/dcp/common/sharedmem_finite_queue.h:312-314 | a handler that writes beyond its buffer changes a stored payload exactly in the bytes where it overlaps with what was written |
| ShmFiniteQueue.ShmFiniteQueue.constructor | dcp-vardis-project/dcpimplementation/src/dcp/common/sharedmem_finite_queue.h:179-192 | a new queue is empty, with all buffers free and has_data false |
| ShmFiniteQueue.ShmFiniteQueue.Reset | dcp-vardis-project/dcpimplementation/src/dcp/common/sharedmem_finite_queue.h:242-246 | the queue is emptied, all buffers become free, has_data stays as it was |
| ShmFiniteQueue.ShmFiniteQueue.Fill | dcp-vardis-project/dcpimplementation/src/dcp/common/sharedmem_finite_queue.h:312-324 | the payload is written into the buffer in hand, which then goes to the end of the queue, back to the free list, or is lost with an exception; a handler that writes past the margin, within the memory block, overwrites just the bytes there |
| ShmFiniteQueue.ShmFiniteQueue.PushWait | dcp-vardis-project/dcpimplementation/src/dcp/common/sharedmem_finite_queue.h:282-325 | the first locked section of the waiting push, on memory, is the specified step; buffers stay separate |
| ShmFiniteQueue.ShmFiniteQueue.PushWoken | dcp-vardis-project/dcpimplementation/src/dcp/common/sharedmem_finite_queue.h:311-324 | the section after the wait does not look again at the flag or at fullness |
| ShmFiniteQueue.ShmFiniteQueue.PushWaitRaising | dcp-vardis-project/dcpimplementation/src/dcp/common/sharedmem_finite_queue.h:282-325 | the waiting push whose handler raises: a buffer taken from the free list is in neither ring buffer afterwards |
| ShmFiniteQueue.ShmFiniteQueue.PushNoWait | dcp-vardis-project/dcpimplementation/src/dcp/common/sharedmem_finite_queue.h:349-389 | the push that does not wait reports a full queue, and otherwise appends the payload |
| ShmFiniteQueue.ShmFiniteQueue.PushWaitForce | dcp-vardis-project/dcpimplementation/src/dcp/common/sharedmem_finite_queue.h:411-443 | the forced push reuses the oldest payload's buffer when the queue is full |
| ShmFiniteQueue.ShmFiniteQueue.PopWait | dcp-vardis-project/dcpimplementation/src/dcp/common/sharedmem_finite_queue.h:467-512 | the waiting pop hands over the oldest payload, gives its buffer back, and reports whether there are more |
| ShmFiniteQueue.ShmFiniteQueue.PopNoWait | dcp-vardis-project/dcpimplementation/src/dcp/common/sharedmem_finite_queue.h:533-572 | the same without waiting |
| ShmFiniteQueue.ShmFiniteQueue.PopNoWaitRaising | dcp-vardis-project/dcpimplementation/src/dcp/common/sharedmem_finite_queue.h:557-571 | the pop whose handler raises: the descriptor is in neither ring buffer afterwards and has_data stays as it was |
| ShmFiniteQueue.ShmFiniteQueue.PopAllWait | dcp-vardis-project/dcpimplementation/src/dcp/common/sharedmem_finite_queue.h:591-633 | all payloads are handed over in order and all their buffers given back |
| ShmFiniteQueue.ShmFiniteQueue.PopAllNoWait | dcp-vardis-project/dcpimplementation/src/dcp/common/sharedmem_finite_queue.h:654-690 | the same without waiting |
| ShmFiniteQueue.ShmFiniteQueue.PeekWait | dcp-vardis-project/dcpimplementation/src/dcp/common/sharedmem_finite_queue.h:711-744 | the oldest payload is shown and nothing changes |
| ShmFiniteQueue.ShmFiniteQueue.PeekNoWait | dcp-vardis-project/dcpimplementation/src/dcp/common/sharedmem_finite_queue.h:764-791 | the same without waiting |
| BpControlSegment.BPShmControlSegment.TransmitPayload | dcp-vardis-project/dcpimplementation/src/dcp/bp/bp_shm_control_segment.cc:61-125 | empty and too long payloads are refused and change nothing; otherwise the queue or the one-place buffer of the client's mode, and only it, takes the specified step with the specified answer, lock time-outs included |
| BpControlSegment.BPShmControlSegment.NextForBeacon | dcp-vardis-project/dcpimplementation/src/dcp/bp/bp_transmitter.cc:99-115 | for the next beacon the queue is popped, the buffer popped, or the buffer looked at, as the mode says |
| BpControlSegment.BPShmControlSegment.NextForBeaconRaising | dcp-vardis-project/dcpimplementation/src/dcp/bp/bp_transmitter.cc:99-115 | the same retrieval when serializing the payload raises an exception inside it |
| BpControlSegment.BufferedStoresExactly | dcp-vardis-project/dcpimplementation/src/dcp/bp/bp_shm_control_segment.cc:66-77 | in the modes with a one-place buffer a request stores its payload if and only if the buffer was empty; otherwise the old payload is lost, the new one not stored, and the buffer is stuck |
| BpControlSegment.BufferAnswers | dcp-vardis-project/dcpimplementation/src/dcp/bp/bp_shm_control_segment.cc:66-77 | in the modes with a one-place buffer the answer is accepted exactly if the buffer was empty and the mutex acquired in time, pending if it was not empty; what was there is gone in any case |
| BpControlSegment.QueueAnswers | dcp-vardis-project/dcpimplementation/src/dcp/bp/bp_shm_control_segment.cc:80-125 | dropping the head, a request is stored whenever the mutex is acquired in time; dropping the tail, it is stored if the queue is empty, dropped although accepted if the queue holds its maximum, and waits otherwise |
| BpControlSegment.RepeatedOnlyOnce | dcp-vardis-project/dcpimplementation/src/dcp/bp/bp_shm_control_segment.cc:66-77 | a client in repeat mode has one payload accepted in any run; when a later request has discarded it the buffer is stuck |
| BpControlSegment.DropTailWaitsInstead | dcp-vardis-project/dcpimplementation/src/dcp/bp/bp_shm_control_segment.cc:94-105 | with room for two or more entries the branch that drops the tail is never reached: a request that finds a payload stored waits |
| BpControlSegment.DropHeadKeepsNewest | dcp-vardis-project/dcpimplementation/src/dcp/bp/bp_shm_control_segment.cc:84-91 | a client that drops the head always has its payload accepted, and keeps its newest ones |
| NodeIdentifier.OrderIsLexicographic | dcp-vardis-project/dcpimplementation/src/dcp/common/global_types_constants.h:195-219 | comparing identifiers by their number is comparing their bytes lexicographically, and two identifiers have the same number if and only if they are equal: the order is total and agrees with equality |
| SrpRecords.InsertExactly | dcp-vardis-project/dcpimplementation/src/dcp/srp/srp_store_fixedmem.h:267-314 | a record is held afterwards with its time unless it is the node's own or its neighbour is new and the store full, which alone raises an exception; nobody else's record changes |
| SrpRecords.HeldExactly | dcp-vardis-project/dcpimplementation/src/dcp/srp/srp_store_fixedmem.h:267-376 | in every run a neighbour is held if and only if its last record was let in and no removal, and no scrub that found it timed out, came after it |
| SrpRecords.HeldBecause | dcp-vardis-project/dcpimplementation/src/dcp/srp/srp_store_fixedmem.h:267-314 | what is held says the record, its time, and whether the neighbour was held already when it came |
| SrpRecords.HoldsLatest | dcp-vardis-project/dcpimplementation/src/dcp/srp/srp_store_fixedmem.h:267-314 | after any sequence of insertions, removals and scrubs, what the store holds for a neighbour is the last record given for it, with its time |
| SrpRecords.StaysWithinBounds | dcp-vardis-project/dcpimplementation/src/dcp/srp/srp_store_fixedmem.h:267-314 | the store never holds the node itself nor more neighbours than it has room for |
| SrpRecords.NoLossMeansGapOne | dcp-vardis-project/dcpimplementation/src/dcp/srp/srp_store_fixedmem.h:288-300 | a neighbour of which no record goes missing has the gap estimate one from its second record on, for every weight and across wraps |
| SrpRecords.GapCounts | dcp-vardis-project/dcpimplementation/src/dcp/srp/srp_store_fixedmem.h:286-288 | the gap is the number of steps the sender has counted on, up to 2^32 - 1 of them, across the wrap |
| SrpRecords.NextEstimate | dcp-vardis-project/dcpimplementation/src/dcp/srp/srp_store_fixedmem.h:284-295 | in every run a record moves the gap estimate of a neighbour of two or more records towards its gap by the share 1 - alpha of the distance; the second record sets it to one |
| SrpRecords.AgeIsTrue | dcp-vardis-project/dcpimplementation/src/dcp/common/global_types_constants.h:299-307 | the age in milliseconds is the true one for 2^32 milliseconds, is 0 for times in the future, and starts again after that |
| SrpStore.RecordReplaced | dcp-vardis-project/dcpimplementation/src/dcp/srp/srp_store_fixedmem.h:283-302 | writing a neighbour's record into its own entry changes that neighbour in the map and no other |
| SrpStore.RecordAdded | dcp-vardis-project/dcpimplementation/src/dcp/srp/srp_store_fixedmem.h:306-318 | a free entry taken for a new neighbour is nobody else's; entries stay owned once and their number is conserved |
| SrpStore.RecordDropped | dcp-vardis-project/dcpimplementation/src/dcp/srp/srp_store_fixedmem.h:369-376 | a removal gives the entry back; entries stay owned once and their number is conserved |
| SrpStore.TreeListsExactly | dcp-vardis-project/dcpimplementation/src/dcp/srp/srp_store_fixedmem.h:533-583 | filtering the tree names each accepted neighbour of the map once and no other |
| SrpStore.FixedMemSRPStore.constructor | dcp-vardis-project/dcpimplementation/src/dcp/srp/srp_store_fixedmem.h:188-215 | a new store is empty, with all entries free |
| SrpStore.FixedMemSRPStore.InsertEsdEntry | dcp-vardis-project/dcpimplementation/src/dcp/srp/srp_store_fixedmem.h:267-314 | tree, array and free list together take the step of the plain map, exception included, and keep every entry owned once |
| SrpStore.FixedMemSRPStore.RemoveEsdEntry | dcp-vardis-project/dcpimplementation/src/dcp/srp/srp_store_fixedmem.h:363-376 | exactly the neighbour leaves the map; an unknown one changes nothing |
| SrpStore.FixedMemSRPStore.GetEsdEntry | dcp-vardis-project/dcpimplementation/src/dcp/srp/srp_store_fixedmem.h:390-396 | the latest record of the neighbour, or an exception for an unknown one |
| SrpStore.FixedMemSRPStore.FindNodesToScrub | dcp-vardis-project/dcpimplementation/src/dcp/srp/srp_store_fixedmem.h:533-549 | exactly the neighbours whose age has reached the timeout, each once |
| SrpStore.FixedMemSRPStore.ScrubOnce | dcp-vardis-project/dcpimplementation/src/dcp/srp/srp_scrubber.cc:52-59 | a pass removes exactly the neighbours whose age has reached the timeout and keeps the others' records |
| SrpStore.FixedMemSRPStore.ListMatchingNodeInformation | dcp-vardis-project/dcpimplementation/src/dcp/srp/srp_store_fixedmem.h:553-583 | the list holds the latest record, time and gap estimate of exactly the neighbours whose record matches, each once |
| BpTransmissible.HeaderRoundTrip | dcp-vardis-project/dcpimplementation/src/dcp/bp/bp_transmissible_types.h:98-126 | a header is read back from its 18 bytes as it was written |
| BpTransmissible.NetworkByteOrder | dcp-vardis-project/dcpimplementation/src/dcp/common/area.h:210-235 | numbers of two and four bytes are written most significant byte first |
| Area.ByteVectorAssemblyArea.SerializeUint32 | dcp-vardis-project/dcpimplementation/src/dcp/common/area.h:226-235 | the four bytes go to the cursor, most significant first, exactly if there is room; otherwise nothing is written |
| Area.ByteVectorAssemblyArea.SerializeByteBlock | dcp-vardis-project/dcpimplementation/src/dcp/common/area.h:652-657 | a nonempty block that fits is written at the cursor; an empty or too long one raises and writes nothing |
| Area.ByteVectorDisassemblyArea.DeserializeUint32 | dcp-vardis-project/dcpimplementation/src/dcp/common/area.h:321-336 | four bytes are read, most significant first, exactly if four are left, although only two are asked for beforehand: with two or three left all of them are consumed |
| Area.ByteVectorDisassemblyArea.Resize | dcp-vardis-project/dcpimplementation/src/dcp/common/area.h:154-162 | the end of the area moves, what has been read stays read; nothing stops the new end from lying beyond the vector |
| BpTransmitter.Transmitter.SerializePayload | dcp-vardis-project/dcpimplementation/src/dcp/bp/bp_transmitter.cc:47-66 | payload header and payload are written behind each other exactly if the payload is nonempty and both fit |
| BpTransmitter.Transmitter.Serve | dcp-vardis-project/dcpimplementation/src/dcp/bp/bp_transmitter.cc:69-126 | the turn of one client: its control segment is popped or looked at as its mode says, its payload is written behind what is there, and when writing raises an exception the retrieval ends in it |
| BpTransmitter.Transmitter.AddPayloads | dcp-vardis-project/dcpimplementation/src/dcp/bp/bp_transmitter.cc:155-162 | the loop over the clients' control segments writes what the specification gathers and leaves every client's queue or buffer as it says, also when it ends early |
| BpTransmitter.Transmitter.GenerateBeacon | dcp-vardis-project/dcpimplementation/src/dcp/bp/bp_transmitter.cc:138-189 | the packet is the beacon of exactly the payloads gathered from the clients' control segments, its header written last into the reserved place; no packet without payloads; sequence numbers step only with packets; the clients' queues are afterwards as the specification says, or untouched if nothing was gathered |
| BpGathering.GathersAllOrNothing | dcp-vardis-project/dcpimplementation/src/dcp/bp/bp_transmitter.cc:138-166 | nothing tests beforehand whether payloads fit: there is a beacon if and only if every request is consistent and nonempty and all fit together, and then it carries all of them in the clients' order |
| BpGathering.BreaksBecause | dcp-vardis-project/dcpimplementation/src/dcp/bp/bp_transmitter.cc:69-166 | when there is no beacon, there is a first client to blame: the exit flag is set for a lock that timed out or a wrong length, and an exception is raised by a queue or for a payload that is empty or does not fit behind those before it |
| BpGathering.GatheredArrives | dcp-vardis-project/dcpimplementation/src/dcp/bp/bp_transmitter.cc:138-189 | from the clients of one node to another node of the network: everything gathered is read, whole and in order, whatever padding follows, if and only if no push to a client raises an exception |
| BpBeaconing.GathersOffers | dcp-vardis-project/dcpimplementation/src/dcp/bp/bp_transmitter.cc:155-162 | going through the clients' stores one by one gathers what is gathered from their offers, so there is a beacon exactly when all requests are proper and fit together |
| BpBeaconing.QueuesAfterwards | dcp-vardis-project/dcpimplementation/src/dcp/bp/bp_transmitter.cc:69-162 | each client up to some client has had its turn, those after it are untouched, and the making of the beacon ended at that client unless there is none; what its queue is like then is said, too |
| BpBeaconing.EveryClientContributes | dcp-vardis-project/dcpimplementation/src/dcp/bp/bp_transmitter.cc:69-162 | when every client is in order and all fit together, the beacon carries exactly the oldest payload of each client that has one, in the clients' order, and each such client, unless it repeats, has one less |
| BpBeaconing.RaisingClientLoses | dcp-vardis-project/dcpimplementation/src/dcp/bp/bp_transmitter.cc:77-96 | a client whose payload is empty or does not fit loses it together with its buffer, its flag is wrong afterwards exactly if it was the last one stored, and only in repeat mode it keeps what it has |
| BpReceiving.BeaconRoundTrip | dcp-vardis-project/dcpimplementation/src/dcp/bp/bp_receiver.cc:118-192 | a beacon of 1 to 255 nonempty payloads whose length fits its field, followed by any padding, is read by another node of the network as exactly the (protocol, payload) list it was made of, in order, if and only if no push to a client raises an exception; otherwise a proper prefix is read; each payload is handed over according to its own client and push only |
| BpReceiving.CountedRoundTrip | dcp-vardis-project/dcpimplementation/src/dcp/bp/bp_transmitter.cc:176 | the count field has eight bits: of a beacon of any number of nonempty payloads whose length fits its field, the payloads up to that number modulo 256 are read back unless a push raises an exception, so the whole list is if and only if there are at most 255 |
| BpReceiving.FullCountIsDropped | dcp-vardis-project/dcpimplementation/src/dcp/bp/bp_transmitter.cc:176 | the count field has eight bits: a beacon of a multiple of 256 payloads says it has none and is dropped by every receiver |
| BpReceiving.BeaconHeader | dcp-vardis-project/dcpimplementation/src/dcp/bp/bp_transmitter.cc:164-180 | the header of a beacon says sender, network, length, number of payloads and sequence number as they are |
| BpReceiving.HeaderDecides | dcp-vardis-project/dcpimplementation/src/dcp/bp/bp_transmissible_types.h:135-144 | whatever follows a header, it is nobody's business exactly if its version, magic number or network differs, its sender is the receiver, or it announces nothing, and fatal exactly if it otherwise announces more than follows |
| BpIndicating.ForeignLeavesClients | dcp-vardis-project/dcpimplementation/src/dcp/bp/bp_receiver.cc:129-155 | such a beacon leaves every client as it was |
| BpReceiving.DroppingNeverShifts | dcp-vardis-project/dcpimplementation/src/dcp/bp/bp_receiver.cc:38-114 | for any bytes, which payloads are found does not depend on the receiver's clients or on time-outs: a dropped payload never shifts the ones after it; only an exception ends a reading earlier |
| BpReceiving.FoundIsThere | dcp-vardis-project/dcpimplementation/src/dcp/bp/bp_receiver.cc:166-190 | for any bytes, the payloads found, written again, are a prefix of what was read |
| BpReceiving.NoMoreThanAnnounced | dcp-vardis-project/dcpimplementation/src/dcp/bp/bp_receiver.cc:166-190 | at most the announced number of payloads is found, and exactly that number if and only if the reading is complete |
| BpReceiver.Client.Indicate | dcp-vardis-project/dcpimplementation/src/dcp/bp/bp_receiver.cc:85-114 | a push to a client's queue waits, for a short time, until the client has taken everything; queue and client are afterwards as the specification says, exceptions included |
| BpReceiver.Receiver.DeliverPayload | dcp-vardis-project/dcpimplementation/src/dcp/bp/bp_receiver.cc:38-114 | the payload goes into its client's queue or is skipped, no other client is touched, and in both cases the cursor moves past exactly its bytes; an exception of the queue, or an empty payload that reaches it, ends the reading |
| BpReceiver.Receiver.ProcessReceivedPayload | dcp-vardis-project/dcpimplementation/src/dcp/bp/bp_receiver.cc:118-192 | header tests, resizing and the loop read exactly what the specification of reading says and leave all clients' queues as it says; the exit flag is set exactly for a header that announces more than was received |
| BpIndicating.IndicateExactly | dcp-vardis-project/dcpimplementation/src/dcp/bp/bp_receiver.cc:85-114 | while no buffer of its queue is lost, a client is handed a nonempty payload that fits if and only if the mutex is acquired in time and the client has taken everything stored before the time is up, however much room the queue has; in every case its queue and what it has taken account for the payload exactly if it was handed |
| BpIndicating.ReadsAsFated | dcp-vardis-project/dcpimplementation/src/dcp/bp/bp_receiver.cc:118-192 | with the clients' queues, any bytes are read as for some fate of each push, so all that is said about reading holds with the queues |
| BpIndicating.GivenExactly | dcp-vardis-project/dcpimplementation/src/dcp/bp/bp_receiver.cc:38-114 | for any bytes and any timing each client is given exactly the payloads reported as handed to it, once each and in order |
| BpIndicating.BeaconReachesClients | dcp-vardis-project/dcpimplementation/src/dcp/bp/bp_receiver.cc:118-192 | from a beacon to the clients of another node: everything is read, no exception is raised and no buffer lost, each client is given exactly what was handed to it, and with at most one payload for each client that is what it was in time for |
| BpGathering.GatheredReachesClients | dcp-vardis-project/dcpimplementation/src/dcp/bp/bp_transmitter.cc:138-189 | from the clients of one node to the clients of another, through gathering, beacon, padding and reading: the same |

## Left out

- Sockets, packet capture, threads, mutexes, timers and signals, shared-memory set-up, logging, command-line tools and
  displays: they have no algorithm of their own. Time, lock and wait outcomes are parameters.
- Variable deletion in VarDis and payload confirmations in BP: declared in the repository, not implemented there.
- `SRPVarDisBeaconing`, `SRP.cc`, the local broadcast protocol, mobility models, extraction scripts: thin dispatch or
  reporting.
- The VarDis implementation under `dcp/vardis`: a second implementation of the protocol modelled here.
- Values of VarDis variables are opaque with a length; copying their bytes and the buffers' lifetimes is not modelled.
- RtdbPacket.ParseUndoesWrite: packets are sequences of typed records with lengths, as in the simulator, not bytes.
- Magic number and version of the flooding header, and generation times: never looked at by
  Flooding.cc beyond debug output.
- Rtdb.RTDB.ConstructBeacon: needs a packet size of less than 64 KiB; beyond it the 16-bit section lengths would wrap.
- Keys of the AVL tree are integers; NodeIdentifier.OrderIsLexicographic justifies this for node identifiers.
- Floating-point rounding of the gap estimate: it is a real number here.
- Sizes of records in the SRP store: an entry is named by its index, not by its byte offset.
- ShmFiniteQueue.ShmFiniteQueue.Fill: does not model handlers that write beyond the end of the whole memory block, since
  what that does is undefined; the pushes built on it share this.
- BpReceiver.Client.Indicate: clients retrieve with handlers that raise no exception, before a push and while it waits; the
  bytes of the structure before an indicated payload are a parameter of the payload's length.
- AvlTree.HeightOfThousand: stated for the store's 1000 neighbours; the general bound is AvlTree.BalancedTreesAreBushy.
