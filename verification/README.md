# Verification of the gateway examples

A Dafny model of the parts of the repository that keep state or do arithmetic: the queue, the
progress word and the attribute store of joining devices, libubox's lists, tree loops and
tagged binary format, the epoll server, the mDNS accumulator and the OTBR query chain.

Check everything with `dafny verify dfyconfig.toml`.

| file | what it models |
|---|---|
| Basics.dfy | definitions shared by the others |
| JoinQueue.dfy | `JoinRingQueue`: a machine over sequences and the linked list that refines it |
| JoinWord.dfy | the join word of `Node` |
| AttributeStore.dfy | `Cluster` and `EndpointType` |
| IntrusiveList.dfy, ListFamily.dfy | list.h: one ring, and any number of disjoint rings in one heap |
| Iteration.dfy | loops of list.h and avl.h that run while elements are unlinked or freed |
| ByteOrder.dfy, Blob.dfy, BlobAccessors.dfy, BlobMsg.dfy | utils.h, blob.h and blobmsg.h |
| EpollServer.dfy | the epoll server |
| MdnsAccumulator.dfy | `MdnsMessage` and `MdnsParser` |
| OtbrQueryChain.dfy | the reply callback of ubus_client.c |

A module named `...Spec` holds the pure machine and the theorems about all its runs; the
module beside it holds the classes and loops, each proved equal to that machine step by step.
Operating system, library and loop-body behaviour (malloc, accept, recv, epoll_ctl, stoi, the
Matter parsers, which elements a loop body unlinks) are parameters, so every theorem is for
all of their answers.

## What the code does differently from what it says

- The comment above `JoinRingQueue` asks that nodes be visited in turn. With two or more nodes
  `NextElement` never returns the tail (`TailIsNeverReturned`); the comment holds exactly for
  queues of at most one node (`EveryElementVisitedIff`). Nodes ahead of the tail do get their
  turn, within a bound that only arrivals extend (`WaitIsBounded`). Dropping the test for the
  tail repairs it: then any n calls return all n nodes (`EachOncePerFairRound`).
- `RemoveElement` dereferences null when the element is both cursor and tail. The method returns
  `NullDereference` for exactly that case; it is reachable (`RemovalFaultIsReachable`) but not by
  removing what `NextElement` just returned (`ReturnedElementIsRemovable`, `Serve`).
- `mcount` is 32 bits wide and is written out as such: a queue of 2^32 elements looks empty to
  `PopFront`, and clearing never ends (`ClearEndsIff`).
- `avl_for_element_range_safe` is documented to allow removing the current element. It overruns
  exactly when that element is `last` (`AvlForElementRangeSafe`), and then never ends
  (`OverrunRounds`); the whole-tree form re-reads its end and does not.
- An attribute with a length field of one to three is visited although its payload length has
  wrapped (`VisitedPayloadContained`, `WrappedPayloadIsVisited`). A loop over a container keeps
  inside it exactly when its headers fit (`WalkContainedIff`, `NameHeaderOverrun`).
- The length test of `blob_for_each_attr_len` compares the payload with the bytes at the
  attribute, so it lets up to three bytes too many through. Whatever the contents are, the loop
  keeps to the available bytes exactly when the last four byte slot of the payload does
  (`LengthTestSafeIff`, `LengthTestOverrun`).
- Copying an attribute loses a name of 2^16 bytes or more, which the padding of a name header
  has room for (`CopyPreservesMeaning`, `LongNameWitness`).
- The FULL value of the subscribe stage cannot be reached by its four flags (`FourFlagStage`).
- The sixth slot of the epoll server's table is never marked free, so at most four clients are
  tracked (`OnlyFourSlots`, `TrackedIffSlotFree`); the others are still served.
- A resolved node's host name can come from an older SRV record than its port
  (`HostCanBeStale`); it belongs to the port exactly when the record that gave the port names a
  host (`HostBelongsIff`).
- A reply that holds more than the asked parameter can make the OTBR chain skip it for good or
  ask again for known ones (`ExtraMemberSkips`, `HarmfulReply`). The chain stays in step exactly
  when the member found first is the asked one, or a number that cannot be read (`StepKeptIff`).

## Model

| member | source | states |
|---|---|---|
| `JoinQueueSpec.RetrySchedule` | devices_struct/DeviceDefine.h:398-410 | with n >= 2 elements, call j of a round returns element (phase + j) wrapped at n - 1, from any cursor |
| `JoinQueueSpec.SoleElementSchedule` | devices_struct/DeviceDefine.h:398-410 | with one element every call returns it |
| `JoinQueueSpec.RoundIsRotation` | devices_struct/DeviceDefine.h:398-410 | n - 1 calls return the first n - 1 elements as a rotation and end in the phase they began in |
| `JoinQueueSpec.EachOncePerRound` | devices_struct/DeviceDefine.h:398-410 | in any n - 1 calls each of the first n - 1 elements is returned by exactly one call |
| `JoinQueueSpec.TailIsNeverReturned` | devices_struct/DeviceDefine.h:401-407 | no number of calls returns the tail of two or more elements |
| `JoinQueueSpec.EveryElementVisitedIff` | devices_struct/DeviceDefine.h:297-300 | every element is eventually visited exactly when there is at most one |
| `JoinQueueSpec.CallAfterArrivals` | devices_struct/DeviceDefine.h:398-410 | a call after arrivals goes on with the element behind the one just returned, also when that was the tail; after a single element it starts over |
| `JoinQueueSpec.FairRoundIsRotation` | devices_struct/DeviceDefine.h:398-410 | without the test for the tail, n calls return all n elements as a rotation and end in the phase they began in |
| `JoinQueueSpec.EachOncePerFairRound` | devices_struct/DeviceDefine.h:297-300 | without that test, each element is returned by exactly one of any n calls, the tail included |
| `JoinQueueSpec.ArrivalUnblocksTail` | devices_struct/DeviceDefine.h:312-333 | after an arrival the former tail is returned within one round |
| `JoinQueueSpec.WaitIsBounded` | devices_struct/DeviceDefine.h:297-300 | in any run of arrivals, retries and departures, a device that stays ahead of the tail gets its turn within its distance plus the number of arrivals |
| `JoinQueueSpec.AttemptBringsCloser` | devices_struct/DeviceDefine.h:398-410 | every retry of another device, removed or not, shortens the distance by exactly one |
| `JoinQueueSpec.ArrivalCostsAtMostOne` | devices_struct/DeviceDefine.h:312-333 | an arrival lengthens it by at most one |
| `JoinQueueSpec.RemovalFaultIsReachable` | devices_struct/DeviceDefine.h:354-357 | two arrivals and one call lead to a state in which removing the tail faults |
| `JoinQueueSpec.ReturnedElementIsRemovable` | devices_struct/DeviceDefine.h:351-378 | the element NextElement returned can be removed without fault, also after later arrivals |
| `JoinQueueSpec.RemoveAtFacts` | devices_struct/DeviceDefine.h:351-378 | removal keeps the cursor on its element or moves it to the removed element's successor |
| `JoinQueueSpec.PopFrontFacts` | devices_struct/DeviceDefine.h:335-349 | popping keeps the cursor on its element or moves it from the head to the next one |
| `JoinQueueSpec.AttemptByPosition` | devices_struct/DeviceDefine.h:398-410 | which positions survive a retry depends on cursor and length alone |
| `JoinQueueSpec.ServedRunConserves` | devices_struct/DeviceDefine.h:312-410 | in any run of arrivals and retries, devices there or stored are those still waiting plus those whose retry finished |
| `JoinQueueSpec.ClearEndsIff` | devices_struct/DeviceDefine.h:380-386 | popping until the head is null ends exactly when the length is below 2^32 |
| `JoinQueueSpec.RunConserves` | devices_struct/DeviceDefine.h:312-410 | over any run of all five operations, initial and pushed elements are those in the queue plus those removed |
| `JoinQueueSpec.RepeatedSteps` | devices_struct/DeviceDefine.h:335-410 | runs of calls are the retry schedule and runs of pops are clearing |
| `JoinQueue.JoinRingQueue.constructor` | devices_struct/DeviceDefine.h:304-309 | a new queue is empty with a null cursor |
| `JoinQueue.JoinRingQueue.PushBack` | devices_struct/DeviceDefine.h:312-333 | links a fresh element behind the tail, or changes nothing when malloc fails; keeps chain, back-links, tail, count and cursor right |
| `JoinQueue.JoinRingQueue.PopFront` | devices_struct/DeviceDefine.h:335-349 | drops the head unless the counter is zero, moving a cursor on it; the rest of the chain stays |
| `JoinQueue.JoinRingQueue.RemoveElement` | devices_struct/DeviceDefine.h:351-378 | refuses, faults or removes, each exactly when; a removal takes that element out of the chain and keeps all links right |
| `JoinQueue.JoinRingQueue.LeaveElement` | devices_struct/DeviceDefine.h:354-357 | faults exactly for a cursor on the tail, otherwise moves the cursor and one back-link |
| `JoinQueue.JoinRingQueue.TakeOut` | devices_struct/DeviceDefine.h:358-377 | with the cursor off it, the element leaves the chain and the count, and the queue is valid again |
| `JoinQueue.JoinRingQueue.Unlink` | devices_struct/DeviceDefine.h:358-374 | head, tail, only and middle element: the remaining chain is linked both ways |
| `JoinQueue.JoinRingQueue.ClearAllElements` | devices_struct/DeviceDefine.h:380-386 | ends, with an empty queue and a null cursor |
| `JoinQueue.JoinRingQueue.NextElement` | devices_struct/DeviceDefine.h:398-410 | returns the scheduled element, or null on an empty queue, and moves only the cursor |
| `JoinQueue.JoinRingQueue.Execute` | devices_struct/DeviceDefine.h:312-410 | each operation that does not fault and ends has its effect on the contents |
| `JoinQueue.JoinRingQueue.Run` | devices_struct/DeviceDefine.h:312-410 | any run of the five operations on the linked list refines the run on contents that `RunConserves` is about |
| `JoinQueue.JoinRingQueue.Retry` | devices_struct/DeviceDefine.h:297-300 | asking for the next element and removing it never faults |
| `JoinQueue.JoinRingQueue.RetryInView` | devices_struct/DeviceDefine.h:297-300 | the same in terms of the queue's contents |
| `JoinQueue.JoinRingQueue.Serve` | devices_struct/DeviceDefine.h:297-300 | any run of arrivals and retries refines the same run on sequences of contents |
| `JoinWord.WordRefinesRecord` | devices_struct/DeviceDefine.h:202-230 | from any initial word, since the last SetJoinStage: stage set, union of flags, retries up to 255, bits 16-23 zero |
| `JoinWord.PackRetry` | devices_struct/DeviceDefine.h:224-230 | incrementing the count never carries into the status |
| `JoinWord.FourFlagStage` | devices_struct/DeviceDefine.h:48-58 | four flags reach the announce FULL value exactly when all were reported, and never the subscribe one |
| `JoinWord.SevenFlagStage` | devices_struct/DeviceDefine.h:60-67 | seven flags reach the utility FULL value exactly when all were reported |
| `JoinWord.FlagIsReported` | devices_struct/DeviceDefine.h:216-219 | a bit of the status is set exactly when its flag was reported |
| `JoinWord.Node.SetJoinStage` | devices_struct/DeviceDefine.h:206-211 | the record becomes the new stage with no flags and no retries, and the time stamp is cleared |
| `JoinWord.Node.SetJoinStatus` | devices_struct/DeviceDefine.h:216-219 | the record's status becomes its union with the flag, nothing else changes |
| `JoinWord.Node.Reported` | devices_struct/DeviceDefine.h:216-219 | the word of a record with the flag added is the word of the new record |
| `JoinWord.Node.JoinReCountIncrease` | devices_struct/DeviceDefine.h:224-230 | the record's retries go up by one, to at most 255, nothing else changes |
| `JoinWord.Node.Increased` | devices_struct/DeviceDefine.h:224-230 | the word of a record with one retry more is the word of the new record |
| `JoinWord.Node.GetJoinStage` | devices_struct/DeviceDefine.h:202-205 | returns the record's stage, from any word |
| `JoinWord.Node.GetJoinStatus` | devices_struct/DeviceDefine.h:212-215 | returns the record's status |
| `JoinWord.Node.GetJoinReCount` | devices_struct/DeviceDefine.h:220-223 | returns the record's retries |
| `JoinWord.Node.Execute` | devices_struct/DeviceDefine.h:206-230 | an operation on the record is the operation on the word |
| `JoinWord.Node.Perform` | devices_struct/DeviceDefine.h:206-230 | any run of operations leaves the word that `WordRefinesRecord` is about |
| `AttributeStoreSpec.LookupAfterUpsert` | devices_struct/DeviceDefine.h:108-128 | a write is seen under its id with the first type; other ids read as before |
| `AttributeStoreSpec.UpsertAt` | devices_struct/DeviceDefine.h:108-118 | the first match is changed in place; without one the attribute comes last |
| `AttributeStoreSpec.UpsertIds` | devices_struct/DeviceDefine.h:108-118 | attribute ids stay unique in a cluster |
| `AttributeStoreSpec.ReadAfterUpdate` | devices_struct/DeviceDefine.h:149-166 | an update changes exactly the read it is about, and only if the cluster is known |
| `AttributeStoreSpec.ReadAfterCreate` | devices_struct/DeviceDefine.h:141-146 | creating clusters makes ids known and changes no read |
| `AttributeStoreSpec.KnownIffCreated` | devices_struct/DeviceDefine.h:141-159 | in any run a cluster is known exactly when some create listed it |
| `AttributeStoreSpec.ReadsLastWrite` | devices_struct/DeviceDefine.h:149-166 | in any run a read gives the last effective value under the first effective type |
| `AttributeStoreSpec.EntriesStayProper` | devices_struct/DeviceDefine.h:141-166 | in any run ids are unique per cluster and later entries of a duplicate cluster id stay empty |
| `AttributeStore.Cluster.AddOrUpdateAttributeData` | devices_struct/DeviceDefine.h:108-118 | the loop is the first-match upsert |
| `AttributeStore.Cluster.FindAttributeData` | devices_struct/DeviceDefine.h:122-128 | the loop is the first-match lookup |
| `AttributeStore.EndpointType.CreateClusterElements` | devices_struct/DeviceDefine.h:141-146 | appends one empty entry per id, in order |
| `AttributeStore.EndpointType.AppendClusters` | devices_struct/DeviceDefine.h:141-146 | the loop adds a fresh entry per id and keeps the others |
| `AttributeStore.EndpointType.UpdateClusterData` | devices_struct/DeviceDefine.h:149-159 | updates the first matching entry and no other; -1 and no change without one |
| `AttributeStore.EndpointType.FindClusterData` | devices_struct/DeviceDefine.h:160-166 | finds the first matching entry exactly when there is one |
| `AttributeStore.EndpointType.Execute` | devices_struct/DeviceDefine.h:141-159 | either operation has the effect `ReadAfterCreate` and `ReadAfterUpdate` are about |
| `AttributeStore.EndpointType.Perform` | devices_struct/DeviceDefine.h:141-159 | any run of creations and updates leaves the entries that `ReadsLastWrite` is about |
| `IntrusiveList.InitListHead` | ubus_example/lib/inc/libubox/list.h:54-58 | makes a ring of one |
| `IntrusiveList.AddBetween` | ubus_example/lib/inc/libubox/list.h:94-103 | inserts after the k-th node of a ring, touching three nodes |
| `IntrusiveList.Unlink` | ubus_example/lib/inc/libubox/list.h:80-85 | removes the k-th member of a ring, touching its two neighbours; no effect on a node linked to itself only |
| `IntrusiveList.Delete` | ubus_example/lib/inc/libubox/list.h:87-92 | the same, and clears the entry's links |
| `IntrusiveList.SpliceBetween` | ubus_example/lib/inc/libubox/list.h:164-180 | inserts all members of another ring after the k-th node, also when either ring is empty |
| `ListFamily.Attach` | ubus_example/lib/inc/libubox/list.h:94-103 | insertion of a node that is in no list or linked to itself only, every other list unchanged |
| `ListFamily.PlacedBehindAt` | ubus_example/lib/inc/libubox/list.h:138-142 | putting nodes behind a node of disjoint lists changes one list, at that node's position |
| `ListFamily.PlacedBeforeAt` | ubus_example/lib/inc/libubox/list.h:144-148 | the same in front of a node; in front of the head is the end |
| `ListFamily.ListAdd` | ubus_example/lib/inc/libubox/list.h:138-142 | the entry comes behind the given node: first member for a head, next to it for a member |
| `ListFamily.ListAddTail` | ubus_example/lib/inc/libubox/list.h:144-148 | the entry comes in front of the given node: last member for a head |
| `ListFamily.Detach` | ubus_example/lib/inc/libubox/list.h:80-85 | the entry, a member or linked to itself only, leaves its list and is in none |
| `ListFamily.DeletedNodes` | ubus_example/lib/inc/libubox/list.h:80-85 | a deleted node is in no list and no other node enters one |
| `ListFamily.ListDel` | ubus_example/lib/inc/libubox/list.h:87-92 | deletion with cleared links |
| `ListFamily.ListDelInit` | ubus_example/lib/inc/libubox/list.h:105-110 | deletion that leaves the entry an empty list of its own, also when it already was |
| `ListFamily.ListMove` | ubus_example/lib/inc/libubox/list.h:150-155 | deletion, then addition behind a head or member, within one list, across two or from none |
| `ListFamily.ListMoveTail` | ubus_example/lib/inc/libubox/list.h:157-162 | deletion, then addition in front of a head or member |
| `ListFamily.ReusableAfterDelInit` | ubus_example/lib/inc/libubox/list.h:105-110 | after list_del_init, deleting again changes nothing, and adding or moving the node is moving it from where it was |
| `ListFamily.AddAt` | ubus_example/lib/inc/libubox/list.h:138-148 | list_add puts the node behind the k-th node of a list, list_add_tail in front of the next one, every other list unchanged |
| `ListFamily.AddAtHead` | ubus_example/lib/inc/libubox/list.h:138-148 | at a head, list_add makes the node the first member and list_add_tail the last |
| `ListFamily.InitAt` | ubus_example/lib/inc/libubox/list.h:54-58 | an empty list of the node, and no other list changes |
| `ListFamily.DeleteAt` | ubus_example/lib/inc/libubox/list.h:87-110 | deleting the k-th member leaves the others in order, and list_del_init makes it an empty list |
| `ListFamily.DeleteSelf` | ubus_example/lib/inc/libubox/list.h:87-110 | deleting a self-linked node takes it out of the family, list_del_init changes nothing |
| `ListFamily.MoveAt` | ubus_example/lib/inc/libubox/list.h:150-162 | the moves put the node behind the k-th node, or in front of the next, of the lists without it |
| `ListFamily.SpliceAt` | ubus_example/lib/inc/libubox/list.h:182-206 | the four splices put the source's members behind the k-th node or in front of the next, and keep, drop or empty the source |
| `ListFamily.SpliceAtHead` | ubus_example/lib/inc/libubox/list.h:182-192 | at a head, list_splice gives source then destination and list_splice_tail destination then source |
| `ListFamily.Splice` | ubus_example/lib/inc/libubox/list.h:164-180 | splice at any position of one list of a family, every other list unchanged |
| `ListFamily.ListSplice` | ubus_example/lib/inc/libubox/list.h:182-186 | the source's members come behind the given head or member of another list; the source head is untouched |
| `ListFamily.ListSpliceTail` | ubus_example/lib/inc/libubox/list.h:188-192 | the source's members come in front of the given head or member |
| `ListFamily.ResetHead` | ubus_example/lib/inc/libubox/list.h:54-58 | re-initialising a head outside all lists makes it an empty list |
| `ListFamily.ListSpliceInit` | ubus_example/lib/inc/libubox/list.h:194-199 | the splice behind a node, and the source is an empty list |
| `ListFamily.ListSpliceTailInit` | ubus_example/lib/inc/libubox/list.h:201-206 | the splice in front of a node, and the source is an empty list |
| `ListFamily.NodesOfApply` | ubus_example/lib/inc/libubox/list.h:54-206 | nodes enter lists only by being initialised or added |
| `ListFamily.Execute` | ubus_example/lib/inc/libubox/list.h:54-206 | each of the eleven operations, at heads and at members, is its counterpart on families of sequences |
| `ListFamily.Run` | ubus_example/lib/inc/libubox/list.h:54-206 | any run of operations on disjoint lists, nodes leaving and coming back, refines the run on sequences; every node stays in at most one list |
| `Iteration.ListForEachSafe` | ubus_example/lib/inc/libubox/list.h:119-120 | visits every original element once in order while the body unlinks any of them; survivors keep their order |
| `Iteration.Visit` | ubus_example/lib/inc/libubox/list.h:87-92 | one loop body: unlinks the current element or nothing |
| `Iteration.SuccessorKept` | ubus_example/lib/inc/libubox/list.h:119-120 | until visited an element keeps its original successor |
| `Iteration.AvlForElementRange` | ubus_example/lib/inc/libubox/avl.h:333-336 | visits exactly the segment from first to last, nothing when first is the successor of last, and for any later first the rest, the list head and the beginning up to last |
| `Iteration.AvlForEachElement` | ubus_example/lib/inc/libubox/avl.h:366-369 | visits all elements in order, none of an empty tree |
| `Iteration.AvlForEachElementSafe` | ubus_example/lib/inc/libubox/avl.h:503-506 | visits every element once although any, even the last, is deleted; list and count are those of the survivors |
| `Iteration.RangeGuard` | ubus_example/lib/inc/libubox/avl.h:466-469 | the guard is false exactly behind a `last` that is still linked, and never again once `last` is gone |
| `Iteration.AvlForElementRangeSafe` | ubus_example/lib/inc/libubox/avl.h:466-469 | visits the range exactly when `last` stays linked; otherwise it visits every element to the end of the tree and arrives at the list head |
| `Iteration.OverrunRounds` | ubus_example/lib/inc/libubox/avl.h:466-469 | once `last` is gone the loop makes any number of further rounds, whatever is unlinked: it does not end |
| `Iteration.AvlRemoveAllElements` | ubus_example/lib/inc/libubox/avl.h:545-551 | visits all elements once, ends with an empty tree, and reads no freed element |
| `Iteration.FreeRounds` | ubus_example/lib/inc/libubox/avl.h:550-551 | the loop proper, with every visited element cleared |
| `ByteOrder.PutIsBigEndian16` | ubus_example/lib/inc/libubox/blob.h:218-223 | either host stores most significant byte first |
| `ByteOrder.PutIsBigEndian32` | ubus_example/lib/inc/libubox/blob.h:225-230 | either host stores most significant byte first |
| `ByteOrder.PutIsBigEndian64` | ubus_example/lib/inc/libubox/blob.h:232-237 | either host stores most significant byte first |
| `ByteOrder.SwapReversesBytes64` | ubus_example/lib/inc/libubox/utils.h:110-118 | the swap macro reverses all eight bytes |
| `ByteOrder.RoundTrip16` | ubus_example/lib/inc/libubox/blob.h:131-136 | value and bytes are the same for any pair of writing and reading host |
| `ByteOrder.RoundTrip32` | ubus_example/lib/inc/libubox/blob.h:138-143 | value and bytes are the same for any pair of writing and reading host |
| `ByteOrder.RoundTrip64` | ubus_example/lib/inc/libubox/blob.h:145-152 | the same for one swapped word written and two words read |
| `BlobAccessors.LengthAccessorIsMask` | ubus_example/lib/inc/libubox/blob.h:99-103 | the length accessor is the masked big-endian word on either host |
| `BlobAccessors.IdAccessorIsMask` | ubus_example/lib/inc/libubox/blob.h:83-88 | the id accessor is the masked and shifted word on either host |
| `BlobAccessors.ExtendedAccessorIsMask` | ubus_example/lib/inc/libubox/blob.h:90-94 | testing the raw word with a converted mask is the flag on either host |
| `BlobAccessors.PadAccessorIsMask` | ubus_example/lib/inc/libubox/blob.h:117-123 | adding three and masking the two low bits gives the padded length on either host |
| `Blob.RawLen` | ubus_example/lib/inc/libubox/blob.h:108-112 | the raw length is the length field even when the payload length wrapped |
| `Blob.Pad4IsLeast` | ubus_example/lib/inc/libubox/blob.h:117-123 | the padded length is the least multiple of four that is not smaller |
| `Blob.WalkTiles` | ubus_example/lib/inc/libubox/blob.h:244-248 | for any bytes, visited attributes are contiguous, disjoint, inside the run, and the walk stops only where none follows |
| `Blob.WalkAligned` | ubus_example/lib/inc/libubox/blob.h:244-248 | visited attributes are at multiples of four |
| `Blob.VisitedPayloadContained` | ubus_example/lib/inc/libubox/blob.h:99-103 | a visited payload is inside its extent exactly when the length field is at least four |
| `Blob.WrappedPayloadIsVisited` | ubus_example/lib/inc/libubox/blob.h:99-103 | four bytes with a visited attribute whose payload length has wrapped |
| `Blob.StaysWithinRun` | ubus_example/lib/inc/libubox/blob.h:244-248 | a loop reads headers and visits attributes only inside its run |
| `Blob.StaysWithinIff` | ubus_example/lib/inc/libubox/blob.h:244-248 | how far a loop reaches is decided where it ends |
| `Blob.ForEachAttr` | ubus_example/lib/inc/libubox/blob.h:244-248 | the loop ends for any bytes, reads headers only inside the run and visits that walk |
| `Blob.ForEachAttrLen` | ubus_example/lib/inc/libubox/blob.h:258-263 | visits all members or none, decided by the first length test, also when the length field reaches beyond the buffer |
| `Blob.MembersTile` | ubus_example/lib/inc/libubox/blob.h:258-263 | the members tile the payload from behind the header to the end the length field gives |
| `Blob.LengthTestKeepsIff` | ubus_example/lib/inc/libubox/blob.h:258-263 | for given bytes, the tested loop keeps to the available ones exactly when the last slot of the payload does or the walk breaks off in front of it |
| `Blob.LengthTestSafeIff` | ubus_example/lib/inc/libubox/blob.h:258-263 | for a given header, it does so whatever follows exactly when the last slot of the payload is available |
| `Blob.LengthTestOverrun` | ubus_example/lib/inc/libubox/blob.h:258-263 | nine available bytes with which a header behind them is read |
| `BlobMsg.NestedDataIsShorter` | ubus_example/lib/inc/libubox/blobmsg.h:72-100 | data of an intact attribute lies inside it and is at least a header shorter |
| `BlobMsg.WalkContainedIff` | ubus_example/lib/inc/libubox/blobmsg.h:315-320 | the loop over a container reads and visits only inside it exactly when its header and, if named, its name header fit its length |
| `BlobMsg.NameHeaderOverrun` | ubus_example/lib/inc/libubox/blobmsg.h:89-100 | eight bytes with which it starts outside the container |
| `BlobMsg.ReadInsideIff` | ubus_example/lib/inc/libubox/blobmsg.h:315-320 | for any bytes, reading a message recursively keeps inside the attributes at every level exactly when the tree that is read has no broken field |
| `BlobMsg.FrameReadsBack` | ubus_example/lib/inc/libubox/blobmsg.h:50-100 | id, flag, name, data and extent of a laid-out attribute are what the accessors read |
| `BlobMsg.FieldsReadBack` | ubus_example/lib/inc/libubox/blobmsg.h:315-320 | anywhere in a buffer, a laid-out run of fields reads back as those fields |
| `BlobMsg.MessageRoundTrip` | ubus_example/lib/inc/libubox/blobmsg.h:50-100 | laying out any well-formed nested message and walking it gives the same tree |
| `BlobMsg.EncodingIsInjective` | ubus_example/lib/inc/libubox/blobmsg.h:172-173 | different well-formed messages have different bytes |
| `BlobMsg.AttributeByNumbers` | ubus_example/lib/inc/libubox/blobmsg.h:25-29 | flag, id, extent and data by the bytes, and a body that is nested exactly for ids 1 and 2 |
| `BlobMsg.SampleLayout` | ubus_example/lib/inc/libubox/blobmsg.h:50-100 | the bytes of one named, nested message and the tree they are read as |
| `BlobMsg.SameFields` | ubus_example/lib/inc/libubox/blobmsg.h:315-320 | for any bytes, what a run means does not depend on where it is |
| `BlobMsg.CopyFits` | ubus_example/lib/inc/libubox/blobmsg.h:220-225 | the copy of an intact attribute whose name ends in front of its data fits the header exactly when the name is shorter than 2^16 |
| `BlobMsg.CopyPreservesMeaning` | ubus_example/lib/inc/libubox/blobmsg.h:220-225 | an intact attribute whose name ends in front of its data, be it in the padding, reads the same after being copied exactly when the name is shorter than 2^16 |
| `BlobMsg.LongNameWitness` | ubus_example/lib/inc/libubox/blobmsg.h:220-225 | an attribute whose copy reads differently |
| `BlobMsg.ReadName` | ubus_example/lib/inc/libubox/blobmsg.h:61-65 | the name is the bytes before the first NUL |
| `BlobMsg.ReadField` | ubus_example/lib/inc/libubox/blobmsg.h:67-100 | reading one attribute through the accessors is its decoding |
| `BlobMsg.ReadFields` | ubus_example/lib/inc/libubox/blobmsg.h:315-320 | the loop with a reading body ends and returns the decoding, containers included |
| `EpollSpec.InitialOk` | linux_socket_example/server.c:338-361 | the invariant holds after set-up |
| `EpollSpec.AcceptKeepsInv` | linux_socket_example/server.c:392-408 | accepting a fresh descriptor keeps the invariant |
| `EpollSpec.CloseKeepsInv` | linux_socket_example/server.c:418-435 | closing an open one keeps it |
| `EpollSpec.CloseKeepsTable` | linux_socket_example/server.c:421-426 | a closed descriptor is in no client slot |
| `EpollSpec.HandleKeepsInv` | linux_socket_example/server.c:383-444 | handling any event keeps it |
| `EpollSpec.ClosedExactlyBy` | linux_socket_example/server.c:410-435 | a connection is closed, deregistered and taken out of its slot exactly by its own event with recv answering 0 |
| `EpollSpec.OpenedExactlyBy` | linux_socket_example/server.c:383-413 | a descriptor becomes open exactly by an accept that answered with it, as the next connection |
| `EpollSpec.ExitedExactlyBy` | linux_socket_example/server.c:392-413 | the server exits exactly when accept, registering or deregistering fails |
| `EpollSpec.TrackedIffSlotFree` | linux_socket_example/server.c:403-408 | a new client gets a slot exactly when one of slots 1 to 4 is free |
| `EpollSpec.OnlyFourSlots` | linux_socket_example/server.c:338-341 | a slot holding a client is 1, 2, 3 or 4 |
| `EpollSpec.OthersKeepTheirConnection` | linux_socket_example/server.c:383-444 | an event leaves every other descriptor with its connection |
| `EpollSpec.BatchIsNeverStale` | linux_socket_example/server.c:380-446 | at every event boundary the invariant holds and remaining events are about the connections they were reported for |
| `EpollSpec.BatchEffect` | linux_socket_example/server.c:380-446 | a batch closes the connections whose events read 0, as they were when it was reported, and accepts one per listener event |
| `EpollSpec.BatchExitsIff` | linux_socket_example/server.c:380-446 | a batch ends the server exactly when one of its events is fatal |
| `EpollSpec.EveryRunKeepsInv` | linux_socket_example/server.c:362-447 | in every run: registered = listener + open clients, table as stated, each connection open or closed exactly once |
| `EpollSpec.ClosedInAnyRun` | linux_socket_example/server.c:362-447 | in every run the closed connections are those whose recv answered 0, in order |
| `EpollSpec.RunExitsIff` | linux_socket_example/server.c:362-447 | a run ends exactly when a wait fails or one of its events is fatal |
| `EpollSpec.NoStaleEventInAnyRun` | linux_socket_example/server.c:362-447 | no run handles an event for another connection than its own, even when numbers are reused |
| `EpollServer.Table.constructor` | linux_socket_example/server.c:338-352 | slot 0 the listener, 1 to 4 free, 5 zero |
| `EpollServer.Table.Replace` | linux_socket_example/server.c:403-408 | the slot loop changes the first match or nothing |
| `EpollServer.Table.HandleEvent` | linux_socket_example/server.c:383-444 | one event, including the exits |
| `EpollServer.Table.HandleBatch` | linux_socket_example/server.c:380-446 | one batch, stopped by an exit |
| `EpollServer.Table.ServeAll` | linux_socket_example/server.c:362-447 | any number of waits |
| `MdnsSpec.PortFromLastSrv` | mdns_parse_example/MdnsParser.cpp:152-178 | the port flag, port and peer id are those of the last operational SRV record |
| `MdnsSpec.HostFromLastTarget` | mdns_parse_example/MdnsParser.cpp:154-158 | the host name is that of the last operational SRV record naming one |
| `MdnsSpec.AddressFromLast` | mdns_parse_example/MdnsParser.cpp:285-324 | the address is the last operational one with no failed address record after it |
| `MdnsSpec.FirstAddressesKept` | mdns_parse_example/MdnsParser.cpp:209-218 | a discovered node keeps the first matching addresses in order, up to the limit |
| `MdnsSpec.FoundFromLast` | mdns_parse_example/MdnsParser.cpp:181-195 | port, host name and instance name of a discovered node are the last ones reported, instance names by PTR records too |
| `MdnsSpec.TextsKept` | mdns_parse_example/MdnsParser.cpp:233-328 | each TXT record goes to one kind of node, in order; the list of texts stands for the library's fold of them into fields |
| `MdnsSpec.ResolvedExactlyWhen` | mdns_parse_example/MdnsParser.cpp:136-150 | exactly when a resolved node is delivered, and all of what it carries |
| `MdnsSpec.FoundExactlyWhen` | mdns_parse_example/MdnsParser.cpp:136-143 | exactly when a discovered node is delivered, and all of what it carries |
| `MdnsSpec.OneFoundRecord` | mdns_parse_example/MdnsParser.cpp:181-195 | the delivery of one commissioning SRV record, written out |
| `MdnsSpec.SelectedByName` | mdns_parse_example/MdnsParser.cpp:233-328 | which records the three service names select for which field, operational names first but for texts |
| `MdnsSpec.InterleavingIsIrrelevant` | mdns_parse_example/MdnsParser.cpp:136-150 | packets with equal subsequences of each kind of record deliver the same, whatever the validity test |
| `MdnsSpec.HostCanBeStale` | mdns_parse_example/MdnsParser.cpp:152-158 | a packet whose delivery mixes host name and port of two records |
| `MdnsSpec.HostBelongsIff` | mdns_parse_example/MdnsParser.cpp:152-178 | the record that gave the port determines the delivered host name exactly when it names a host |
| `MdnsAccumulator.HasQNamePart` | mdns_parse_example/MdnsParser.cpp:85-95 | whether a part occurs in a name |
| `MdnsAccumulator.MdnsMessage.OnOperationalSrvRecord` | mdns_parse_example/MdnsParser.cpp:152-178 | effect of an operational SRV record, with both failure exits |
| `MdnsAccumulator.MdnsMessage.OnCommissionableNodeSrvRecord` | mdns_parse_example/MdnsParser.cpp:181-195 | effect of a commissioning SRV record |
| `MdnsAccumulator.MdnsMessage.OnDiscoveredNodeIPAddress` | mdns_parse_example/MdnsParser.cpp:209-218 | appends an address below the limit, with the interface |
| `MdnsAccumulator.MdnsMessage.OnResource` | mdns_parse_example/MdnsParser.cpp:233-328 | effect of any record |
| `MdnsAccumulator.MdnsParser.OnMdnsPacketData` | mdns_parse_example/MdnsParser.cpp:344-353 | at most one delivery per packet, none for a packet that fails to parse |
| `OtbrSpec.ChosenIff` | ubus_example/ubus_client.c:52-85 | the callback takes the present member it looks for first |
| `OtbrSpec.ChosenInOrder` | ubus_example/ubus_client.c:52-83 | the callback looks for PanId, NetworkName, Channel, rloc16, ExtPanId, Networkkey, pskc |
| `OtbrSpec.AskedInOrder` | ubus_example/ubus_client.c:52-83 | the queries are Channel, PanId, NetworkName, rloc16, ExtPanId, Networkkey, pskc |
| `OtbrSpec.ThrowsExactlyFor` | ubus_example/ubus_client.c:54-83 | only PanId and rloc16 can throw; the other members are stored whatever their text is |
| `OtbrSpec.ActKeepsStep` | ubus_example/ubus_client.c:48-88 | a proper reply or a loss keeps the chain in step |
| `OtbrSpec.EveryRunInStep` | ubus_example/ubus_client.c:48-88 | in every run: at most one open query, known parameters a prefix of the order, at most seven replies |
| `OtbrSpec.AnsweredChainCompletes` | ubus_example/ubus_client.c:52-83 | a chain whose queries are all answered ends with the seven parameters as sent and nothing open |
| `OtbrSpec.StepKeptIff` | ubus_example/ubus_client.c:52-85 | the chain stays in step exactly when a success reply's first member is the asked one, or a number that cannot be read |
| `OtbrSpec.HarmfulReply` | ubus_example/ubus_client.c:52-83 | any other reply makes the chain skip the asked parameter or ask again for known ones |
| `OtbrSpec.MissedForGood` | ubus_example/ubus_client.c:48-88 | a skipped parameter is never stored, whatever proper replies and losses follow |
| `OtbrSpec.SkippedInEveryRun` | ubus_example/ubus_client.c:48-88 | a reply that gives a later parameter makes every proper continuation miss the asked one |
| `OtbrSpec.ExtraMemberSkips` | ubus_example/ubus_client.c:52-83 | after a first reply with channel and PAN id the chain goes on to its end and never stores the channel |
| `OtbrQueryChain.OtbrClient.OnMessage` | ubus_example/ubus_client.c:38-95 | stores one field and asks one query, ignores, or throws, each exactly when |
| `OtbrQueryChain.OtbrClient.Receive` | ubus_example/ubus_client.c:38-95 | one reply or loss has the effect of the chain's action on fields and open queries |
| `OtbrQueryChain.OtbrClient.Serve` | ubus_example/ubus_client.c:38-95 | any run of replies and losses refines the chain; in a proper run the queries sent are those answered plus those open |

## Left out

- `emberAfPluginLinkedListSpecialElement`: it only adds a second way to set the cursor, and every theorem is for any cursor.
- `Devices`, its mutex and its shared pointers: a map with library operations.
- Reuse of freed memory: `Element.Free` makes the links of a freed element arbitrary, and the memory never comes back as another element.
- Building messages: blob_put, blobmsg_add_field and the buffer functions are only declared in the repository; `EncodeFields` is the layout the accessors read.
- BlobMsg.DecodeField: gives `Broken` for an attribute whose data would start behind its end, where the source reads on; `WalkContainedIff` says when that is.
- BlobMsg.ReadField: gives `Broken` for the same attributes; the bytes the source would read there are outside the attribute (`ReadInsideIff`).
- BlobMsg.ReadFields: inherits `Broken` from `ReadField`.
- Iteration.AvlForElementRangeSafe: ends at the list head, from where `OverrunRounds` goes on; a first element behind the successor of `last` is modelled for the plain loop only.
- ListFamily: adding or moving a node to itself, and adding the head of a non-empty list, are left to the callers as list.h leaves them.
- `blobmsg_get_*` beyond the integer getters, doubles, and the JSON formatter: reinterpretations of bytes already covered.
- The tree shape of avl.h: insertion, deletion and lookup are only declared; the loops are over the element list, and deletion is its effect on list and counter.
- Reverse loops of list.h and avl.h: mirror images of the forward ones.
- The select and poll servers, socket set-up, client addresses, receive buffers and printing of server.c.
- Matter's parsers and validity test: their results are fields of a record or parameters, and TXT records are kept as texts instead of being folded into fields; copying names into fixed-size buffers is not truncated.
- `MdnsParser::Start`, the delegate setter and the singleton: plumbing.
- ubus calls, JSON parsing and the printing of ubus_client.c; `OtbrManager` is a map of fields.
- dbus_example, the other socket examples, UBI headers and build files: input, output and configuration.
