# Verified models of vdev and its udev library

This project models the data structures and protocols at the heart of vdev, a
device manager for Unix-like systems, and of the libudev replacement that comes
with it, and proves what they are for. One module stands for one source file or
for one half of it: a half on values, which says what is computed and why it is
right, and a half that works in place and is proved to compute it.

- **Hash table** (`RobinHood`, `HashView`, `HashSize`, `HashSteps`, `HashSpec`,
  `Hashmap`, `HashApi`, `HashRuns`, `HashIter`, `HashMove`). Open addressing with
  Robin Hood insertion, backward-shift deletion, one-byte distances that saturate,
  resizing in place, and an insertion-order list threaded through bucket indices.
  `RobinHood` holds the order of distances around the table, `HashView` the memory
  as a value with its linked list, `HashSteps` what each step of insertion, removal
  and rehashing keeps, `Hashmap` the class over bucket and distance arrays,
  `HashSpec` the list of pairs and the plain map, `HashRuns` whole runs, `HashIter`
  loops that remove while they iterate, `HashMove` the move of one table into another.
- **Monitor filter** (`SocketFilter`, `MonitorFilter`). The compiler from subsystem
  and tag lists to a classic BPF program, over an interpreter of the four
  instructions that it uses, and the plain filter that it must not be stricter than.
- **Parameter trees** (`RbTree`, `ParamTree`, `TreeWalk`, `Params`, `RequestEnv`).
  Red-black insertion and deletion without parent pointers, as a tree value and as
  nodes rewired in place; the iterator with its fixed stack; counting, releasing,
  and the environment array that depends on both.
- **Hardware database** (`HwdbTrie`, `Hwdb`). Searching a compressed trie of glob
  patterns, against matching every stored pattern.
- **Device listing** (`EnumerateOrder`, `Enumerate`). The sorted listing with its two
  kinds of delayed paths, as an exact order between any two paths.
- **Device text** (`DeviceText`, `DeviceIo`). Writing the properties of a device into
  the monitor buffer and reading them back.
- **Texts and names** (`Utf8`, `Escape`). UTF-8 and UTF-16 (section 3 of RFC 3629 and
  section 2.2 of RFC 2781), repair of invalid text, escaping of paths and names.
- **Lists** (`UdevList`). The ring of entries and the sorted array beside it.
- **Reload protocol** (`Reload`). Reloads and request handlers as interleaved steps
  over shared pointers and a lock, and the lock discipline of each handler.
- **Tile pools** (`Mempool`). Tiles in pools, and the list of released tiles that is
  threaded through the tiles.

Some promises do not hold of the code as it is; the modules keep the code and prove
exactly when the promise holds, or give an input for which it fails. The tag block of
a filter computes jump distances that wrap around in eight bits: with up to 43 tags
the program means what it should, beyond that `MonitorFilter.TagListExact` gives the
condition, and `MonitorFilter.WrappedJumpDrops` a list of 44 tags for which it fails.
Listing promises that the control device of a sound card comes last of its card, but
holds back only one device at a time; `EnumerateOrder.ListingOrder` gives the exact
order, `EnumerateOrder.LastOfCardIff` exactly when it does come last, and
`EnumerateOrder.ControlDeviceNotLast` a listing where it does not. A search of the
hardware database is exact on all tries if and only if the query has no wildcard and
no 8-bit character before its first backslash (`HwdbTrie.ExactIffPlain`). A loop over
the values of a hash table ends at a null value, and misses nothing exactly when there
is none (`HashIter.ForeachValue`). A reload that fails loses its private configuration
on two of its early returns, and nothing else is ever lost (`Reload.LeaksExactly`).
A change of a device runs its commands exactly when the look for metadata fails, and
under the quirk for devices that exist already a device counts as seen in just that
case, because the look returns 0 when there is metadata
(`Reload.Shared.DeviceChange`, `Reload.AddCallsAre`).
Encoding a device name and filling the monitor buffer write one zero past a buffer
under the exact conditions of `Escape.EncodeDevnodeName` and
`DeviceIo.UpdateMonitorBuf`, only when they fail. The initialization time in the text
form of a device is read back only by chance, under the condition of
`DeviceText.TimeBackIff`. The shift that computes the size of a hash table's storage
is representable up to two gigabytes (`HashSize.ShiftableIff`); putting a new key
requires that.

Conventions: a pointer is a number, 0 is the null pointer; strings are sequences
without a zero; results that the environment decides (memory, fresh hash keys, return
codes of calls whose bodies are elsewhere) are parameters. Plain `char` is signed, and
the sizes of types are those of the LP64 data model. `hide` statements keep
proofs small.

## Model

| member | source | states |
|---|---|---|
| HashRuns.Run | libudev-compat/hashmap.c:1249-1517 | Over every sequence of put, replace, update, remove, remove_and_put, remove_and_replace and clear, with any reallocations failing, the table stays valid, and contents, return codes and size of the storage are those of the insertion-ordered list of pairs and of a plain map: a new key is refused with -ENOMEM exactly when it has no room and its storage cannot be had; a run stops early only at a call that puts a new key and needs storage whose shift leaves 32 bits |
| HashRuns.RejectedIff | libudev-compat/hashmap.c:1100-1118 | A resize is refused without asking for memory exactly when the bytes for the entries and their share of free buckets do not fit 32 bits |
| HashRuns.RunIsMapRun | libudev-compat/hashmap.c:1249-1517 | For all runs the list of pairs maps onto the plain map, result for result |
| HashRuns.MapSize | libudev-compat/hashmap.c:1096-1100 | The number of stored pairs, on which growing depends, is the size of the map |
| HashSpec.StepIsMapStep | libudev-compat/hashmap.c:1249-1517 | One operation on the ordered list is that operation on the plain map, with the same result |
| RobinHood.NoEarlyStop | libudev-compat/hashmap.c:1223-1246 | An entry whose home is where the search starts is never behind a bucket with a smaller distance: the cut-off of the scan misses nothing |
| Hashmap.ScanMisses | libudev-compat/hashmap.c:1230-1238 | A scan that stops at a free or wealthier bucket proves that no stored key is equal |
| Hashmap.HashmapBase.BucketScan | libudev-compat/hashmap.c:1223-1246 | Returns the bucket of the equal key, or nothing exactly when there is none; the probe loop ends |
| RobinHood.PlaceKeepsOrder | libudev-compat/hashmap.c:972-1019 | Putting an entry where it is poorer than the one there, or where it is free, keeps the Robin Hood order of distances |
| RobinHood.PlaceKeepsStop | libudev-compat/hashmap.c:983-1000 | Filling a free bucket leaves a bucket that is free or at distance 0, even at full load |
| RobinHood.OpenHole | libudev-compat/hashmap.c:573-584 | Taking an entry away opens a hole with order everywhere else |
| RobinHood.ShiftBack | libudev-compat/hashmap.c:602-608 | Moving the entry right of the hole one back moves the hole on and keeps the order |
| RobinHood.CloseHole | libudev-compat/hashmap.c:575-584 | At a free bucket or an entry at home the hole closes and the invariant is whole |
| RobinHood.IdxAreRemainders | libudev-compat/hashmap.c:537-543 | Next and previous index are the remainders of the source and undo each other |
| HashSteps.ProbeSwap | libudev-compat/hashmap.c:1004-1015 | Displacing a wealthier entry keeps the whole table invariant; the displaced entry goes on with its own distance |
| HashSteps.ProbeRehash | libudev-compat/hashmap.c:985-997 | Landing on an entry that waits for rehashing makes that one the held entry and keeps the invariant |
| HashSteps.ProbePlace | libudev-compat/hashmap.c:985-999 | Landing on a free bucket ends the insertion and keeps the invariant |
| HashSteps.AfterHome | libudev-compat/hashmap.c:602-605 | The entry right of a removed one is at most one bucket further from its own home, so the assertion on its distance holds along the shift |
| HashSteps.StopExists | libudev-compat/hashmap.c:574-584 | Some bucket is free or at distance 0, so the search for the stop bucket ends and its assertion is never hit |
| HashSteps.RemovalOpens | libudev-compat/hashmap.c:586-599 | Unlinking the removed entry leaves a table with one hole and the list without it |
| HashSteps.RemovalShifts | libudev-compat/hashmap.c:602-608 | Each backward shift keeps the list, the distances and the order |
| HashSteps.RemovalCloses | libudev-compat/hashmap.c:610-611 | Freeing the last bucket of the shift gives a table at rest |
| HashSteps.RegrownInv | libudev-compat/hashmap.c:1157-1175 | After the DIB array is moved every stored entry is marked and the invariant holds under the new hash key |
| HashSteps.RehashingPlaced | libudev-compat/hashmap.c:1200-1211 | Each pass of the rehash loop places one entry and counts it once |
| HashSteps.RehashingEnds | libudev-compat/hashmap.c:1179-1214 | At the end no mark is left and the count is the number of entries |
| HashSteps.PutRests | libudev-compat/hashmap.c:1047-1070 | Placing the new entry brings the table back to rest, with the lowest used index still right |
| HashSteps.FoundByKey | libudev-compat/hashmap.c:1500-1507 | After removing another entry the old one is where it was exactly when the bucket holds its key pointer, else one bucket back |
| HashView.MoveKeepsList | libudev-compat/hashmap.c:501-535 | Moving an entry to another bucket or swap slot keeps the linked list, with the new index in its place |
| HashView.UnlinkKeepsList | libudev-compat/hashmap.c:586-599 | Unlinking removes exactly that entry from the linked list |
| HashView.LinkPutKeepsList | libudev-compat/hashmap.c:1049-1066 | Linking the new entry appends it to the linked list |
| HashSize.RoundUpIsLeast | libudev-compat/util.h:377-384 | log2u_round_up gives the smallest power of two that is large enough |
| HashSize.EnoughFits | libudev-compat/hashmap.c:1104-1123 | When no resize is needed the new entries fit; indirect storage keeps a free bucket |
| HashSize.GrowDoubles | libudev-compat/hashmap.c:1125-1162 | A resize at least doubles the buckets, leaves a free bucket, and the old and the new DIB array do not overlap |
| HashSize.GrowCovers | libudev-compat/hashmap.c:1108-1127 | The new storage is large enough for the entries and their share of free buckets |
| HashSize.ShiftableIff | libudev-compat/hashmap.c:1125-1131 | The shift is representable exactly when the storage asked for is at most 2^31 bytes |
| HashSize.PlanDecides | libudev-compat/hashmap.c:1096-1131 | Nothing is asked for exactly when the entries have room; a request is rejected exactly when they have none and their bytes do not fit 32 bits; otherwise storage of the stated shift is asked for |
| HashSize.GrownIs | libudev-compat/hashmap.c:1125-1131 | The new storage is the least power of two, from 128 bytes on, that holds the entries with a quarter more buckets, and as many buckets as fit it |
| HashSize.Embedded | libudev-compat/hashmap.c:163-245 | The embedded storage has two, one and four buckets for plain maps, ordered maps and sets |
| Hashmap.HashmapBase.constructor | libudev-compat/hashmap.c:787-823 | A new table is valid and empty |
| Hashmap.HashmapBase.BucketMoveEntry | libudev-compat/hashmap.c:501-535 | Copies the entry and redirects exactly its neighbours and the list ends |
| Hashmap.HashmapBase.BucketSetDib | libudev-compat/hashmap.c:480-482 | Stores the saturated distance |
| Hashmap.HashmapBase.CalculateDib | libudev-compat/hashmap.c:457-478 | In a table whose bytes are right the result is the distance of the entry from its home, also where the byte has overflowed |
| Hashmap.HashmapBase.PutRobinHood | libudev-compat/hashmap.c:972-1019 | Ends, keeps the invariant and the pairs in order, fills exactly one bucket, and reports whether that bucket held a waiting entry |
| Hashmap.HashmapBase.FindStop | libudev-compat/hashmap.c:573-584 | Finds the first stop bucket behind the removed entry without coming round |
| Hashmap.HashmapBase.RemoveEntry | libudev-compat/hashmap.c:561-612 | Removes exactly one pair from the ordered contents; every other entry stays or moves one bucket back |
| Hashmap.HashmapBase.ResizeBuckets | libudev-compat/hashmap.c:1085-1217 | Returns 0 if the entries have room, -ENOMEM if their bytes do not fit 32 bits or the reallocation fails, else 1; contents and order are conserved; on growth the buckets at least double and a free one remains; otherwise nothing changes |
| Hashmap.HashmapBase.RehashAll | libudev-compat/hashmap.c:1177-1214 | Rehashes every marked entry once: the count is the number of entries and no mark is left |
| Hashmap.HashmapBase.PutBoldly | libudev-compat/hashmap.c:1031-1076 | Appends the pair if it has room or can get it, else fails with -ENOMEM and changes nothing; the storage afterwards is exact |
| Hashmap.HashmapBase.Overwrite | libudev-compat/hashmap.c:1297-1312 | Replaces key pointer and value in place, keeping the position |
| Hashmap.HashmapBase.Clear | libudev-compat/hashmap.c:914-930 | Empties the table and goes back to the embedded storage |
| HashApi.Put | libudev-compat/hashmap.c:1249-1269 | 0, -EEXIST, 1 or -ENOMEM, and contents and storage, as the ordered list says; with a failed reallocation a new key without room gives -ENOMEM and the contents stay |
| HashApi.Replace | libudev-compat/hashmap.c:1288-1318 | Overwrites in place or appends, as the ordered list says; with a failed reallocation a new key without room gives -ENOMEM and the contents stay |
| HashApi.Update | libudev-compat/hashmap.c:1320-1334 | Changes the value of a stored key only, or -ENOENT |
| HashApi.Get | libudev-compat/hashmap.c:1336-1350 | The value stored for the equal key, or NULL |
| HashApi.Remove | libudev-compat/hashmap.c:1381-1399 | Removes the pair of the equal key and returns its value, or NULL |
| HashApi.RemoveAndPut | libudev-compat/hashmap.c:1430-1455 | Exchanges the pair without a resize, with both error codes as the ordered list says |
| HashApi.RemoveAndReplace | libudev-compat/hashmap.c:1483-1517 | Also when a third entry is removed and the old one has moved back |
| HashIter.Foreach | libudev-compat/hashmap.c:666-775 | A loop over the entries that may remove the current one after any step visits every key of the initial table and keeps exactly the others; an ordered map is visited in insertion order, each key once |
| HashIter.ForeachValue | libudev-compat/hashmap.h:392-402 | The loop over the values ends at a null value: it misses nothing exactly when no value is null, an ordered map is visited up to its first null value, and what was not removed is kept |
| HashIter.IterateInsertion | libudev-compat/hashmap.c:615-664 | One step in insertion order returns the entry owed next |
| HashIter.IterateInternal | libudev-compat/hashmap.c:666-719 | One step in internal order returns an occupied bucket and leaves no remaining entry behind |
| HashIter.ReadyAfterRemoval | libudev-compat/hashmap.c:615-719 | Removing the current entry keeps the iterator ready, wherever the backward shift has moved the others |
| HashMove.Move | libudev-compat/hashmap.c:1673-1716 | Returns -ENOMEM, with both tables unchanged, exactly when the entries of both tables have no room in the target and it cannot grow; else the target gains exactly the keys it lacked, the clashing pairs stay in the source in order, and no put needs a resize |
| HashMove.MoveAll | libudev-compat/hashmap.c:1697-1713 | The loop moves every pair that does not clash and no other |
| HashMove.TargetMap | libudev-compat/hashmap.c:1697-1713 | As a map the target is the source overridden by what the target held |
| MonitorFilter.FilterUpdate | libudev-compat/libudev-monitor.c:282-380 | Writes the program for the two lists, nothing if both are empty, or reports that it is too big |
| MonitorFilter.ProgramCorrect | libudev-compat/libudev-monitor.c:297-371 | From every correctly tagged packet the program runs to a RET and passes it exactly when the tag list, read with jumps cut to 8 bits, and the subsystem list accept it |
| MonitorFilter.OtherMagicPasses | libudev-compat/libudev-monitor.c:297-302 | A packet with another magic number is passed whatever the lists say |
| MonitorFilter.TagListExact | libudev-compat/libudev-monitor.c:304-336 | The compiled tag list means that some tag has all its bloom bits in the device's exactly when every wrapped jump is harmless; with at most 43 tags it always does |
| MonitorFilter.WrappedJumpDrops | libudev-compat/libudev-monitor.c:329-331 | With 44 tags a device that has a listed tag can be dropped |
| MonitorFilter.NoFalseNegatives | libudev-compat/libudev-monitor.c:594-630 | Every device that the plain filter passes is passed by the program, exactly when no wrapped jump does harm |
| MonitorFilter.TagsExec | libudev-compat/libudev-monitor.c:312-335 | The tag block falls through behind its end on a match and drops otherwise |
| MonitorFilter.SubsystemsExec | libudev-compat/libudev-monitor.c:338-371 | The subsystem block passes exactly when some subsystem and devtype hash pair matches |
| MonitorFilter.ProgramPasses | libudev-compat/libudev-monitor.c:282-380 | For up to 43 tags the program passes a device exactly when some listed tag has the four six-bit fields of its hash among those of the tags of the device, or no tag is listed, and some listed subsystem has the hash of its subsystem, and of its devtype if one is given, or no subsystem is listed |
| MonitorFilter.BloomBits | libudev-compat/libudev-util.c:326-336 | A bit is set in the bloom bits of a device exactly when it is one of the fields of the hash of one of its tags |
| MonitorFilter.FieldsAre | libudev-compat/libudev-util.c:326-336 | The fields are the four lowest groups of six bits |
| MonitorFilter.BloomCovers | libudev-compat/libudev-util.c:326-336 | The bloom bits of every tag of a device are in the device's bloom bits |
| MonitorFilter.PassesFilter | libudev-compat/libudev-monitor.c:594-630 | Passes exactly if some listed subsystem and devtype are the device's, or none is listed, and some listed tag is the device's, or none is listed |
| MonitorFilter.SendHeader | libudev-compat/libudev-monitor.c:993-1009 | Magic number, hashes of subsystem and devtype, and both halves of the bloom bits at their offsets |
| MonitorFilter.HalfBits | libudev-compat/libudev-monitor.c:1001-1008 | The two words are the upper and the lower half of the bloom bits |
| RbTree.AddRecBalances | libvdev/sglib.h:1625-1642 | Insertion keeps the black height, and at most leaves a red root with one red child |
| RbTree.AddBalances | libvdev/sglib.h:1712-1716 | Adding keeps equal black heights, no red node with a red child, and a black root |
| RbTree.FixInsertionBalances | libvdev/sglib.h:1445-1482 | The fix-up restores balance below a black node at the same black height |
| RbTree.FixDeletionBalances | libvdev/sglib.h:1484-1601 | The fix-up restores balance; its flag is set exactly when the black height has dropped by one |
| RbTree.SiblingIsThere | libvdev/sglib.h:1484-1505 | In a balanced tree the asserting branches are not reached: the sibling exists, and a red one has a black inner child |
| RbTree.DeleteRightmostBalances | libvdev/sglib.h:1644-1665 | Taking the rightmost node keeps balance, with the flag exact |
| RbTree.DeleteRecBalances | libvdev/sglib.h:1667-1710 | Deletion keeps balance, and its result is true exactly when the subtree's black height has dropped by one |
| RbTree.DeleteBalances | libvdev/sglib.h:1718-1721 | Deleting keeps equal black heights, no red node with a red child, and a black root |
| RbTree.FixInsertionKeeps | libvdev/sglib.h:1445-1482 | The fix-up keeps the inorder sequence |
| RbTree.FixDeletionKeeps | libvdev/sglib.h:1484-1601 | The fix-up keeps the inorder sequence |
| RbTree.AddRecPuts | libvdev/sglib.h:1625-1642 | The new node goes to its place in the order and nothing else moves |
| RbTree.DeleteRecTakes | libvdev/sglib.h:1667-1710 | Exactly the given node leaves the inorder sequence |
| RbTree.DeleteRightmostTakesLast | libvdev/sglib.h:1644-1665 | The node taken is the last in order |
| RbTree.Placed | libvdev/sglib.h:1667-1690 | A tie of comparison and address is the member itself, so the assertion of deletion holds |
| RbTree.CompareIsTransitive | libvdev/param.h:40-42 | The key comparison is a strict order |
| RbTree.CompareIs | libvdev/param.h:40-42 | In the key comparison the first difference decides, and a proper beginning comes first |
| ParamTree.FixInsertion | libvdev/sglib.h:1445-1482 | Rewires the nodes in place into the fixed-up tree value |
| ParamTree.FixDeletion | libvdev/sglib.h:1484-1601 | Rewires the nodes in place into the fixed-up tree value, with its flag; no assertion fails |
| ParamTree.AddRecursive | libvdev/sglib.h:1625-1642 | The heap tree becomes the tree value after insertion |
| ParamTree.DeleteRightmostLeaf | libvdev/sglib.h:1644-1665 | The heap tree becomes the tree value without its last node |
| ParamTree.DeleteRecursive | libvdev/sglib.h:1667-1710 | The heap tree becomes the tree value after deletion; the given node is found |
| Params.ParamList.Add | libvdev/sglib.h:1712-1716 | The list stays sorted and balanced, with the node put at its place |
| Params.ParamList.Delete | libvdev/sglib.h:1718-1721 | The list stays sorted and balanced, without exactly that node |
| Params.FindMember | libvdev/sglib.h:783-793 | Finds a node with the key if and only if there is one |
| Params.IsMember | libvdev/sglib.h:1729-1743 | True exactly for members; the assertion on ties holds |
| Params.ParamsAdd | libvdev/param.c:31-78 | -EEXIST exactly for a known key, else the entry is added, or memory was short and nothing changed |
| TreeWalk.DepthFits | libvdev/sglib.h:2056-2058 | A balanced tree of fewer than 2^63 nodes is less than 127 deep, so both fixed stacks suffice |
| TreeWalk.HeightBound | libvdev/sglib.h:1893-1896 | The height is at most twice the black height, which is at most the logarithm of the size plus one |
| TreeWalk.TurnYields | libvdev/sglib.h:1769-1810 | A turn of the iterator loop visits nothing but what it yields, in all three orders |
| TreeWalk.TodoCoversNeeds | libvdev/sglib.h:1769-1810 | In postorder every node that may still be looked into has not been yielded yet |
| TreeWalk.WalkVisitsAll | libvdev/sglib.h:1811-1840 | Each order visits every node as often as it is in the tree |
| TreeWalk.InorderIsIno | libvdev/sglib.h:1847-1849 | Inorder is key order |
| TreeWalk.WalkOrder | libvdev/sglib.h:1769-1810 | Everywhere in the tree left comes before right, and a node before both sides, between them or behind both, in preorder, inorder and postorder |
| TreeWalk.TreeIterator.Init | libvdev/sglib.h:1811-1840 | Afterwards the current node and the ones to come are the whole walk |
| TreeWalk.TreeIterator.ComputeCurrentElem | libvdev/sglib.h:1769-1810 | Yields the next node of the walk; the stack stays in its bounds, and no freed node is looked into |
| Params.Length | libvdev/sglib.h:727-769 | Counts exactly the nodes; the depth assertion holds |
| Params.WalkOnce | libvdev/sglib.h:1769-1810 | Every walk yields each node exactly once |
| Params.ParamsFree | libvdev/param.c:81-107 | Releases key and value of every node in key order, and then frees each node once in postorder, none before its key and value are released |
| Params.Clear | libvdev/param.c:86-99 | The first loop leaves no node with its key and value, and changes nothing else |
| Params.FreeCurrent | libvdev/param.c:101-104 | Freeing the current node, whatever its memory then holds, leaves the iterator valid |
| RequestEnv.RequestToEnv | vdevd/device.c:140-424 | The array of 15 plus both counts plus one is never overrun, holds all variables in order, and its last entry stays null |
| RequestEnv.RequestThere | vdevd/device.c:195-251 | Mount point, action, directory of global metadata and configuration file are there with these values and no others |
| RequestEnv.PathThere | vdevd/device.c:178-236 | Path and metadata directory are there exactly when the request has a path, the renamed one if there is one; the directory is cut to its buffer |
| RequestEnv.DeviceThere | vdevd/device.c:254-287 | Major and minor number are there in decimals exactly when the request has a device number, and the mode exactly when it has a device bit |
| RequestEnv.DaemonThere | vdevd/device.c:291-358 | Helper directory, log file unless it is syslog, instance, daemonlet flag and log level are there with these values and no others |
| RequestEnv.VarsAre | vdevd/device.c:362-420 | Entry by entry the variables of a list are prefix, key and value |
| HwdbTrie.SearchExact | libudev-compat/sd-hwdb.c:210-279 | For a query that is plain up to its first backslash the search adds the values of exactly the stored patterns that match, each as often as it is stored |
| HwdbTrie.ExactIffPlain | libudev-compat/sd-hwdb.c:210-279 | For every query: the search adds exactly the matching values on every trie if and only if no wildcard and no 8-bit character stands before the first backslash |
| HwdbTrie.SearchInOrder | libudev-compat/sd-hwdb.c:210-279 | Values are added in the order of the literal beginnings of their patterns, and at equal length in the order star, question mark, bracket, end of the pattern |
| HwdbTrie.SearchRanks | libudev-compat/sd-hwdb.c:210-279 | Patterns of equal literal length and equal continuation are added in storage order |
| HwdbTrie.RankIs | libudev-compat/sd-hwdb.c:234-275 | The rank of a pattern is four times the length of its literal beginning, plus the place of what follows |
| HwdbTrie.StoredInOrder | libudev-compat/sd-hwdb.c:177-208 | Storage order is the order of the patterns, a pattern before its proper beginnings |
| HwdbTrie.LongestPrefixWins | libudev-compat/sd-hwdb.c:148-175 | A property is present exactly when a matching pattern sets it, and then comes from the one of highest rank, of several such ones the last in storage order |
| HwdbTrie.GlobbedIsMatching | libudev-compat/sd-hwdb.c:177-208 | The subtree search adds exactly the values whose remaining pattern matches, in storage order |
| HwdbTrie.WildcardQueryFails | libudev-compat/sd-hwdb.c:234-275 | For every query with a wildcard behind literal characters, a trie of one pattern on which the search is not exact, whatever else the glob matcher does |
| HwdbTrie.EightBitQueryFails | libudev-compat/sd-hwdb.c:224-231 | For every query with an 8-bit character behind literal ones, a trie of one matching pattern that is not found |
| Hwdb.NodeLookup | libudev-compat/sd-hwdb.c:136-146 | Binary search finds the child of a character, or nothing |
| Hwdb.LineBuf.Add | libudev-compat/sd-hwdb.c:84-90 | Appends if it fits, else changes nothing |
| Hwdb.LineBuf.Rem | libudev-compat/sd-hwdb.c:100-103 | Takes characters off the end; the assertion needs them to be there |
| Hwdb.Database.AddProperty | libudev-compat/sd-hwdb.c:148-175 | Replaces a property; keys without a leading space are ignored |
| Hwdb.Database.TrieFnmatch | libudev-compat/sd-hwdb.c:177-208 | Adds what the subtree search says, and leaves the line buffer as it was |
| Hwdb.Database.TrieSearch | libudev-compat/sd-hwdb.c:210-279 | Adds what the search says; the line buffer is balanced throughout |
| Hwdb.Database.Get | libudev-compat/sd-hwdb.c:436-456 | Returns the property of the query; the properties are those of the last query |
| Hwdb.GetIsLongestMatch | libudev-compat/sd-hwdb.c:407-456 | What a lookup returns, in terms of the stored patterns alone: the value of the matching pattern of highest rank, of several such ones the last in storage order |
| EnumerateOrder.ListingOrder | libudev-compat/libudev-enumerate.c:274-346 | Of any two distinct paths the one that sorts first is listed first, except exactly: composed block devices come after all others, and a control device that was held back comes after the later paths of its card; which ones are held back is said of the paths alone |
| EnumerateOrder.WasHeldIs | libudev-compat/libudev-enumerate.c:307-328 | The scan holds a path back exactly when the paths before it say so |
| EnumerateOrder.LastOfCardIff | libudev-compat/libudev-enumerate.c:243-264 | A control device is the last of its card exactly when it was held back or sorts behind the rest of the card, and no earlier control device of the card was held back |
| EnumerateOrder.DelayEndIff | libudev-compat/libudev-enumerate.c:226-236 | Composed block devices are exactly the paths with /block/md or /block/dm- from place 4 on |
| EnumerateOrder.DelayLaterIff | libudev-compat/libudev-enumerate.c:243-264 | Control devices are exactly the paths with /controlC behind the first /sound/card and the slash after it, and the card is what comes before |
| EnumerateOrder.EndsLast | libudev-compat/libudev-enumerate.c:274-346 | A composed block device is listed after every other path |
| EnumerateOrder.ListingKeeps | libudev-compat/libudev-enumerate.c:274-346 | Every path is listed as often as it was given |
| EnumerateOrder.ParentFirst | libudev-compat/libudev-enumerate.c:274-346 | A path that is a proper prefix of another and no control device is listed before it |
| EnumerateOrder.HeldBehindDirectory | libudev-compat/libudev-enumerate.c:307-328 | A control device is held back if its card's directory is listed and no other control device sorts between the two |
| EnumerateOrder.ControlDeviceLast | libudev-compat/libudev-enumerate.c:243-264 | It is then listed after every other path of its card, composed block devices aside |
| EnumerateOrder.ControlDeviceNotLast | libudev-compat/libudev-enumerate.c:311-330 | A control device that is met while another one is held is not listed last of its card |
| EnumerateOrder.SyspathCmpIsCompare | libudev-compat/libudev-enumerate.c:205-221 | Comparing bytes and lengths is the lexicographic order |
| Enumerate.EachListedOnce | libudev-compat/libudev-enumerate.c:274-346 | Every added path is listed exactly once |
| Enumerate.BlockDevicesLast | libudev-compat/libudev-enumerate.c:226-236 | In the list of a context a path with /block/md or /block/dm- comes after every path without |
| Enumerate.EnumerateContext.SyspathAdd | libudev-compat/libudev-enumerate.c:174-203 | Appends the path and marks the list as stale |
| Enumerate.EnumerateContext.GetListEntry | libudev-compat/libudev-enumerate.c:274-346 | The list is the delayed order of the distinct paths, and the array ends up as the sorted input |
| DeviceText.RoundTrip | libudev-compat/libudev-device.c:2049-2094 | Reading back the text form gives the same ordinary public properties, links, tags and subsystem, and the path as far as its buffer holds it |
| DeviceText.WrittenIsShort | libudev-compat/libudev-device.c:1902-1922 | What fits the monitor buffer has no line that the reader would cut |
| DeviceText.CutPathKeeps | libudev-compat/libudev-device.c:517-521 | A path is read back whole exactly when it is below 1020 characters long, and is cut to 1019 otherwise |
| DeviceText.TimeBackIff | libudev-compat/libudev-device.c:564-565 | An initialization time is read back exactly when it has one digit and the memory behind its string spells it again |
| DeviceText.LinksBack | libudev-compat/libudev-device.c:1397-1412 | Splitting the joined links gives the links |
| DeviceText.AllTagsBack | libudev-compat/libudev-device.c:1413-1428 | Splitting the joined tags gives the tags |
| DeviceText.NulBack | libudev-compat/libudev-device.c:2068-2081 | Cutting the buffer at its zero characters gives the strings |
| DeviceText.ReadLine | libudev-compat/libudev-device.c:407-421 | A line is read as the property that it was written from |
| DeviceText.PublicHas | libudev-compat/libudev-device.c:1902-1922 | Exactly the properties whose key has no leading dot are written, as key, equals sign and value |
| DeviceText.TextForms | libudev-compat/libudev-device.c:1391-1428 | Strings end in a zero, links are separated by blanks, tags are enclosed in colons |
| DeviceText.FromTextIff | libudev-compat/libudev-device.c:591-601 | A text is refused exactly when it has no line for the path or none for the subsystem |
| DeviceText.OrdinaryIff | libudev-compat/libudev-device.c:515-589 | A line sets the property of its key, except for seventeen keys with a meaning of their own |
| DeviceText.EmptyDeletes | libudev-compat/libudev-device.c:407-421 | A line without a value deletes the property, one without an equals sign does nothing |
| DeviceText.TagsDropped | libudev-compat/libudev-device.c:1797-1812 | Of the tags in a line those with a blank are dropped |
| DeviceText.DecimalSpells | libudev-compat/libudev-device.c:466-467 | The decimal digits of a number spell it |
| DeviceIo.Strpcpyl | libudev-compat/strxcpyx.c:75-85 | Appends all parts if together they fit, and else reports it |
| DeviceIo.UpdateMonitorBuf | libudev-compat/libudev-device.c:1877-1925 | Succeeds exactly when array and buffer are large enough, with the text of the public properties; a zero is written past the buffer exactly when a property comes up while the buffer is full |
| DeviceIo.OverflowsWhenFull | libudev-compat/libudev-device.c:1914-1921 | A zero is written past the buffer only when writing fails anyway |
| DeviceIo.FilledUpOverflows | libudev-compat/libudev-device.c:1914-1921 | A public property behind others that fill the buffer to the last byte makes a zero be written past it |
| DeviceIo.TwoOverflow | libudev-compat/libudev-device.c:1914-1921 | Two properties are enough, if the first has a long value |
| DeviceIo.ParseLinks | libudev-compat/libudev-device.c:524-543 | The loop adds exactly the split links |
| DeviceIo.ParseTags | libudev-compat/libudev-device.c:544-566 | The loop adds exactly the split tags |
| DeviceIo.NewFromNulstr | libudev-compat/libudev-device.c:2049-2094 | Reads all strings up to an empty one, each cut to its buffer, and refuses a device without path or subsystem |
| Utf8.DecodeEncode | libudev-compat/utf8.c:112-149 | Decoding inverts encoding for every value below 2^21 |
| Utf8.Samples | libudev-compat/utf8.c:316-359 | The encodings of four characters, a surrogate pair, and the repair of a stray byte (section 7 of RFC 3629) |
| Utf8.ValidIsEncoded | libudev-compat/utf8.c:379-408 | An accepted sequence is the encoding of its value: no overlong form, surrogate, or form of five or six bytes |
| Utf8.EncodedIsValid | libudev-compat/utf8.c:379-408 | The encoding of every valid character is accepted, with its length |
| Utf8.ValidIsText | libudev-compat/utf8.c:177-193 | A string without zero bytes steps through as valid if and only if it is the encoding of a text |
| Utf8.ScalarMeans | libudev-compat/utf8.c:62-74 | The accepted characters are those below 0x110000 but the surrogates, 0xFDD0 to 0xFDEF, and the last two of each plane |
| Utf8.TextIsValid | libudev-compat/utf8.c:177-193 | The encoding of a text steps through as valid |
| Utf8.Utf8IsValid | libudev-compat/utf8.c:177-193 | True exactly for encodings of texts |
| Utf8.EncodedToUnichar | libudev-compat/utf8.c:112-149 | The value of the first character, or a failure |
| Utf8.EncodedValidUnichar | libudev-compat/utf8.c:379-408 | The length of the first character if it is valid, or a failure |
| Utf8.EscapeIsValid | libudev-compat/utf8.c:195-220 | The repaired string is valid and at most three times as long |
| Utf8.EscapeOfValid | libudev-compat/utf8.c:195-220 | A valid string is left alone |
| Utf8.EscapeTwice | libudev-compat/utf8.c:195-220 | Repairing is idempotent |
| Utf8.EscapeInvalid | libudev-compat/utf8.c:195-220 | Writes the repaired string and its end into the buffer that is allocated for it |
| Utf8.From16Inverts | libudev-compat/utf8.h:54-64 | Reading UTF-16 gives back every text that was written as UTF-16 |
| Utf8.From16Size | libudev-compat/utf8.c:316-359 | A unit becomes at most three bytes |
| Utf8.UnitsAre | libudev-compat/utf8.c:316-359 | A unit is its first byte and 256 times its second |
| Utf8.Utf16ToUtf8 | libudev-compat/utf8.c:316-359 | Writes the UTF-8 form, and never leaves the buffer computed from an even length |
| UdevList.ListSearch | libudev-compat/libudev-list.c:126-148 | The index of the name, or the exact place where it would be inserted |
| UdevList.InsertBetween | libudev-compat/libudev-list.c:69-77 | The ring of pointers stays whole, with the new node at its place |
| UdevList.NodeRemove | libudev-compat/libudev-list.c:84-94 | The ring of pointers stays whole without the node |
| UdevList.List.EntryAdd | libudev-compat/libudev-list.c:150-230 | Array and ring hold the same entries in strictly increasing order of names; without unique names the entry goes to the end |
| UdevList.List.AddBinding | libudev-compat/libudev-list.c:150-230 | In a list with unique names adding is a map update |
| UdevList.List.EntryDelete | libudev-compat/libudev-list.c:232-251 | Exactly the entry leaves array and ring, and its name leaves the map |
| UdevList.List.Cleanup | libudev-compat/libudev-list.c:253-264 | All entries leave the ring and the array is gone |
| UdevList.List.GetEntry | libudev-compat/libudev-list.c:266-271 | The first entry, if there is one |
| UdevList.List.GetNext | libudev-compat/libudev-list.c:281-292 | The next entry, or nothing at the end |
| UdevList.List.GetByName | libudev-compat/libudev-list.c:303-317 | The entry of the name, or nothing exactly when there is none |
| Reload.HandlersAreSafe | vdevd/vdev.c:1072-1171 | In every interleaving a handler inside the lock sees a configuration and actions of the same load, neither of them freed |
| Reload.FreesAreSafe | vdevd/vdev.c:1151-1168 | Nothing is freed twice, and nothing that is shared is freed |
| Reload.LeaksExactly | vdevd/vdev.c:1086-1171 | When all threads are idle, what was made and not freed is the installed state and one configuration for each failure of initialization or of the arguments; nothing leaks exactly when a run has no such failure |
| Reload.OnlyInstallsChange | vdevd/vdev.c:1086-1171 | Over a whole run with any failures in it, the shared pointers stay what they were unless an installing step is taken |
| Reload.Shared.VdevReload | vdevd/vdev.c:1086-1171 | Return code by cause; on every early return the shared state is untouched, and the private configuration is freed or lost by cause; otherwise the new pair is installed under one lock and the old one freed |
| Reload.ReloadLeads | vdevd/vdev.c:1086-1171 | A whole reload taken alone is a run of the steps, and leaves the state that goes with the fate of its configuration |
| Reload.StepKeeps | vdevd/vdev.c:1072-1171 | Every step of every thread keeps lock ownership, the pairing, and the ownership of all loads |
| Reload.Shared.DeviceAdd | vdevd/device.c:824-987 | Return code by cause; on every path the lock is taken first and released once, the request is freed after that, and between them are exactly the calls that adding a device makes |
| Reload.AddCallsAre | vdevd/device.c:862-980 | The calls that are made when a device is added, each exactly when it is due, at most once, and in one order; the commands are told that the device was seen when its file exists, or when it has metadata and no file to make, but under the quirk when the look for metadata fails |
| Reload.Shared.DeviceRemove | vdevd/device.c:1000-1096 | The same for removal: commands first, then file, directories and metadata as far as they are there; it refuses a request without a path and goes on without memory for one |
| Reload.Shared.DeviceChange | vdevd/device.c:1114-1167 | The same for a change: the commands are run exactly when the look for metadata fails |
| Mempool.TilesApart | libudev-compat/mempool.c:37-79 | Two tiles are the same or do not overlap |
| Mempool.InPool | libudev-compat/mempool.c:76-78 | A tile lies inside its pool |
| Mempool.RoundingFits | libudev-compat/mempool.c:60-63 | Rounding to pages gives at least the tiles that were asked for, and as many as fit |
| Mempool.PageAlign | libudev-compat/util.h:155-160 | The least multiple of the page size that is large enough |
| Mempool.Pools.AllocTile | libudev-compat/mempool.c:37-79 | Returns a tile that is not in use: the first released one, else the next of the last pool, else the first of a new pool of whole pages for twice as many tiles; nothing exactly when a new pool is needed and there is no memory |
| Mempool.Pools.FreeTile | libudev-compat/mempool.c:90-93 | The tile goes to the front of the list of released tiles, which has no repetition and holds exactly those |
| Mempool.Pools.UserWrites | libudev-compat/mempool.c:90-93 | Writing into a tile in use disturbs neither the list nor the other tiles |
| Escape.PathInverts | libudev-compat/libudev-util.c:189-219 | An encoded path has no slash, and reading the escapes back gives the path |
| Escape.UtilPathEncode | libudev-compat/libudev-util.c:189-219 | Writes the encoded path exactly when it fits with its end, else an empty string |
| Escape.DevnodeInverts | libudev-compat/device-nodes.c:47-81 | Reading the escapes back gives the device name |
| Escape.DevnodeInjective | libudev-compat/device-nodes.c:47-81 | Different names have different encodings |
| Escape.EncodeDevnodeName | libudev-compat/device-nodes.c:47-81 | Succeeds exactly when the encoded name fits with its end; a zero is written past the buffer exactly when an escape comes up with four bytes left |
| Escape.OverrunsWhenFull | libudev-compat/device-nodes.c:57-62 | A zero is written past the buffer only when encoding fails anyway |
| Escape.FilledUpOverruns | libudev-compat/device-nodes.c:57-62 | A name of 7-bit characters whose last one is escaped does so in a buffer of just its encoded length |
| Escape.ReplaceTwice | libudev-compat/libudev-util.c:261-301 | A second replacement replaces nothing |
| Escape.WhitelistedIs | libudev-compat/device-nodes.c:38-45 | Letters, digits, eight signs and the given characters are kept |
| Escape.PathEncodeIs | libudev-compat/libudev-util.c:189-219 | Slash and backslash become escapes, every other character stays |
| Escape.DevnodeIs | libudev-compat/device-nodes.c:47-81 | A 7-bit character stays or becomes a backslash, an x and its two hexadecimal digits, and so does a byte that starts no valid character |
| Escape.ReplacedIs | libudev-compat/libudev-util.c:261-301 | A 7-bit character stays, or becomes a blank if it is white and blanks are allowed, or an underscore |
| Escape.EscapeKept | libudev-compat/libudev-util.c:275-279 | The beginning of an escape in hexadecimal digits stays |
| Escape.MultiByteKept | libudev-compat/device-nodes.c:55-61 | A valid character of several bytes stays, in a device name and in a replacement |
| Escape.UtilReplaceChars | libudev-compat/libudev-util.c:261-301 | Replaces in place and counts the replacements |

## Left out

- Hashmap.HashmapBase.ResizeBuckets: requires that the shift of the storage size stays within 31, because the source computes `1U << shift` without a check; memory failure and the fresh hash key are parameters.
- Hashmap.HashmapBase: buckets and distances are two arrays of a fixed layout each; that they share one block of bytes and never overlap while it grows is the byte inequality of `HashSize.GrowDoubles`. The swap slots are fields. Sets store the key as the value.
- HashIter.Foreach: in internal order only that nothing is missed is stated, because a backward shift around the end of the table can show an entry twice. Keys are not null, since a null key ends the source's test of the next key; the same holds of HashIter.ForeachValue.
- HashApi.RemoveAndReplace: requires that the stored key under the old name is not null, since a zeroed bucket holds the null pointer.
- HashMove.Move: both tables have the same hash operations; the source requires only the same type.
- HashRuns.Run: stops before a put or replace of a new key whose storage size needs a shift of 32 or more; the source does not check the shift. Keys that a run stores are not null.
- merge, copy, move_one, steal_first, get_strv and the set and string variants of the hash table: combinations of the operations that are modelled. A null table as argument is not modelled.
- MonitorFilter.FilterUpdate: requires that the program fits its array, because the tag block is written without a check. MonitorFilter.ProgramCorrect covers up to 84 tags, all that fit the array.
- Installing the program on the socket is system-call plumbing.
- MurmurHash2, SipHash: functions of their input that nothing else is assumed of.
- ParamTree.FixDeletion: the branch for a red sibling without an inner child is part of the tree function, but it cannot be reached from balanced trees and is not rewired in memory.
- ParamTree.RotateTwice: link and colour updates of one node are one assignment; the order of updates to different nodes is immaterial to the result.
- Params.Length: the count is unbounded; the source counts in a 32-bit integer.
- RequestEnv.RequestToEnv: failing allocations are not modelled. The names of a log file are compared without case as in the C locale; a string that the source prints is not the null pointer.
- TreeWalk.TreeIterator: the variant that stops at equal keys is not modelled; nothing in the repository starts it.
- HwdbTrie.SearchExact: `fnmatch` is any function under which a literal head takes an equal character and the empty pattern matches the empty string only, and for the failing half of HwdbTrie.ExactIffPlain a star matches everything (section 2.13 of POSIX.1-2017, XCU). Patterns have no backslash.
- Hwdb.Database.TrieFnmatch: requires that the longest pattern fits the line buffer; the source ignores a failing append. Offsets and byte order of the mapped file are not modelled, nor failing allocation.
- Hwdb.Database: properties are a map; the order in which they were added, which enumeration shows, is not modelled.
- Enumerate.EnumerateContext: paths are at least as long as `/sys`, as the source assumes when it skips that prefix. Failing allocation, matching and scanning of sysfs are not modelled. Sorting is by insertion; the library's sort promises no more than order.
- DeviceText.RoundTrip: of the reserved keys only path, subsystem, links and tags are followed; the setters of the other reserved keys do not touch these or ordinary properties. Values are non-empty, since an empty value deletes.
- DeviceIo.UpdateMonitorBuf: the buffer is a value, and a write past its end is the result `past`, without its effect on other memory; the same holds of Escape.EncodeDevnodeName.
- Utf8.Utf16ToUtf8: the length of the input is even, since the source reads two bytes at a time.
- Utf8.ValidIsText: characters are those that the source accepts; it also refuses noncharacters, which RFC 3629 does not.
- UdevList.List: allocation failure, the growth of the array, and entry numbers are not modelled.
- Reload.Shared: what the handlers call is a record of return codes, and calls are kept in order but have no effect of their own. Locking is the step that waits until the lock is free; errors of the lock calls are not modelled.
- Mempool.Pools.AllocTile: page size 4096 and the sizes of the LP64 data model; tile counts are unbounded. Where a pool is placed is a parameter that the memory allocator's promise restricts.
- Escape.UtilReplaceChars: `isspace` is that of the C locale.
- Netlink, inotify, epoll, FUSE, process control, configuration files, logging and sysfs access: system-call plumbing or code outside the repository.
- sglib sorting, lists, queues and hashed tables, and the work queue: never instantiated, or only declared.
