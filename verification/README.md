# Verified core of the Telink BLE SDK's common code

Dafny models, with proofs, of the hard parts of the SDK that are open source: the hash table of
`hash.h`, the list sorts and operations of `utlist.h`, the compacting allocator `mmem.c` with the
`list.c` and `string.c` routines under it, the iterative `qsort.c`, the CRC routines of `crc_sw.c`, the
shared ring buffer of `ringbuffer.h`, the packet fifo of `utility.c`, the USB sender of `usbcdc.c` and
`usb_uart.c`, and the number printing of `printf.c`.

`dafny verify dfyconfig.toml` checks the whole project.

## Modules

| modules | models |
|---|---|
| `Nodes`, `HashChains`, `HashRoom`, `HashBloom`, `UtHash`, `HashCheck`, `HashRuns` | `hash.h`: chains, expansion, the bound on chain lengths, Bloom filter, the table, its integrity check, whole runs |
| `MergeTheory`, `UtListSort`, `UtListOps`, `DListRuns` | `utlist.h`: the mergesort on sequences, the three in-place sorts, the list operations, whole runs |
| `ContikiList`, `MemCopy`, `Mmem`, `MmemRuns` | `list.c`, the copies of `string.c`, the allocator, whole runs |
| `QsortTheory`, `Qsort` | `qsort.c` |
| `CrcTheory`, `CrcDivision`, `CrcTable`, `Words`, `Crc`, `CrcMirror`, `Crc32Table`, `CrcLaws` | `crc_sw.c`: division over GF(2), words as bit strings, the routines, their laws |
| `RingBuffer` | `ringbuffer.h`: the buffer one call at a time, and its instructions under any interleaving |
| `MyFifo`, `MyFifoRuns` | `my_fifo` of `utility.c` |
| `UsbCdc`, `UsbUart` | the sending side of `usbcdc.c` and `usb_uart.c`: the state machine, and the driver object |
| `PrintTheory`, `Printf` | `prints` and `printi` |
| `Bits`, `Seqs`, `Common` | masks and powers of two; sequences of distinct elements; small shared definitions |

## How the code is modelled

- Objects linked by pointers are heap objects whose fields the methods assign, in the order of the
  source; ghost sequences name what the links spell out. Algorithms on arrays work in place. Each such
  method is proved against a function on sequences or a state, and the laws are lemmas about these.
- One class `Node` carries the links of the list macros and of the hash handle, so `ELMT_FROM_HH` is the
  identity. Keys are byte strings (pointer and length), and the hash function is any total function.
- A comparison function is any function of two elements whose sign is a total preorder on the elements
  sorted.
- Unsigned words are numbers with the truncation written out; `&` and `& ~` are defined bit by bit
  (`Bits`), and `& (n - 1)` is shown to be the remainder for powers of two. The CRC registers are numbers
  whose bits are a sequence, highest first. The 8-bit counters of `my_fifo` and the 16-bit count of the ring
  buffer wrap. Run lengths and item counts are unbounded.
- Adding an element requires that it is not yet in the list or table; deleting, that it is there. The view of
  the hash table as a map requires unique keys, which the source leaves to its callers.
- `qsort` requires a length of at least 1 that is below 2^slots for its stack slots: with
  8 * sizeof(void *) slots that is every array that fits the address space.
- The inserter of the ring buffer may store as many bytes as it saw free, and the remover may take as many as
  it saw stored, before either looks again: this covers `is_full` / `is_empty` before every call, and the
  cached count that the header's example uses. Each instruction is a step; only the count update is atomic.
- In the USB model the environment decides whether the endpoint is busy, when interrupts and scheduled
  callbacks run, in which order they run, and which pending entry `ev_queue_pop` returns. Writes, interrupts and
  callbacks each run to completion before the next begins. A buffer keeps its bytes while the driver holds it.

## Where the code differs from what it promises

- `memmove` only copies upwards, so it is a move exactly when not src < dest < src + n
  (`MemCopy.MemMoveCorrectIff`); `mmem_free` only moves downwards.
- The pivot mask of `qsort` finds an element for every span exactly when the element size is a power of two
  (`Qsort.PivotAlignedIff`).
- `my_fifo_push` lets n = size - 1 through, which writes one byte into the next slot
  (`MyFifo.StaysInSlotIff`) and can destroy the oldest packet (`MyFifoRuns.PushSpills`); the counters select
  distinct slots exactly when `num` is a power of two (`MyFifo.SlotsDistinctIff`). `MyFifoRuns.EveryRunKeepsIff`
  says exactly which fifos keep their packets.
- `usbcdc_sendData` with length 0 never completes and blocks the transmitter (`UsbCdc.EmptyBlocks`,
  `UsbCdc.CompletesIff`); everything submitted completes exactly when no buffer is empty (`UsbCdc.AllFreedIff`).
- The debug array `T_BUF` holds 60 bytes and chunks have up to 64: its copies fit exactly for buffers of at most
  60 bytes (`UsbCdc.DebugCopyFitsIff`).
- Left-justified numbers with zero fill are followed by zeros, which changes their value
  (`PrintTheory.RoundTripIff`).
- `list_tail` returns the last element, though its comment promises the elements after the first: the two agree
  exactly for lists of no or two elements (`ContikiList.TailIsRestIff`).

## Model

| member | source | states |
|---|---|---|
| `HashRuns.Run` | ble_sdk_release/proj/common/hash.h:94-237 | every legal run of adds, deletes, finds and sorts, with the expansions the adds trigger, leaves the table holding the map that the same operations make of a plain map and its items in the order they make of a sequence, answers every find as that map would, and passes the integrity check after each operation; unless the table has stopped expanding its chains stay bounded; with the Bloom filter on or off |
| `HashRuns.LastBindingWins` | ble_sdk_release/proj/common/hash.h:162-237 | in the end a key is bound to the element of the last add of it, or not at all if it was deleted last |
| `HashRuns.UnboundKeyKept` | ble_sdk_release/proj/common/hash.h:162-237 | a key that is neither added nor deleted keeps its binding |
| `HashRuns.LastAnswer` | ble_sdk_release/proj/common/hash.h:94-105 | a find at the end of a run is answered by what the map holds then |
| `HashRuns.Step` | ble_sdk_release/proj/common/hash.h:94-237 | one operation of such a run: adds at the end of the order, deletes, finds or sorts stably, with map and answer as for a plain map, all table invariants kept |
| `HashRuns.CheckedStep` | ble_sdk_release/proj/common/hash.h:184-236 | one operation and the HASH_FSCK after it, which passes |
| `UtHash.Hash.Find` | ble_sdk_release/proj/common/hash.h:94-105 | returns the element with the key or null; with unique keys exactly what the map of the items holds |
| `UtHash.Hash.Search` | ble_sdk_release/proj/common/hash.h:94-105 | a search returns null only when no item has the key, also when the Bloom filter answers first |
| `UtHash.Hash.Add` | ble_sdk_release/proj/common/hash.h:162-185 | the item joins the end of the application order; absent keys extend the map by one binding; a new table has 32 buckets, an old one doubles them exactly if the bucket hashv % num_buckets is due; the table invariants (order links, buckets, counts, tail, stamped hash values, filter) survive |
| `UtHash.Hash.Delete` | ble_sdk_release/proj/common/hash.h:204-237 | exactly the deleted item leaves order and map, the rest keeps its order; the last deletion drops the table |
| `UtHash.Hash.Sort` | ble_sdk_release/proj/common/hash.h:700-777 | the application order becomes the stable sorted permutation; chains, map, table and filter are unchanged |
| `UtHash.Hash.Count` | ble_sdk_release/proj/common/hash.h:844-845 | num_items is the number of items |
| `UtHash.SortOrder` | ble_sdk_release/proj/common/hash.h:706-775 | the in-place mergesort terminates with prev/next/head/tail right for the stable sorted permutation |
| `UtHash.SortPass` | ble_sdk_release/proj/common/hash.h:710-767 | one pass relinks the list as the pass on sequences does, null-ended both ways |
| `UtHash.SortLive` | ble_sdk_release/proj/common/hash.h:768-772 | publishing head and tail keeps the rest of the table valid |
| `UtHash.FindInBucket` | ble_sdk_release/proj/common/hash.h:578-589 | walks a chain to the first node with the key, null exactly when there is none |
| `UtHash.MakeTable` | ble_sdk_release/proj/common/hash.h:140-157 | an empty index of 32 empty buckets that may expand, whose tail is the first element and whose filter lets nothing through |
| `UtHash.AppendNode` | ble_sdk_release/proj/common/hash.h:173-175 | tail->next, prev and tail describe the order extended by the new item |
| `UtHash.RemoveNode` | ble_sdk_release/proj/common/hash.h:216-231 | head, tail and the neighbours describe the order without the item |
| `UtHash.AddToBucket` | ble_sdk_release/proj/common/hash.h:592-603 | the item goes into bucket hashv % num_buckets; expansion happens exactly when its count reaches (expand_mult + 1) * 10 and noexpand is clear, and then noexpand and ineff_expands follow |
| `UtHash.DeleteFromBucket` | ble_sdk_release/proj/common/hash.h:606-616 | the index follows the removal |
| `UtHash.PlacementFollows` | ble_sdk_release/proj/common/hash.h:662-681 | after an expansion every item is in the chain its hash value selects |
| `UtHash.MapOfItems` | ble_sdk_release/proj/common/hash.h:94-105 | the abstract map has exactly the bindings of the items |
| `HashChains.BucketSplits` | ble_sdk_release/proj/common/hash.h:187-190 | doubling sends an item of bucket i to i + n exactly if hashv % 2n is n or more, and leaves it in i otherwise |
| `HashChains.BucketInRange` | ble_sdk_release/proj/common/hash.h:187-190 | for power-of-two bucket counts the bucket is hashv % num_buckets |
| `HashChains.LinkFront` | ble_sdk_release/proj/common/hash.h:592-598 | the chain of one bucket gains the item in front, both links right, all other chains and multipliers as before |
| `HashChains.Unlink` | ble_sdk_release/proj/common/hash.h:606-615 | the chain of one bucket loses the item, both links right, all other chains as before |
| `HashChains.MoveNode` | ble_sdk_release/proj/common/hash.h:666-679 | moving an item sets links, count, expand_mult and nonideal_items as the statistics demand |
| `HashChains.MoveChain` | ble_sdk_release/proj/common/hash.h:664-680 | emptying an old chain leaves the links of everything not moved alone |
| `HashChains.MoveAll` | ble_sdk_release/proj/common/hash.h:662-681 | all chains redistributed: each new chain is what its old chain sends there |
| `HashChains.DestMembers` | ble_sdk_release/proj/common/hash.h:667-679 | a new chain has exactly the items of its old chain that hash to it |
| `HashChains.IdealLengthIsCeilDiv` | ble_sdk_release/proj/common/hash.h:618-646 | (n >> lb) + ((n & (b-1)) ? 1 : 0) is ceil(n / b) |
| `HashChains.OverflowCounts` | ble_sdk_release/proj/common/hash.h:669-673 | the overflow counts the places beyond a position, over all chains |
| `HashChains.AdoptBuckets` | ble_sdk_release/proj/common/hash.h:682-691 | the closing bookkeeping: ineff_expands and noexpand |
| `HashChains.ExpandBuckets` | ble_sdk_release/proj/common/hash.h:647-693 | doubling loses and duplicates nothing, ideal_chain_maxlen is ceil(items / 2n), nonideal_items is the total overflow of the new chains over it, expand_mult is count / ideal exactly where a chain exceeds it |
| `UtHash.ValidIsBounded` | ble_sdk_release/proj/common/hash.h:618-628 | in every valid table that still expands, each bucket holds at most (expand_mult + 1) * 10 items, and ideal_chain_maxlen is at most 10 |
| `HashRoom.ExpandedRoomy` | ble_sdk_release/proj/common/hash.h:658-691 | an expansion of a table with at most twenty items per old bucket brings about this bound |
| `HashRoom.RoomForOne` | ble_sdk_release/proj/common/hash.h:599-602 | a table within the bound has at most twenty items per bucket, counting the next |
| `HashRoom.MultSumBound` | ble_sdk_release/proj/common/hash.h:669-673 | the multipliers add up to at most items / ideal length |
| `HashBloom.Add` | ble_sdk_release/proj/common/hash.h:124-128 | afterwards the filter lets through what it did before, and what agrees with the hash value modulo 2^nbits |
| `HashBloom.EmptyRejects` | ble_sdk_release/proj/common/hash.h:110-117 | a new filter lets nothing through |
| `HashBloom.ByteLength` | ble_sdk_release/proj/common/hash.h:108-109 | the least number of bytes with room for 2^nbits bits |
| `HashBloom.BitIndex` | ble_sdk_release/proj/common/hash.h:127-131 | the masked index is hashv modulo 2^nbits and lies in the bit vector |
| `HashCheck.CheckChain` | ble_sdk_release/proj/common/hash.h:269-281 | the walk of a bucket succeeds exactly when every back-link is right, and then counts the chain |
| `HashCheck.CheckBuckets` | ble_sdk_release/proj/common/hash.h:268-291 | succeeds exactly when all back-links, bucket counts and the item count agree |
| `HashCheck.CheckOrder` | ble_sdk_release/proj/common/hash.h:293-309 | succeeds exactly when every prev is right and num_items is the number of items |
| `HashCheck.Fsck` | ble_sdk_release/proj/common/hash.h:261-311 | the check passes exactly on consistent tables, for any table whose forward links end |
| `HashCheck.LiveIsConsistent` | ble_sdk_release/proj/common/hash.h:261-311 | valid tables are consistent, and their tail is the last item |
| `HashCheck.ConsistentIsLinked` | ble_sdk_release/proj/common/hash.h:261-311 | a table that passes is linked both ways in every bucket and in order, with all counts right |
| `HashCheck.FsckPasses` | ble_sdk_release/proj/common/hash.h:261-311 | the check passes after every operation |
| `MergeTheory.SortCorrect` | ble_sdk_release/proj/common/utlist.h:98-163 | the bottom-up mergesort yields a stable sorted permutation of any sequence, for any total preorder |
| `MergeTheory.SortFromCorrect` | ble_sdk_release/proj/common/utlist.h:117-161 | the same from any pass on, given sorted runs of the current length |
| `MergeTheory.StableSortUnique` | ble_sdk_release/proj/common/utlist.h:98-163 | a stable sorted permutation is unique, so the specification fixes the result |
| `MergeTheory.PassDoublesRuns` | ble_sdk_release/proj/common/utlist.h:123-155 | a pass turns sorted runs of length k into sorted runs of length 2k |
| `MergeTheory.PassPermutes` | ble_sdk_release/proj/common/utlist.h:123-155 | a pass permutes |
| `MergeTheory.PassStable` | ble_sdk_release/proj/common/utlist.h:123-155 | a pass keeps the order of equal elements |
| `MergeTheory.MergeSorted` | ble_sdk_release/proj/common/utlist.h:133-153 | merging two sorted runs sorts |
| `MergeTheory.MergeStable` | ble_sdk_release/proj/common/utlist.h:133-153 | merging keeps the order of equal elements, left run first |
| `UtListSort.Skip` | ble_sdk_release/proj/common/utlist.h:126-131 | stepping over a run counts min(insize, rest) nodes |
| `UtListSort.LLMergeRuns` | ble_sdk_release/proj/common/utlist.h:133-153 | one merge emits the merge of the two runs and leaves the unread part intact |
| `UtListSort.LLMerges` | ble_sdk_release/proj/common/utlist.h:118-155 | one pass over a singly linked list is the pass on sequences; nmerges tells when it was the last |
| `UtListSort.LLSort` | ble_sdk_release/proj/common/utlist.h:105-163 | LL_SORT: the list becomes the stable sorted permutation of its nodes, null-ended |
| `UtListSort.DLMerges` | ble_sdk_release/proj/common/utlist.h:182-219 | one pass over a doubly linked list, with prev links |
| `UtListSort.DLSort` | ble_sdk_release/proj/common/utlist.h:169-229 | DL_SORT: stable sorted permutation, head->prev the last node, null-ended |
| `UtListSort.CDLMerges` | ble_sdk_release/proj/common/utlist.h:247-290 | one pass over a ring that starts closed |
| `UtListSort.CDLSort` | ble_sdk_release/proj/common/utlist.h:234-306 | CDL_SORT: stable sorted permutation, ring closed both ways |
| `UtListOps.DList.Prepend` | ble_sdk_release/proj/common/utlist.h:507-517 | refines adding in front |
| `UtListOps.DList.Append` | ble_sdk_release/proj/common/utlist.h:522-534 | refines adding at the end |
| `UtListOps.DList.Concat` | ble_sdk_release/proj/common/utlist.h:539-552 | refines concatenation |
| `UtListOps.DList.Delete` | ble_sdk_release/proj/common/utlist.h:557-573 | refines removal of one position |
| `UtListOps.DList.ReplaceElem` | ble_sdk_release/proj/common/utlist.h:595-619 | refines replacement of one position |
| `UtListOps.DList.PrependElem` | ble_sdk_release/proj/common/utlist.h:621-634 | refines insertion before a position |
| `UtListOps.DList.Sort` | ble_sdk_release/proj/common/utlist.h:166-229 | refines the stable sort |
| `DListRuns.Run` | ble_sdk_release/proj/common/utlist.h:507-634 | any valid sequence of the operations refines the same sequence operations, keeping head->prev = last, last->next = null and next/prev inverse |
| `DListRuns.Step` | ble_sdk_release/proj/common/utlist.h:507-634 | one operation of such a run |
| `DListRuns.RunBalances` | ble_sdk_release/proj/common/utlist.h:507-634 | no run loses or duplicates a node |
| `Mmem.Allocator.constructor` | ble_sdk_release/proj/common/mmem.c:110-115 | the empty arena with all memory available |
| `Mmem.Allocator.Alloc` | ble_sdk_release/proj/common/mmem.c:40-65 | succeeds exactly when live bytes plus the request fit 2048; the block is put behind all others, at MMEM_SIZE - avail_memory |
| `Mmem.Allocator.Compact` | ble_sdk_release/proj/common/mmem.c:82-93 | the bytes behind the block are moved down and every later pointer is lowered by its size |
| `Mmem.Allocator.Release` | ble_sdk_release/proj/common/mmem.c:95-98 | with the block unlinked, the rest tiles the arena again |
| `Mmem.Allocator.Free` | ble_sdk_release/proj/common/mmem.c:77-99 | the block goes, its size becomes available, every surviving block keeps its exact bytes |
| `Mmem.ShiftPointers` | ble_sdk_release/proj/common/mmem.c:90-92 | exactly the pointers behind the block are lowered |
| `Mmem.CompactionKeepsBytes` | ble_sdk_release/proj/common/mmem.c:82-93 | the move preserves the bytes of every block but the freed one, at its new place |
| `Mmem.TiledAdd` | ble_sdk_release/proj/common/mmem.c:50-60 | a block at the end keeps the tiling |
| `Mmem.TiledRemove` | ble_sdk_release/proj/common/mmem.c:88-98 | the tiling without the block, pointers shifted |
| `Mmem.OffsetMonotone` | ble_sdk_release/proj/common/mmem.c:54-57 | blocks of a tiling do not overlap |
| `MmemRuns.Run` | ble_sdk_release/proj/common/mmem.c:40-115 | every legal run of allocations, frees and users' writes is a run of a store of separate blocks |
| `MmemRuns.Step` | ble_sdk_release/proj/common/mmem.c:40-99 | one step of such a run |
| `MmemRuns.UntouchedBlockKept` | ble_sdk_release/proj/common/mmem.c:82-93 | in any run a block that is neither freed nor written keeps its bytes |
| `MmemRuns.LastPokeStays` | ble_sdk_release/proj/common/mmem.c:54-93 | in any run what was written last to a byte of a block is there until the block is freed |
| `MmemRuns.SpaceTaken` | ble_sdk_release/proj/common/mmem.c:44-99 | a request is granted exactly if it fits, and takes its size from the free space; freeing gives it back |
| `MmemRuns.SeparateWrite` | ble_sdk_release/proj/common/mmem.c:54-57 | a write into one block changes that byte and no other block |
| `ContikiList.Tail` | ble_sdk_release/proj/common/list.c:74-86 | the last element, null for the empty list |
| `ContikiList.TailIsRestIff` | ble_sdk_release/proj/common/list.c:63-86 | the element returned is the head of the elements after the first exactly for lists of no or two elements |
| `ContikiList.Add` | ble_sdk_release/proj/common/list.c:99-113 | the list with the item at the end |
| `ContikiList.Push` | ble_sdk_release/proj/common/list.c:118-125 | the list with the item in front |
| `ContikiList.Chop` | ble_sdk_release/proj/common/list.c:136-156 | returns the last element and leaves the rest |
| `ContikiList.Pop` | ble_sdk_release/proj/common/list.c:168-176 | drops the first element; what is returned is the new head |
| `ContikiList.Remove` | ble_sdk_release/proj/common/list.c:188-212 | the list without the item, unchanged when it is not there |
| `ContikiList.Length` | ble_sdk_release/proj/common/list.c:223-234 | the number of elements |
| `ContikiList.Insert` | ble_sdk_release/proj/common/list.c:251-261 | the list with the item behind previtem, or in front for NULL |
| `MemCopy.MemMove` | ble_sdk_release/proj/common/string.c:49-57 | leaves what ascending byte-by-byte copying leaves |
| `MemCopy.BbCopy` | ble_sdk_release/proj/common/string.c:59-69 | moves correctly for every overlap |
| `MemCopy.CopiedUpMoves` | ble_sdk_release/proj/common/string.c:49-57 | copying upwards is a correct move when the destination is not inside the source above its start |
| `MemCopy.CopiedDownMoves` | ble_sdk_release/proj/common/string.c:63-68 | copying downwards is a correct move in the other case |
| `MemCopy.MemMoveCorrectIff` | ble_sdk_release/proj/common/string.c:49-57 | memmove is correct for all contents exactly when not src < dest < src + n |
| `Qsort.Sort` | ble_sdk_release/proj/common/qsort.c:96-245 | for length >= 1 and a total preorder: terminates, sorted, a permutation; the stacks of the run, round by round from the whole array to nothing, never hold more than log2(length) + 1 frames, nor more than the slots |
| `Qsort.Partition` | ble_sdk_release/proj/common/qsort.c:123-153 | the middle element ends at the returned position, everything left of it is smaller, nothing right of it; the rest of the array unchanged |
| `Qsort.InsertionSort` | ble_sdk_release/proj/common/qsort.c:171-190 | a part is sorted in place, by permutation of that part only |
| `Qsort.SiftDown` | ble_sdk_release/proj/common/qsort.c:172-180 | one element sinks to its place |
| `Qsort.SortSide` | ble_sdk_release/proj/common/qsort.c:192-220 | a side of at most four elements is sorted at once, a larger one pushed |
| `Qsort.SortSides` | ble_sdk_release/proj/common/qsort.c:222-234 | larger side first: the stack stays in bounds and the pending work shrinks |
| `Qsort.Round` | ble_sdk_release/proj/common/qsort.c:120-234 | one round keeps: every pair out of order lies in one pending frame; the top frame is replaced by its sides that are not small, the larger below |
| `Qsort.StackBound` | ble_sdk_release/proj/common/qsort.c:92-106 | d frames need a length of at least 2^(d-1), 5 * 2^(d-1) from two frames on |
| `Qsort.ShallowMeans` | ble_sdk_release/proj/common/qsort.c:92-106 | a stack within that bound has at most the slots and at most log2(length) + 1 frames |
| `Qsort.SidesFit` | ble_sdk_release/proj/common/qsort.c:156-169 | the frame at depth k spans at most length / 2^k elements |
| `Qsort.PivotIsMiddle` | ble_sdk_release/proj/common/qsort.c:134-134 | for a power-of-two element size the mask finds the middle element |
| `Qsort.PivotAlignedIff` | ble_sdk_release/proj/common/qsort.c:134-134 | the masked offset is an element for every span exactly when the element size is a power of two |
| `QsortTheory.SplitFrame` | ble_sdk_release/proj/common/qsort.c:117-153 | splitting a partitioned frame keeps the order between frames |
| `QsortTheory.PermuteFrame` | ble_sdk_release/proj/common/qsort.c:136-153 | permuting inside a frame keeps the order between frames |
| `QsortTheory.NothingPending` | ble_sdk_release/proj/common/qsort.c:244-244 | with no frame left the array is sorted |
| `Crc.Crc16Bitwise` | ble_sdk_release/proj/simu/crc_sw.c:108-141 | the 16-bit CRC of the first len_m1 + 1 bytes; these are zero afterwards, the rest untouched |
| `Crc.Crc32Bitwise` | ble_sdk_release/proj/simu/crc_sw.c:144-185 | the same with 32 bits |
| `Crc.Bitwise` | ble_sdk_release/proj/simu/crc_sw.c:108-141 | both: the shift register after the message and as many zero bits as it is wide |
| `Crc.FeedByte` | ble_sdk_release/proj/simu/crc_sw.c:117-126 | eight steps shift the byte into the register, high bit first |
| `Crc.StepIsShift` | ble_sdk_release/proj/simu/crc_sw.c:118-125 | the word operations are one step of the shift register on bits |
| `CrcTheory.CrcLinear` | ble_sdk_release/proj/simu/crc_sw.c:108-141 | crc(a xor b) = crc(a) xor crc(b) on bit messages |
| `CrcTheory.DetectsAllBurstsIff` | ble_sdk_release/proj/simu/crc_sw.c:108-141 | a generator detects every burst as wide as the register exactly when its low bit is set |
| `CrcTheory.CrcSelfCheck` | ble_sdk_release/proj/simu/crc_sw.c:108-141 | a message followed by its CRC has CRC 0, and no other trailer has it if the generator is odd |
| `CrcTheory.RunInjective` | ble_sdk_release/proj/simu/crc_sw.c:118-125 | with an odd generator no two registers ever meet |
| `CrcDivision.CrcDivides` | ble_sdk_release/proj/simu/crc_sw.c:108-141 | the message followed by zeros is a multiple of the full generator plus the CRC |
| `CrcDivision.DivisionUnique` | ble_sdk_release/proj/simu/crc_sw.c:108-141 | quotient and remainder are unique |
| `CrcDivision.CrcIsRemainderIff` | ble_sdk_release/proj/simu/crc_sw.c:108-141 | c is the CRC exactly if the padded message is a multiple of the full generator plus c |
| `CrcLaws.DetectsBurstsIffOdd` | ble_sdk_release/proj/simu/crc_sw.c:39-185 | all equal-length byte messages that differ only within 8n consecutive bits have different CRCs exactly when the generator is odd |
| `CrcLaws.ModesDetectBursts` | ble_sdk_release/proj/simu/crc_sw.c:39-39 | so it is for the three 16-bit generators and for CRC_MODE3_POLY |
| `CrcLaws.CrcWordLinear` | ble_sdk_release/proj/simu/crc_sw.c:108-185 | linearity on byte messages and words |
| `CrcLaws.TrailerChecks` | ble_sdk_release/proj/simu/crc_sw.c:108-185 | self-check on byte messages, both directions |
| `CrcLaws.SelfCheck16` | ble_sdk_release/proj/simu/crc_sw.c:108-141 | message + high byte + low byte of its CRC has CRC 0 |
| `CrcLaws.CalcSelfCheck` | ble_sdk_release/proj/simu/crc_sw.c:237-253 | crc16_calc checks itself with the low byte first |
| `CrcTable.UpdateExtends` | ble_sdk_release/proj/simu/crc_sw.c:94-95 | one table update extends the message by one byte |
| `CrcTable.EntryIsCrc` | ble_sdk_release/proj/simu/crc_sw.c:61-70 | a table entry is the CRC of the one-byte message |
| `CrcTable.RunReflects` | ble_sdk_release/proj/simu/crc_sw.c:64-67 | the right-shifting register is the left-shifting one read backwards, generator reversed |
| `Crc32Table.BuildTable` | ble_sdk_release/proj/simu/crc_sw.c:53-72 | fills the table for either bit order |
| `Crc32Table.BuildEntry` | ble_sdk_release/proj/simu/crc_sw.c:61-70 | one entry by eight shifts |
| `Crc32Table.TableIsOneByteCrcs` | ble_sdk_release/proj/simu/crc_sw.c:53-72 | the big-endian table is exactly the 256 one-byte CRCs over CRC_MODE3_POLY |
| `Crc32Table.TablesAreMirrors` | ble_sdk_release/proj/simu/crc_sw.c:53-72 | the little-endian table is the same one, index and entry read backwards |
| `Crc32Table.CalcCrc` | ble_sdk_release/proj/simu/crc_sw.c:86-103 | the table loop folds the message byte by byte |
| `Crc32Table.TableFold` | ble_sdk_release/proj/simu/crc_sw.c:94-95 | folding p takes the CRC of q to the CRC of q + p |
| `Crc32Table.TableFoldMirrored` | ble_sdk_release/proj/simu/crc_sw.c:99-100 | the little-endian form computes the bit-reversed CRC of the bit-reversed bytes |
| `Crc32Table.TableMatchesBitwise` | ble_sdk_release/proj/simu/crc_sw.c:94-95 | from 0 the table gives what crc32_bitwise gives over CRC_MODE3_POLY |
| `CrcMirror.ReverseBits` | ble_sdk_release/proj/simu/crc_sw.c:189-232 | the three reversal loops reverse the bits of a word |
| `CrcMirror.ReverseTwice` | ble_sdk_release/proj/simu/crc_sw.c:189-232 | reversal undoes itself |
| `CrcMirror.Crc16Calc` | ble_sdk_release/proj/simu/crc_sw.c:237-253 | the reversed CRC of the reversed bytes, the caller's bytes untouched |
| `CrcMirror.CalcIsReflected` | ble_sdk_release/proj/simu/crc_sw.c:237-253 | crc16_calc is the right-shifting register with generator 0x8408, every byte low bit first |
| `CrcMirror.ReversedMode3` | ble_sdk_release/proj/simu/crc_sw.c:55-55 | 0xedb88320 is CRC_MODE3_POLY reversed |
| `RingBuffer.EveryInterleaving` | ble_sdk_release/proj/common/ringbuffer.h:96-198 | under every schedule of single instructions the bytes removed are a prefix of the bytes inserted, and the count is their difference and within 0..size |
| `RingBuffer.InStep` | ble_sdk_release/proj/common/ringbuffer.h:160-172 | every instruction of the inserter keeps the invariant |
| `RingBuffer.OutStep` | ble_sdk_release/proj/common/ringbuffer.h:184-198 | every instruction of the remover keeps it |
| `RingBuffer.StoreSafe` | ble_sdk_release/proj/common/ringbuffer.h:162-162 | the store hits no slot that holds an unread byte |
| `RingBuffer.LoadSafe` | ble_sdk_release/proj/common/ringbuffer.h:186-186 | the load takes the oldest byte not removed |
| `RingBuffer.InsertsWhenFree` | ble_sdk_release/proj/common/ringbuffer.h:146-172 | an inserter that looks and finds a free byte inserts: the memory becomes what the whole call makes of it |
| `RingBuffer.RemovesWhenStored` | ble_sdk_release/proj/common/ringbuffer.h:133-198 | a remover that looks and finds a byte takes the oldest |
| `RingBuffer.LookIn` | ble_sdk_release/proj/common/ringbuffer.h:116-149 | a look by the inserter gives exactly the free bytes; in a full buffer it stays where it is |
| `RingBuffer.LookOut` | ble_sdk_release/proj/common/ringbuffer.h:96-136 | a look by the remover gives exactly the stored bytes |
| `RingBuffer.InserterKeepsUnread` | ble_sdk_release/proj/common/ringbuffer.h:160-172 | the inserter only ever appends to the unread bytes |
| `RingBuffer.RemoverKeepsUnread` | ble_sdk_release/proj/common/ringbuffer.h:184-198 | the remover only ever takes the first unread byte, and writes no storage |
| `RingBuffer.Drains` | ble_sdk_release/proj/common/ringbuffer.h:18-26 | a remover that saw n bytes stored gets the next n bytes inserted without looking again |
| `RingBuffer.AtRest` | ble_sdk_release/proj/common/ringbuffer.h:96-198 | with both sides between calls the memory is the queue of the bytes not removed |
| `RingBuffer.Run` | ble_sdk_release/proj/common/ringbuffer.h:160-198 | the invariant holds along every run |
| `RingBuffer.Ring.constructor` | ble_sdk_release/proj/common/ringbuffer.h:68-80 | the empty buffer |
| `RingBuffer.Ring.GetCount` | ble_sdk_release/proj/common/ringbuffer.h:96-102 | the number of bytes stored |
| `RingBuffer.Ring.GetFreeCount` | ble_sdk_release/proj/common/ringbuffer.h:116-119 | the free space |
| `RingBuffer.Ring.IsEmpty` | ble_sdk_release/proj/common/ringbuffer.h:133-136 | true exactly for the empty queue |
| `RingBuffer.Ring.IsFull` | ble_sdk_release/proj/common/ringbuffer.h:146-149 | true exactly for the full queue |
| `RingBuffer.Ring.Insert` | ble_sdk_release/proj/common/ringbuffer.h:160-172 | enqueues, and is the four instructions in a row |
| `RingBuffer.Ring.Remove` | ble_sdk_release/proj/common/ringbuffer.h:184-198 | dequeues, and is the instructions in a row |
| `RingBuffer.Ring.Peek` | ble_sdk_release/proj/common/ringbuffer.h:206-209 | the first byte |
| `MyFifo.Fifo.constructor` | ble_sdk_release/proj/common/utility.c:163-170 | the empty fifo, for any num and size whose slots fit the store |
| `MyFifo.Fifo.Wptr` | ble_sdk_release/proj/common/utility.c:172-179 | a slot exactly when fewer than num packets are queued; it lies in the store |
| `MyFifo.Fifo.Next` | ble_sdk_release/proj/common/utility.c:181-184 | commits the packet written there; those queued stay readable |
| `MyFifo.Fifo.Push` | ble_sdk_release/proj/common/utility.c:186-202 | fails exactly when num packets are queued or n >= size, and then changes nothing; else enqueues, counts up and writes n, 0 and the payload into slot wptr % num (for num a power of two); with n other than size - 1 every queued packet stays readable |
| `MyFifo.Fifo.WritePacket` | ble_sdk_release/proj/common/utility.c:197-200 | the store afterwards is the old one with the packet written over it |
| `MyFifo.Fifo.Pop` | ble_sdk_release/proj/common/utility.c:204-207 | dequeues; the rest stays readable |
| `MyFifo.Fifo.Get` | ble_sdk_release/proj/common/utility.c:209-219 | null exactly when empty, else slot rptr % num (for num a power of two), which holds the length and the bytes of the oldest packet while packets are readable |
| `MyFifo.SlotsDistinctIff` | ble_sdk_release/proj/common/utility.c:197-197 | num consecutive counters, across the 8-bit wrap, always select different slots exactly when num is a power of two |
| `MyFifo.StaysInSlotIff` | ble_sdk_release/proj/common/utility.c:193-200 | a push of n bytes stays in its slot exactly when n + 2 <= size |
| `MyFifo.PushKeeps` | ble_sdk_release/proj/common/utility.c:186-202 | with num a power of two, a push of any length but size - 1 keeps all queued packets readable |
| `MyFifoRuns.Run` | ble_sdk_release/proj/common/utility.c:163-219 | any run of push, pop and get that stays inside the store does what the run of the machine does, answer by answer |
| `MyFifoRuns.FirstInFirstOut` | ble_sdk_release/proj/common/utility.c:186-219 | what was popped, then what is queued, is what was queued, then what was accepted; never more than num |
| `MyFifoRuns.FittingRunKeeps` | ble_sdk_release/proj/common/utility.c:186-219 | with num a power of two, along every run without payloads of size - 1 bytes all queued packets stay readable |
| `MyFifoRuns.HealthyFront` | ble_sdk_release/proj/common/utility.c:209-219 | what get then exposes is the oldest length and bytes |
| `MyFifoRuns.PushSpills` | ble_sdk_release/proj/common/utility.c:193-200 | a push of size - 1 bytes next to num - 1 queued packets overwrites the length byte of the oldest |
| `MyFifoRuns.PushKeepsIff` | ble_sdk_release/proj/common/utility.c:193-200 | in every fifo reached by a run, a push of n < size bytes keeps all queued packets exactly when n + 2 <= size |
| `MyFifoRuns.EveryRunKeepsIff` | ble_sdk_release/proj/common/utility.c:186-219 | all runs with payloads up to a limit keep all queued packets exactly when num is a power of two and limit + 2 <= size |
| `UsbCdc.EveryRun` | ble_sdk_release/proj/app/usbcdc.c:223-304 | in every run of writes, interrupts and callbacks the wire carries the sent buffers, whole and in turn, and the part of the current one; submitted = sent + in flight + pending; a waiting write has a transfer in flight or a callback scheduled |
| `UsbCdc.RunSubmits` | ble_sdk_release/proj/drivers/usb_uart.c:146-165 | what a run submits is exactly what its writes wrote |
| `UsbCdc.Step` | ble_sdk_release/proj/app/usbcdc.c:223-304 | every step keeps these invariants |
| `UsbCdc.ChunksMakeUp` | ble_sdk_release/proj/app/usbcdc.c:233-248 | the chunks of a buffer concatenate to it, 1 to 64 bytes each, all but the last 64 |
| `UsbCdc.DebugCopyFitsIff` | ble_sdk_release/proj/app/usbcdc.c:221-248 | the copies of all chunks of a buffer fit the 60 bytes of T_BUF exactly when the buffer has at most 60 bytes |
| `UsbCdc.SendBulkKeeps` | ble_sdk_release/proj/app/usbcdc.c:223-273 | a bulk transaction neither loses nor duplicates a buffer |
| `UsbCdc.WriteKeeps` | ble_sdk_release/proj/drivers/usb_uart.c:146-165 | a write adds exactly its buffer to what the driver owns |
| `UsbCdc.FinishKeeps` | ble_sdk_release/proj/drivers/usb_uart.c:83-101 | the completion callback frees its buffer and starts or requeues one pending write |
| `UsbCdc.CompletesOnce` | ble_sdk_release/proj/drivers/usb_uart.c:83-101 | in no run does a buffer complete twice that was submitted once |
| `UsbCdc.WorkRunsOut` | ble_sdk_release/proj/app/usbcdc.c:223-273 | without new writes, the chunks and callbacks left bound the effective steps |
| `UsbCdc.AllFreedIff` | ble_sdk_release/proj/drivers/usb_uart.c:83-165 | a run that has come to rest has freed exactly what was written exactly if no buffer written was empty |
| `UsbCdc.CanStop` | ble_sdk_release/proj/app/usbcdc.c:223-273 | effective steps lead every state to rest |
| `UsbCdc.CompletesIff` | ble_sdk_release/proj/app/usbcdc.c:223-298 | n ready interrupts complete a buffer exactly when it is not empty and has at most n chunks |
| `UsbCdc.EmptyBlocks` | ble_sdk_release/proj/app/usbcdc.c:233-239 | an empty buffer in transfer blocks the transmitter for good |
| `UsbUart.Driver.constructor` | ble_sdk_release/proj/drivers/usb_uart.c:114-133 | the idle driver |
| `UsbUart.Driver.SendBulkData` | ble_sdk_release/proj/app/usbcdc.c:223-273 | is the bulk step of the machine (without the debug copy to T_BUF) |
| `UsbUart.Driver.SendData` | ble_sdk_release/proj/app/usbcdc.c:279-298 | starts a transfer, or reports USB_BUSY |
| `UsbUart.Driver.IsAvailable` | ble_sdk_release/proj/app/usbcdc.c:301-304 | true exactly when a write made now would not be queued, and when no buffer is in transfer |
| `UsbUart.Driver.Write` | ble_sdk_release/proj/drivers/usb_uart.c:146-165 | sends at once exactly if nothing is in transfer, and returns SUCCESS; otherwise queues the buffer, and returns USB_MULTIBLOCK; never USB_BUSY |
| `UsbUart.Driver.WriteOrQueue` | ble_sdk_release/proj/drivers/usb_uart.c:146-165 | the same for a write by the application or the completion callback; a queued write touches neither the transfer nor the wire |
| `UsbUart.Driver.TxFinishCb` | ble_sdk_release/proj/drivers/usb_uart.c:83-101 | is the callback step of the machine |
| `UsbUart.Driver.Execute` | ble_sdk_release/proj/drivers/usb_uart.c:83-165 | any run of the driver is a run of the machine |
| `Printf.Prints` | ble_sdk_release/proj/common/printf.c:47-78 | emits the string padded to the width on the chosen side; returns the number of characters |
| `Printf.Printi` | ble_sdk_release/proj/common/printf.c:83-123 | emits the formatted number; the buffer is never left; returns the number of characters |
| `Printf.Convert` | ble_sdk_release/proj/common/printf.c:101-110 | the digit loop writes the numeral before the terminator |
| `PrintTheory.RoundTripIff` | ble_sdk_release/proj/common/printf.c:83-123 | reading the output back gives the value exactly unless zeros were filled in on the right of a number other than 0 |
| `PrintTheory.FormattedLength` | ble_sdk_release/proj/common/printf.c:77-122 | the output has max(width, natural length) characters |
| `PrintTheory.NumeralLengthIff` | ble_sdk_release/proj/common/printf.c:104-110 | u has at most k digits exactly when u < b^k |
| `PrintTheory.BufferSufficesIff` | ble_sdk_release/proj/common/printf.c:80-85 | the digits of every 32-bit value fit the 12 bytes exactly in base 8 and above |
| `PrintTheory.TextFits` | ble_sdk_release/proj/common/printf.c:80-120 | digits, sign and terminator of every value fit |
| `PrintTheory.LongestText` | ble_sdk_release/proj/common/printf.c:80-81 | -2147483648 needs all twelve bytes |
| `PrintTheory.NumeralBack` | ble_sdk_release/proj/common/printf.c:104-110 | the digits read back as the number |
| `PrintTheory.DigitsLead` | ble_sdk_release/proj/common/printf.c:90-110 | numbers are written without leading zeros, and 0 as one figure |
| `PrintTheory.NumeralLetters` | ble_sdk_release/proj/common/printf.c:104-109 | the digits are figures and letters of the case asked for |
| `PrintTheory.OutputLetters` | ble_sdk_release/proj/common/printf.c:104-122 | so is the output, beside blanks and signs |
| `PrintTheory.PaddedParts` | ble_sdk_release/proj/common/printf.c:47-77 | the padded string is the string with blanks or zeros before it or after it, up to the width |
| `PrintTheory.FormattedShape` | ble_sdk_release/proj/common/printf.c:90-122 | zero fill goes between sign and digits or behind them, blanks around the text |

## Left out

- Swap: elements are swapped whole; the byte loop of `SWAP` and `SWAP_NEXT` is not modelled.
- Partition: works on element indices; that the byte-offset pivot is that index is `Qsort.PivotIsMiddle`.
- PivotAlignedIff: the mask is taken on unsigned offsets without word size.
- Bitwise: `len_m1` is below the buffer's length; the source's loop does not end for 0xffffffff.
- Printi: takes only the bases 10 and 16 of its callers; `-i` for the smallest int is taken as 2^31; `printchar` to a device or a caller's string is appending to a text.
- WritePacket: the copy between two buffers goes upwards; the direction `memcpy` chooses makes no difference there.
- Push: `MyFifo.Fifo.Push` requires that the bytes an accepted push writes lie in the store, which has room for num * size bytes.
- SendBulkData: endpoint registers, the wait for the acknowledge and the stores into the debug array `T_BUF` are not part of the step; `UsbCdc.DebugCopyFitsIff` says when those fit.
- `txCb` is always set, as `usb_uart_open` does, and runs when the scheduler gets to it.
- `ev_queue`, `ev_buf` and the event scheduler are not part of this model; allocation always succeeds, as the sources stop otherwise.
- `mmem.h` and `utility.h` are not part of this model: a block is next, size and pointer, and the fields of `my_fifo_t` are bytes.
- Out-of-memory exits of `hash.h`, the signatures, `HASH_EMIT_KEY` and the freeing of tables have no effect on the model's state.
- Concrete hash functions (`HASH_JEN`, `HASH_MUR` and others): one arbitrary function stands for all.
- `HASH_SELECT`: it does not maintain `tail` of the destination.
- `LL_*` and `CDL_*` list operations other than the sorts would repeat the doubly linked ones.
- `usbcdc_recvData`, the control requests and the timer: hardware and timing.
- The format parser `print` and `my_sprintf`: dispatch to `prints` and `printi`.
- `crc32_getCrc`: `Crc32Table.CalcCrc` with a fixed start value.
- `array.h`, `selection_sort.c`, `mempool.c`, `filter_data` and the byte-swap helpers: easier members of the same kinds.
- Drivers, radio, clocks, flash, descriptors and the closed libraries: hardware effects that cannot be seen in the source.
