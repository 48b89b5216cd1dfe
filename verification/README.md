# gbase: containers, allocators and codecs

gbase is a C library of containers, allocators and codecs. This project models
the hard ones in Dafny and proves that they do what they are for. Code that
works in place is modelled in place: nodes with parent pointers, chunk headers
in a page, index trees in arrays, cursors over character buffers. Each class
carries an abstract value (an ordered sequence, a set of live blocks, a byte
queue, a map of keys) that its methods are proved against; what the library
promises is then proved about that value, over whole runs where it is promised
for runs. The two components that several threads or processes share, the
message ring and the bus registry, are state machines whose steps may interleave
in any way.

| files | what they model |
|---|---|
| `Ordering.dfy`, `RedBlackModel.dfy`, `RedBlackTree.dfy` | red-black tree (`base/rbtree.c`): rotations, both repair loops, all cases of a deletion, search and in-order walk |
| `Powers.dfy`, `BuddyModel.dfy`, `Buddy.dfy` | buddy allocator (`mm/buddy.c`) and the logarithm and rounding macros it uses |
| `SlabModel.dfy`, `Slab.dfy` | slab allocator (`mm/slab.c`): chunks in a 4096-byte page, the free list of offsets, merging, the four page lists |
| `SkipListModel.dfy`, `SkipList.dfy` | ranked skip list (`base/skiplist.c`) with duplicates, spans and rank lookup |
| `RingModel.dfy`, `Ring.dfy` | single-producer single-consumer message ring (`base/rbuffer.c`), as interleaved steps and as calls |
| `JsonText.dfy`, `JsonParser.dfy`, `JsonString.dfy`, `JsonRoundTrip.dfy`, `JsonNumber.dfy`, `JsonUnicode.dfy`, `JsonGrammar.dfy`, `JsonMinify.dfy`, `JsonComments.dfy`, `JsonReader.dfy`, `JsonWriter.dfy` | cJSON (`util/cjson.c`): printer, parser, minifier and their buffers |
| `HeapModel.dfy`, `Heap.dfy`, `Timer.dfy` | keyed heap (`base/heap.c`), timers (`base/timer.c`), times (`util/util_time.c`) |
| `IdTable.dfy`, `Bus.dfy` | id table (`base/idtable.c`) and the registry of the shared-memory bus (`logic/bus.c`) |
| `Bytes.dfy`, `Buffer.dfy`, `WsFrame.dfy` | drifting byte buffer (`base/buffer.c`) and WebSocket framing (`net/wsconn.c`) |
| `Sha1Core.dfy`, `Sha1.dfy`, `Sha1Example.dfy` | SHA-1 (`util/sha1.c`) against FIPS 180-4 |
| `ConHash.dfy` | consistent-hash ring (`base/conhash.c`) |
| `Options.dfy`, `Sets.dfy` | an option type, sizes of sets |

Where the code and what one would expect of it part ways, the model follows the
code, and the contract says exactly when it still does what is expected:

- `ROUNDUP` shifts an int and `buddy_alloc` casts sizes to int. The contracts
  follow both; `RoundUpIsLeast`, `RoundedIsEnough`, `SizeTest`, `CopyFits` and
  `TreeFits` say exactly up to where the results are right, and `HugeRequest` is
  the least request that gets a block too small for it.
- An erasure from the keyed heap, and an update to a smaller datum, only sift
  down. `Heap.Erase` and `Heap.Update` state the condition under which the order
  survives, as an equivalence, and `ErasingDisorders` runs into a heap where it
  does not.
- `heap_pop` never releases the key of what it pops. Insertions are specified for
  heaps that have been popped as well, as long as there is a key to give
  (`Heap.Room`). A heap that has been popped never grows again, and there is a key
  exactly while insertions less erasures stay below its capacity (`PoppedRuns`);
  behind that, as after fifteen insertions, a pop and an insertion
  (`FifteenInSixteen`), the next insertion would write behind the key table. The
  same holds for timers that have fired for the last time.
- `util_time_add` can leave a full million of microseconds (`CarryKeeps`), which
  makes a timer fire early by nothing at all (`EarlyFiring`).
- `parse_string` counts in one pass and unescapes in another, which may step over
  the quote at which the first one stopped. `SafeExactly` and `SafeUnclosed` say
  for which literals both stay in the text and the string fits the buffer,
  `TruncatedOverflows` and `MisreadOverflows` are literals for which it does not.
  Where the program leaves the text or the buffer, the parser's result is `Astray`.
- An exponent is read into an int (`ParseDecimalExactly`).
- `cJSON_Minify` stays in its text only if literals and comments are closed
  (`ClosedReach`, `LoneQuoteLeaves`), and takes `/*/` for a whole comment
  (`SlashEndsBlock`).
- `_wsconn_frame` adds the header to a 64-bit length, and the sum wraps.
  `HeaderIsSafe` and `ParseExactly` say when its length test is right;
  `LongestIsRefused` and `LongestMaskedIsWild` are headers for which it is not.
- `_wsconn_read` parses once for each read, so that a frame that came with another
  waits until more bytes arrive (`OneByOne`, `CatchesUp`).
- `wsconn_send` appends the first byte before it looks for room. `Send` says so.
- `buddy_realloc` gives the old block back even if it finds no new one.
- A second `idtable_add` for an id takes a slot that is never found.

Callbacks that compare are assumed to be total preorders. The random level of a
skip list node is an argument, so everything holds for every draw. Node objects
are compared by identity, and each class owns its nodes.

## Model

| member | source | states |
|---|---|---|
| Ordering.HitsIffContains | base/rbtree.c:290-302 | In an ascending sequence the place where a search ends holds an equal element just when one is stored at all |
| Ordering.AddedIsSet | base/rbtree.c:237-288 | The specification of an insertion keeps the sequence strictly ascending and adds exactly the new element's equivalence class |
| Ordering.RemovedIsSet | base/rbtree.c:529-541 | The specification of a deletion keeps the sequence strictly ascending and takes away exactly that equivalence class |
| Ordering.RunIsSet | base/rbtree.h:4-28 | After any run of insertions and deletions a search answers as a set does: the last update about an element decides |
| RedBlackModel.RotShape | base/rbtree.c:98-169 | A rotation either way keeps search order, parent links and the in-order sequence of the whole tree |
| RedBlackModel.InsertRecolorOk | base/rbtree.c:181-191 | Recolouring below a red uncle moves the only violation up to the grandparent, keeps all black counts, and makes progress |
| RedBlackModel.InsertInnerOk | base/rbtree.c:194-198 | Rotating an inner grandchild turns it into an outer one and breaks nothing else |
| RedBlackModel.InsertOuterOk | base/rbtree.c:200-203 | With a black uncle, recolouring and one rotation of the grandparent restore all red-black rules |
| RedBlackModel.SiblingExists | base/rbtree.c:323-326 | While a black node is missing below a node that is not the root, its sibling exists: the repair loop never meets a null brother |
| RedBlackModel.DeleteRedSiblingOk | base/rbtree.c:328-336 | Rotating a red sibling up leaves the same deficit with a black sibling |
| RedBlackModel.DeletePushUpOk | base/rbtree.c:338-343 | A black sibling without red kids turned red moves the deficit to the parent, and makes progress |
| RedBlackModel.DeleteNearRedOk | base/rbtree.c:345-351 | Rotating the sibling's near red kid up gives a black sibling with a red far kid |
| RedBlackModel.DeleteFarRedOk | base/rbtree.c:353-358 | Handing the parent's colour over and rotating the parent ends the repair with all rules restored |
| RedBlackModel.SpliceOk | base/rbtree.c:403-527 | Taking out a node with at most one kid leaves a valid tree if it was red, and exactly one missing black node on its kid's side if it was black |
| RedBlackModel.RootWithOneKid | base/rbtree.c:495-510 | A root with a single kid has no grandkids: the whole tree is these two nodes, and the kid a leaf |
| RedBlackModel.HeightBound | base/rbtree.c:4-10 | A tree of n elements that obeys the rules has height at most 2*log2(n+1) |
| RedBlackTree.Tree.RotateLeft | base/rbtree.c:110-133 | The pointer updates of a left rotation are exactly that rotation of the tree, parent pointers included; no other node changes |
| RedBlackTree.Tree.RotateRight | base/rbtree.c:145-169 | The same for a right rotation |
| RedBlackTree.Tree.InsertAdjust | base/rbtree.c:172-234 | Ends, leaves the elements and the nodes alone, and restores all rules after a red leaf was attached |
| RedBlackTree.Tree.InsertAdjustLeft | base/rbtree.c:180-204 | One round of that repair below a left parent: at most one violation is left, higher up |
| RedBlackTree.Tree.InsertAdjustRight | base/rbtree.c:205-229 | The mirrored round |
| RedBlackTree.Tree.DeleteAdjust | base/rbtree.c:315-401 | Ends, leaves the elements and the nodes alone, and restores all rules when one black node is missing below a node |
| RedBlackTree.Tree.DeleteAdjustLeft | base/rbtree.c:324-359 | One round of that repair for a left kid: the deficit has moved up or is gone |
| RedBlackTree.Tree.DeleteAdjustRight | base/rbtree.c:360-395 | The mirrored round |
| RedBlackTree.Tree.MinNode | base/rbtree.c:38-48 | The leftmost node of a subtree is the first of its elements |
| RedBlackTree.Tree.NextNode | base/rbtree.c:63-78 | The node with the next larger element, null after the last one; of a node with a right kid it has no left kid and is not the root |
| RedBlackTree.Tree.FindNode | base/rbtree.c:290-302 | The node of the stored equal, null just when there is none |
| RedBlackTree.Tree.Find | base/rbtree.c:304-313 | The stored equal of the argument, or nothing just when there is none |
| RedBlackTree.Tree.FindSlot | base/rbtree.c:254-267 | The node below which, and the side on which, a new element belongs; none just when its equal is stored |
| RedBlackTree.Tree.Insert | base/rbtree.c:237-288 | Keeps all rules; adds exactly the element at its place and returns 0, or changes nothing and returns -1 just when its equal is stored |
| RedBlackTree.Tree.Unlink | base/rbtree.c:423-526 | The three hand-written relinks of a node with at most one kid all put the kid in its place, with consistent parent pointers |
| RedBlackTree.Tree.DeleteWithTwoKids | base/rbtree.c:451-476 | Copying the successor's data and removing the successor removes exactly the node's own element |
| RedBlackTree.Tree.DeleteRootWithOneKid | base/rbtree.c:495-510 | Replacing the root by its only kid removes exactly the root's element |
| RedBlackTree.Tree.DeleteNode | base/rbtree.c:403-527 | Whichever of the structural cases applies, exactly this node's element goes and all rules hold again |
| RedBlackTree.Tree.Delete | base/rbtree.c:529-541 | Keeps all rules; returns and removes exactly the stored equal, or nothing if there is none |
| RedBlackTree.Tree.Loop | base/rbtree.c:543-562 | The callbacks see all elements, each once, in ascending order |
| RedBlackTree.Tree.Replay | base/rbtree.h:4-28 | Over any run of insertions and deletions the tree stays valid and holds exactly what a sorted set would |
| Powers.ILog2IsLog2 | core/os_def.h:69-137 | The bit-scanning macro computes the floor of the binary logarithm for every positive 64-bit number below the limit |
| Powers.RoundUpIsLeast | core/os_def.h:139-142 | The rounding macro gives the least power of two that is not below its argument exactly for arguments up to 2^30: behind that the int it shifts turns negative |
| Powers.RoundUpUnsigned | core/os_def.h:139-142 | Converted to an unsigned 32-bit integer the result is still right up to 2^31 |
| BuddyModel.Separate | mm/buddy.c:28-38 | Two blocks of the index tree share a byte only if one contains the other |
| BuddyModel.Aligned | mm/buddy.c:28-38 | Every block starts at a multiple of its size |
| BuddyModel.BlockIndex | mm/buddy.c:28-38 | Every aligned stretch of 2^k bytes of the pool is a block of the tree |
| BuddyModel.LiveApart | mm/buddy.c:147-226 | Blocks handed out never overlap |
| BuddyModel.NotFree | mm/buddy.c:201-222 | The subtrees the search passes over contain no free block of the wanted size |
| BuddyModel.NothingUsed | mm/buddy.c:228-282 | A sound tree without a used block has only unused nodes |
| BuddyModel.MergeOk | mm/buddy.c:247-259 | Merging two unused halves keeps the tree sound but for the block above; that block and the next are split, never full |
| BuddyModel.UnfillOk | mm/buddy.c:261-270 | Turning a full block above a freed one into a split one keeps the tree sound but for the block above |
| BuddyAllocator.Buddy.FromIndex | mm/buddy.c:28-38 | The size and offset macros agree with the geometry of the tree, for every index |
| BuddyAllocator.Buddy.NextIndex | mm/buddy.c:201-217 | The index arithmetic of the search leads to the block right behind the current one, or tells that the pool's end is reached |
| BuddyAllocator.Buddy.Search | mm/buddy.c:159-226 | The search never leaves the tree; it ends with nothing changed and no free block of the size anywhere, or with a block of that size no part of which was in use, and with none free before it: the leftmost |
| BuddyAllocator.Buddy.Alloc | mm/buddy.c:147-226 | With the casts the code makes: fails just when no aligned stretch of the size looked for is entirely free, and then changes nothing; otherwise exactly the first such stretch is added to the live blocks |
| BuddyAllocator.Buddy.RequestSize | mm/buddy.c:151-156 | After rounding and both casts to int, the size looked for is the least block size that holds the request, and 2^31 bytes get the smallest block; refused just when that size exceeds the pool |
| BuddyAllocator.Buddy.RoundedIsEnough | mm/buddy.c:151-156 | The block looked for holds the request exactly if the request fits an int |
| BuddyAllocator.Buddy.SizeTest | mm/buddy.c:153-154 | Of all sizes a size_t can hold, exactly which requests larger than the pool pass the test on the cast size: those from 2^31 whose low 32 bits are no int above the pool's size |
| BuddyAllocator.Buddy.HugeRequest | mm/buddy.c:151-156 | A request of 2^31 bytes passes the size test of every pool and is served with a block of the smallest size |
| BuddyAllocator.Buddy.MarkFull | mm/buddy.c:174-187 | Setting the full flags upwards makes the tree sound again and touches no used flag |
| BuddyAllocator.Buddy.Merge | mm/buddy.c:247-259 | The merging loop ends with nothing left to merge and touches no used flag |
| BuddyAllocator.Buddy.Unfill | mm/buddy.c:261-270 | The second upward loop makes the tree sound again whatever the first one did |
| BuddyAllocator.Buddy.FindUsed | mm/buddy.c:239-281 | Halving the pool towards an offset ends at the live block that starts there, and at no other |
| BuddyAllocator.Buddy.Free | mm/buddy.c:228-282 | Exactly the block at this offset leaves the live blocks; the tree stays sound |
| BuddyAllocator.Buddy.FreeAll | mm/buddy.c:228-282 | Freeing all live blocks in any order restores the initial tree of unused nodes |
| BuddyAllocator.Buddy.AllFreed | mm/buddy.c:228-282 | Without live blocks the tree is the initial one |
| BuddyAllocator.Buddy.BlocksApart | mm/buddy.c:147-226 | Live blocks are disjoint, inside the pool, a power of two in size and aligned to it |
| BuddyAllocator.Buddy.AllocCopy | mm/buddy.c:137-142 | For requests that fit an int, the new block starts with the old one's bytes as far as both reach; no other byte of the pool changes |
| BuddyAllocator.Buddy.CopyFits | mm/buddy.c:137-142 | The bytes copied fit the new block exactly if the request fits an int or the old block is of the smallest size |
| BuddyAllocator.Buddy.Realloc | mm/buddy.c:103-145 | For requests that fit an int: the old block is always given back, even if no new one was found; otherwise the contents move to a block of the new rounded size |
| BuddyAllocator.Init | mm/buddy.c:42-91 | For pools up to 2^29 bytes: fails just when the rounded pool is not larger than the rounded smallest block; otherwise gives a sound allocator without live blocks |
| BuddyAllocator.TreeFits | mm/buddy.c:65-67 | The size of the index tree is computed without overflowing an int exactly for pools up to 2^29 bytes |
| SlabModel.UnlinkOk | mm/slab.c:76-96 | Taking any free chunk out of the list keeps it complete, doubly linked and ordered by address |
| SlabModel.LinkOk | mm/slab.c:62-74 | Putting a chunk at its place keeps the list complete, doubly linked and ordered by address |
| SlabModel.CutOk | mm/slab.c:162-170 | Splitting a free chunk keeps the tiling of the page and the free list |
| SlabModel.AbsorbOk | mm/slab.c:123-151 | Joining two neighbouring free chunks keeps the tiling of the page and the free list |
| SlabModel.AllocatedOk | mm/slab.c:201-245 | Handing out a free chunk keeps the whole page invariant, serves at least the size asked for and at most a header more, and changes no other live chunk |
| SlabModel.FreedOk | mm/slab.c:282-341 | Taking a chunk back and merging with free neighbours keeps the whole page invariant, among it that no two neighbours are free, and changes no other live chunk |
| SlabModel.FreeBytesBound | mm/slab.c:42-46 | The bytes of the free chunks, headers included, are never more than the page has behind its head, and that many just when no chunk is live |
| SlabModel.FitsRemain | mm/slab.c:203-206 | Any free chunk is within the remaining bytes, so the early exit turns no request away that would fit |
| SlabModel.EmptyPage | mm/slab.c:336-340 | The release test on the remaining bytes holds just when the last live chunk has been freed |
| SlabModel.LiveApart | mm/slab.c:201-245 | The memory of two live chunks is disjoint from each other's memory and headers and lies inside the page |
| SlabAllocator.SlabPage.FreeInsert | mm/slab.c:62-74 | A freed chunk put behind the last free one before it: the list is complete, doubly linked and in address order again |
| SlabAllocator.SlabPage.FreeErase | mm/slab.c:76-96 | Exactly the neighbours' links and the chunk's own change; the result is the next chunk |
| SlabAllocator.SlabPage.FreeReplace | mm/slab.c:98-117 | One chunk takes exactly another's place between its neighbours |
| SlabAllocator.SlabPage.Alloc | mm/slab.c:201-245 | First fit: fails, changing nothing, just when no free chunk is large enough; otherwise hands out the first that is |
| SlabAllocator.SlabPage.QuickMerge | mm/slab.c:119-151 | Succeeds just when the chunk behind is free, and then joins it, and the free chunk before if they touch, at the right place of the list |
| SlabAllocator.SlabPage.TakeNext | mm/slab.c:130-137 | A chunk that takes in the free one behind it also takes its place in the list, and the list's head if it was there |
| SlabAllocator.SlabPage.QuickMergeBehind | mm/slab.c:331-334 | Called for the free chunk before, it succeeds just when the freed chunk starts where that one ends |
| SlabAllocator.SlabPage.FindPrev | mm/slab.c:320-330 | The walk stops at the last free chunk before the freed one |
| SlabAllocator.SlabPage.Free | mm/slab.c:282-341 | Whichever way it goes, exactly this chunk is no longer live and the whole page invariant holds again |
| SlabAllocator.AllocServes | mm/slab.c:201-280 | An allocation on one page changes what is live on that page by one chunk and on no other |
| SlabAllocator.FreeReturns | mm/slab.c:282-341 | A free changes what is live by one chunk, and drops its page just with the last one |
| SlabAllocator.Slab.PageErase | mm/slab.c:172-187 | A page too full for its size class is set aside; otherwise no list changes |
| SlabAllocator.Slab.PageInsert | mm/slab.c:189-199 | A page that gets a chunk back moves to the front of the list for that chunk's size; for a larger chunk no list changes |
| SlabAllocator.Slab.ListAlloc | mm/slab.c:260-265 | Asks every page of the list for the size: the first that has room serves the request, from its first chunk that fits; refuses just when all refuse |
| SlabAllocator.Slab.AllocOnNewPage | mm/slab.c:266-279 | A fresh page always serves the request |
| SlabAllocator.Slab.Alloc | mm/slab.c:247-280 | Null just for an empty or too large request; otherwise exactly one new chunk of at least that size is live, in the first listed page that has room, or on a new page just if none has. For sizes whose alignment does not wrap |
| SlabAllocator.AlignWraps | mm/slab.h:22 | Aligning gives the least multiple of 8 that is not below the size, exactly if the sum does not wrap; otherwise 0 |
| SlabAllocator.Slab.Free | mm/slab.c:282-341 | Exactly this chunk is no longer live; the page goes back to the system just with its last chunk |
| SkipLists.UpperOfIsPlace | base/skiplist.c:100-118 | Where an insertion ends up: behind all elements not above the new one |
| SkipLists.InsSorted | base/skiplist.c:90-129 | Inserting there keeps the sequence sorted, duplicates allowed |
| SkipListModel.PutIn | base/skiplist.c:100-128 | When all phases of an insertion are done on all levels, every level is linked and spanned as the longer list wants, and only then |
| SkipListModel.TakenOut | base/skiplist.c:152-164 | The same for a removal and the shorter list |
| SkipListModel.WantIns | base/skiplist.c:64-129 | What a new node means for the next and previous links and the span of every other node, on every level |
| SkipListModel.NodeAfterWithout | base/skiplist.c:158-176 | The node whose span has to shrink on an upper level is the one noted when that level was searched |
| SkipLists.SkipList.InsertNode | base/skiplist.c:64-74 | Splices a node into one level behind the given one; other levels and spans stay |
| SkipLists.SkipList.EraseNode | base/skiplist.c:76-88 | Takes a node out of one level; the next node's span takes over the gap |
| SkipLists.SkipList.LinkIn | base/skiplist.c:100-118 | The descent links the node on all its levels, widens one span on each level above, and records how far it walked on each |
| SkipLists.SkipList.SpanUp | base/skiplist.c:120-127 | Setting spans upwards from the recorded distances makes every span the rank distance to the previous node |
| SkipLists.SkipList.Insert | base/skiplist.c:90-129 | For every level drawn, the element enters the sorted sequence behind its equals and all levels, links and spans are right again |
| SkipLists.SkipList.Locate | base/skiplist.c:131-182 | Nothing just when no element is equal; otherwise the first of the equal ones that reach the highest level, with its rank, and the nodes whose spans an erasure must shrink |
| SkipLists.SkipList.Find | base/skiplist.c:131-187 | The element found and its rank in the sorted sequence; none, and the caller's rank as it was, just when no element is equal |
| SkipLists.SkipList.Unlink | base/skiplist.c:152-164 | The erasing steps on all levels, and the shrinking of the upper spans, lead to the list without the node |
| SkipLists.SkipList.Erase | base/skiplist.c:189-193 | Exactly the element found leaves the sequence, and all levels, links and spans are right again |
| SkipLists.SkipList.FindNodeByRank | base/skiplist.c:195-224 | The node of that rank, null just for ranks out of range |
| SkipLists.SkipList.FindByRank | base/skiplist.c:226-233 | The element of that rank in the sorted sequence: the inverse of the rank that a search returns |
| SkipLists.SkipList.FindFromRankForward | base/skiplist.c:235-249 | The first element from a rank on that the filter takes |
| SkipLists.SkipList.FindListByRank | base/skiplist.c:267-285 | A stretch of the sorted sequence from a rank on, cut at the end of the list, with the number of elements; the rest of the output array stays |
| SkipLists.SkipList.Size | base/skiplist.c:287-305 | The spans met on the way down add up to the number of elements |
| RingModel.DecodeEncode | base/rbuffer.c:111-115 | The four bytes of a length, which may wrap, are read back as that length |
| RingModel.AtWord | base/rbuffer.c:149-171 | A position that has wrapped at 2^32 falls on the same byte of the ring |
| RingModel.IsPow2Test | base/rbuffer.c:16-19 | The bitwise test with the number less one is passed exactly by the powers of two |
| RingModel.MaskIsAt | base/rbuffer.c:107-171 | Masking a position with the size less one is its remainder: the byte it falls on |
| Ring.IsPow2Order | base/rbuffer.c:16-19 | A number that halves down to one is two to some power |
| RingModel.WriterKeepsOff | base/rbuffer.c:144-171 | No byte the writer writes is one that is published and not yet read, whatever the reader does meanwhile |
| RingModel.ReaderKeepsIn | base/rbuffer.c:107-132 | Every byte the reader copies is published and not yet given back |
| RingModel.ApplyOk | base/rbuffer.c:66-173 | Every load, byte copy and publication by either side keeps the invariant of the ring |
| RingModel.ReadIsPrefix | base/rbuffer.h:4-6 | In every interleaving of one writer and one reader, the messages read are a prefix of those written, byte for byte |
| RingModel.PeekShowsNext | base/rbuffer.c:97-136 | A peek that went through, and any read, delivers the next message |
| RingModel.LengthIsSound | base/rbuffer.c:116-119 | The length check rejects a message just when the caller's buffer is too small: the other half of the test never fires |
| RingModel.LoadsAreExact | base/rbuffer.c:66-86 | A write is refused just when the frame does not fit behind what has been given back, a read just when all has been read, also past 2^32 |
| Ring.RBuffer.constructor | base/rbuffer.c:13-27 | An empty ring whose size is a power of two, the least that is not below the size asked for |
| Ring.RBuffer.Write | base/rbuffer.c:138-173 | Around the end or not, the message joins those sent; -1, changing nothing, just when it does not fit |
| Ring.RBuffer.Peek | base/rbuffer.c:97-136 | Delivers the next message and its length; -1, changing nothing, just when there is none or it is longer than the caller's buffer |
| Ring.RBuffer.Read | base/rbuffer.c:88-95 | Delivers the next message and is done with it; on -1 nothing changes |
| JsonText.PutIsText | util/cjson.c:348-507 | The printed text of a value, followed by any other text, is the same built from the back |
| JsonRoundTrip.CharsOf | util/cjson.c:155-248 | Unescaping an escaped string gives the string back, control characters included |
| JsonRoundTrip.ParseStringOf | util/cjson.c:155-248 | A printed string parses back, up to its closing quote and no further, without leaving text or buffer |
| JsonRoundTrip.ParseNumberOf | util/cjson.c:96-127 | A printed integer parses back |
| JsonRoundTrip.ParsePut | util/cjson.c:287-507 | A printed value parses back and the cursor stops behind it, at every depth, formatted or not |
| JsonRoundTrip.RoundTrip | util/cjson.c:282-299 | For every tree, parsing either print gives the tree back and consumes the whole text |
| JsonMinify.MinifyPut | util/cjson.c:581-596 | Minifying a value printed at any depth gives its unformatted print, whatever strings it holds |
| JsonMinify.MinifyPrint | util/cjson.c:581-596 | Minifying the formatted print of a tree gives exactly its unformatted print |
| JsonMinify.MinifyTwice | util/cjson.c:581-596 | Minifying an unformatted print changes nothing |
| JsonComments.MinifySpell | util/cjson.c:581-596 | Minifying any spelling of a value, with comments and white space anywhere between its tokens, gives the same tokens with nothing in between |
| JsonComments.ParseMinified | util/cjson.c:581-596 | So a text with comments is parsed to its value once it has been minified |
| JsonComments.SlashEndsBlock | util/cjson.c:591 | A slash behind the star that opens a comment ends it |
| JsonMinify.ClosedReach | util/cjson.c:581-596 | The cursor never passes the terminator exactly if every literal and block comment of the text is closed |
| JsonMinify.LoneQuoteLeaves | util/cjson.c:592 | Behind a lone quote the cursor passes the terminator |
| JsonReader.SkipSpace | util/cjson.c:260-261 | The cursor moves over white space and control characters only, never past the end |
| JsonReader.ReadString | util/cjson.c:153-212 | The two passes agree with the specification on every text: the first counts the length set aside, the second unescapes, with surrogates combined and invalid ones dropped; or the program strays, exactly if one pass leaves the text or the string does not fit |
| JsonReader.CountChars | util/cjson.c:160-161 | The first pass counts each escape as one character, and stops at the quote that ends the string or past the terminator |
| JsonString.SafeExactly | util/cjson.c:155-206 | For every string literal whose first pass ends at a quote: neither pass leaves the text and the string fits the length counted, whatever follows that quote, if and only if the second pass takes no escape that the quote is part of |
| JsonString.SafeUnclosed | util/cjson.c:155-206 | For a literal without that quote: the same, if and only if the last escape is complete for both passes |
| JsonString.ClearReach | util/cjson.c:164-206 | The cursor of the second pass stays in the text, or in front of a quote, exactly if no escape it takes reaches past it |
| JsonString.FitsAhead | util/cjson.c:160-206 | The first pass is never more than one character ahead of the second, so the string fits as long as the second does not overtake it |
| JsonString.UnescapedFits | util/cjson.c:155-206 | If every backslash has its character and every u its four digits, all is well |
| JsonString.IncompleteFits | util/cjson.c:155-206 | A literal whose u lacks its digits and that is read safely all the same, whatever follows |
| JsonString.TruncatedOverflows | util/cjson.c:155-206 | A literal with a truncated escape that becomes longer than what was counted, inside its text |
| JsonString.MisreadOverflows | util/cjson.c:155-206 | A literal whose closing quote the second pass takes for an escaped one, behind digits that end in a backslash |
| JsonReader.ReadNumber | util/cjson.c:95-115 | The cursor-driven scan of sign, integer, fraction and exponent, the exponent in an int that wraps, agrees with the specification |
| JsonNumber.ParseDecimal | util/cjson.c:95-115 | Any decimal number, with or without sign, fraction and exponent, is parsed to its digits, shifted by the exponent as an int less the digits behind the point (section 6 of RFC 8259) |
| JsonNumber.ParseDecimalExactly | util/cjson.c:95-115 | So it is parsed to what it denotes if and only if the exponent fits an int |
| JsonReader.ReadValue | util/cjson.c:286-299 | The cursor-driven parser agrees with the specification on every text, malformed ones included: a value, a failure, or the program strays out of the text or a buffer |
| JsonReader.ReadArray | util/cjson.c:319-345 | The item loop agrees with the grammar, and fails or strays where it does |
| JsonReader.ReadObject | util/cjson.c:405-439 | The field loop agrees with the grammar, and fails or strays where it does |
| JsonReader.Parse | util/cjson.c:263-280 | A whole text, white space in front skipped |
| JsonUnicode.Utf8Decodes | util/cjson.c:192-200 | Every code point comes out in as few bytes of UTF-8 as there is room for, and a decoder of its own reads it back (section 3 of RFC 3629) |
| JsonUnicode.HexExactly | util/cjson.c:140-151 | A character has the value of a hexadecimal digit exactly if it is that digit in either case |
| JsonUnicode.HexTextValue | util/cjson.c:140-151 | Four digits of any case are parsed to their number, for all 65536 |
| JsonUnicode.UnicodeAlone | util/cjson.c:179-201 | An escape gives its code point in UTF-8, and zero or half a surrogate pair gives nothing |
| JsonUnicode.UnicodePair | util/cjson.c:179-201 | A surrogate pair gives its code point, and a high half with a wrong other half gives nothing (section 7 of RFC 8259) |
| JsonGrammar.SkipExactly | util/cjson.c:260-261 | Skipping passes exactly the characters from 1 to 32 |
| JsonGrammar.ParseQuote | util/cjson.c:155-212 | Any spelling of a string, with escapes of every kind, is parsed to what it spells, without leaving text or buffer |
| JsonGrammar.ParseSpell | util/cjson.c:286-439 | Any spelling of a value by the grammar of RFC 8259, with any white space between its tokens, is parsed to that value, and the cursor stops behind it |
| JsonGrammar.ParseText | util/cjson.c:263-280 | The same for a whole text, with white space in front and behind |
| JsonWriter.PrintString | util/cjson.c:214-248 | The escaped text, quoted and terminated, fills the buffer of the counted length exactly |
| JsonWriter.NumberLength | util/cjson.c:117-127 | No int needs more than the 21 bytes set aside |
| JsonWriter.WeightIsEnough | util/cjson.c:368-402 | The length counted for an array's entries is never below what is written for them |
| JsonWriter.FieldsWeightIsEnough | util/cjson.c:468-506 | The length counted for an object's fields is never below what is written for them |
| JsonWriter.PrintValue | util/cjson.c:301-317 | The buffer holds the value's text and its terminator, without a write past its end anywhere in the recursion |
| JsonWriter.PrintArray | util/cjson.c:347-403 | Every write, the terminators written in between included, stays inside the buffer of the counted length, which then holds the array's text |
| JsonWriter.PrintObject | util/cjson.c:441-507 | Every write, the terminators written in between included, stays inside the buffer of the counted length, which then holds the object's text |
| JsonWriter.PrintEmpty | util/cjson.c:449-459 | An empty object fits the buffer reserved for it at every depth |
| JsonWriter.Minify | util/cjson.c:581-596 | Minifying in place overtakes nothing it still has to read, and leaves exactly the minified text, terminated, for every text the cursor does not leave |
| HeapModel.FrontIsLeast | base/heap.c:248-254 | In an ordered heap no entry is below the one in front |
| HeapModel.UpStep | base/heap.c:197-206 | Swapping an entry with its larger parent moves the only disorder up |
| HeapModel.DownStep | base/heap.c:133-173 | Swapping an entry with its least child moves the only disorder down |
| HeapModel.StuckBelow | base/heap.c:210-230 | An entry below its parent is below all its children too: sifting down cannot help it |
| HeapModel.AllTaken | base/heap.c:117-131 | If every key is taken, every slot is: a full key table means a full heap |
| HeapModel.AllKeysTaken | base/heap.c:117-131 | If every slot is taken, every key is: a full heap has no free key |
| HeapModel.CutOffOk | base/heap.c:210-230 | Swapping an entry to the end and cutting it off loses exactly what was held under its key |
| HeapModel.CutOffOrder | base/heap.c:223-226 | When the entry moved into the hole is not too small for it |
| Heaps.ErasingDisorders | base/heap.c:223-226 | Seven insertions and one erasure after which a heap is out of order |
| Heaps.Heap.Swap | base/heap.c:64-78 | Array and key table stay mutual inverses; what is held under each key does not change |
| Heaps.Heap.Grow | base/heap.c:85-115 | Twice the capacity, the same contents under the same keys, and a free next key |
| Heaps.Heap.SetNextKey | base/heap.c:117-131 | The cursor ends on a free key, or on the capacity just when there is none |
| Heaps.Heap.RotDown | base/heap.c:133-173 | Permutes the entries under their keys and orders the heap just when the entry is not too small for its place |
| Heaps.Heap.RotUp | base/heap.c:197-206 | Permutes the entries under their keys and orders a heap whose only disorder is an entry too small for its place |
| Heaps.Heap.Insert | base/heap.c:175-208 | The datum is held under a key that was free; nothing else changes, order is kept, also across growth and after pops, as long as there is a key to give; one entry and one key more are counted; a datum not below its parent stays where it is put |
| Heaps.Heap.Erase | base/heap.c:210-230 | For a key not lost to a pop: returns what is held under it and removes just that; the heap stays ordered if and only if the last entry is not below the parent of the hole |
| Heaps.Heap.Update | base/heap.c:232-241 | Replaces what is held under the key; the heap stays ordered if and only if the new datum is not below its parent |
| Heaps.Heap.Top | base/heap.c:248-254 | None just when the heap is empty; in an ordered heap no entry is below the one returned |
| Heaps.Heap.Pop | base/heap.c:256-267 | Removes and returns a least entry of an ordered heap and keeps it ordered; its key stays taken |
| Heaps.Heap.RoomByCounts | base/heap.c:117-131 | An insertion finds a key exactly if fewer keys than slots are taken, or the array is full and will grow |
| HeapModel.RunCounts | base/heap.c:175-267 | Over any run, the keys taken are insertions less erasures, and the entries are fewer by what has been popped |
| HeapModel.RoomUntilPopped | base/heap.c:175-230 | Over any run without a pop there is always room for an insertion |
| HeapModel.PoppedRuns | base/heap.c:80-131 | Over any run of a heap that has been popped: it never grows again, and there is room exactly while insertions less erasures stay below the capacity |
| HeapModel.FifteenInSixteen | base/heap.c:175-267 | Fifteen entries, a pop and an insertion leave one slot of sixteen, but no key |
| Heaps.HeapSort | base/heap.c:175-267 | Inserting any sequence and popping until the heap is empty gives a sorted permutation of it |
| Timers.AddTimes | util/util_time.c:49-58 | The sum of two times with the carries made |
| Timers.CarryKeeps | util/util_time.c:54-57 | The carry keeps the moment; the microseconds may stay at a full million, exactly when the sum is a positive whole number of seconds |
| Timers.CompareMoments | util/util_time.c:38-47 | On the times that sums leave, the comparison goes with the moments they stand for |
| Timers.EarlyFiring | base/timer.c:103-105 | A timer is due before its moment is past exactly if its time has a full million of microseconds and now is that moment as a whole second |
| Timers.TimerOrder | base/timer.c:20-26 | Comparing by time orders all timers |
| Timers.RearmedIsLater | base/timer.c:107-111 | A repeating timer that fires is set past now |
| Timers.RearmedAnew | base/timer.c:107-111 | The same timer at exactly the moment of now plus the interval |
| Timers.ProgressLeaves | base/timer.c:93-121 | What a poll leaves: timers not due as they were; of those due, exactly the ones whose callback wants to go on and that have an interval, one interval after now |
| Timers.FireStep | base/timer.c:103-118 | Firing the front timer adds one that was due and has not fired, in order of time, and leaves one fewer due |
| Timers.AllFired | base/timer.c:93-121 | If none of what is left is due, all that were due have fired |
| Timers.TimerHeap.Register | base/timer.c:54-83 | A new timer under an id nobody had, at now plus the delay, also after polls that popped timers, as long as the heap has a key to give; one key more is taken |
| Timers.TimerHeap.Poll | base/timer.c:93-121 | Ends; every due timer has fired exactly once, in order of time; those that repeat are set to now plus their interval, others are gone, the rest is untouched, and none is due; as many keys are taken as before. By moments: those fired ascend and are not past now, and none before now is left |
| Timers.PollByMoment | base/timer.c:93-121 | What firing by field-wise comparison means for the moments of the timers fired and left |
| IdTables.MapAt | base/idtable.c:56-72 | The first entry on the probing path decides what an id stands for |
| IdTables.NotPassed | base/idtable.c:56-72 | An id not met before the first free slot, or on a full round, has no entry anywhere |
| IdTables.AddedOk | base/idtable.c:37-54 | A new entry in the first free slot leaves all probing paths without gaps and every other id as it was |
| IdTables.CountIsSize | base/idtable.c:37-54 | Without double entries, as many slots are taken as ids are mapped |
| IdTables.IdTable.Add | base/idtable.c:37-54 | Succeeds just when the id is not negative, the pointer not null and a slot free; then the id is mapped, unless an older entry for it goes first |
| IdTables.IdTable.Get | base/idtable.c:56-72 | What the id is mapped to, null just when it is not |
| Bus.AddToTable | logic/bus.c:143-149 | What the steps of the registry assume of an addition is what the id table does with an id it does not have |
| Bus.OutsRoom | logic/bus.c:132-152 | A terminal never has as many outgoing pipes as its table has slots |
| Bus.ScanOk | logic/bus.c:132-152 | The scan of the shared pipes never fails an assertion and leaves exactly the pipes from and to the terminal in its tables |
| Bus.CreateOk | logic/bus.c:154-208 | Creating or attaching under the lock keeps the invariant of the registry |
| Bus.PollsPipesOk | logic/bus.c:229-248 | Polling under the lock keeps it |
| Bus.RegistersOk | logic/bus.c:250-295 | Registering a pipe under the lock keeps it, and the terminal knows the new pipe |
| Bus.CreatesDone | logic/bus.c:154-208 | Creating registers the terminal once and gives it a current view, and leaves all else alone; unless 64 others are registered, when nothing changes |
| Bus.PollsPipesDone | logic/bus.c:240-247 | A poll leaves a current view with exactly the pipes from and to the terminal, and nothing else changes |
| Bus.PollsTerminalsDone | logic/bus.c:232-239 | A poll leaves exactly the registered terminals in the view, and nothing else changes |
| Bus.RegistersDone | logic/bus.c:250-295 | One pipe is appended, with the next key, and the view of its maker is current, just if that view was current, there is room and the peer is another registered terminal; else nothing changes |
| Bus.OutsSteady | logic/bus.c:250-303 | A pipe found missing before the poll and the lock is still missing once the lock is held, whatever others do meanwhile |
| Bus.ApplyOk | logic/bus.c:122-295 | Every action of any terminal keeps the invariant |
| Bus.Registry | logic/bus.c:122-295 | In every interleaving: no assertion fails, no two pipes share a direction and pair, ends are different registered terminals, a current view is exact, and every view has all pipes out of its terminal |
| Buffers.Buffer.ReadNocopy | base/buffer.c:60-79 | Drops bytes from the front of a byte queue; the drift copy changes no content and never overlaps itself |
| Buffers.Buffer.Read | base/buffer.c:43-58 | Delivers and drops the first bytes, up to the number asked for |
| Buffers.Buffer.Peek | base/buffer.c:81-96 | Delivers the first bytes without changing the queue |
| Buffers.Buffer.Write | base/buffer.c:98-113 | As many bytes as there is room for join the queue at its end |
| Buffers.Buffer.WriteNocopy | base/buffer.c:115-126 | The bytes already behind the queue join it, up to the room |
| Buffers.Buffer.Reset | base/buffer.c:128-135 | An empty queue with all its room |
| WsFrames.MaskedTwice | net/wsconn.c:504-508 | Masking twice with the same key gives the payload back (section 5.3 of RFC 6455) |
| Bytes.XorBit | net/wsconn.c:504-508 | A bit of the exclusive or is set exactly if it is set in just one of the two bytes |
| WsFrames.MaskedBits | net/wsconn.c:504-508 | A mask turns exactly the bits of each byte that its byte of the key has |
| WsFrames.FrameHead | net/wsconn.c:733-788 | A frame is marked as final, text and without mask, and has its length in as few bytes as hold it, highest byte first (section 5.2 of RFC 6455) |
| WsFrames.OnlyText | net/wsconn.c:441-447 | A frame of any other kind than text is not supported |
| WsFrames.ParseFrame | net/wsconn.c:433-529 | A frame as it is sent, with anything behind it, is parsed whole: its exact length and payload, in all three length classes (section 5.2 of RFC 6455) |
| WsFrames.ParseMaskedFrame | net/wsconn.c:433-529 | The same for a masked frame as clients send it |
| WsFrames.ParsePrefix | net/wsconn.c:433-496 | Every proper prefix of a frame asks for more data |
| WsFrames.ParseMaskedPrefix | net/wsconn.c:433-496 | Every proper prefix of a masked frame asks for more data |
| WsFrames.ParseExactly | net/wsconn.c:433-496 | For every header: a frame is taken for complete exactly if it is; more data is asked for, and the program unmasks past its data, exactly under the stated conditions on the 64-bit sum, which wraps |
| WsFrames.TestIsRight | net/wsconn.c:487-496 | With so much data the length test is right exactly if the sum of length and header does not wrap, or what is left of it is still too much |
| WsFrames.HeaderIsSafe | net/wsconn.c:487-496 | With any amount of data the length test is right exactly if length and header together stay below 2^64 |
| WsFrames.LongestIsRefused | net/wsconn.c:463-513 | The ten bytes of a header that announces 2^64 - 1 bytes are refused instead of waited for |
| WsFrames.LongestMaskedIsWild | net/wsconn.c:463-508 | With a mask, the same header makes the program unmask past its data |
| WsFrames.ParseStretch | net/wsconn.c:433-529 | Any stretch of a stream of frames, masked or not, that starts at a frame parses to that frame if all of it is there, and else asks for more |
| WsFrames.Send | net/wsconn.c:733-788 | Appends exactly the frame and returns 0 just when there is room; otherwise returns -1 with the first byte already appended. For lengths that with ten bytes of header fit an int |
| WsFrames.Unmask | net/wsconn.c:504-508 | Takes the mask off in place; bytes outside the payload stay |
| WsFrames.Receive | net/wsconn.c:433-529 | Unless the 64-bit sum of a masked frame wraps: shows the reader what was waiting and the payload, unmasked, as far as there is room; whatever the reader answers, returns the frame's length or that answer and keeps what was not taken; 0 for no whole frame and -1 for no text frame or an unmasked length that wraps leave everything as it was; bytes behind the frame always stay |
| WsFrames.ReadEvent | net/wsconn.c:531-585 | One event: what the socket gives joins the queue as far as there is room, then at most one frame is shown, and exactly that frame is dropped if the reader takes some of it; -1 if there is no room or nothing comes |
| WsFrames.Serve | net/wsconn.c:531-585 | Any number of events on a connection whose other side sends any messages, however the bytes arrive: a reader that takes all it is shown gets the first payloads in order, as many as Served tells, and the queue holds exactly what has come but is not shown; it stops only when a read has no room, nothing is given, or all has come |
| WsFrames.CatchesUp | net/wsconn.c:531-585 | Frames that have come whole may have to wait for later events, but every one of those shows one of them |
| WsFrames.OneByOne | net/wsconn.c:531-585 | Of frames that come with one read, every event shows just one |
| Sha1Core.Schedule | util/sha1.c:144-148 | The 16-word ring holds, at every step, the words of the 80-word schedule it is asked for (sections 6.1.2 and 6.1.3 of FIPS 180-4) |
| Sha1Core.RunRounds | util/sha1.c:140-161 | Eighty rounds on the five working words, with the stage counter, are the rounds of the standard |
| Sha1Core.TakeBlock | util/sha1.c:122-168 | A block changes the state as section 6.1.2 of FIPS 180-4 says |
| Sha1.KIsRoot | util/sha1.c:130-133 | Each constant is the largest whole number whose square is not above 2, 3, 5 or 10 times 2^60 |
| Sha1.IVBytes | util/sha1.c:81-85 | In memory the bytes of the initial state count up, down and down again as in section 5.3.1 of FIPS 180-4 |
| Sha1.ChChooses | util/sha1.c:99-102 | Where the first word has a bit, that of the second is chosen, and elsewhere that of the third |
| Sha1.MajDecides | util/sha1.c:104-107 | Where two words agree they are the majority, and elsewhere the third decides |
| Sha1.ParityCounts | util/sha1.c:109-112 | Where two words agree the third is the parity, and elsewhere it is not |
| Sha1.RotlRotates | util/sha1.c:89-92 | The rotations by 1, 5 and 30 move all bits up and around |
| Sha1Example.DigestOfAbc | util/sha1.c:220-233 | The digest of the message abc is the known one |
| Sha1.LoadChanged | util/sha1.c:94-97 | Swapping the bytes of a little-endian load gives the big-endian word |
| Sha1.StoreChanged | util/sha1.c:205-218 | Storing the swapped word lays down its bytes highest first |
| Sha1.HashSplit | util/sha1.c:220-231 | Hashing whole blocks first and the rest later is hashing everything |
| Sha1.SameTail | util/sha1.c:170-203 | The padding of section 5.1.1 of FIPS 180-4 depends on the bytes not yet hashed and the length alone, however many whole blocks have gone before |
| Sha1.Sha1Ctx.NextBlock | util/sha1.c:122-168 | One block enters the state, and the bit count grows by 512 |
| Sha1.Sha1Ctx.LastBytes | util/sha1.c:180-203 | One or two final blocks carry the rest, the one bit, the zeros and the bit length of the standard's padding |
| Sha1.Sha1Ctx.LastBlock | util/sha1.c:170-203 | The rest of a message, whole blocks and padding, enters the state |
| Sha1.Sha1 | util/sha1.c:220-233 | For every byte message whose bit length fits in 32 bits, the digest is that of FIPS 180-4 |
| ConHashes.OwnerIsUnique | base/conhash.c:79-93 | A hash falls on exactly one node |
| ConHashes.OnlyOwnKeysMove | base/conhash.c:42-77 | A new node only draws keys to itself, and a leaving node only gives up the keys it owned |
| ConHashes.ConHash.Add | base/conhash.c:42-62 | The list stays strictly ascending by hash and gains exactly the node; -1, changing nothing, just when the hash is taken |
| ConHashes.ConHash.Erase | base/conhash.c:64-77 | The list stays strictly ascending and loses exactly the node with that hash, if there is one |
| ConHashes.ConHash.FindNode | base/conhash.c:79-93 | The least node not below the key's hash, else the least of all; none just when the ring is empty |

## Left out

- Powers.RoundUpIsLeast: arguments above 2^31, for which the macro shifts by 32 or more; the result is undefined.
- BuddyAllocator.Buddy.Alloc: requests of 0 bytes and above 2^31, for which rounding is an undefined shift. `SizeTest` covers them as far as the size test goes.
- BuddyAllocator.Buddy.AllocCopy: a request of 2^31 bytes, for which the copy leaves the new block unless the old one is of the smallest size, as `CopyFits` says.
- BuddyAllocator.Buddy.Realloc: the same request, for the same reason.
- BuddyAllocator.Init: pools above 2^29 bytes, for which the size of the tree overflows an int (`TreeFits`), and smallest blocks above 2^31.
- SlabAllocator.Slab.Alloc: the seven largest sizes, which aligning turns into 0 (`AlignWraps`).
- Ring.RBuffer.constructor: sizes up to 4, whose ring has no room for a message or wraps its own size test, and sizes above 2^31. Attaching to existing memory resets both positions and is not modelled.
- JsonReader.ReadString: what the program does once it has left the text or its buffer, which is undefined; that it does is told.
- JsonReader.ReadValue: what it accepts beyond the grammar, such as a number without digits, is told by the specification alone.
- JsonReader.ReadNumber: a number is its mantissa and exponent; rounding to a double is not modelled. An int that overflows is taken to wrap, although C leaves that undefined.
- JsonNumber.ParseDecimal: the same.
- JsonWriter.Minify: texts with an unclosed literal or block comment, for which the cursor leaves the text (`ClosedReach`).
- Heaps.Heap.Insert: a popped heap without a key to give, where the program writes behind its key table.
- Heaps.Heap.Erase: keys of entries that have been popped, for which the program erases some other entry.
- Heaps.Heap.Update: the same keys, for which it overwrites some other entry.
- Timers.TimerHeap.Register: a heap without a key to give, as for `Heap.Insert`. A callback is a function of its timer that leaves the heap alone; the clock is an argument. timer_unregister erases from the heap and may disorder it.
- WsFrames.Send: lengths within 10 of the largest int, for which the test for room overflows.
- WsFrames.Receive: masked frames whose 64-bit length wraps so that they pass for complete, for which the program writes past its data (`LongestMaskedIsWild`). That there is something to show is a precondition, as the program asserts it. Handshake, sockets, control and binary frames are left out; hosts store integers lowest byte first.
- Allocation failures, null arguments, release and debug functions, in all components.
- The relinking of grandkids when a root with one kid is replaced: `RedBlackModel.RootWithOneKid` proves there are none. The three hand-written relinks of a deletion are one method, `Unlink`.
- The branch of the buddy search for unused blocks that are too small: the invariant of the search shows that it is never taken.
- The slab's page lists are sequences of pages rather than links inside them; failing `posix_memalign` is not modelled. The quick merge is two methods, one for each of its calls.
- skiplist_find_from_rank_backward, which mirrors the forward search.
- The order in which `memcpy` moves bytes in the message ring is left open, byte by byte; integers are stored lowest byte first.
- Printing of numbers that are no ints, item references, the error pointer, deletion and duplication of cJSON items; items are built as values instead of being filled in place.
- idtable_remove, which leaves gaps in probing paths.
- Bus: message delivery, failures of shared memory and locks, wrapping of the version counters (64 terminals and 1024 pipes bound them). A step is what one terminal does while it holds the lock.
- Sha1: messages of whole bytes; the standard's bit messages and big-endian hosts are not modelled.
- ConHash: the linked list is a sequence, and hashes are unbounded integers.
- base/rqueue.c, base/hash.c, base/kv.c, core/fsm.c, logic/dirty.c, logic/task.c, net/serialize.c, util/crc.c, bit sets, arrays, encoders and the rest of the library.
