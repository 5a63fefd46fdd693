# myLoader, verified

A Dafny model of the parts of myLoader where a mistake would be quiet: who owns
a page frame, how the intrusive AVL tree keeps its shape, what the CRC and the
Internet checksum notice, what a RAM upload leaves behind, which bytes a file
read delivers, how the heapsort moves bytes, and what the number printer writes.

`dafny verify dfyconfig.toml` checks everything.

| file | about |
|---|---|
| `Bits.dfy`, `Memory.dfy`, `Options.dfy` | powers of two, shifts and exclusive or on naturals; byte ranges in memory; optional values |
| `Blocks.dfy`, `Pool.dfy`, `Buddy.dfy`, `PageRank.dfy` | `mm/page.c` and `log2`: geometry of aligned blocks, ownership as a state machine, the allocator itself, ranks |
| `AvlModel.dfy`, `Avl.dfy` | `lib/avl/avl.c`: trees and paths as values, then the heap code proved against them |
| `Crc.dfy`, `Upload.dfy` | `lib/crc32/crc32.c`, and the upload protocol of `udp_cli/` |
| `Ext2.dfy` | `fs/ext2.c`, reading a file |
| `Sort.dfy` | `sort` and `bsearch` of `core/func.c` |
| `Checksum.dfy`, `Packets.dfy`, `Datagram.dfy` | `core/net.c`: the checksum, the echo reply, the outgoing UDP datagram |
| `Printer.dfy` | `io/disp.c` against `str2num` |

Code that updates things in place is modelled by methods over arrays and
objects. Each method is tied by its contract to functions of values; what the
code is for is then proved about those functions.

## The results

**Page allocator.** A frame is free, or part of one live allocation, or not
online. Free lists hold blocks; the allocator's invariant says that listed and
live blocks are aligned, disjoint, inside one area, filed under their own rank,
and that no two listed buddies of one area remain. From this: the lists are
exactly the maximal aligned blocks of each area's free frames, so they do not
depend on the calls that led there; an allocation fails exactly when no aligned
run of the wanted size is free, as long as page frame 0, whose address is also
`NULL`, is not free in the area. Down to bytes: the address returned is a
multiple of the size, the bytes from it on are those of the new block, and an
allocation by `get_pagerank` gives each of its bytes to nobody else.
`get_pagearea` never reaches its failing
`ASSERT`. The allocator carries the history of its calls: live allocations stay
disjoint and, with the free frames, are exactly the frames brought online.

**AVL tree.** A ghost tree and a path (zipper) describe the heap around any
node, so "the heap is this tree" can be restated from the point of view of the
node being changed. Heights along the path may be stale by one and balance off
by two; the climb with its early stop restores a correct tree whose in-order
sequence is unchanged. Insertion and removal then add or drop exactly one node
and keep the search order. The comparator is any function obeying four laws of
ranges; `slabcmp` (lines 49 to 70 of `myLoader/mm/slab.c`) is proved to obey
them. Insertion fails exactly when the new range touches a member anywhere,
lookup finds a node exactly when some member holds the range, and neither looks
at more nodes than the height, which is logarithmic.

**CRC.** `crc32_raw` is the remainder of the message polynomial, by uniqueness
of remainders, and `crc32` that of the polynomial times x^32; `crc32_raw` is linear;
a message followed by its CRC leaves zero; and any damage within 32 consecutive
bits changes it.

**Upload.** Client, server and a channel that loses, repeats, delays and
damages (one burst of at most 32 bits per datagram). In every run every byte of
RAM is what it was, or inside the destination the file's byte. RAM holds the
file if and only if each chunk was acknowledged, as the address in the reply
tells, or was in RAM before. The client compares only the reply's type, so its
"every send succeeded" does not imply that; a client that compared addresses
would know. Conversely, round i transmits chunk i and nothing else, and the
client stops at the first of four answers that satisfies it; so over a channel
that answers every transmission and leaves one in any four undamaged the upload
succeeds.

**ext2.** `ext2_readfile` writes the file's blocks in order, as given by a flat
map from logical to device blocks, and nothing else; each helper returns the
number of blocks it loaded; neither `ASSERT` fires. A file laid out on the
device, with index blocks of little-endian words, is read back byte for byte.

**Sort.** The byte-scaled heapsort leaves a sorted permutation of the elements
and touches nothing behind them, for any total preorder; the search finds an
equal element exactly when there is one, for any key whose comparison falls
along the array, which what `sort` leaves does.

**Checksum.** A message verifies exactly when it is, as a big-endian number, a
positive multiple of 65535 (section 1 of RFC 1071). Storing the checksum into
its zeroed field makes a message verify; damage to one word goes unnoticed
exactly when it swaps the two forms of zero. What the code stores makes a message
of any length verify if and only if the bytes it reads sum to the whole, as they
do up to 256 bytes. Hence an echo reply (the "Echo or Echo Reply Message" part of
RFC 792) verifies, as does its IPv4 header (section 3.1 of RFC 791) after the
addresses were swapped without recomputing, and a receiver that rebuilds the
pseudo header of `udp_send` finds both checksums right, and the ports, addresses
and data of the socket. Every echo request of up to 256 bytes laid out as the RFCs say is answered.

**Printer.** `vsprintf` prints the concatenation of what its pieces mean,
whatever width or flag an earlier piece left behind. `str2num` reads `"0x%x"`
and `"0x%#Nx"` back for every word and width; it reads `"%d"` back exactly when
the word is below 2^31.

## Where the code and its promises part

* `page_alloc` returns 0 for page frame 0 as well as for failure. Whatever the
  order of its lists, its `NULL` is right for every rank if and only if frame 0
  is not free in the area (`Buddy.NullHonestIff`); `Buddy.FrameZeroLooksLikeFailure`
  runs into it. The kernel never brings frame 0 online, since
  `myLoader/mm/memory.c` reserves the range from address 0 (lines 529 to 531), so
  the input exists at the interface of `myLoader/mm/page.c` only.
* Every `udpcli_sendandwait` of an upload can return 0 while the file is not in
  RAM, because an old acknowledgement is accepted for a later chunk:
  `Upload.StaleAckIsAccepted` runs the client and server through such an upload.
  The exact condition for an upload is `Upload.EveryRunUploadedIff`.
* `udpcli_sendandwait` returns 0 when its fourth `recv` returns an empty
  datagram, without any acknowledgement (`Upload.EmptyDatagramIsAccepted`). The
  server never sends one: `udp_send` pads its data to 18 bytes
  (`myLoader/core/net.c`, lines 487 to 489), and the client's socket is connected
  (`myLoader/udp_cli/client.c`, line 317), so it hears from nobody else.
* `udp_send` stores a computed UDP checksum of 0 as it is, which RFC 768 reads as
  "no checksum"; `Datagram.ZeroUdpChecksum` says exactly when, and
  `Datagram.ZeroUdpChecksumHappens` that every socket has such data.
* `checksum_calc` indexes with one byte, so it is the checksum of the message
  only for messages of up to 256 bytes (`Checksum.WholeUpTo256`).
* `str2num` gives 0 for the text of a negative number
  (`Printer.DecimalRoundTrip`).

## Model

| member | source | states |
|---|---|---|
| Blocks.RunInsideBlock | myLoader/mm/page.c:208-231 | merging hides nothing: every aligned run inside the frames covered by a coalesced block set lies in a single one of its blocks |
| Blocks.CoalescedIsMaximal | myLoader/mm/page.c:208-231 | a set of disjoint aligned blocks without buddies is determined by the frames it covers: it is the set of maximal aligned blocks in them |
| Blocks.MaximalIsCoalesced | myLoader/mm/page.c:208-231 | conversely the maximal blocks of any frame set cover it, are disjoint and contain no buddies |
| Blocks.ParentFacts | myLoader/mm/page.c:30-33 | toggling bit `rank` of an aligned block's index gives the one block with which it forms an aligned block of the next rank, starting at the lower of the two |
| Pool.StepSafe | myLoader/mm/page.c:116-251 | every call keeps live blocks aligned, disjoint, inside one area and apart from free frames, and only onlining adds frames |
| Pool.RunSafe | myLoader/mm/page.c:116-251 | after any legal sequence of calls the live blocks and free frames are disjoint and together exactly the frames brought online |
| Buddy.PageAllocator.EveryFrameAccounted | myLoader/mm/page.c:116-251 | the same of the allocator itself: between any two of its calls, for the history it records |
| Pool.ListedIsMaximal | myLoader/mm/page.c:116-251 | per area, the listed blocks are exactly the maximal aligned blocks of rank at most 14 inside its free frames |
| Pool.RunIffListed | myLoader/mm/page.c:134-148 | an aligned free run of 2^rank frames exists exactly when a block of at least that rank is listed |
| Pool.HistoryIndependent | myLoader/mm/page.c:116-251 | two runs with the same onlined frames and live blocks list the same free blocks, whatever their order of calls |
| Buddy.PageAllocator.constructor | myLoader/mm/page.c:83-99 | pages start out of every list, the lists of every area start empty, and the ownership invariant holds |
| Buddy.PageAllocator.GetPageArea | myLoader/mm/page.c:45-58 | the first non-empty area holding the page; the failing ASSERT is unreachable for every page the allocator asks about |
| Buddy.PageAllocator.Halve | myLoader/mm/page.c:158-165 | lowering the rank and toggling one index bit splits a block into two disjoint aligned halves that cover it |
| Buddy.PageAllocator.Merge | myLoader/mm/page.c:208-226 | absorbing the listed buddy gives an aligned block of the next rank in the same area and loses no frame |
| Buddy.PageAllocator.PageAlloc | myLoader/mm/page.c:116-188 | a success takes an aligned free run of the wanted size out of the area's free frames and makes it one live block; the address returned is a multiple of that size, and the bytes from it on are exactly the bytes of the block's frames; None happens only without such a run, and nothing changes |
| Buddy.PageAllocator.BestFit | myLoader/mm/page.c:134-148 | the page found heads a maximal free block of the area whose rank is the least of those that suffice |
| Buddy.PageAllocator.AllocBytes | myLoader/udp_cli/server.c:119-122 | page_alloc of get_pagerank of a size: every one of the bytes from the address on is in the area and in the new block, and in no other live block |
| Buddy.OneFrame | myLoader/mm/page.c:83-251 | an allocator with just frame k of the low area online hands out the address 0x1000 * k |
| Pool.AreaOfByte | myLoader/mm/page.c:45-58 | where the areas are whole pages and do not overlap, the area of a byte's frame is the one whose address range holds the byte |
| Buddy.PageAllocator.PageFree | myLoader/mm/page.c:190-233 | exactly the block's frames become free again, the block is no longer live, the invariant (no listed buddies) is back, and the call is on record |
| Buddy.PageAllocator.Release | myLoader/mm/page.c:190-233 | its statements, which sysram_online also runs: the merge loop and the final list insertion free exactly the block's frames |
| Buddy.PageAllocator.SysramOnline | myLoader/mm/page.c:235-251 | exactly the frames of the range become free, page by page, through page_free |
| Buddy.PageAllocator.ListsAreMaximal | myLoader/mm/page.c:116-251 | page k is on list r of area a exactly when block (k, r) is maximal in the area's free frames |
| Buddy.PageAllocator.NullMeansNoRun | myLoader/mm/page.c:134-148 | while frame 0 is not free in the area, the address is NULL exactly when no aligned run of the size is free |
| Buddy.NullHonestIff | myLoader/mm/page.c:134-187 | for every rank and every order the free lists may have, NULL means "no run", if and only if frame 0 is not free in the area before the call |
| Buddy.FrameZeroLooksLikeFailure | myLoader/mm/page.c:187 | an allocator that brought frame 0 online and allocates it: the allocation is live and the address returned is NULL |
| Buddy.PageAllocator.AllocThenFree | myLoader/mm/page.c:116-233 | allocating and freeing again restores the listed and the live blocks exactly |
| Buddy.SameListsWhateverHistory | myLoader/mm/page.c:116-251 | two allocators that onlined the same frames and hold the same live blocks have the same pages on every list, whatever calls they went through |
| PageRank.Log2 | myLoader/include/public.h:88-115 | the exact floor of the binary logarithm of every non-zero 32-bit word, -1 for zero |
| PageRank.GetPageRank | myLoader/mm/page.c:35-43 | the least rank whose blocks, counted in pages of the allocator, hold the size, for every 32-bit size |
| AvlModel.FixAvl | myLoader/lib/avl/avl.c:99-136 | one round on correct subtrees that differ by at most two gives a correct subtree of nearly the same height |
| AvlModel.ClimbAvl | myLoader/lib/avl/avl.c:92-138 | if the subtree in a hole changed height by at most one, climbing with the early stop makes the whole tree correct |
| AvlModel.ClimbInorder | myLoader/lib/avl/avl.c:92-138 | the climb never changes the order of the nodes |
| AvlModel.HeightBound | myLoader/lib/avl/avl.c:22-34 | a correct tree whose root stores height h holds at least Fib(h + 2) - 1 nodes |
| AvlModel.HeightLogarithmic | myLoader/lib/avl/avl.c:290-314 | so 2^(h/2) is at most one more than the node count |
| AvlModel.VisitsAll | myLoader/lib/avl/avl.c:316-401 | each of the six orders visits every node as often as it occurs |
| AvlModel.AscendingAndDescending | myLoader/lib/avl/avl.c:316-401 | LMR is the search order and RML its reverse |
| AvlModel.RootFirstOrLast | myLoader/lib/avl/avl.c:316-401 | MLR visits a root before its subtrees and LRM behind them, left before right; RLM and MRL are their reverses |
| AvlModel.StopMeaning | myLoader/lib/avl/avl.c:316-401 | the calls made are a prefix of the visit ending at the first -1, the whole visit if there is none, and the result tells which |
| Avl.SlabCmpLaws | myLoader/include/avl.h:6-44 | slabcmp of myLoader/mm/slab.c (lines 49 to 70) obeys the comparator laws; "less" means that every address of the first range is below every address of the second, "greater" the converse, "inside" and "contains" inclusion; less-or-greater means no shared address |
| Avl.AvlTree.AvlRfh | myLoader/lib/avl/avl.c:22-34 | the stored height becomes right, and the result is zero exactly for a balanced node whose height was right |
| Avl.AvlTree.AvlLr | myLoader/lib/avl/avl.c:43-61 | the heap is the left-rotated tree in the same place, parent pointers and heights included |
| Avl.AvlTree.AvlRr | myLoader/lib/avl/avl.c:69-86 | the mirror image |
| Avl.AvlTree.AvlAb | myLoader/lib/avl/avl.c:92-138 | the climbing loop turns the heap into the repaired tree, from any node of the path, and terminates |
| Avl.AvlTree.AvlNdcut | myLoader/lib/avl/avl.c:144-178 | a node with at most one child is replaced by that child in its father or in the root |
| Avl.AvlTree.Relink | myLoader/lib/avl/avl.c:219-288 | the two-child case: the predecessor or successor node, a direct child or not, takes the removed node's place and links, and rebalancing starts where the tree shrank |
| Avl.AvlTree.AvlRemove | myLoader/lib/avl/avl.c:219-288 | a correct tree again, whose order is the old one without exactly the removed node, and still a search order if it was one |
| Avl.AvlTree.AvlInsert | myLoader/lib/avl/avl.c:180-217 | fails exactly when some member anywhere is neither less nor greater, changing nothing; otherwise a correct ordered tree with exactly the new node added; at most height-many comparisons |
| Avl.AvlTree.AvlLkup | myLoader/lib/avl/avl.c:290-314 | finds a node holding the queried range exactly when some member of the whole tree does, with at most height-many comparisons |
| Avl.AvlTree.AvlWalk | myLoader/lib/avl/avl.c:316-401 | for an operation returning 0 or -1, the calls are the visit in the chosen order up to the first -1; the one-node shortcut is exact because heights are |
| Crc.Crc32Raw | myLoader/lib/crc32/crc32.c:3-31 | the flag, byte and carry juggling computes the register over the buffer's bits, most significant bit first |
| Crc.Crc32 | myLoader/lib/crc32/crc32.c:33-42 | two passes of crc32_raw give the register after the message followed by 32 zero bits |
| Crc.GeneratorTerms | myLoader/include/crc32.h:4-12 | the generator has the fifteen terms of IEEE 802.3, and POLY is all of it but the highest |
| Crc.CrcIsShiftedRemainder | myLoader/lib/crc32/crc32.c:33-42 | a number is crc32 of the buffer if and only if it is a remainder of the message polynomial times x^32 |
| Crc.CrcIsRemainder | myLoader/lib/crc32/crc32.c:3-31 | a number is crc32_raw of the buffer if and only if it is a remainder of the message polynomial by the IEEE 802.3 generator |
| Crc.FeedLinear | myLoader/lib/crc32/crc32.c:8-28 | the register is linear over exclusive or in its start value and in the bits fed to it |
| Crc.CrcLinear | myLoader/lib/crc32/crc32.c:3-31 | crc32_raw of the byte-wise exclusive or of two messages of one length is the exclusive or of theirs |
| Crc.SelfCheck | myLoader/udp_cli/client.c:252-256 | crc32_raw of any message followed by its big-endian crc32 is zero |
| Crc.BurstDetected | myLoader/lib/crc32/crc32.c:8-28 | two different buffers that agree outside 32 consecutive bits have different crc32_raw |
| Upload.UdpcliRecv | myLoader/udp_cli/server.c:129-148 | a command whose whole payload has CRC zero is copied to RAM and acknowledged; any other asks for retransmission and shuts the network device down |
| Upload.StepKeepsInv | myLoader/udp_cli/server.c:129-148 | sending and delivering keep RAM intact, keep acknowledged chunks in RAM, and change no byte that an acknowledgement does not cover |
| Upload.EveryRunIntact | myLoader/udp_cli/client.c:242-263 | in every run of sends and deliveries each byte of RAM is its initial value or, inside the destination, the file's byte |
| Upload.EveryRunUploadedIff | myLoader/udp_cli/client.c:242-263 | in every run RAM holds the file if and only if each chunk was acknowledged, by the reply's address, or was in RAM from the start |
| Upload.AllAnswered | myLoader/udp_cli/client.c:261-262 | if the reply accepted for each chunk carries that chunk's address, every chunk was acknowledged |
| Upload.StaleAckIsAccepted | myLoader/udp_cli/client.c:100-115 | an upload of any file on which every send returns 0 though only the first chunk arrived; RAM holds the file exactly when the later chunks were there before |
| Upload.EmptyDatagramIsAccepted | myLoader/udp_cli/client.c:77-86 | a send that returns 0 with nothing accepted, nothing delivered and RAM as it was |
| Upload.Judge | myLoader/udp_cli/client.c:77-107 | nothing, a retransmission request, no acknowledgement, or good: an answer of the server to a command of the type is good if its payload had CRC zero and a retransmission request if not |
| Upload.FillCommand | myLoader/udp_cli/client.c:246-256 | the command carries the chunk's bytes, whatever was left behind them, and a CRC that makes the payload check to zero |
| Upload.Session.SendAndWait | myLoader/udp_cli/client.c:64-116 | the call ends after the first transmission, of at most four of one command, whose answer satisfies the client, with the state that many transmissions lead to, and returns 0 with that reply; without one it makes all four and returns what the last recv gave, 0 only for an empty datagram; a reply is accepted if and only if one of the four answers satisfies |
| Upload.Session.RamWrite | myLoader/udp_cli/client.c:242-263 | round i transmits chunk i, once to four times, and nothing else is sent; RAM is intact throughout, and holds the file if and only if each chunk was acknowledged or there before; so it does if each accepted reply answers a transmission of its own round; where each transmission is answered and one in any four is undamaged, every send returns 0 and RAM holds the file |
| Upload.PerfectUpload | myLoader/udp_cli/client.c:242-263 | where nothing is lost or damaged each chunk is sent once, every send returns 0, and RAM becomes what it was with the file at the destination |
| Ext2.LoadBlock | myLoader/fs/ext2.c:170-180 | the block's bytes land at the address, nothing else changes |
| Ext2.BlockByte | myLoader/fs/ext2.c:170-180 | byte p of block b, as the sectors from b * blk_size / 1024 on deliver it, is byte b * blk_size + p of the device |
| Ext2.WordRoundTrip | myLoader/fs/ext2.c:430-433 | an index entry below 2^32 stored lowest byte first is read back as the same block number |
| Ext2.ReadfileInd | myLoader/fs/ext2.c:414-438 | loads and counts the first min(count, N) blocks the index block names |
| Ext2.DoubleEntriesRows | myLoader/fs/ext2.c:456-463 | walking a double-indirect tree row by row agrees with its flat numbering by quotient and remainder |
| Ext2.ReadfileDind | myLoader/fs/ext2.c:440-469 | loads and counts the first min(count, N*N) blocks of the double-indirect tree; its ASSERT holds |
| Ext2.FileBlocksByPointer | myLoader/fs/ext2.c:481-503 | the inode's pointers in turn enumerate the flat map from logical to device blocks |
| Ext2.Readfile | myLoader/fs/ext2.c:471-515 | memory from the address becomes exactly the file's logical blocks in order; its ASSERT holds |
| Ext2.BytesAt | myLoader/fs/ext2.c:471-515 | byte p of the file's block k is at offset k * blk_size + p |
| Ext2.LookupFinds | myLoader/fs/ext2.c:471-515 | the flat map finds logical block k where the inode, an index block or two index blocks on the device name it |
| Ext2.ReadsBack | myLoader/fs/ext2.c:471-515 | what is loaded of a file laid out on the device, index blocks and all, is that file byte for byte |
| Ext2.LoadFile | myLoader/fs/ext2.c:471-515 | ext2_readfile leaves such a file in memory from the address on |
| Sort.GenericSwap | myLoader/core/func.c:246-255 | byte by byte, two disjoint ranges exchange their contents |
| Sort.SwapExchanges | myLoader/core/func.c:239-255 | seen as elements, that exchanges the two elements and moves no other |
| Sort.SiftLevel | myLoader/core/func.c:286-294 | bringing the larger child up moves the only possible violation of the heap order one level down |
| Sort.SiftDown | myLoader/core/func.c:286-294 | the byte-scaled loop makes the prefix a heap from its start element on, permuting only the prefix |
| Sort.TopSettles | myLoader/core/func.c:298-309 | the heap's top, moved behind it, is in its final place, and what remains is one sift away from a heap |
| Sort.Sort | myLoader/core/func.c:274-310 | the elements end up ordered by the comparator and are a permutation of the input; bytes behind them keep their values |
| Sort.SortedIsFalling | myLoader/core/func.c:334-353 | an array in the order sort leaves can be searched with the same comparator |
| Sort.Bsearch | myLoader/core/func.c:334-353 | returns the byte offset of an element equal to the key exactly when there is one |
| Checksum.FoldValue | myLoader/core/net.c:137-140 | adding carries back in is reduction modulo 65535 that gives zero only for zero |
| Checksum.VerifiesIffMultiple | myLoader/core/net.c:114-143 | the checksum of a message is zero if and only if, read as one big-endian number, it is a positive multiple of 65535 |
| Checksum.SealVerifies | myLoader/core/net.c:357-360 | storing the checksum into its zeroed word makes the checksum of the whole zero |
| Checksum.OneWordDamage | myLoader/core/net.c:331-350 | replacing one word of a message that verifies goes unnoticed exactly when it exchanges the two forms of zero |
| Checksum.WholeUpTo256 | myLoader/core/net.c:116-135 | for a given length, what checksum_calc returns is the checksum of the message, whatever it holds, if and only if the length is at most 256 |
| Checksum.ChecksumCalc | myLoader/core/net.c:114-143 | the folded complement of the 32-bit sum over the bytes its 8-bit index reads, from any initial sum; those are the buffer's up to 256 bytes |
| Checksum.StoredVerifiesIff | myLoader/core/net.c:357-360 | a message of any length with the code's checksum stored in it verifies if and only if the bytes read sum to the whole modulo 65535 |
| Checksum.StoreChecksum | myLoader/core/net.c:539-541 | computing over the zeroed field and storing big-endian puts that checksum in place and changes nothing else |
| Packets.SwapKeepsChecksum | myLoader/core/net.c:205-214 | exchanging the addresses of an IPv4 header leaves its checksum as it was |
| Packets.IpSwap | myLoader/core/net.c:205-214 | the header's two addresses change places, nothing else in the frame changes |
| Packets.EchoVerifies | myLoader/core/net.c:351-362 | the reply's header verifies, and its message if and only if the bytes read sum to the whole, as up to 256 bytes; code, identifier, sequence number and data are the request's |
| Packets.EchoBranch | myLoader/core/net.c:323-368 | a reply is made exactly for an ICMP echo request whose header and message verify; its whole frame is given for all lengths; otherwise the frame is untouched |
| Packets.StandardRequestIsGood | myLoader/core/net.c:323-351 | an echo request laid out by RFC 791 and RFC 792, wherever it is in the frame, is taken for one if and only if the bytes that the code reads sum to the whole, as up to 256 bytes |
| Packets.ReplyParts | myLoader/core/net.c:356-362 | for a header of at least 20 bytes and a message of at least 4, that frame is the request's with swapped addresses and the echoed message |
| Packets.ReplyVerifies | myLoader/core/net.c:323-368 | a host that parses the reply with the lengths in it finds the addresses exchanged, the header right, and the message right if and only if the bytes read sum to the whole |
| Datagram.UdpSend | myLoader/core/net.c:482-541 | the 28 bytes before the data become the UDP and IPv4 headers, for every length; short data is padded to 18 bytes with what follows it |
| Datagram.PacketVerifies | myLoader/core/net.c:482-541 | a receiver finds the IPv4 checksum right, version 4, a 20-byte header, protocol UDP, no fragment, and the addresses, ports (source, then destination), lengths and data as sent; the UDP checksum over the rebuilt pseudo header is right if and only if the bytes read sum to the whole, as up to 236 bytes of data |
| Datagram.ZeroUdpChecksum | myLoader/core/net.c:511-513 | the UDP checksum sent is 0 if and only if the bytes read sum to a multiple of 65535 |
| Datagram.ZeroUdpChecksumHappens | myLoader/core/net.c:511-513 | for every socket, and any data of up to 236 bytes but for its first two, there is a first word with which it is 0 |
| Printer.DigitsValue | myLoader/io/disp.c:257-270 | the numeral of a number denotes that number |
| Printer.NumFmt | myLoader/io/disp.c:252-304 | sign and digits, padded to the width on the side the flag asks for, at the given place of the buffer and nowhere else; None exactly where the ASSERT fails |
| Printer.FieldShape | myLoader/io/disp.c:277-303 | a field is as wide as asked for or as its core; zeros for the flag #, spaces by default, stand before the core, and spaces behind it for +; it fails exactly for another flag with something to fill |
| Printer.Vsprintf | myLoader/io/disp.c:389-493 | the buffer holds the text of the format machine, terminated, and its length is returned |
| Printer.RunWidth | myLoader/io/disp.c:415-422 | the width digits are read as one decimal number in 16 bits |
| Printer.PrintsMeaning | myLoader/io/disp.c:389-493 | what is printed for a format spelled from pieces is the concatenation of what each piece means by itself, failing exactly when one does |
| Printer.Str2Num | myLoader/core/func.c:81-116 | the value modulo 2^32 of the digits, base 16 after an 0x prefix, and 0 if any character is not a hexadecimal digit |
| Printer.LeadingZeros | myLoader/core/func.c:90-113 | leading zeros do not change the number read |
| Printer.DecimalRoundTrip | myLoader/io/disp.c:431-441 | reading back what "%d" printed gives the word if and only if it is below 2^31 |
| Printer.NegativeReadBack | myLoader/io/disp.c:431-441 | "%d" of a word from 2^31 on is a minus sign and the magnitude, which reads back |
| Printer.SpaceIsDefault | myLoader/io/disp.c:389-493 | a field without a flag prints what it prints with the flag for spaces |
| Printer.OtherConversions | myLoader/io/disp.c:431-473 | "%s" prints its string, "%c" the character of the word's low byte, "%%" a percent sign; i and X mean what d and x do |
| Printer.HexRoundTrip | myLoader/io/disp.c:442-448 | "0x%x", and "0x%#Nx" for the digits N of any width, are read back as the word printed |

## Left out

- Buddy.PageAllocator.PageAlloc: does not model the clearing asked for by `PAF_ZERO`, because memory contents are not part of this model, nor the high-memory branch, which is empty; ranks of 15 or more, which the source does not guard against, are excluded.
- Buddy.PageAllocator.PageFree: reads a buddy beyond the page list as "not free", because the source looks outside its array there.
- Interrupts inside `page_alloc`: the free-list search runs before they are disabled; every call is one step here.
- The list nodes: a free list is a sequence of page indices and a page's node a flag that it is on a list; list surgery is not modelled.
- Sort.Sort: does not model a swap function supplied by the caller; the two textually identical inner loops are one method, and byte counts beyond 2^30, where the signed arithmetic would wrap, are excluded.
- The comparator of the AVL tree reads a fixed range per node; a caller that changes a member's range while it is in the tree is not modelled.
- `avl_walk` with an operation that returns anything but 0 and -1, or that changes the tree.
- The disk upload path: an acknowledgement overwrites the length field that its loop sets only once, so the upload property does not hold there. The hello, bye and address-request commands and damage to datagram headers are left out too.
- Upload.UdpcliRecv: says that the network device is shut down after a bad CRC; what that does to later datagrams is covered by their loss.
- Failing page allocations inside the ext2 helpers, empty files, triple indirection (an empty branch), and directory walking.
- Block numbers whose product with the block size exceeds 32 bits: excluded by `Ext2.Addressable`.
- Packets.EchoBranch: the source rejects neither headers shorter than 20 bytes nor messages shorter than 4, which overlap; the frame is given for them, but nothing is claimed about its checksums.
- The ARP cache, the Ethernet header of both packets, UDP reception, and transmission itself.
- `vsprintf` with `%s` takes the string the argument points to as given; `printk`'s 512-byte buffer is not modelled beyond the requirement that the text fits.
- Boot code, drivers, console, scheduler, semaphores, module loading and the commands built on all this.
