# ICS labs core, modelled in Dafny

This project models the algorithmic core of a set of systems-programming lab
solutions and proves what each piece promises.

- **Segregated-fit allocator** (`malloclab-handout/mm.c`).
  - A heap of 32-bit words that only grows.
  - Block headers packing `size | prev_alloc | alloc`; footers on free blocks only.
  - Eleven circular doubly-linked free lists, anchored by dummy nodes after the
    prologue, holding 32-bit offsets.
  - `mm_init`, `malloc`, `free`, `realloc`, `calloc`, `extend_heap`, `coalesce`
    (four cases), `find_fit` (best fit), `place` (split or whole), `insert`,
    `delete`, `get_list_index` and the heap checker.
  - The allocator is the class `MmAlloc.Allocator`. It owns the heap words
    `mem` and a capacity `limit` standing for `mem_sbrk`'s bound.
  - Two ghost fields describe the heap: `blocks`, the blocks in address order,
    and `lists`, the offsets on each free list in list order.
  - `Valid()` ties the words to both views (`MmHeap.Consistent`). It holds in
    particular that:
    - every block's alloc bit is its successor's prev-alloc bit;
    - every free block's header and footer agree;
    - no two free blocks are adjacent;
    - each free block is on exactly the list of its size class, and on no other;
    - list links are consistent in both directions.
  - Every operation keeps `Valid()`. Each states its effect on `blocks` and on
    `MmBlocks.Used`, the extents the program holds.
- **Cache simulator** (`cachelab-handout/csim.c`).
  - The class `CacheSim.Simulator` holds the line array and the `hit`/`miss`/`eviction` counters.
  - Each access is specified by the pure step `CacheSim.Access` on one set.
  - It is proved against an explicit recency order of the valid lines.
- **Matrix transposes** (`cachelab-handout/trans.c`).
  - `trans`, the blocked 32×32, 64×64 (with its scratch region in `B`) and 61×67
    transposes, and `is_transpose`.
  - All are methods over `array2<int>`, proved to leave `B` the transpose of `A`.
- **Proxy object cache** (`proxylab-handout/cache.c`, `cache.h`).
  - The class `ProxyCache.Cache` keeps the `next`/`prev` links of a circular list
    with sentinel `HEAD` and the per-node entries as maps.
  - A ghost `order` is the list read from the front, most recently used first.
  - `Contents()` is the entries in that order.
- **URI parsing and request-header rewriting** (`proxylab-handout/proxy.c`,
  `parse_uri` and `read_requesthdrs`).
  - These work over strings. The line reader is an input sequence of lines.
- **Integer bit puzzles** (`datalab-handout/bits.p.c`).
  - They work over `bv32`, with the arithmetic right shift written out as sign extension.
  - Each puzzle is proved equal to the meaning its name states.

## Model

| member | source | states |
|---|---|---|
| Bits.BitNor | datalab-handout/bits.p.c:2-4 | the result is the complement of `x | y` |
| Bits.IsNotEqual | datalab-handout/bits.p.c:6-10 | the result is 0 or 1, and 1 exactly when x ≠ y |
| Bits.AnyOddBit | datalab-handout/bits.p.c:12-20 | the result is 0 or 1, and 1 exactly when some odd-numbered bit of x is set |
| Bits.OddMask | datalab-handout/bits.p.c:12-20 | bit i of 0xAAAAAAAA is set exactly when i is odd |
| Bits.RotateLeftSpec | datalab-handout/bits.p.c:22-30 | for 0 ≤ n ≤ 31 the puzzle equals rotation of x left by n bits |
| Bits.RotateLeftZero | datalab-handout/bits.p.c:22-30 | rotating by 0 returns x unchanged |
| Bits.BitParitySpec | datalab-handout/bits.p.c:32-41 | the puzzle equals the XOR of all 32 bits of x |
| Bits.Tmin | datalab-handout/bits.p.c:43-45 | the result is 0x80000000, whose signed value is -2^31 |
| Bits.TminLeast | datalab-handout/bits.p.c:43-45 | tmin is at most every 32-bit value in signed order |
| Bits.FitsBitsSpec | datalab-handout/bits.p.c:47-51 | for 1 ≤ n ≤ 32 the result is 0 or 1, and 1 exactly when x's signed value lies in [-2^(n-1), 2^(n-1)) |
| Bits.Rempwr2Spec | datalab-handout/bits.p.c:53-60 | for 0 ≤ n ≤ 30 the result is x mod 2^n with C's sign rule: sign of x, magnitude below 2^n, x minus it a multiple of 2^n |
| Bits.OverflowSign | datalab-handout/bits.p.c:62-67 | the sign test the puzzle uses fires exactly when the exact sum leaves the signed 32-bit range |
| Bits.AddOKSpec | datalab-handout/bits.p.c:62-67 | the result is 0 or 1, and 1 exactly when the exact signed sum of x and y fits in 32 bits |
| Bits.IsNonZeroSpec | datalab-handout/bits.p.c:69-71 | the result is 0 or 1, and 1 exactly when x ≠ 0, including 0x80000000 |
| Bits.ILog2Spec | datalab-handout/bits.p.c:73-97 | for x > 0 the result r ≤ 30 satisfies `x >> r == 1`, so it is ⌊log2 x⌋ |
| Bits.ILog2Unique | datalab-handout/bits.p.c:73-97 | at most one shift r leaves exactly 1, so the ilog2 result is determined |
| Bits.SextInRange | datalab-handout/bits.p.c:62-67 | the sign extension of every 32-bit value lies in the signed range |
| CacheSim.ToInt | cachelab-handout/csim.c:152-161 | conversion to C `int`: the value lies in the 32-bit range and differs from the input by a multiple of 2^32 |
| CacheSim.BitAndLowMask | cachelab-handout/csim.c:158-161 | `x & (2^n - 1)` is x mod 2^n, also for negative x |
| CacheSim.BitAndAllOnes | cachelab-handout/csim.c:152-155 | masking with all ones (the wide-mask case) leaves x unchanged |
| CacheSim.LongMaskShift | cachelab-handout/csim.c:152-158 | `0x7fffffffffffffff >> j` is 2^(63-j) - 1 |
| CacheSim.WideMaskToInt | cachelab-handout/csim.c:152 | getTag's mask of 32 or more one bits becomes -1, all ones, as an `int` |
| CacheSim.NarrowMaskToInt | cachelab-handout/csim.c:158 | getSet's mask of s ≤ 31 one bits keeps its value as an `int` |
| CacheSim.GetTag | cachelab-handout/csim.c:152-155 | for 1 ≤ s+b ≤ 31 the tag is the address arithmetically shifted right by s+b |
| CacheSim.GetSet | cachelab-handout/csim.c:158-161 | the set index is bits b..b+s-1 of the address and lies in [0, 2^s) |
| CacheSim.AddressSplit | cachelab-handout/csim.c:152-161 | tag, set index and block offset recompose the address |
| CacheSim.SameLine | cachelab-handout/csim.c:152-161 | two addresses have the same tag and the same set exactly when they lie in the same 2^b-byte block |
| CacheSim.First | cachelab-handout/csim.c:237-289 | the first line of a set matching a test, or none exactly when no line matches |
| CacheSim.FirstIs | cachelab-handout/csim.c:237-289 | a matching line with no match before it is the one the scan finds |
| CacheSim.LruAfterKeeps | cachelab-handout/csim.c:209-221 | lruCounter changes no line's validity or tag, and no rank of an invalid line other than the accessed one |
| CacheSim.TouchSame | cachelab-handout/csim.c:209-221 | moving one line to the most recent end of the recency order permutes the order |
| CacheSim.OrderDistinct | cachelab-handout/csim.c:209-221 | the recency order of a well-formed set has no repeated line |
| CacheSim.HitRanks | cachelab-handout/csim.c:209-221 | on a hit, after lruCounter the line at position u of the recency order with the hit line moved last has rank E - n + u (n valid lines): the accessed line gets E-1 and the lines ranked above it drop by one |
| CacheSim.HitKeeps | cachelab-handout/csim.c:237-254 | a hit keeps the set well formed: ranks are the positions in the recency order with that line moved last |
| CacheSim.FillKeeps | cachelab-handout/csim.c:257-271 | filling the first invalid line keeps the set well formed and appends the line to the recency order |
| CacheSim.EvictVictim | cachelab-handout/csim.c:274-289 | in a full set the line of rank 0 is the least recently used one |
| CacheSim.EvictKeeps | cachelab-handout/csim.c:274-289 | eviction replaces the least recently used line, which becomes the most recent, and keeps the set well formed |
| CacheSim.AccessKeeps | cachelab-handout/csim.c:237-289 | every access keeps the set well formed with the updated recency order |
| CacheSim.AccessHitIff | cachelab-handout/csim.c:237-254 | the access is a hit exactly when a valid line holds the tag |
| CacheSim.AccessHitCounts | cachelab-handout/csim.c:237-254 | a hit adds 1 hit (2 for 'M'), no miss and no eviction, and returns HIT or HIT_HIT |
| CacheSim.AccessFillCounts | cachelab-handout/csim.c:257-271 | a miss with a free line adds 1 miss, no eviction, a hit only for 'M', returns MISS or MISS_HIT, and makes the first invalid line valid with the tag and rank E-1; no other line's validity or tag changes |
| CacheSim.AccessEvictCounts | cachelab-handout/csim.c:274-289 | a miss in a full set adds 1 miss and 1 eviction (one hit more for 'M'), returns MISS_EVICTION or MISS_EVICTION_HIT, and puts the tag in the least recently used line; no other line's validity or tag changes |
| CacheSim.AccessNoVictimIff | cachelab-handout/csim.c:290 | the access falls through to -1 exactly when the set has no lines |
| CacheSim.AccessMostRecent | cachelab-handout/csim.c:237-289 | after any access the accessed line holds the tag and is the most recent in the order |
| CacheSim.Simulator.constructor | cachelab-handout/csim.c:124-149 | every line of every set is invalid with rank 0, and the counters are 0 |
| CacheSim.Simulator.LruCounter | cachelab-handout/csim.c:209-221 | the accessed set becomes the rank update of the old set; no other set changes |
| CacheSim.Simulator.Search | cachelab-handout/csim.c:237-289 | the scan returns the first matching line of the set, or none |
| CacheSim.Simulator.HitLine | cachelab-handout/csim.c:237-254 | the hit path: the set's ranks are updated, the hit count rises by 1 (2 for 'M'), other sets unchanged |
| CacheSim.Simulator.FillLine | cachelab-handout/csim.c:257-289 | the fill and evict paths: the line gets the tag and is made most recent; one hit more for 'M' only |
| CacheSim.Simulator.AccessSet | cachelab-handout/csim.c:237-290 | the set becomes the access step's new set, counters and result are the step's, other sets unchanged |
| CacheSim.Simulator.ParseTraceFile | cachelab-handout/csim.c:233-291 | one trace access: the set of the address takes the access step, the simulator stays well formed, and no other set changes |
| Transpose.IsTranspose | cachelab-handout/trans.c:205-217 | the result is true exactly when B[j][i] == A[i][j] for every i, j |
| Transpose.CopyTransposed | cachelab-handout/trans.c:173-180 | the copy loop transposes the given rectangle and writes nothing outside it |
| Transpose.Trans | cachelab-handout/trans.c:166-181 | afterwards B is the transpose of A |
| Transpose.DiagonalBlock32 | cachelab-handout/trans.c:44-63 | one 8×8 diagonal block is transposed and nothing else is written |
| Transpose.Transpose32 | cachelab-handout/trans.c:40-65 | for 32×32, B ends as the transpose of A |
| Transpose.StageRow64 | cachelab-handout/trans.c:76-89 | one row of the first pass: the first half lands in place, the second half is parked in B's scratch region |
| Transpose.StageRows64 | cachelab-handout/trans.c:73-103 | four rows of a block are staged: first halves transposed, second halves parked |
| Transpose.CopyBack64 | cachelab-handout/trans.c:90-103 | the parked halves are copied to their transposed places |
| Transpose.StagedBlock64 | cachelab-handout/trans.c:73-103 | one staged 8×8 block of the 64×64 matrix is transposed; only the scratch region changes besides it |
| Transpose.DirectBlock64 | cachelab-handout/trans.c:104-129 | one directly copied 8×8 block is transposed; nothing else changes |
| Transpose.Transpose64 | cachelab-handout/trans.c:68-132 | for 64×64, B ends as the transpose of A, the scratch region included |
| Transpose.Transpose61 | cachelab-handout/trans.c:135-152 | for a 67×61 matrix, B ends as the transpose of A |
| Transpose.TransposeSubmit | cachelab-handout/trans.c:34-154 | for widths 32, 64 and 61 B ends as the transpose; any other width leaves B unchanged |
| ProxyCache.TotalPrefix | proxylab-handout/cache.c:57-66 | any prefix of the cache holds no more bytes than the whole |
| ProxyCache.TotalMonotone | proxylab-handout/cache.c:57-66 | a longer prefix holds at least as many bytes |
| ProxyCache.Retained | proxylab-handout/cache.c:57-59 | the entries kept by the eviction loop: the longest prefix whose bytes plus the new size fit in the capacity |
| ProxyCache.RetainedUnique | proxylab-handout/cache.c:57-59 | any prefix length with that fit-but-no-longer property is the one kept |
| ProxyCache.Find | proxylab-handout/cache.c:108-117 | the first entry from the front with the request, or none exactly when no entry has it |
| ProxyCache.UnlinkOk | proxylab-handout/cache.c:95-96 | unlinking a node from the circular list leaves the list of the other nodes, order kept |
| ProxyCache.LinkFrontOk | proxylab-handout/cache.c:61-64 | linking a new node after the head makes it first, the rest following in order |
| ProxyCache.EvictOk | proxylab-handout/cache.c:88-105 | evicting the tail keeps the cache well formed, drops the last entry and subtracts its size |
| ProxyCache.EvictTail | proxylab-handout/cache.c:95-98 | `head->prev` is the last (least recently used) entry of a non-empty cache, and its size is within the total |
| ProxyCache.LinkNewOk | proxylab-handout/cache.c:51-66 | linking a freshly stored entry keeps the cache well formed, puts the entry first and adds its size |
| ProxyCache.MoveOk | proxylab-handout/cache.c:69-83 | moving an entry to the front keeps the cache well formed, with the same entries and total |
| ProxyCache.DistinctWithout | proxylab-handout/cache.c:95-96 | removing a node from a list without repeats leaves no repeats and no copy of that node |
| ProxyCache.TotalAppend | proxylab-handout/cache.c:66 | byte totals add over concatenation |
| ProxyCache.TotalMoved | proxylab-handout/cache.c:69-83 | moving an entry to the front keeps the byte total |
| ProxyCache.AdmittedObjectFits | proxylab-handout/cache.h:5-6 | an object under MAX_OBJECT_SIZE fits the capacity, and inserting it into an empty cache evicts nothing |
| ProxyCache.Move2FrontAsWrittenBreaks | proxylab-handout/cache.c:75-81 | on a two-entry cache, the six writes as written leave a next-chain that no list of distinct nodes follows |
| ProxyCache.Cache.InitCache | proxylab-handout/cache.c:21-32 | the head links to itself both ways, the total is 0 and the cache holds nothing |
| ProxyCache.Cache.Evict | proxylab-handout/cache.c:88-105 | an empty cache is unchanged; otherwise the last (least recent) entry goes, the others keep their order, and the total is their byte sum |
| ProxyCache.Cache.MakeRoom | proxylab-handout/cache.c:57-59 | the eviction loop keeps exactly the longest prefix that leaves room for the new size |
| ProxyCache.Cache.InsertCacheEntry | proxylab-handout/cache.c:35-67 | the cache becomes the new entry (request, the first size content bytes, size) followed by the retained old entries, and the total stays within MAX_CACHE_SIZE |
| ProxyCache.Cache.IsCached | proxylab-handout/cache.c:108-117 | none exactly when no entry has the request; otherwise the node of the first such entry from the front; the cache is not changed |
| ProxyCache.Cache.Move2Front | proxylab-handout/cache.c:69-83 | the intended move: the entry becomes first, the others keep their order, and entries and total are unchanged |
| ProxyHttp.FirstIndex | proxylab-handout/proxy.c:273-290 | the index of the first occurrence of the character, or none exactly when it does not occur |
| ProxyHttp.SplitPath | proxylab-handout/proxy.c:273-280 | the host part has no '/' and the path starts with '/'; with a '/' they concatenate back to the input, without one the path is "/" |
| ProxyHttp.SplitPort | proxylab-handout/proxy.c:283-290 | the hostname has no ':'; with a ':' hostname, ':' and port recompose the host part, without one the port is "80" |
| ProxyHttp.ParseUri | proxylab-handout/proxy.c:258-293 | failure exactly when the URI does not start with "http://" in any case; on success the hostname has no '/' or ':', the port no '/', and the path starts with '/' |
| ProxyHttp.ParseRender | proxylab-handout/proxy.c:258-293 | parsing a URI built from scheme, hostname, optional port and optional path gives back those parts, with "80" and "/" as defaults |
| ProxyHttp.ParseUriRenders | proxylab-handout/proxy.c:258-293 | every URI that parses is the rendering of the parts it parses to |
| ProxyHttp.ContainsSpec | proxylab-handout/proxy.c:226-237 | the `strstr` test is true exactly when the pattern occurs in the line |
| ProxyHttp.DroppedReduces | proxylab-handout/proxy.c:226-228 | the five drop tests amount to three: "User-Agent", "Accept" or "Connection" |
| ProxyHttp.KeptMembers | proxylab-handout/proxy.c:225-245 | the kept lines are exactly the client lines that are not dropped |
| ProxyHttp.KeptAppend | proxylab-handout/proxy.c:225-245 | keeping distributes over concatenation, so the client order is kept |
| ProxyHttp.HeaderLinesShape | proxylab-handout/proxy.c:213-253 | the block is the five fixed lines, then the kept client lines, then a Host line exactly when no kept line contains "Host", then the blank line |
| ProxyHttp.HeaderBlockEnds | proxylab-handout/proxy.c:251 | the block always ends with "\r\n" |
| ProxyHttp.FixedHeadersText | proxylab-handout/proxy.c:218-222 | the fixed part is the User-Agent, Accept, Accept-Encoding, Connection and Proxy-Connection lines in that order |
| ProxyHttp.HeaderBlockText | proxylab-handout/proxy.c:213-253 | the block's text is the fixed text, the kept lines, the optional Host line and the blank line |
| ProxyHttp.ReadRequestHdrs | proxylab-handout/proxy.c:213-253 | reads up to and including the first blank line and returns the header block for the lines before it |
| ProxyHttp.CopyClientLines | proxylab-handout/proxy.c:224-245 | the loop appends every kept line before the blank one in order, and records whether one names a host |
| MmCodec.PackBitsRoundTrip | malloclab-handout/mm.c:67-91 | for an 8-aligned size, GET_SIZE, GET_ALLOC and GET_PREV_ALLOC of PACK(size, p, a) give back size, a and p |
| MmCodec.SetPrevAllocBitsOnly | malloclab-handout/mm.c:87-91 | SET_PREV_ALLOC sets bit 1 and changes no other bit |
| MmCodec.SetPrevFreeBitsOnly | malloclab-handout/mm.c:87-91 | SET_PREV_FREE clears bit 1 and changes no other bit |
| MmCodec.GetSize | malloclab-handout/mm.c:73 | the size read from a word is a multiple of 8 and no more than the word |
| MmCodec.Pack | malloclab-handout/mm.c:67 | the packed word reads back its size, prev-alloc and alloc fields |
| MmCodec.SetPrevAlloc | malloclab-handout/mm.c:89 | the prev-alloc field becomes 1; size and alloc fields are unchanged |
| MmCodec.SetPrevFree | malloclab-handout/mm.c:91 | the prev-alloc field becomes 0; size and alloc fields are unchanged |
| MmCodec.GetSizeAgrees | malloclab-handout/mm.c:73 | the word-value reading of the size equals the bit-level macro |
| MmCodec.GetAllocAgrees | malloclab-handout/mm.c:74 | the word-value alloc bit equals the bit-level macro |
| MmCodec.GetPrevAllocAgrees | malloclab-handout/mm.c:87 | the word-value prev-alloc bit equals the bit-level macro |
| MmCodec.SetPrevAllocAgrees | malloclab-handout/mm.c:89 | the word-value update equals the bit-level macro |
| MmCodec.SetPrevFreeAgrees | malloclab-handout/mm.c:91 | the word-value update equals the bit-level macro |
| MmCodec.PackAgrees | malloclab-handout/mm.c:67 | the word-value PACK equals the bit-level macro |
| MmCodec.AdjustSize | malloclab-handout/mm.c:166-171 | the adjusted size is a multiple of 8, at least 16, at least the request plus the header, and 16 for requests up to 12 bytes |
| MmCodec.AdjustSizeAgrees | malloclab-handout/mm.c:166-171 | below the 64-bit wrap, the computation as written equals the adjusted size |
| MmCodec.AdjustSizeWraps | malloclab-handout/mm.c:62 | requests near 2^64 wrap in `size_t`: 2^64-8 adjusts to 0 and 2^64-1 to 8 |
| MmCodec.ListIndex | malloclab-handout/mm.c:473-496 | the class is 0..10; class 0 holds sizes up to 16, class i < 10 sizes in (2^(i+3), 2^(i+4)], class 10 sizes above 8192 |
| MmCodec.ListIndexMonotone | malloclab-handout/mm.c:473-496 | a larger size never gets a lower class |
| MmCodec.ListIndexBounds | malloclab-handout/mm.c:473-496 | every size lies within its class's bounds |
| MmHeap.TiledAscending | malloclab-handout/mm.c:83-84 | blocks that tile the heap are in strictly ascending address order |
| MmHeap.FindBlockAt | malloclab-handout/mm.c:83-84 | looking a block up by its address finds that block |
| MmHeap.MembersListed | malloclab-handout/mm.c:451-470 | when every list holds exactly the free blocks of its class, every listed node is a free block of its list's class (the weaker form each step of an operation keeps) |
| MmFit.ListedExactly | malloclab-handout/mm.c:451-470 | in a consistent heap an address is on list c exactly when it is a free block of class c: every free block is on its class's list, and nothing else is on any list |
| MmLinks.Push | malloclab-handout/mm.c:451-462 | insert puts the block at the front of its class's list; other lists are unchanged |
| MmLinks.Unlink | malloclab-handout/mm.c:465-470 | delete removes one node from its list, order kept; other lists are unchanged |
| MmLinks.InsertWritten | malloclab-handout/mm.c:451-462 | after insert's four writes, the dummy's next and the old first node's prev are the new block |
| MmLinks.InsertOk | malloclab-handout/mm.c:451-462 | insert's writes turn well-formed lists into the lists with the block pushed on its class |
| MmLinks.DeleteWritten | malloclab-handout/mm.c:465-470 | after delete's two writes, the predecessor skips to the successor and back |
| MmLinks.DeleteOk | malloclab-handout/mm.c:465-470 | delete's writes turn well-formed lists into the lists with the node removed |
| MmLinks.PushDistinct | malloclab-handout/mm.c:451-462 | pushing a block not already listed keeps each list free of repeats |
| MmLinks.UnlinkDistinct | malloclab-handout/mm.c:465-470 | removing a node keeps each list free of repeats |
| MmBlocks.FreedUsed | malloclab-handout/mm.c:200-213 | freeing a block removes exactly its extent from what the program holds |
| MmBlocks.CoalescedTiled | malloclab-handout/mm.c:314-383 | the merged block sequence still tiles the heap |
| MmBlocks.CoalescedUsed | malloclab-handout/mm.c:314-383 | coalescing does not change what the program holds |
| MmBlocks.CoalescedMarked | malloclab-handout/mm.c:314-383 | after coalescing, each block's prev-alloc mark matches its predecessor; the last block is allocated only when it was and was not merged |
| MmBlocks.CoalescedAlone | malloclab-handout/mm.c:322-328 | with both neighbours allocated, coalescing only clears the successor's prev-alloc mark |
| MmBlocks.CoalescedApart | malloclab-handout/mm.c:314-383 | after coalescing no two adjacent blocks are both free |
| MmBlocks.ExtendedUsed | malloclab-handout/mm.c:290-311 | growing the heap by a free block does not change what the program holds |
| MmBlocks.Granted | malloclab-handout/mm.c:423-448 | the allocated size is between the request and the free block's size, and is the request unless the remainder is under 16 bytes |
| MmBlocks.PlacedTiled | malloclab-handout/mm.c:423-448 | placing keeps the blocks tiling the heap |
| MmBlocks.PlacedMarked | malloclab-handout/mm.c:423-448 | placing keeps prev-alloc marks right; the last block is allocated afterwards only when the whole last block was taken |
| MmBlocks.PlacedUsed | malloclab-handout/mm.c:423-448 | placing adds exactly the granted extent, at the block's address, to what the program holds |
| MmBlocks.SizeSumSpan | malloclab-handout/mm.c:83-84 | consecutive blocks span the sum of their sizes |
| MmCoalesce.MergeNoneOk | malloclab-handout/mm.c:322-328 | case 1: the successor's prev bit cleared and the block inserted give a consistent heap with the block on its class's list |
| MmCoalesce.NextOk | malloclab-handout/mm.c:331-342 | case 2: merging with the free successor gives a consistent heap for the merged blocks |
| MmCoalesce.PrevOk | malloclab-handout/mm.c:345-363 | case 3: merging into the free predecessor gives a consistent heap; the result is the predecessor's address |
| MmCoalesce.BothOk | malloclab-handout/mm.c:366-382 | case 4: merging both neighbours gives a consistent heap; the result is the predecessor's address |
| MmCoalesce.CoalesceReads | malloclab-handout/mm.c:314-320 | the words coalesce reads hold the block's size, its predecessor's state and its successor's header |
| MmCoalesce.NextMerged | malloclab-handout/mm.c:331-342 | in case 2 the merged block is one free block of the two sizes' sum at the freed block's address |
| MmCoalesce.PrevMerged | malloclab-handout/mm.c:345-363 | in case 3 the merged block is one free block of the two sizes' sum at the predecessor's address |
| MmCoalesce.BothMerged | malloclab-handout/mm.c:366-382 | in case 4 the merged block is one free block of the three sizes' sum at the predecessor's address |
| MmPlace.PlaceHeader | malloclab-handout/mm.c:425-427 | place reads the block's size and prev-alloc bit from its header |
| MmPlace.SplitOk | malloclab-handout/mm.c:429-441 | splitting gives a consistent heap for the placed blocks, the remainder free and on its list |
| MmPlace.WholeOk | malloclab-handout/mm.c:443-447 | taking the whole block gives a consistent heap with the successor's prev-alloc bit set |
| MmFit.Best | malloclab-handout/mm.c:396-414 | a non-null choice is a node of the list that fits |
| MmFit.BestNone | malloclab-handout/mm.c:396-419 | the walk of a list chooses nothing exactly when no node fits |
| MmFit.BestLeast | malloclab-handout/mm.c:407-412 | the chosen node is no larger than any node that fits |
| MmFit.BestFirst | malloclab-handout/mm.c:407-412 | of nodes of least size, the first in list order is chosen |
| MmFit.BestExact | malloclab-handout/mm.c:403-405 | an exact fit with no smaller fit before it is the choice for the whole list |
| MmFit.ClassChoice | malloclab-handout/mm.c:396-417 | in block terms one class's walk is null exactly when no free block of that class is large enough, and otherwise the least such block |
| MmFit.FitFromChoice | malloclab-handout/mm.c:389-420 | the search from class c is null exactly when no free block of class c or above fits; otherwise the least fitting block of the first class that has one |
| MmFit.FindFitChoice | malloclab-handout/mm.c:389-420 | find_fit is null exactly when no free block holds asize bytes; otherwise a free block that does, least of its class, with all lower-class free blocks too small |
| MmOps.FreeUsed | malloclab-handout/mm.c:200-213 | free followed by coalesce removes exactly the freed extent from what the program holds |
| MmOps.FreeOk | malloclab-handout/mm.c:200-213 | free reads the block's size and prev-alloc bit from its header, and can write its tags |
| MmOps.ExtendSize | malloclab-handout/mm.c:295 | extend_heap's byte count is a multiple of 8 and rounds the word count up to an even number |
| MmOps.ExtendOk | malloclab-handout/mm.c:290-311 | the new block's tags and the new epilogue give a heap ready to coalesce the new free block |
| MmOps.TopAligned | malloclab-handout/mm.c:290-311 | the top of a tiled heap is 8-aligned and above the first block |
| MmOps.BlockAddr | malloclab-handout/mm.c:624-632 | every block's address is at least 104 and a multiple of 8, the block ends within the heap, and its size is at least 16 and a multiple of 8 |
| MmInit.InitLists | malloclab-handout/mm.c:133-142 | after mm_init's writes every list dummy is linked to itself, so every list is empty |
| MmInit.InitConsistent | malloclab-handout/mm.c:122-146 | the laid-out heap is consistent with no blocks and empty lists |
| MmInit.InitBlocks | malloclab-handout/mm.c:148 | the first extend_heap leaves one free block of 256 bytes |
| MmMalloc.HeapTop | malloclab-handout/mm.c:179-187 | the epilogue's prev-alloc bit says whether the last block is allocated; when it is free, the word before is its footer with its size |
| MmMalloc.ExtendEnough | malloclab-handout/mm.c:179-187 | the extension request is a multiple of 8, at least 16, and with a free last block gives room for asize |
| MmMalloc.ExtendWhole | malloclab-handout/mm.c:189 | extend_heap(e/4) grows the heap by exactly e bytes for 8-aligned e |
| MmMalloc.GrantsHolds | malloclab-handout/mm.c:157-195 | after a grant the new block is held and every block held before is still held with its size |
| MmMalloc.CopyLength | malloclab-handout/mm.c:238-243 | the intended copy length is at most the request and the old payload, and equals one of them |
| MmMalloc.CopyPastPayload | malloclab-handout/mm.c:238-243 | as written, a 16-byte block with a 16-byte request copies more than its 12-byte payload |
| MmMalloc.CallocWraps | malloclab-handout/mm.c:261 | as written, 2 × (2^63 + 8) wraps to a 16-byte request |
| MmMalloc.ClearsNull | malloclab-handout/mm.c:264-267 | as written, calloc's memset after a failed malloc writes through NULL: every block's header and payload lie above address 0, so no held block contains the destination and the write falls outside the heap |
| MmBytes.Written | malloclab-handout/mm.c:238-267 | a byte write keeps the heap's size and changes only words holding a written byte |
| MmBytes.WrittenBytes | malloclab-handout/mm.c:238-267 | the bytes read back at the destination are the bytes written |
| MmBytes.WrittenElsewhere | malloclab-handout/mm.c:238-267 | bytes outside the written range are unchanged |
| MmBytes.WordOfBytes | malloclab-handout/mm.c:238-267 | a word is its four little-endian bytes |
| MmBytes.BytesOfWord | malloclab-handout/mm.c:238-267 | the bytes of a word built from four bytes are those bytes |
| MmBytes.WrittenPayload | malloclab-handout/mm.c:238-267 | writing within the payload of a held block keeps the heap consistent with the same blocks and lists |
| MmCheck.BlockChecksHold | malloclab-handout/mm.c:613-671 | in a consistent heap every block passes checkblock's tests |
| MmCheck.HeadChecksHold | malloclab-handout/mm.c:516-547 | in a consistent heap the padding, prologue and epilogue tests pass |
| MmCheck.NodeChecksHold | malloclab-handout/mm.c:684-711 | in a consistent heap every listed node has working links and a size within its class's bounds |
| MmCheck.CountsAgree | malloclab-handout/mm.c:597 | the free count of the list walk equals that of the address walk |
| MmCheck.BlockWalkStep | malloclab-handout/mm.c:559-593 | one step of the address walk reads the block's size and alloc bit and reaches the next block |
| MmCheck.WalkEnds | malloclab-handout/mm.c:527-547 | the address walk starts after the prologue and ends at the size-0 epilogue |
| MmCheck.ListShort | malloclab-handout/mm.c:684 | every list is shorter than the heap, which bounds the list walk |
| MmCheck.SizeTestFailsAsWritten | malloclab-handout/mm.c:679 | as written, the class test on the epilogue's size fails for every list index 1..10 |
| MmCheck.CountMissesListZero | malloclab-handout/mm.c:681-683 | as written, the list count misses list 0, so it falls short when list 0 is non-empty |
| MmCheck.FooterTestMissesAsWritten | malloclab-handout/mm.c:621 | as written, a free block whose footer says allocated passes the footer test |
| MmAlloc.Allocator.constructor | malloclab-handout/mm.c:125 | the empty heap, of the given capacity, that mm_init's first mem_sbrk grows |
| MmAlloc.Allocator.Sbrk | malloclab-handout/mm.c:297-300 | growth past the capacity fails with -1 and no change; otherwise the old top is returned and the heap grows by incr/4 words, each of value zero |
| MmAlloc.Allocator.Insert | malloclab-handout/mm.c:451-462 | the heap words become insert's four writes |
| MmAlloc.Allocator.Delete | malloclab-handout/mm.c:465-470 | the heap words become delete's two writes |
| MmAlloc.Allocator.Coalesce | malloclab-handout/mm.c:314-383 | the heap becomes consistent with the blocks merged, and the result is the address of the merged block |
| MmAlloc.Allocator.Free | malloclab-handout/mm.c:200-213 | NULL changes nothing; otherwise the block is freed and coalesced, and only its extent leaves what the program holds |
| MmAlloc.Allocator.ScanList | malloclab-handout/mm.c:396-417 | one list's walk returns that list's best-fit choice |
| MmAlloc.Allocator.FindFit | malloclab-handout/mm.c:389-420 | the result is find_fit's choice over the lists from asize's class upward |
| MmAlloc.Allocator.Place | malloclab-handout/mm.c:423-448 | the blocks become the placed blocks, and what the program holds gains exactly the granted extent |
| MmAlloc.Allocator.ExtendRequest | malloclab-handout/mm.c:179-187 | the request is computed from asize and the last block's size, which is free and smaller than asize, or 0 |
| MmAlloc.Allocator.ExtendHeap | malloclab-handout/mm.c:290-311 | past the capacity, 0 and no change; otherwise the heap grows by a free block merged with a free last block, and what the program holds is unchanged |
| MmAlloc.Allocator.Init | malloclab-handout/mm.c:122-152 | success exactly when the capacity covers the initial layout and one chunk; then the heap is valid with one free 256-byte block and nothing held |
| MmAlloc.Allocator.Malloc | malloclab-handout/mm.c:157-195 | NULL exactly when the size is 0, or no free block holds AdjustSize bytes and the heap cannot grow by malloc's extend_heap request; NULL means no change; a fit is what find_fit chooses; success grants one extent of at least AdjustSize bytes |
| MmAlloc.Allocator.GrowAndPlace | malloclab-handout/mm.c:179-194 | with no fitting block, NULL with nothing changed exactly when the heap cannot grow by the request (asize or a chunk, less a free last block's size, at least a minimum block); otherwise the blocks are those of the grown and coalesced heap with asize placed in its last block, and one extent of at least asize bytes is granted |
| MmAlloc.Allocator.Memcpy | malloclab-handout/mm.c:243 | the destination bytes become the source bytes, the heap stays valid |
| MmAlloc.Allocator.Memset | malloclab-handout/mm.c:267 | the destination bytes become n copies of the byte, the heap stays valid |
| MmAlloc.Allocator.CopyPayload | malloclab-handout/mm.c:238-243 | the new payload starts with the intended number of bytes of the old payload |
| MmAlloc.Allocator.Realloc | malloclab-handout/mm.c:219-248 | NULL acts as malloc; size 0 frees and gives NULL; otherwise NULL exactly when malloc(size) fails, with nothing changed, and on success a new extent is granted and the old one released |
| MmAlloc.Allocator.Move | malloclab-handout/mm.c:232-247 | NULL with nothing changed exactly when malloc(size) fails; otherwise a new extent is granted and the old one released |
| MmAlloc.Allocator.Calloc | malloclab-handout/mm.c:254-270 | NULL exactly for a zero count or size, a product of 2^64 or more, or a failing malloc of the product; otherwise the granted payload is all zero bytes |
| MmAlloc.Allocator.NewBlockWrites | malloclab-handout/mm.c:302-308 | the new block's header, footer and the new epilogue are written |
| MmAlloc.Allocator.CheckHeap | malloclab-handout/mm.c:505-610 | a passing check means the head tests hold and the two free counts agree; a valid heap always passes, with both counts equal to the number of free blocks |
| MmAlloc.Allocator.WalkBlocks | malloclab-handout/mm.c:559-593 | on a valid heap the address walk passes and counts the free blocks |
| MmAlloc.Allocator.WalkLists | malloclab-handout/mm.c:674-717 | on a valid heap the walk of all lists passes and counts all listed nodes |
| MmAlloc.Allocator.WalkList | malloclab-handout/mm.c:684-712 | on a valid heap one list's walk passes and counts its nodes |

## Left out

- Debug and checker output: `dbg_printf`, the diagnostics of `mm_checkheap`, and the `printf` in `extend_heap` (malloclab-handout/mm.c:298). They are I/O.
- `mem_sbrk`, `mem_heap_lo`, `mem_heap_hi` and `mem_heapsize` (memlib) are not part of this model.
  - The heap is the sequence field `mem` with a fixed capacity `limit`.
  - Growth appends zero words or fails past `limit`.
  - The heap is a `seq` the methods reassign, rather than an array.
- Heap words are unsigned 32-bit values. Heaps of 2^32 bytes or more are excluded, as `MAX_HEAP_SIZE` excludes them.
- The heap checker is modelled as intended. Its source bugs are listed under Findings.
  - The list walk stops after a bound on the heap size, and a walk that leaves the heap fails.
  - The allocated-block size test at malloclab-handout/mm.c:646 always holds, so it adds nothing.
- MmAlloc.Allocator.Move: the new payload's contents are stated only at CopyPayload; their survival across the free that follows is not proved, so Move's contract states the grant and release but not the bytes.
- MmAlloc.Allocator.Realloc:
  - The copy is stated at the copy itself (`CopyPayload`).
  - It is not proved that the old payload's bytes survive the `malloc` before the copy.
  - It is not proved that the bytes of other held blocks survive `malloc` and `free`.
- MmAlloc.Allocator.Malloc uses the corrected `AdjustSize`, which does not wrap in `size_t` for requests near 2^64 (see Findings). Such requests fail for lack of room instead.
- MmAlloc.Allocator.constructor stands for memlib's `mem_init`, which is not part of this model.
- Addresses in the allocator are byte offsets from the heap's start, and NULL is 0. Offset 0 is also the padding word, but only the allocator's own writes reach the heap: a write through NULL, as in calloc as written, lands outside the heap and is not modelled as a heap update (MmMalloc.ClearsNull shows it lies in no block).
- MmAlloc.Allocator.Calloc does not model the overflowing product and the `memset` at NULL as written. It returns NULL and clears nothing in those cases (see Findings).
- CacheSim: `getArg`, `main`, reading the trace file, verbose printing and `printSummary` are left out. A trace line becomes the `op` and `addr` arguments of `ParseTraceFile`.
- CacheSim.Simulator.ParseTraceFile takes `addr` as the 32-bit `int` that `sscanf`'s `%x` stores (cachelab-handout/csim.c:226,231). That is the low 32 bits of a wider trace address, so trace addresses 2^32 apart alias in the simulator. The scan itself is not modelled.
- CacheSim.Simulator.constructor sets `lruIndex` to 0 explicitly. `initCache` leaves it uninitialised (cachelab-handout/csim.c:144-146).
- CacheSim.GetTag and CacheSim.GetSet require s+b ≤ 31, because a C shift of an `int` by 32 or more is undefined.
- Proxy networking, threading and locks (`main`, `doit`, `thread`, the rwlock wrappers, `open_clientfd_ts`, `gethostbyname_ts`, `clienterror`; proxylab-handout/proxy.c:51-208, 298-376) are left out.
- `empty_cache`, `Malloc`/`Free` and `unix_error` in the cache are memory management and process exit. Evicted nodes stay in the `entry` maps, unreachable from the head.
- ProxyCache.Cache.InsertCacheEntry requires `size <= MAX_CACHE_SIZE`. For a larger size the source's eviction loop never ends once the cache is empty. The proxy only inserts objects below `MAX_OBJECT_SIZE`, as `AdmittedObjectFits` shows.
- ProxyHttp.ReadRequestHdrs requires a blank line in the input.
  - At end of input `Rio_readlineb` leaves the buffer unchanged and the source loop repeats the last line forever.
  - `MAXLINE` buffer bounds are not modelled.
  - The `sprintf` that overlaps its source and destination is modelled as an append.
- `float_half` and `float_twice` (datalab-handout/bits.p.c:99-119) are IEEE 754 single-precision encoding and a stub.
- Bits.RotateLeftZero: for n = 0 the source's shift by 32 is undefined in C, but its result is masked away. The model uses Dafny's shift, which gives 0.
- `registerFunctions` and the cache-miss performance goal of trans.c (cachelab-handout/trans.c:16-17, 190-198) are driver registration and performance.
- Transpose.TransposeSubmit:
  - It requires the shapes its widths assume (32×32, 64×64, 67×61).
  - For any other width the source writes nothing and its closing check would not hold. The model states that B is unchanged.
- ProxyCache.Cache.Move2Front models the move to front the comment promises, not the six writes as written (see Findings).

## Findings

| source | as written | input that shows it | evidently intended | confidence | as-written member | corrected member |
|---|---|---|---|---|---|---|
| malloclab-handout/mm.c:170 | `ALIGN(size) + DSIZE` in 64-bit `size_t` wraps for requests near 2^64 | size = 2^64 - 8 adjusts to 0, and 2^64 - 1 to 8 | a request too large for the heap fails | not executed | MmCodec.AdjustSizeWraps | MmCodec.AdjustSize |
| malloclab-handout/mm.c:238-243 | realloc copies min(size, block size) bytes, and the block size includes the 4-byte header | a 16-byte block realloc'd to 16 bytes copies 16 bytes out of a 12-byte payload | copy at most the old payload (block size minus the header) | not executed | MmMalloc.CopyPastPayload | MmMalloc.CopyLength |
| malloclab-handout/mm.c:261 | `bytes = nmemb * size` is not checked for overflow | nmemb = 2, size = 2^63 + 8 gives 16 bytes | calloc fails when the product does not fit in `size_t` | not executed | MmMalloc.CallocWraps | MmAlloc.Allocator.Calloc |
| malloclab-handout/mm.c:264-267 | `memset(newptr, 0, bytes)` runs even when malloc returned NULL | a calloc whose malloc fails (the heap cannot grow) writes `bytes` zero bytes through NULL, outside the heap (undefined behaviour) | return NULL without writing | not executed | MmMalloc.ClearsNull | MmAlloc.Allocator.Calloc |
| malloclab-handout/mm.c:679 | the class test reads the epilogue's size (0) for every node, and compares with index c-1 | any heap with a node on list 1..10 | test each node's own size against its own class | not executed | MmCheck.SizeTestFailsAsWritten | MmCheck.NodeChecksHold |
| malloclab-handout/mm.c:681-683 | the list walk starts at list 1, so list 0's nodes are never counted | one free 16-byte block (on list 0) gives 0 listed against 1 in the heap | walk all eleven lists | not executed | MmCheck.CountMissesListZero | MmCheck.CountsAgree |
| malloclab-handout/mm.c:621 | `f_alloc` is read from the header, so the footer's alloc bit is never checked | a free block whose footer says allocated passes | read the footer's alloc bit | not executed | MmCheck.FooterTestMissesAsWritten | MmCheck.BlockChecksHold |
| proxylab-handout/cache.c:75-81 | move2front relinks the entry at the front but never unlinks it from its old neighbours | a two-entry cache moving its tail leaves a next-chain that no list of distinct nodes follows | unlink, then link after the head | not executed | ProxyCache.Move2FrontAsWrittenBreaks | ProxyCache.Cache.Move2Front |
