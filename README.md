# cosmos-os memory, path and result-type core in Dafny

This project models four pieces of the cosmos-os kernel and proves properties of them:

- **The physical frame allocator** (`src/memory/physical.cpp`, module `Physical`, class
  `FrameAllocator`, with the word-level facts in module `BitWord`). One bit per 4096-byte
  frame, kept in an array of 64-bit words, with the counters `total_pages`, `used_pages` and
  `entry_count`. `init` sizes the bitmap from the memory map and houses it in the first
  usable range at frame 1 or above that is large enough. It then marks every frame used,
  clears the usable ranges and marks the bitmap's own frames used again. `alloc_pages` is a
  first-fit scan for a run of clear bits, and the run may cross word boundaries.
  `free_pages` clears a run. A run that starts at frame 0 comes back as address 0, which
  is also the failure value; `init` can leave frame 0 free when a usable range starts there. Each bitmap word is held as its 64 flags, bit 0 first. Module
  `BitWord` proves that each uint64 operator the code applies to a word is the matching
  update of those flags. The ghost sequence `Frames` is the one-flag-per-frame view of the
  whole bitmap.
- **The kernel heap** (`src/memory/heap.cpp`, module `Heap`, class `KernelHeap`). The heap
  is a singly linked list of regions. Each region has a 16-byte header (`next`, `used`,
  `size`) followed by its payload.
  - The list is held as a sequence of `Region(addr, used, size)` in list order, with
    addresses as offsets from the heap base.
  - `head` and `tail` are the first and last header addresses.
  - The class invariant says the regions tile `[0, page_count * 4096)` without gaps and that
    no two neighbours are both free.
  - `alloc` is proved equal to the reference function `AllocSpec`, and `free` to `Released`.
    Both functions carry their own lemmas. Among them is the round trip: freeing the pointer
    alloc just returned restores the list as it was, except for any pages alloc had to add.
- **Absolute-path validation** (`src/vfs/path.cpp`, module `Path`). `check_abs_path` is a
  loop over a NUL-terminated string. It is proved equal to `AbsPathLength`, a declarative
  definition: the trimmed length of a valid path, and 0 for anything else.
- **The result types** (`src/stl/expected.hpp`, module `Stl`): `Unexpected<E>`,
  `Expected<T, E>` and `Expected<void, E>`.
  - Each is a class whose methods update the object in place.
  - The C++ untagged union is the datatype `Storage`. `Valid()` ties the `has_value_` flag
    to the member that is active.
  - Comparisons use Dafny's equality on `T` and `E`.

## Model

| member | source | states |
|---|---|---|
| BitWord.IdxValue | src/memory/physical.cpp:15 | the shift amount for an in-word frame offset below 64 has that offset's value |
| BitWord.Flags | src/memory/physical.cpp:14-15 | a 64-bit word is viewed as exactly 64 flags |
| BitWord.FlagAt | src/memory/physical.cpp:14-15 | flag k of a word is bit `1ull << k` |
| BitWord.SetFlag | src/memory/physical.cpp:17-18 | `entry \|= 1ull << k` sets flag k and leaves the other 63 flags unchanged |
| BitWord.ClearFlag | src/memory/physical.cpp:19-20 | `entry & ~(1ull << k)` clears flag k and leaves the other 63 flags unchanged |
| BitWord.FlagsUpdate | src/memory/physical.cpp:13-22 | two words whose bits agree except at k have flag sequences that agree except at k |
| BitWord.LowFlag | src/memory/physical.cpp:97 | `(entry & 1u) == 0` holds exactly when flag 0 is clear |
| BitWord.ShiftFlags | src/memory/physical.cpp:113 | `entry >>= 1` drops flag 0, moves every other flag down by one and clears the top flag |
| BitWord.AllOnesFlags | src/memory/physical.cpp:73 | a word of 0xFF bytes has every flag set |
| Physical.AllUsed | src/memory/physical.cpp:73 | the word memset leaves is the all-set flag sequence |
| Physical.Wrap32 | src/memory/physical.cpp:10-11 | a uint32 value: the result is below 2^32, and values already in range are unchanged |
| Physical.Wrap32Then | src/memory/physical.cpp:33-35 | two successive uint32 updates of used_pages equal one wrapped update by the sum |
| Physical.Fill | src/memory/physical.cpp:28-30 | exactly frames [first, first + n) take the new flag; every other frame keeps its old flag |
| Physical.FirstFitFrom | src/memory/physical.cpp:93-117 | the result starts a run of n clear frames and no start before it (from `from` on) does; None means no such run exists |
| Physical.FirstFitIsLowest | src/memory/physical.cpp:93-117 | FirstFit returns f exactly when f starts a clear run of n frames and no lower index does |
| Physical.UsedCount | src/memory/physical.cpp:11 | the count of used frames is at most the number of frames |
| Physical.UsedCountUpdate | src/memory/physical.cpp:13-22 | changing one frame's flag moves the used count by that frame's change |
| Physical.FillUsedCount | src/memory/physical.cpp:28-36 | marking n clear frames used raises the used count by n, and marking n used frames clear lowers it by n |
| Physical.UsedCountAllSet | src/memory/physical.cpp:73-74 | a bitmap with every frame used counts every frame, so used_pages = total_pages matches it |
| Physical.UsedCountNoneSet | src/memory/physical.cpp:76-83 | a run of clear frames counts no used frame |
| Physical.MaxRamEnd | src/memory/physical.cpp:41-49 | the result bounds the end of every RAM range, and it is the end of one of them (or 0 when there is none) |
| Physical.FirstHost | src/memory/physical.cpp:57-66 | the result is the first range at or after `from` that is usable, starts at frame 1 or above, and holds the bitmap; None means no such range |
| Physical.UsableFrameStep | src/memory/physical.cpp:77-83 | a frame is usable within the first i + 1 ranges iff it is usable within the first i or inside range i |
| Physical.Clamped | src/memory/physical.cpp:25-26 | mark_pages touches at most count frames, none at or past total_pages, and stops short of count only at total_pages |
| Physical.ClearedByInit | src/memory/physical.cpp:76-83 | the sum of the clamped lengths of the usable ranges, each range counted in full even where an earlier one covers the same frames |
| Physical.ClearRangeCount | src/memory/physical.cpp:80-81 | when no earlier usable range shares a frame with range i, every frame it clears is still used, so the used count drops by its clamped length |
| Physical.HostClaimCount | src/memory/physical.cpp:85-86 | the bitmap's pages lie in a usable range, so after the usable pass they are clear and marking them raises the used count by their clamped length |
| Physical.UsablePassStep | src/memory/physical.cpp:76-83 | after range i is handled, a frame is clear iff it is below total_pages and lies in a usable range among the first i + 1 |
| Physical.UsablePassCount | src/memory/physical.cpp:80-81 | used_pages after range i is total_pages less every usable range's clamped length so far, mod 2^32; with disjoint usable ranges it stays equal to the number of used frames |
| Physical.RamTotal | src/memory/physical.cpp:41-49 | the first loop of init computes MaxRamEnd, and the result fits in uint32 |
| Physical.FindHostPage | src/memory/physical.cpp:54-66 | the second loop of init returns the first page of the first range FirstHost selects, or 0xFFFFFFFF |
| Physical.MirrorsUpdate | src/memory/physical.cpp:13-22 | updating flag index % 64 of word index / 64 is updating frame `index` in the frame view |
| Physical.ShiftView | src/memory/physical.cpp:94-113 | after j shifts, flag 0 of the scanned copy is flag j of the bitmap word; one more shift moves on to flag j + 1 |
| Physical.FrameAllocator.constructor | src/memory/physical.cpp:7-11 | the zero-initialised statics form a valid, empty allocator |
| Physical.FrameAllocator.MarkPage | src/memory/physical.cpp:13-22 | only frame `index` changes, and only in word index / 64 |
| Physical.FrameAllocator.MarkPages | src/memory/physical.cpp:24-37 | it is a no-op at or past total_pages; otherwise it sets exactly the clamped run and moves used_pages by the clamped count with uint32 wrap-around; padding bits are untouched |
| Physical.FrameAllocator.Init | src/memory/physical.cpp:39-87 | total_pages is MaxRamEnd and entry_count is ceil(total/64); it fails exactly when no range can host the bitmap or the chosen range starts at the 0xFFFFFFFF sentinel page; on success a frame is clear iff it is below total_pages, lies in a usable range and is outside the bitmap's own pages; used_pages is total_pages less every usable range's clamped length plus the bitmap's clamped length, mod 2^32; when no frame lies in two usable ranges, used_pages equals the number of used frames below total_pages |
| Physical.FrameAllocator.Populate | src/memory/physical.cpp:72-86 | after the memset, the usable-range pass and the bitmap-page marking, a frame is clear iff it is usable, below total_pages and outside the bitmap's pages; with disjoint usable ranges and the bitmap's pages inside one of them, used_pages equals the number of used frames |
| Physical.FrameAllocator.ResetBitmap | src/memory/physical.cpp:73-74 | a fresh bitmap with every frame used, and used_pages equal to total_pages |
| Physical.FrameAllocator.ClearIfUsable | src/memory/physical.cpp:78-82 | one turn of the pass: range i is cleared when usable, and the clear frames and used_pages then account for the first i + 1 ranges |
| Physical.FrameAllocator.FreeUsable | src/memory/physical.cpp:76-83 | a frame is clear iff it is below total_pages and in some usable range; used_pages drops by what each range clears; with disjoint usable ranges, used_pages equals the number of used frames |
| Physical.FrameAllocator.AllocPages | src/memory/physical.cpp:89-118 | it takes the lowest run of `count` clear frames (possibly crossing words), sets exactly that run, adds count to used_pages and returns first * 4096; with no run, or count == 0, it returns 0 and changes nothing; the used-count invariant is preserved |
| Physical.FrameAllocator.FindRun | src/memory/physical.cpp:90-117 | the scan's answer is the first-fit run, except that an empty bitmap finds nothing even for count 0 |
| Physical.FrameAllocator.ClaimRun | src/memory/physical.cpp:108-110 | mark_pages on a found run sets exactly that run, below total_pages, and adds count to used_pages |
| Physical.FrameAllocator.ClearRunBelowTotal | src/memory/physical.cpp:73-86 | a clear run lies below total_pages, because the padding bits stay set |
| Physical.FrameAllocator.AllocKeepsCount | src/memory/physical.cpp:108-110 | claiming a clear run keeps used_pages equal to the number of used frames |
| Physical.FrameAllocator.FreePages | src/memory/physical.cpp:120-122 | it is mark_pages(first, count, false): the clamped run becomes clear and used_pages drops by the clamped count; the used count stays exact when the freed frames were all used |
| Physical.FrameAllocator.GetTotalPages | src/memory/physical.cpp:124-126 | returns total_pages |
| Physical.FrameAllocator.GetUsedPages | src/memory/physical.cpp:128-130 | returns used_pages |
| Physical.Scan | src/memory/physical.cpp:90-117 | the nested word and bit loops, with the running first_empty and empty_count, find exactly the lowest clear run of `count` frames |
| Physical.FoundRun | src/memory/physical.cpp:97-111 | when empty_count reaches count, first_empty starts a clear run and no lower start does |
| Physical.NextScanState | src/memory/physical.cpp:97-107 | when the count is not reached, the scan's knowledge holds one frame further |
| Physical.OverlapDrift | src/memory/physical.cpp:76-86 | for a map listing usable frames 1..10 twice, init leaves only frames 0 and 1 used, yet used_pages becomes 2^32 - 8 |
| Physical.TwiceListedUsed | src/memory/physical.cpp:76-86 | under that map only frame 0, outside every range, and the bitmap's frame 1 stay used |
| Physical.FrameZeroHandedOut | src/memory/physical.cpp:108-117 | for a map whose first usable range starts at frame 0, init houses the bitmap at frame 2 and leaves frame 0 free; the first-fit run for count 1 then starts at frame 0, so alloc_pages returns 0, the same value as failure |
| Heap.ChainedSpan | src/memory/heap.cpp:26-43 | a chained run of regions ends at its first address plus the sum of 16 + size |
| Heap.TiledSpan | src/memory/heap.cpp:26-43 | for a tiled list, the sum of 16 + size over all regions is where the last region ends |
| Heap.ChainedOrdered | src/memory/heap.cpp:8-13 | list order is address order: an earlier region ends at or before a later one starts |
| Heap.ChainedDistinct | src/memory/heap.cpp:8-13 | no two regions share a header address |
| Heap.Fits | src/memory/heap.cpp:77 | CHECK_REGION: the region is free and its size is at least the request |
| Heap.Splice | src/memory/heap.cpp:59-66 | replacing a slice by a chained run that covers the same bytes keeps the tiling and its end |
| Heap.Grown | src/memory/heap.cpp:26-43 | grow keeps every region before the tail and afterwards the list ends in a free region; if it adds a region, the tail was used or the list empty |
| Heap.GrownShape | src/memory/heap.cpp:26-43 | the two cases of grow: behind a used tail or in an empty heap it appends, after the whole old list, one free region at page_count * 4096 of size 4096 - 16; behind a free tail it keeps the length and widens that tail by 4096 |
| Heap.GrownValid | src/memory/heap.cpp:26-43 | grow keeps the tiling and no-adjacent-free, extends the end by one page and leaves a free tail |
| Heap.GrownOnFreeTail | src/memory/heap.cpp:39-41 | a grow on a free tail keeps every other region and widens the tail by one page |
| Heap.GrowNFreeTail | src/memory/heap.cpp:39-41 | j grows onto a free tail only widen it, by j * 4096 |
| Heap.GrowNZeroFree | src/memory/heap.cpp:39-41 | with no grow the free tail keeps its size |
| Heap.GrowNFreeStep | src/memory/heap.cpp:39-41 | a free tail widened by j - 1 grows is widened by j after one more |
| Heap.GrowNUsedTail | src/memory/heap.cpp:26-38 | j > 0 grows after a used tail append one free region at the old end, of size j * 4096 - 16 |
| Heap.GrowNValid | src/memory/heap.cpp:19-45 | after j successful grows the heap is still tiled and separated, and it ends at (pages + j) * 4096 |
| Heap.GrowNValidStep | src/memory/heap.cpp:19-45 | one more grow keeps the tiling and separation that k grows kept, and the end moves up by 4096 |
| Heap.PagesForBound | src/memory/heap.cpp:89-92 | j pages hold n bytes exactly when j is at least ceil(n / 4096) |
| Heap.GrowsNeeded | src/memory/heap.cpp:89-95 | the number of grows the do-while needs is 0 exactly when the tail already fits the request |
| Heap.GrowsNeededExact | src/memory/heap.cpp:89-92 | after j grows the tail fits the request exactly when j is at least GrowsNeeded |
| Heap.FirstFailure | src/memory/heap.cpp:89-92 | the first non-Mapped attempt among the ones the loop would make, and every attempt before it maps |
| Heap.FirstFit | src/memory/heap.cpp:79-87 | the lowest list index of a free region with size >= request; None means no region fits |
| Heap.Carved | src/memory/heap.cpp:55-74 | alloc_from_node keeps the regions before the node, leaves the node at its address, used and of size >= request, and adds at most one region |
| Heap.CarvedSplit | src/memory/heap.cpp:55-74 | it splits exactly when size_old - request >= 16 + 8; a split node is used with size == request and is followed by a free node of size_old - request - 16; otherwise the node is marked used with its size kept |
| Heap.FlagTiled | src/memory/heap.cpp:129 | flipping a used flag keeps the tiling, the end, head and tail |
| Heap.CarvedValid | src/memory/heap.cpp:55-74 | alloc_from_node keeps the tiling, the end and no-adjacent-free; the node stays at its address, is used with size >= request, and is the only newly allocated region |
| Heap.AllocatedUpdate | src/memory/heap.cpp:57 | marking a free region used adds exactly that region to the allocated set |
| Heap.AllocatedSplit | src/memory/heap.cpp:59-66 | a split adds exactly the used half to the allocated set |
| Heap.Merged | src/memory/heap.cpp:102-110 | merge_forward removes one region, keeps the ones before, and the merged region keeps its address and flag and grows |
| Heap.MergedTiled | src/memory/heap.cpp:102-110 | merge_forward keeps the tiling and the end |
| Heap.FindPayload | src/memory/heap.cpp:116-123 | the found region's header + 16 is ptr and no earlier region's payload is at ptr, so it is the first match free's walk stops at; None means no region's payload is at ptr |
| Heap.Released | src/memory/heap.cpp:112-137 | free never lengthens the list, and changes it only when ptr is the payload of a used region |
| Heap.SpanAtLeastHeader | src/memory/heap.cpp:8-13 | a nonempty run covers at least one header |
| Heap.Coalesced | src/memory/heap.cpp:112-137 | coalescing keeps the regions before the merged run, and the run becomes one free region at its first address; the list does not grow |
| Heap.ReleasedValid | src/memory/heap.cpp:112-137 | free keeps the tiling and the total size, and leaves no two adjacent free regions |
| Heap.ReleasedNoop | src/memory/heap.cpp:125-127 | free changes nothing when ptr is no region's payload or that region is already free |
| Heap.CoalescedTiled | src/memory/heap.cpp:129-136 | coalescing around the freed region keeps the tiling and the end |
| Heap.CoalescedSeparated | src/memory/heap.cpp:129-136 | coalescing around the freed region leaves no two adjacent free regions |
| Heap.CoalescedShape | src/memory/heap.cpp:129-136 | the freed run [lo, hi) becomes one free region at rs[lo]'s address, and every other region is kept in order |
| Heap.CoalescedAllocated | src/memory/heap.cpp:129-136 | free removes exactly the freed region from the allocated set |
| Heap.CoalescedKeeps | src/memory/heap.cpp:129-136 | every other allocated region stays allocated |
| Heap.CoalescedDrops | src/memory/heap.cpp:129-136 | nothing becomes allocated, and the freed region stops being allocated |
| Heap.CoalescedCovers | src/memory/heap.cpp:129-136 | the merged free region covers the freed region's bytes |
| Heap.MergeBoth | src/memory/heap.cpp:131-133 | with both neighbours free, two merge_forward calls on prev give the coalesced list |
| Heap.MergePrev | src/memory/heap.cpp:131-133 | with only prev free, one merge_forward on prev gives the coalesced list and the second test fails |
| Heap.MergeNext | src/memory/heap.cpp:134-135 | with only next free, merge_forward on the freed region gives the coalesced list |
| Heap.MergeNone | src/memory/heap.cpp:129 | with no free neighbour, clearing the flag is the coalesced list |
| Heap.AllocSpec | src/memory/heap.cpp:76-100 | alloc raises page_count by at most the grows the request needs, and not at all when a region already fits |
| Heap.AllocSpecFit | src/memory/heap.cpp:79-97 | when a region fits, alloc carves the first fit without growing |
| Heap.AllocSpecFail | src/memory/heap.cpp:89-91 | when nothing fits and grow fails after f successes, alloc returns null with those f grows kept |
| Heap.AllocSpecGrown | src/memory/heap.cpp:89-97 | when nothing fits and every needed grow maps, the tail fits and is carved |
| Heap.AllocSpecValid | src/memory/heap.cpp:76-100 | alloc keeps the tiling, no-adjacent-free and tiling-sum == page_count * 4096, and never lowers page_count |
| Heap.AllocSpecNull | src/memory/heap.cpp:89-91 | alloc returns null exactly when no region fits and a grow fails |
| Heap.AllocSpecGrants | src/memory/heap.cpp:55-97 | a non-null result is the payload of a used region of size >= request |
| Heap.CarveRelease | src/memory/heap.cpp:112-137 | freeing the payload of a region alloc_from_node just carved gives back the exact list it was carved from |
| Heap.CarvedFound | src/memory/heap.cpp:116-127 | free's walk over the carved list stops at the carved region, which is used |
| Heap.CarveReleaseWhole | src/memory/heap.cpp:129-136 | a region taken whole, once freed, has only used neighbours and returns to its old self |
| Heap.CarveReleaseSplit | src/memory/heap.cpp:129-136 | a split region, once freed, absorbs its free remainder and regains its old size; the region after the remainder is used |
| Heap.AllocFreeFit | src/memory/heap.cpp:76-137 | when a region fits, alloc followed by free of the returned pointer restores the list and leaves page_count as it was |
| Heap.AllocFreeGrown | src/memory/heap.cpp:89-137 | when alloc had to grow, free of the returned pointer leaves exactly the grown list: only the added pages remain |
| Heap.FirstAddr | src/memory/heap.cpp:15 | head is set exactly when the list is nonempty |
| Heap.LastAddr | src/memory/heap.cpp:16 | tail is set exactly when the list is nonempty |
| Heap.CarvedEnds | src/memory/heap.cpp:68-70 | a split of the tail node moves tail to the new free node; head never changes |
| Heap.MergedEnds | src/memory/heap.cpp:105-107 | merging the tail into its predecessor moves tail back; head never changes |
| Heap.KernelHeap.constructor | src/memory/heap.cpp:15-17 | null head and tail, page_count 0 |
| Heap.KernelHeap.Grow | src/memory/heap.cpp:19-45 | it succeeds exactly on a mapped frame; on success the list becomes Grown and page_count rises by 1; on failure regions, head, tail and page_count are unchanged; the invariant holds throughout |
| Heap.KernelHeap.Init | src/memory/heap.cpp:47-53 | the heap becomes one free page-sized region, or stays empty when the first grow fails |
| Heap.KernelHeap.AllocFromNode | src/memory/heap.cpp:55-74 | the list becomes Carved, page_count is kept, the result is header + 16, and the invariant (with tail) is kept |
| Heap.KernelHeap.Alloc | src/memory/heap.cpp:76-100 | the result, the new list and page_count are exactly AllocSpec of the old state, and the invariant is kept |
| Heap.KernelHeap.GrowUntilFits | src/memory/heap.cpp:89-95 | the do-while grows until the tail fits or a grow fails; the list is GrowN of the attempts that mapped |
| Heap.KernelHeap.GrowOnce | src/memory/heap.cpp:90-92 | one turn of the do-while: success exactly on a mapped grow, and then the list is one grow further and the tail fits exactly when enough grows have been made; on failure nothing changes |
| Heap.KernelHeap.MergeForward | src/memory/heap.cpp:102-110 | the list becomes Merged; tiling, head and tail are kept |
| Heap.KernelHeap.Free | src/memory/heap.cpp:112-137 | the list becomes Released of the old list, page_count is kept and the invariant is kept |
| Path.At | src/vfs/path.cpp:8 | reading a C string yields NUL exactly at and past its end |
| Path.TrimmedLength | src/vfs/path.cpp:20-22 | a nonempty path keeps at least one character and loses at most one |
| Path.AbsPathLength | src/vfs/path.cpp:4-25 | the result is at most the length, and nonzero exactly for a valid absolute path |
| Path.CheckAbsPath | src/vfs/path.cpp:4-25 | the loop returns exactly AbsPathLength |
| Path.RootAccepted | src/vfs/path.cpp:5-24 | "/" alone gives 1 |
| Path.Rejected | src/vfs/path.cpp:5-15 | no leading slash, a double slash, or a space after a slash, before a slash or at the end gives 0 |
| Path.AcceptedLength | src/vfs/path.cpp:20-24 | a valid path gives 1 <= r <= length, and r is one less than the length exactly when the path ends in '/' after something else, and otherwise the length itself |
| Path.PrefixStable | src/vfs/path.cpp:20-24 | the accepted prefix is itself valid and gives its own length |
| Stl.Unexpected.constructor | src/stl/expected.hpp:21-29 | holds the given error |
| Stl.Unexpected.Assign | src/stl/expected.hpp:31-32 | takes the other's error |
| Stl.Unexpected.Swap | src/stl/expected.hpp:47-50 | the two errors are exchanged |
| Stl.UnexpectedEqual | src/stl/expected.hpp:52-54 | equal exactly when the errors are equal; an object equals itself |
| Stl.Expected.FromValue | src/stl/expected.hpp:92-98 | the value state, holding the value |
| Stl.Expected.FromUnexpected | src/stl/expected.hpp:100-106 | the error state, holding the Unexpected's error |
| Stl.Expected.Copy | src/stl/expected.hpp:108-124 | the same flag and contents as the source |
| Stl.Expected.Assign | src/stl/expected.hpp:131-171 | in all four flag combinations (and for self-assignment), this ends with the other's flag and contents |
| Stl.Expected.AssignValue | src/stl/expected.hpp:173-194 | always ends in the value state, holding the assigned value |
| Stl.Expected.AssignUnexpected | src/stl/expected.hpp:196-218 | always ends in the error state, holding the assigned error |
| Stl.Expected.HasValue | src/stl/expected.hpp:223-230 | has_value() and operator bool are true exactly when the value member is active |
| Stl.Expected.Get | src/stl/expected.hpp:234-256 | in the value state, returns the value held |
| Stl.Expected.GetError | src/stl/expected.hpp:258-280 | in the error state, returns the error held |
| Stl.Expected.ValueOr | src/stl/expected.hpp:318-330 | the result is the held value exactly when a value is held, and the default otherwise |
| Stl.Expected.ErrorOr | src/stl/expected.hpp:332-344 | the result is the held error exactly when an error is held, and the default otherwise |
| Stl.Expected.Emplace | src/stl/expected.hpp:346-351 | from either state, ends in the value state holding the new value, and returns it |
| Stl.Expected.Swap | src/stl/expected.hpp:354-375 | in all four flag combinations, the two objects exchange flag and contents |
| Stl.Equal | src/stl/expected.hpp:379-385 | equal exactly when flags and held members are equal |
| Stl.NotEqual | src/stl/expected.hpp:387-389 | true exactly when the states differ |
| Stl.EqualsValue | src/stl/expected.hpp:391-394 | true exactly when the given value is held |
| Stl.EqualsUnexpected | src/stl/expected.hpp:396-400 | true exactly when the Unexpected's error is held |
| Stl.EqualCases | src/stl/expected.hpp:379-385 | false when the flags differ; otherwise it compares the values, or the errors |
| Stl.EqualEquivalence | src/stl/expected.hpp:379-385 | operator== is reflexive, symmetric and transitive |
| Stl.MixedEquals | src/stl/expected.hpp:318-400 | no object equals both a value and an error; value_or and error_or give back what the mixed comparisons match |
| Stl.EqualSameDefaults | src/stl/expected.hpp:318-385 | objects that compare equal give the same has_value, value_or and error_or |
| Stl.SwapTwice | src/stl/expected.hpp:354-375 | swapping twice restores both objects |
| Stl.ExpectedVoid.constructor | src/stl/expected.hpp:415-425 | a default-constructed object is a success |
| Stl.ExpectedVoid.FromUnexpected | src/stl/expected.hpp:428-433 | the error state, holding the Unexpected's error |
| Stl.ExpectedVoid.Copy | src/stl/expected.hpp:435-441 | the same state as the source |
| Stl.ExpectedVoid.Assign | src/stl/expected.hpp:449-479 | in all four flag combinations, this ends in the other's state |
| Stl.ExpectedVoid.AssignUnexpected | src/stl/expected.hpp:481-503 | always ends in the error state, holding the assigned error |
| Stl.ExpectedVoid.HasValue | src/stl/expected.hpp:506-513 | has_value() and operator bool are true exactly when no error is held |
| Stl.ExpectedVoid.GetError | src/stl/expected.hpp:529-551 | in the error state, returns the error held |
| Stl.ExpectedVoid.ErrorOr | src/stl/expected.hpp:553-564 | the result is the held error exactly when an error is held, and the default otherwise |
| Stl.ExpectedVoid.Emplace | src/stl/expected.hpp:566-571 | an error becomes a success, and a success stays one |
| Stl.ExpectedVoid.Swap | src/stl/expected.hpp:574-591 | in all four flag combinations, the two objects exchange states |
| Stl.VoidEqual | src/stl/expected.hpp:593-598 | equal exactly when the states are equal |
| Stl.VoidNotEqual | src/stl/expected.hpp:600-603 | true exactly when the states differ |
| Stl.VoidEqualsUnexpected | src/stl/expected.hpp:605-608 | true exactly when the Unexpected's error is held |
| Stl.VoidSuccessesEqual | src/stl/expected.hpp:593-598 | two successes compare equal; a success never equals an error |
| Stl.VoidAsUnit | src/stl/expected.hpp:593-598 | the void comparison agrees with the general one taken at a single-valued T |

## Left out

- The boot protocol:
  - The memory map reaches `Init` as a sequence of `MemoryRange(kind, firstPage, pageCount)`, in the page units that src/memory/physical.cpp:44-47 reads. `get_memory_range` (src/limine.cpp:102-108) fills its entries from the boot protocol's byte `base` and `length`; that byte/page mismatch is not modelled.
  - `memory_type_ram` is a parameter of `Init` (`isRam`), because its definition is not part of this model.
  - The HHDM offset that turns the bitmap's frame into a pointer is not modelled. The bitmap is a fresh array.
- The bitmap words are stored as flag sequences rather than `uint64` values. `BitWord` proves that the two agree operator by operator (`|=`, `& ~`, `& 1u`, `>>= 1`, memset), but the class does not compute on 64-bit integers.
- `utils::panic` in `init` is the `ok == false` outcome of `Physical.FrameAllocator.Init`. The kernel halts there, so no state after it is described.
- Physical.FrameAllocator.Init: requires every range end below 2^32. The uint32 truncation of `total_pages` (src/memory/physical.cpp:47) is not modelled.
- Physical.FrameAllocator.Init: `used_pages` is proved equal to the number of used frames only when no frame lies in two usable ranges (`UsableDisjoint`). The pass at src/memory/physical.cpp:76-83 subtracts each usable range's full clamped length even where an earlier range has already cleared those frames, so overlapping usable ranges leave `used_pages` too low, below zero mod 2^32 (`Physical.OverlapDrift`).
- Physical.Scan: the `uint32` loop counters and the `first_empty` computation `i * 64 + j` are unbounded here. Frame numbers stay below `total_pages < 2^32`, so they do not wrap.
- The heap's calls into the physical and virtual memory managers are replaced by an outcome per `grow` call: `NoFrame`, `MapFailed` or `Mapped`. `alloc` receives the sequence of outcomes its grow calls will see.
  - After `MapFailed` the frame taken from the physical allocator is never given back. The heap model does not track that frame.
  - The page-table update of `map_pages` is not modelled.
- Raw pointers become offsets from the heap base:
  - a header address is `addr`, and a payload address is `addr + 16`;
  - `next` is list order;
  - the `used : 1` / `size : 63` bit-field is a `bool` and an unbounded `nat`.
- Heap.KernelHeap.Alloc: requires a nonempty heap, since the source dereferences `head` without a null check.
- Heap.KernelHeap.Free: requires a nonempty heap, for the same reason.
- Heap.KernelHeap.AllocFromNode: requires that the region fits. The source only calls it on a fitting region, and its unsigned `size_old - request` would otherwise wrap.
- Heap.KernelHeap.GrowUntilFits: this is the grow do-while of `alloc`, split out as its own method. It requires that the tail does not fit, which is what `alloc` knows when it reaches that loop.
- Alignment of payloads is not modelled. The source does not align requests either.
- Path.CheckAbsPath: the `uint32_t` length counter does not wrap. Paths are modelled as sequences shorter than 2^32 in effect, with no bound stated.
- Object lifetime in src/stl/expected.hpp is not modelled:
  - placement `new`, destructor calls, `destroy()`, and the state of a moved-from object;
  - the copy and move forms of each constructor and assignment are one member each;
  - the `&&` and `const&&` accessor overloads are not modelled separately.
- `operator->` and the no-op `value()` and `operator*` of `Expected<void, E>` are not modelled.
- The free `swap` functions (src/stl/expected.hpp:60-63 and 611-615) only call the member `swap`, so they are covered by `Stl.Expected.Swap` and `Stl.Unexpected.Swap`.
- The `operator==` and `operator!=` of `T` and `E` are taken to be equality. A user-defined comparison that is not an equivalence is not modelled.
- The `noexcept` specifications and the `static_assert` type checks are not modelled.
