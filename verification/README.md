# Verification of Navy's memory management and number formatting

This project models four parts of the Navy kernel in Dafny and proves what they keep and compute.
`dafny verify dfyconfig.toml` checks all of it.

**The heap** (liballoc). `HeapModel` describes the heap as a value: a sequence of majors (blocks of
pages), each an address-ordered sequence of minors (allocations), with counters, data bytes and the
headers of freed minors that still lie in memory; `Malloc`, `FreePtr` and `Realloc` say what one call
does to it. `HeapLemmas`, `HeapLaws` and `HeapRealloc` prove the laws of these functions, `HeapRuns`
proves safety over whole runs, `HeapTraces` what freed headers and data bytes can still be read;
`HeapPolicy` says where malloc puts a minor and what the best bet is, by gaps and free space alone.
`HeapProgram.Heap` is the pointer program: maps from address to header
whose `prev`, `next`, `first` and `block` fields are relinked in place, case by case; every method is
proved to compute the function of the model (`HeapImage` holds the lemmas about links). The page source
is a parameter: each call that may ask for pages is given the answer, NULL or a block that overlaps no
other. In the repository it is a stub that always returns NULL.

**Physical pages** (pmm, fed by range and bootinfo). `PageBitmap.Pmm` is the bitmap of bytes changed by
and-ing and or-ing masks; its methods are stated about the set of clear pages. `PageRuns` proves
exclusivity and conservation over runs; `Ranges` and `BootMap` model the page rounding and the boot map.

**Page tables** (vmm). `PageTables` has the tree of tables, the hardware walk (four levels, bit fields of
9 bits, the present bit; section 4.5 of the Intel SDM, Volume 3A) and what one new table or one leaf
entry does to it; `AddressSpace.Vmm` is the program on an array of words.

**Numbers and formats** (stdlib, math, string, stdio). `CString`, `Numbers` and `Format` have the loops
on character buffers, proved against functions; `NumberLaws` and `FormatLaws` prove what these functions
mean. `Bits` defines the bitwise operators on natural numbers; `Words` holds word sizes shared by all.

A failed `assert` of the program stops the kernel; it appears here as a result `None` or `false`.

Where the code does not do what its comments or names say, the model follows the code:

- itoa garbles negative numbers (`NumberLaws.ItoaIsDecimalIff`), yet one negative number survives the
  round trip (`NumberLaws.RoundTripExactly`).
- `%%` prints nothing: a format cannot make a percent sign (`FormatLaws.PercentIsNeverPrinted`,
  `FormatLaws.PercentsCountOnce`), and a width below the number's length adds as many zeros as the width
  says (`FormatLaws.FieldFillsWidthIff`, `FormatLaws.WidthTooSmall`).
- A width at a string, a character or an unknown conversion pads the next number that has none; items
  print independently exactly in formats where that cannot happen (`FormatLaws.IndependentIff`,
  `FormatLaws.WidthIsCarried`).
- alloc_pmm for more than one page starts at the last page of the run it found, and takes pages in use
  unless the run goes on (`PageBitmap.ExclusiveIff`, `PageBitmap.TwoPagesOverrun`).
- align_range adds a page to ranges that are aligned already (`Ranges.AlignedAddsPage`), so the page
  behind a usable range is free after boot (`PageBitmap.ExtraPagesAtBoot`).
- init_pmm frees the pages that hold its own bitmap (`PageBitmap.BitmapPageIsFree`), and one page too many
  when the bitmap fills its range (`PageBitmap.InitIsExactIff`, `PageBitmap.InitFreesOneTooMany`).
- init_pmm takes a bitmap at address 0 for none (`PageBitmap.InitFailsIff`, `PageBitmap.InitFailsAtZero`).
- get_next_level cannot reach tables in frames from 2 GiB on, and writes to lower frames instead
  (`PageTables.WindowLeadsIff`, `PageTables.WindowWraps`).
- The best bet after a free is wrong when one of the two majors compared has 2^31 bytes free or more
  (`HeapPolicy.BetAfterFreeIff`, `HeapPolicy.BigMajorMissesBet`).
- The three tests for an overrun amount to the last one (`HeapPolicy.OverrunIffLowByte`).
- is_user of map_vmm decides whether a page can be written; every page is user accessible
  (`AddressSpace.LeafEntryBits`).
- realloc frees the old block even when it gets no new one (`HeapRealloc.ReallocFailsIff`,
  `HeapRuns.ReallocLosesBlock`); section 7.22.3.5 of ISO/IEC 9899:2011 wants it unchanged.
- The kernel window, 0x100000 above the direct map, is overwritten by the direct map except at its end
  (`AddressSpace.KernelWindowIff`); leaf entries of the kernel are not writable
  (`AddressSpace.LeafEntryIs`).
- "Next one guaranteed to be okay" in liballoc holds exactly while the 32-bit size does not wrap; beyond
  that case 2 puts a minor past the end of its major (`HeapLemmas.NewMajorFitsIff`,
  `HeapLemmas.FallThroughFitsIff`).

## Model

| member | source | states |
|---|---|---|
| HeapLaws.SearchIsFirstFit | third-party/liballoc/liballoc.c:343-595 | The search from any major returns the first major from there on with a large enough gap; a search that started at the best bet and found none goes round once and then returns the first of all; the number of majors only if none fits. |
| HeapLaws.FindIsComplete | third-party/liballoc/liballoc.c:328-595 | Search completeness: wherever the search starts, it gives up if and only if no major has a gap for the request, and what it returns always has one. |
| HeapLaws.SearchKeepsBest | third-party/liballoc/liballoc.c:345-353 | The best bet after a search is the old one or a major that was looked at, with its true free space and then strictly more, and no smaller than any major looked at. |
| HeapLaws.FindKeepsBetListed | third-party/liballoc/liballoc.c:331-353 | After a search the best bet is null or still a listed major. |
| HeapLemmas.GapsAddUp | third-party/liballoc/liballoc.c:345-359 | The gaps of a major, before, between and behind its minors, add up to size minus usage. |
| HeapLemmas.TooFullMeansNoGap | third-party/liballoc/liballoc.c:358-359 | Case 1 is justified: a major with less free space than needed has no gap that is large enough. |
| HeapLemmas.FitsMeansGap | third-party/liballoc/liballoc.c:430-562 | A major is used if and only if one of its gaps can hold header and payload. |
| HeapModel.FirstGap | third-party/liballoc/liballoc.c:430-562 | The gap chosen inside a major is the lowest that is large enough. |
| HeapLemmas.NewMajorFitsIff | third-party/liballoc/liballoc.c:198-218 | A new major holds the request that asked for it if and only if the 32-bit computation of its size did not wrap. |
| HeapLemmas.FallThroughFitsIff | third-party/liballoc/liballoc.c:380-424 | Case 2, which does not look at the size, puts a minor into a major that case 1 has just made; it stays inside that major if and only if the request is within the bound. |
| HeapLemmas.FallThroughBreaks | third-party/liballoc/liballoc.c:380-424 | Beyond the bound the major is then no longer well-formed. |
| HeapLaws.MallocIsComplete | third-party/liballoc/liballoc.c:326-610 | malloc returns NULL if and only if no gap fits and the page source refuses; it takes a new major if and only if no gap fits and the page source answers; otherwise the answer of the page source does not matter. |
| HeapLaws.MallocRefused | third-party/liballoc/liballoc.c:222-230 | A refused malloc changes the warning count and the best bet and nothing else. |
| HeapPolicy.MallocIntoGap | third-party/liballoc/liballoc.c:326-562 | Without reference to the search: if some major has a gap for the request, the new minor goes to the first such major, counted from the best bet (wrapping once) if that has more than enough bytes free and from the root otherwise, and there to the lowest gap that is large enough; nothing else moves, and the new best bet is the old one or, with strictly more room, the roomiest major passed. |
| HeapPolicy.MallocIntoNew | third-party/liballoc/liballoc.c:198-251 | If none has one and the page source answers, the minor is the only one of a new major at the end, of the least number of pages, at least 16, that hold it; the best bet is the roomiest old major or the new one, which is looked at only if the last old one had enough bytes in all. |
| HeapPolicy.MallocFails | third-party/liballoc/liballoc.c:343-610 | If the page source refuses, one warning is counted and the best bet becomes a major with the most room. |
| HeapPolicy.PayloadIsAligned | third-party/liballoc/liballoc.c:7-39 | A payload is aligned to 16 bytes and begins 56 to 71 bytes after its minor, with the tag 16 bytes before it. |
| HeapLaws.MallocKeepsInv | third-party/liballoc/liballoc.c:257-611 | malloc keeps the whole invariant: ordered minors in disjoint majors, no empty major, listed best bet, both totals, every tag. |
| HeapLaws.MallocHandsOutPrivate | third-party/liballoc/liballoc.c:395-557 | What a successful malloc returns is 16-aligned, belongs to a new minor of the requested size, and shares no byte with any header, tag or other minor. |
| HeapLaws.MallocKeepsPayloads | third-party/liballoc/liballoc.c:395-557 | malloc keeps every live minor and changes no byte behind its header. |
| HeapLaws.PayloadsArePrivate | third-party/liballoc/liballoc.c:26-39 | In every well-formed heap each payload lies behind its own header and tag and touches no header, tag or payload of another minor. |
| HeapModel.Payload | third-party/liballoc/liballoc.c:26-39 | ALIGN rounds up to the next multiple of 16 that leaves room for the tag. |
| HeapLaws.MinorsApart | third-party/liballoc/liballoc.c:395-557 | Two live minors never overlap, whichever majors they are in. |
| HeapLaws.TagLeadsHome | third-party/liballoc/liballoc.c:42-50 | UNALIGN undoes ALIGN: the tag before a live payload leads back to exactly its header. |
| HeapLaws.FreeFindsMinor | third-party/liballoc/liballoc.c:638-694 | Freeing a live payload removes that minor and no other. |
| HeapPolicy.FreeTakesOut | third-party/liballoc/liballoc.c:692-725 | free takes exactly that minor out of its major, or the major out of the list if it was the only one, and counts nothing. |
| HeapPolicy.BetAfterRelease | third-party/liballoc/liballoc.c:712-724 | When a major goes, the best bet becomes null exactly if it was that major. |
| HeapPolicy.BetAfterFreeIff | third-party/liballoc/liballoc.c:726-737 | When it stays, the best bet stays or becomes that major, null stays null, and the roomier of the two is kept (the old one on a tie) if and only if both have less than 2^31 bytes free or neither. |
| HeapPolicy.BigMajorMissesBet | third-party/liballoc/liballoc.c:728-735 | A heap in which freeing 0x90000000 bytes does not make their major the best bet. |
| HeapPolicy.FreeOfNull | third-party/liballoc/liballoc.c:627-636 | free of NULL counts one warning and does nothing else. |
| HeapPolicy.FreeOfFreed | third-party/liballoc/liballoc.c:646-684 | free of a freed pointer counts one error, and an overrun exactly if the low byte of the magic is intact. |
| HeapPolicy.OverrunIffLowByte | third-party/liballoc/liballoc.c:650-655 | Of the three tests for an overrun the last one decides. |
| HeapLaws.FreeKeepsInv | third-party/liballoc/liballoc.c:692-737 | free keeps the whole invariant, including the release of a major that becomes empty. |
| HeapLaws.FreeKeepsBytes | third-party/liballoc/liballoc.c:692-737 | free changes no tag or payload byte of any other minor. |
| HeapLaws.FreeUndoesMalloc | third-party/liballoc/liballoc.c:395-737 | Freeing what malloc just returned restores the major list, every minor list, so also every usage, and both totals, whichever case placed it and even if it made a new major. |
| HeapRealloc.DoubleFreeIsCaught | third-party/liballoc/liballoc.c:646-684 | A second free in a row of the same pointer, while its major is still there, counts one error and changes nothing else. |
| HeapRealloc.FreePtrKeepsInv | third-party/liballoc/liballoc.c:621-746 | free of any pointer that leads to a header, live or freed, keeps the invariant. |
| HeapRealloc.CopyBytesMoves | third-party/liballoc/liballoc.c:131-155 | A copy between ranges that do not overlap puts every source byte at its place and touches nothing else. |
| HeapRealloc.WordIsFourBytes | third-party/liballoc/liballoc.c:139-143 | Copying a word at once equals copying its four bytes in order, unless the destination begins less than a word above the source. |
| HeapRealloc.ReallocKeepsInv | third-party/liballoc/liballoc.c:769-855 | realloc keeps the whole invariant on all its paths, also when the inner malloc is refused, if no major lies where the copy to address 0 goes. |
| HeapRealloc.ReallocFailsIff | third-party/liballoc/liballoc.c:838-854 | realloc of a live minor returns NULL if and only if the minor has to move and there is neither a gap nor a page for it; the old minor is then freed all the same. |
| HeapPolicy.ReallocOfNull | third-party/liballoc/liballoc.c:783-785 | realloc of NULL is malloc: NULL if and only if there is neither a gap nor a page, and otherwise an aligned, private payload of a new minor of that size. |
| HeapPolicy.ReallocOfFreed | third-party/liballoc/liballoc.c:795-834 | realloc of a freed pointer returns NULL, counts one error and changes nothing else. |
| HeapPolicy.ReallocToNothing | third-party/liballoc/liballoc.c:776-781 | realloc to 0 bytes returns NULL and frees exactly that minor. |
| HeapPolicy.ReallocSwaps | third-party/liballoc/liballoc.c:847-854 | A realloc that moves leaves exactly the old live minors without its own, and one new one, whose payload it returns. |
| HeapPolicy.ReallocCopiesNoMore | third-party/liballoc/liballoc.c:850-851 | It copies the old contents and not a byte more. |
| HeapRuns.ReallocLosesBlock | third-party/liballoc/liballoc.c:838-854 | After a first malloc of 100 bytes, a realloc to 0x10000 bytes that gets no page returns NULL, and the block is gone. |
| HeapRealloc.CopyLow | third-party/liballoc/liballoc.c:849-852 | The copy to address 0 of a realloc that got no memory changes no live minor when no major begins below the length copied. |
| HeapRealloc.ReallocKeepsContents | third-party/liballoc/liballoc.c:838-854 | If there is memory, realloc returns a minor of the new size that begins with the old contents up to the smaller of both sizes, at the old address if it did not grow. |
| HeapRealloc.ReallocSpares | third-party/liballoc/liballoc.c:838-854 | realloc leaves every other live minor in place and unchanged in every byte. |
| HeapRealloc.StoreKeepsInv | third-party/liballoc/liballoc.c:395-557 | A write inside a payload never damages the heap. |
| HeapRuns.RunKeepsInv | third-party/liballoc/liballoc.c:257-855 | Over every run of malloc, free, realloc and user writes, with any answers of the page source, every reached state satisfies the invariant. |
| HeapRuns.RunKeepsPayload | third-party/liballoc/liballoc.c:257-855 | Over every run, a minor that no operation is aimed at stays live at its address and keeps every payload byte. |
| HeapRuns.RunKeepsPayloadsPrivate | third-party/liballoc/liballoc.c:257-855 | In every state reached from the empty heap all live payloads are aligned and disjoint from each other and from all headers and tags. |
| HeapTraces.RunKeepsTraces | third-party/liballoc/liballoc.c:257-855 | In every state reached from the empty heap, a freed header that can still be read overlaps no live header and no tag, and no data byte is known where a live header lies. |
| HeapImage.LinksAreInverse | third-party/liballoc/liballoc.c:395-737 | Every header with the magic number has links that are mutual inverses, go up in address without overlap and stay in its block; it is first exactly if it has no predecessor; the size of its block is that of its pages. |
| HeapImage.HeapIsDetermined | third-party/liballoc/liballoc.c:65-99 | The headers in memory and the root pointer stand for exactly one heap value. |
| HeapProgram.Heap.constructor | third-party/liballoc/liballoc.c:97-112 | The initial heap is empty and well-formed. |
| HeapProgram.Heap.Lock | third-party/liballoc/compat.c:7-14 | Taking the lock counts one level up. |
| HeapProgram.Heap.Unlock | third-party/liballoc/compat.c:16-28 | Releasing it counts one level down; it is never released more often than taken. |
| HeapProgram.Heap.Align | third-party/liballoc/liballoc.c:26-39 | The pointer program computes the payload address and stores the tag byte, overwriting any freed header that lies there. |
| HeapProgram.Heap.FindHeader | third-party/liballoc/liballoc.c:42-50 | The pointer program follows the tag back to the header address. |
| HeapProgram.Heap.AllocateNewPage | third-party/liballoc/liballoc.c:198-251 | A new major with the 32-bit sizes of the model, or one warning and no change. |
| HeapProgram.Heap.TakeFirst | third-party/liballoc/liballoc.c:394-424 | Case 2 computes the model's placement in gap 0 of an empty major. |
| HeapProgram.Heap.TakeFront | third-party/liballoc/liballoc.c:430-462 | Case 3 computes the model's placement in gap 0, with all links set. |
| HeapProgram.Heap.TakeBack | third-party/liballoc/liballoc.c:475-513 | Case 4.1 computes the model's placement in the last gap. |
| HeapProgram.Heap.TakeBetween | third-party/liballoc/liballoc.c:517-559 | Case 4.2 computes the model's placement between two minors. |
| HeapProgram.Heap.TakeGap | third-party/liballoc/liballoc.c:430-562 | The scan over the minors takes the lowest gap that is large enough, or changes nothing. |
| HeapProgram.Heap.ChooseStart | third-party/liballoc/liballoc.c:326-341 | The start of the search leads to the same result as the model's search. |
| HeapProgram.Heap.Bounce | third-party/liballoc/liballoc.c:343-610 | The whole loop over the majors, with its restart and its new major, terminates and computes the model's malloc. |
| HeapProgram.Heap.Malloc | third-party/liballoc/liballoc.c:257-611 | The pointer program computes the model's malloc, keeps the heap well-formed, and leaves the lock depth as it was. |
| HeapProgram.Heap.UnlinkMinor | third-party/liballoc/liballoc.c:692-705 | Unlinking sets neighbours, first pointer, usage and magic as the model says. |
| HeapProgram.Heap.ReleaseMajor | third-party/liballoc/liballoc.c:712-725 | An empty major is taken out of the list, the root and the best bet, and given back. |
| HeapProgram.Heap.CompareBet | third-party/liballoc/liballoc.c:728-735 | The best bet after a free, compared as 32-bit signed free sizes. |
| HeapProgram.Heap.NoteBadMagic | third-party/liballoc/liballoc.c:646-684 | A bad magic counts one error, and one possible overrun exactly if its low bytes are intact. |
| HeapProgram.Heap.Free | third-party/liballoc/liballoc.c:621-746 | The pointer program computes the model's free, keeps the heap well-formed, and leaves the lock depth as it was. |
| HeapProgram.Heap.MemCopy | third-party/liballoc/liballoc.c:131-155 | The copy by words and then bytes equals a plain byte copy. |
| HeapProgram.Heap.Realloc | third-party/liballoc/liballoc.c:769-855 | The pointer program computes the model's realloc, keeps the heap well-formed, and leaves the lock depth as it was. |
| Ranges.AlignRange | libk/range.c:31-40 | align_range computes the rounded range of the model, with 64-bit wrap-around. |
| Ranges.AlignedIsAligned | libk/range.c:31-40 | The result is page aligned in base and length and starts less than a page before the range. |
| Ranges.AlignedContainsIff | libk/range.c:31-40 | It contains the range if and only if the length does not come within a page of 2^64; then it ends 1 to 4096 bytes behind it. |
| Ranges.AlignedAddsPage | libk/range.c:39-39 | A range that is aligned already grows by a whole page. |
| Ranges.AlignedPagesIff | libk/range.c:31-40 | The pages of the rounded range are those the range touches, and the page where it ends if that end is page aligned or the range is empty. |
| Ranges.CountCovers | libk/range.c:42-51 | range_count_page counts enough pages to cover the range. |
| Ranges.CountPagesExactly | libk/range.c:42-51 | It counts the pages of an aligned range, and of another one those from the page where it begins to the page where it ends. |
| BootMap.BootInfo.ParseMmap | libk/bootinfo.c:27-57 | Every raw entry is appended once, rounded and in order; the usable bytes are summed modulo 2^64 and the page count follows from them. |
| BootMap.StoredTypes | libk/bootinfo.c:47-53 | The stored type of an entry is the raw one if and only if that fits in 16 bits, and the same modulo 2^16 in any case. |
| BootMap.UsableBytesAdd | libk/bootinfo.c:39-42 | The usable bytes of a map are the sum of the lengths of its usable entries. |
| PageBitmap.Pmm.UnsetPage | kernel/mem/pmm.c:30-37 | Clearing a bit frees exactly that page. |
| PageBitmap.Pmm.SetPage | kernel/mem/pmm.c:39-47 | Setting a bit takes exactly that page and moves the search there. |
| PageBitmap.Pmm.IsSet | kernel/mem/pmm.c:49-55 | The masked byte is zero if and only if the page is free. |
| PageBitmap.Unset | kernel/mem/pmm.c:33-36 | Masking a bit out of its byte changes the set of free pages by exactly that page. |
| PageBitmap.Set | kernel/mem/pmm.c:42-46 | Or-ing a bit into its byte changes the set of free pages by exactly that page. |
| PageBitmap.Pmm.FindFreePages | kernel/mem/pmm.c:134-166 | The search returns the last page of the first run of free pages from where it stood, else of the first run of all, wraps at most once, and stops the kernel only if there is no run. |
| PageBitmap.Pmm.AllocPages | kernel/mem/pmm.c:168-185 | alloc_pmm takes exactly `count` pages from the page the search returned. |
| PageBitmap.Pmm.FreePages | kernel/mem/pmm.c:77-87 | free_pmm frees exactly the whole pages of the range. |
| PageBitmap.Pmm.ChooseRange | kernel/mem/pmm.c:99-106 | The bitmap goes to the last usable range that is long enough. |
| PageBitmap.Pmm.Init | kernel/mem/pmm.c:89-131 | init_pmm frees exactly the pages of the usable ranges and usable_pages / 4096 + 1 pages from the base of the bitmap on; it fails exactly if the range it settled on has base 0 or there is none. |
| PageBitmap.InitFailsIff | kernel/mem/pmm.c:97-108 | It fails if and only if no usable entry is long enough, or the last one that is begins at address 0. |
| PageBitmap.InitFailsAtZero | kernel/mem/pmm.c:97-108 | A map of two usable entries, both long enough, on which it fails because the second begins at 0. |
| PageBitmap.ChosenIsUsable | kernel/mem/pmm.c:99-108 | A range that was chosen is a usable entry of the map with the required length. |
| PageBitmap.ChosenIsLast | kernel/mem/pmm.c:99-106 | The bitmap goes to the last entry that can hold it, whichever others could. |
| PageBitmap.UsableOfHas | kernel/mem/pmm.c:111-123 | A page is freed exactly if some usable entry has it. |
| PageBitmap.InitIsExactIff | kernel/mem/pmm.c:125-128 | Exactly the usable pages are free after init_pmm if and only if the chosen range is longer than the bitmap or the page behind the bitmap is usable anyway. |
| PageBitmap.InitFreesOneTooMany | kernel/mem/pmm.c:125-128 | A map of 4096 usable pages on which page 0x2001, in no usable entry, is freed. |
| PageBitmap.ExtraPagesAtBoot | kernel/mem/pmm.c:99-128 | After boot every page that a usable raw entry touches is free; the other free pages are exactly those where a usable entry ends whose end is page aligned (or that is empty). |
| PageBitmap.BootFreesUsable | kernel/mem/pmm.c:99-128 | After the boot map is parsed and init_pmm has run on a range that is long enough, a page is free if and only if the rounded range of some usable raw entry has it. |
| PageBitmap.BitmapPageIsFree | kernel/mem/pmm.c:125-128 | The page where the bitmap begins ends up free. |
| PageBitmap.AnswerIsFirstRun | kernel/mem/pmm.c:134-166 | The search answers the last page of the first run of `count` free pages from where it stood, or else of the first run of all, computed from the free pages before the call; and nothing if there is none. |
| PageBitmap.ExclusiveIff | kernel/mem/pmm.c:146-180 | If that run starts at page b, an allocation takes pages b + count - 1 to b + 2 * count - 2, and all of them were free if and only if the 2 * count - 1 pages from b on are. |
| PageBitmap.OnePageIsExclusive | kernel/mem/pmm.c:168-185 | An allocation of one page always takes a page that was free and within bounds. |
| PageBitmap.TwoPagesOverrun | kernel/mem/pmm.c:146-180 | With pages 0 and 1 free the run starts at 0 and an allocation of two takes pages 1 and 2. |
| PageRuns.RunConserves | kernel/mem/pmm.c:77-185 | Over any run of one-page allocations and of frees of held pages, free and held pages stay disjoint and their union stays the same. |
| PageRuns.HeldIsNotHandedOut | kernel/mem/pmm.c:134-185 | A page that is held is not handed out before it is given back. |
| PageRuns.NoDoubleHandOut | kernel/mem/pmm.c:134-185 | Between two hand-outs of the same page it was given back. |
| PageRuns.TakeAndGiveBack | kernel/mem/pmm.c:77-185 | An allocation takes exactly one free page, and giving it back restores the free and the held pages. |
| PageRuns.StopsOnlyWhenFull | kernel/mem/pmm.c:158-165 | alloc_pmm(1) stops the kernel if and only if no page below the limit is free. |
| PageTables.IndicesArePageNumber | kernel/mem/vmm.c:63-66 | The four masked and shifted indices are the base-512 digits of bits 47..12 of the address. |
| PageTables.TableEntryLeads | kernel/mem/vmm.c:45-54 | An entry made for a new table is present and leads back to its frame. |
| PageTables.TableEntryBits | kernel/mem/vmm.c:54-54 | The low twelve bits of a table entry are present, writable and user and nothing else; above them is the number of the frame. |
| PageTables.LeafDecidesRights | kernel/mem/vmm.c:54-78 | The rights the hardware grants, those that all four entries have in common, are those of the leaf entry. |
| PageTables.WalkByDirectory | kernel/mem/vmm.c:74-78 | In a tree of tables the four-level walk of any address ends in the one leaf table of its page. |
| PageTables.AddKeepsTree | kernel/mem/vmm.c:51-54 | Hanging a zeroed free frame below a table keeps the tree: one parent each, no frame shared, every frame marked used. |
| PageTables.AddKeepsWalks | kernel/mem/vmm.c:51-54 | It changes the walk of no address. |
| PageTables.LeafKeepsTree | kernel/mem/vmm.c:78-78 | Writing a leaf entry keeps the tree. |
| PageTables.LeafSetsWalk | kernel/mem/vmm.c:78-78 | Writing a present leaf entry changes the walk of the addresses of its page to that entry and of no other. |
| PageTables.FreshRoot | kernel/mem/vmm.c:87-94 | A zeroed root is a tree in which nothing is mapped. |
| AddressSpace.Vmm.NewRoot | kernel/mem/vmm.c:308-309 | A new root is a tree that maps nothing; it fails exactly if no page is free. |
| AddressSpace.Vmm.GetNextLevel | kernel/mem/vmm.c:40-58 | get_next_level returns the address, through the window, of the child table, existing or new; it keeps the tree, changes no walk and no rights, and takes exactly the frame of the new table. |
| AddressSpace.Vmm.MapPage | kernel/mem/vmm.c:60-79 | map_vmm is a map update: afterwards the walk of every address of the page yields the physical address with its flags, every other walk is as before, and all walks follow the record of all updates; the page is user accessible, and writable if and only if is_user is set (or bit 1 of the physical address); the rights of all other addresses stay. |
| AddressSpace.LeafEntryIsPresent | kernel/mem/vmm.c:72-78 | Leaf entries are always present, with flags 5 or 7. |
| AddressSpace.LeafEntryIs | kernel/mem/vmm.c:72-78 | A kernel leaf entry of a page address is that address plus 5: present and user, not writable. |
| AddressSpace.LeafEntryBits | kernel/mem/vmm.c:72-78 | A leaf entry has the bits of the physical address and those for present and user; is_user sets the one for write. |
| AddressSpace.TableFramesAreApart | kernel/mem/vmm.c:51-54 | In an address space there are as many table frames as tables, and none of them is free. |
| AddressSpace.TranslatesByLastUpdate | kernel/mem/vmm.c:60-79 | Whatever map_vmm calls were made since the root was, an address translates to the entry that the last of them gave to its page, and to nothing if and only if there was none. |
| AddressSpace.LastUpdateWins | kernel/mem/vmm.c:78-78 | Folding a sequence of updates gives a page the entry of its last one. |
| AddressSpace.GrownTwice | kernel/mem/vmm.c:51-54 | Calls compose: over any sequence of them no table moves, and the frames no longer free are exactly those of the new tables. |
| PageTables.WindowLeadsIff | kernel/mem/vmm.c:45-54 | The address frame * 4096 + MEM_PHYS_OFFSET, in 64 bits, leads to its frame if and only if that lies below 2 GiB; otherwise it leads 2 GiB lower. |
| PageTables.WindowWraps | kernel/mem/vmm.c:45-54 | For frame 0x80000 that address is 0, and every entry of the table is one of frame 0. |
| AddressSpace.Vmm.MapLowMemory | kernel/mem/vmm.c:311-317 | After n rounds of the loop every walk yields the identity map, the direct map, and the part of the kernel window behind it, for any n whose windows do not wrap. |
| AddressSpace.LowMemoryIsMapped | kernel/mem/vmm.c:311-317 | Every page address below n pages is mapped to itself, at its own address and in the direct map. |
| AddressSpace.OnlyWindowsAreMapped | kernel/mem/vmm.c:311-317 | Exactly the pages of the three windows are mapped, and none of them is writable. |
| AddressSpace.KernelWindowIff | kernel/mem/vmm.c:311-317 | The kernel window shows the page it was meant for if and only if that lies in its last 0x100000 bytes; elsewhere it shows the page 0x100000 higher. |
| CString.Strlen | libc/string.c:24-31 | strlen is the length of the string that the buffer holds. |
| CString.HoldsIsUnique | libc/string.c:24-31 | A buffer holds at most one string. |
| CString.Strrev | libc/string.c:33-48 | strrev reverses the string in place and leaves the rest of the buffer. |
| CString.ReversedAt | libc/string.c:33-48 | Character k of the reversed string is the k-th from the end. |
| CString.Memset | libc/string.c:72-85 | memset fills exactly the first n characters. |
| CString.Strncat | libc/string.c:87-101 | strncat appends at most n characters and a NUL and leaves the rest of the buffer. |
| CString.Strcat | libc/string.c:103-107 | strcat appends the whole string. |
| Numbers.Pow | libc/math.c:23-35 | The loop computes the power as long as every intermediate power fits in 64 bits. |
| Numbers.PowersMultiply | libc/math.c:23-35 | What it computes is the power: exponents add up. |
| Numbers.Atoi | libc/stdlib.c:90-117 | The position-weighted sum with its 32-bit products equals the value of the text modulo 2^32, read as a signed 32-bit integer, whatever bytes the text is made of. |
| Numbers.TermStep | libc/stdlib.c:103-109 | One 32-bit product continues the weighted sum modulo 2^32. |
| NumberLaws.AtoiReadsDecimalIff | libc/stdlib.c:90-117 | The decimal text of a number, sign included, is read back if and only if it fits in an int. |
| NumberLaws.AtoiOfDigits | libc/stdlib.c:97-116 | Any string of digits, leading zeros included, is read as its positional value modulo 2^32. |
| NumberLaws.AtoiOfOthers | libc/stdlib.c:103-109 | Other bytes count by their distance from '0', those above 127 as negative. |
| Numbers.Itoa | libc/stdlib.c:29-88 | The loop and the final reversal leave the model's text and a NUL, and the rest of the buffer as it was. |
| Numbers.DigitsAreCanonical | libc/stdlib.c:68-87 | In every base from 2 to 36 the text of a non-negative number has digits below the base, no leading zero, and the number as its positional value. |
| Numbers.DigitsAreUnique | libc/stdlib.c:68-87 | No other digit string without leading zeros has that value. |
| NumberLaws.RoundTripIff | libc/stdlib.c:29-117 | atoi gives back a non-negative number that itoa wrote in base ten if and only if it is below 2^31. |
| NumberLaws.ItoaFitsAtoi | libc/stdlib.c:68-117 | Every non-negative 64-bit number is written in at most 19 characters. |
| NumberLaws.ItoaIsDecimalIff | libc/stdlib.c:62-87 | itoa writes the decimal text of a number if and only if the number is not negative. |
| NumberLaws.ItoaOfMinusFive | libc/stdlib.c:62-87 | For instance it writes -5 as "+-". |
| NumberLaws.ItoaOfNegative | libc/stdlib.c:62-87 | Each digit of a negative number comes out as far below '0' as it should be above, and the sign comes last. |
| NumberLaws.DigitsAsWritten | libc/stdlib.c:70-79 | Some numbers as they are written in bases 10, 16, 2 and 36. |
| NumberLaws.RoundTripExactly | libc/stdlib.c:29-117 | For every 32-bit integer atoi gives back what itoa wrote if and only if the number is not negative or is -1431655765. |
| Format.PutNumber | libc/stdio.c:76-103 | A numeric conversion appends its zeros and its number. |
| Format.ReadWidth | libc/stdio.c:54-68 | The digits behind a 0 are consumed and read by atoi. |
| Format.Vsnprintf | libc/stdio.c:26-131 | The scanner, with its pending percent sign, its width, and its mix of direct stores and strcat, writes exactly what the fold over the format says, and leaves the buffer zeroed behind it. |
| Format.TextFits | libc/stdio.c:29-29 | Every number that can be printed fits the 64-character buffer. |
| FormatLaws.PrintsItems | libc/stdio.c:36-128 | Printing a format made of literals, strings, characters, numbers and unknown conversions, each with or without a width, is the concatenation of its items, each with its own argument; a width is carried on until a number uses it. |
| FormatLaws.IndependentIff | libc/stdio.c:36-128 | A format prints, for all arguments, what its items print alone if and only if it reaches no number without a width while a width other than 0, of a string, character or unknown conversion, is left over. |
| FormatLaws.PrintsAloneIff | libc/stdio.c:54-128 | For given arguments it does so if and only if they do not fit or no zeros are added for a width left over. |
| FormatLaws.CarriedZeros | libc/stdio.c:79-115 | Widths left over make the output longer by exactly the zeros they add to numbers without a width. |
| FormatLaws.ItemsAreIndependent | libc/stdio.c:36-128 | A format in which only numbers have widths is of that kind: every item prints as it would alone. |
| FormatLaws.WidthIsCarried | libc/stdio.c:54-87 | For instance "%0ws%d" prints the number in a field of width w, for every width w, text and number; it is of that kind only for w = 0. |
| FormatLaws.WidthIsRead | libc/stdio.c:54-68 | A width written in decimal behind %0 is read back. |
| FormatLaws.FieldIsPadded | libc/stdio.c:79-87 | A field is the number's text with zeros in front, as many as are missing to the width, or as the width says if it is too small; its positional value is the number. |
| FormatLaws.ConversionsAre | libc/stdio.c:70-120 | %d, %x and %b print a number in base 10, 16 and 2, %s a string, %c a character, and an unknown conversion nothing. |
| FormatLaws.FieldFillsWidthIff | libc/stdio.c:79-87 | A field is as long as its width or its number, whichever is longer, if and only if the width is zero or not below the number's length. |
| FormatLaws.WidthTooSmall | libc/stdio.c:79-87 | With width 1 the number 10 is printed as 010. |
| FormatLaws.PercentIsNeverPrinted | libc/stdio.c:36-128 | Whatever the format, no percent sign is printed unless an argument holds one. |
| FormatLaws.PercentsCountOnce | libc/stdio.c:39-53 | Two percent signs in a row count as one, and alone print nothing. |

## Left out

- HeapProgram.Heap.Malloc: requests stay below the bound at which the 32-bit size of a new major wraps (`HeapModel.Sane`); beyond it a new major is too small, and the program puts the minor there all the same or asks for one major after another (`HeapLemmas.FallThroughFitsIff`), which `HeapModel.Malloc` does not follow. Under the bound the branch for a size of 0 cannot be reached.
- HeapProgram.Heap.Bounce: has the same bound on the request.
- HeapProgram.Heap.Realloc: when the inner malloc is refused the program copies to address 0; this is modelled as a write there, and no major may begin below the length copied. Whether low memory can be written is not modelled.
- HeapRealloc.ReallocKeepsInv: the same condition for a refused realloc, and the same bound on requests as for malloc.
- HeapRealloc.ReallocSpares: as ReallocKeepsInv.
- HeapRuns.RunKeepsInv: every step as above; reallocs that are refused are part of the runs.
- HeapRuns.RunKeepsPayload: as RunKeepsInv.
- HeapRuns.RunKeepsPayloadsPrivate: as RunKeepsInv.
- HeapRealloc.ReallocKeepsContents: states the contents for a realloc that gets memory; the other case is ReallocFailsIff.
- HeapProgram.Heap.Free: the pointer must lead, by way of its tag, to a live header or to a freed one that nothing has overwritten; other pointers would make the program read arbitrary memory as a header.
- HeapRealloc.DoubleFreeIsCaught: needs the major to be still there; once it went back to the page source its memory is no longer the heap's to read.
- Headers are kept as typed records by address, beside the data bytes; writing a header forgets the bytes below it, and writing bytes forgets a freed header there. Reading the raw bytes of a header is not modelled.
- The counters l_inuse and l_allocated, and the warning and error counts, are unbounded integers.
- liballoc_calloc, liballoc_memset and the dump and DEBUG output of liballoc.
- Interrupt masking (cli, sti): the lock is its depth counter only.
- liballoc_alloc and liballoc_free_ themselves, which are stubs.
- Ranges.AlignRange: returns the changed range instead of writing through a pointer.
- BootMap.BootInfo.ParseMmap: needs room for all entries in the map of 64, which the program does not check.
- stivale2.h is not part of this model; the code of usable entries is taken to be 1.
- PageBitmap.Pmm.Init: needs every page it marks to have a bit in the bitmap, and entries that are page aligned, as ParseMmap leaves them; the bitmap is separate storage, so writes to the frames it lies in are not modelled.
- set_used_pmm and the value of the free_memory counter: the program mixes addresses and page numbers there and never updates the counter in alloc_pmm and free_pmm.
- AddressSpace.Vmm.MapPage: needs every page that can be handed out to lie below 2 GiB, where the window reaches it. What the addresses from MEM_PHYS_OFFSET on and the low addresses show is fixed (physical memory from 0 on); that the tables themselves map these addresses is not modelled.
- AddressSpace.Vmm.NewRoot: the same bound.
- AddressSpace.Vmm.GetNextLevel: the same bound.
- AddressSpace.Vmm.MapLowMemory: the same bound.
- is_present_vmm, virt2phys, unmap_vmm, free_vmm and alloc_vmm: their tests of the present bit are inverted, so there is no lookup or unmap to state.
- The second loop of init_vmm, which can wrap around and overwrite the first windows, and loading CR3.
- Numbers.Atoi: at most 19 characters behind the sign; the next power of ten does not fit in 64 bits.
- Numbers.Itoa: negative numbers in bases other than ten, which the program splits into two halves with mixed buffers, and bases above 36, which have no digits.
- CString.Strrev: the empty string, for which the program computes an end below zero.
- Format.Vsnprintf: the format must match its arguments, text arguments hold no NUL, the buffer starts zeroed and is large enough; the size argument does not bound the program's writes and must not be below the length of the result.
- The branch of vsnprintf that would store a percent sign is never reached and is not in the model.
- strcpy, memcpy of libc, and the rest of libc and libk.
- Devices, framebuffer, fonts, interrupt tables, assembly and the build.
