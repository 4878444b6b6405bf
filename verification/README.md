# A verified model of dietlibc's algorithms

dietlibc is a small C library. This project models the parts of it that compute something
hard to get right, and proves what they are for. Everything is for the 64-bit little-endian
configuration with 4096-byte pages, `WANT_MALLOC_ZERO` and `WANT_FREE_OVERWRITE` off and the
word-at-a-time string routines on.

- **Heap allocator** (`Heap`, `HeapSteps`, `HeapCarve`, `HeapMove`, `SizeClass`, `Allocator`,
  `AllocatorRuns`): memory is a map from mapped words to values, the kernel's answers to mmap
  and mremap are inputs, and the allocator is a class over that memory and its eight list heads.
  `Blocks()` gives the payload of every block in use; the contract of each call says exactly how
  it changes. The invariant `Heap.Inv` says that page owners, free lists, headers and memory
  agree, that free blocks are zero but for their link, and that every mapped word belongs to a
  block that is in use or on the free list of its class. `Valid()` is that invariant for the
  allocator's fields; the constructor establishes it and every method keeps it, for every answer
  of the kernel and every store of a caller to its payloads. `AllocatorRuns.Run` makes every
  sequence of calls that respects ownership from program start; what `AllocatorRuns` derives from
  the invariant (tiling, conservation, disjointness, zero payloads of free blocks) holds after it.
- **Quicksort and bsearch** (`QuickSort`): three-way partition with a byte-wise exchange, for
  every pivot choice, comparison function and element size.
- **Double words** (`DoubleWord`, `Bits`): the generic multiplication and division macros, for a
  half word of any number h > 0 of bits.
- **Futex mutex** (`FutexMutex`): a step system with one program counter per thread, which
  interleaves at every access to the mutex and every futex call.
- **Hash table** (`HashTable`): hsearch_r on real bucket objects, relinked in place, against a
  finite map from keys to buckets.
- **String routines** (`WordStrings`): strlen, strcmp and strcpy by words, against the bytes.
- **Multibyte characters** (`Utf8`) and **numbers** (`Numbers`): round trips between printer and parser.
- **Dynamic linker** (`Loader`, `Symbols`): the work list of DT_NEEDED entries and the order it
  loads in, and the lookup of a symbol through the ELF hash tables in that order.

A word in a contract that is not obvious: `Run(d, s)` in `Utf8` is the decoder's transition
function over a byte sequence; `View(a, size, n)` in `QuickSort` reads an array of bytes as n
elements; `Reaches` in `FutexMutex` is the existence of a run in which clients unlock only what
they hold.

## Where the code and its promises differ

- mbrtowc accepts overlong sequences (`Utf8.OverlongAccepted`). `Utf8.AcceptedSequences` says
  which, on the octets: an accepted sequence is the encoder's unless it begins with C0 or C1, or
  with E0 and an octet below A0, F0 and one below 90, F8 and one below 88, or FC and one below 84.
  When its input ends in the middle of a character mbrtowc returns the number of bytes it was
  given, not `(size_t)-2`.
- strcmp subtracts `char` values in its leading byte loop and `unsigned` ones in its word loop.
  For bytes from 128 on the sign of the result therefore depends on how the two strings are
  aligned; `WordStrings.OrderOfDifference` says exactly when it is the lexicographic order and
  `WordStrings.AlignmentDecides` gives the same two strings compared both ways.
- mtx_init leaves `owner` as it found it. On a recursive mutex mutual exclusion holds in all runs
  if and only if that stale value is not the identity of one of the threads
  (`FutexMutex.SafeStartIsExact`, `FutexMutex.StaleOwnerShares`).
- mtx_unlock of a recursive mutex stores `owner=0` after `lock` has become 0. The comment there
  calls the store cosmetic, but it can wipe out the owner that took the mutex in between. Then
  that holder's unlock calls return success without releasing anything, and every thread waits
  forever although nobody has the mutex (`FutexMutex.LateClearLosesReleases`,
  `FutexMutex.StuckForever`); or the holder locks the mutex once more and sleeps on itself
  until a timeout of its own (`FutexMutex.HolderBlocksItself`, `FutexMutex.SelfBlockedForever`).
  Both fail only for recursive mutexes: over all runs of at least two threads, an unheld mutex is
  free if and only if the mutex is not recursive (`FutexMutex.FreeIfUnheldIsExact`), and a holder
  is the recorded owner if and only if it is not recursive (`FutexMutex.OwnerKnownIsExact`).
  `FutexMutex.ReleaseIsExact` says which unlock call releases. Mutual exclusion is not affected.
- `__ltostr` of 0 into a buffer of size 1 writes a '0' one byte before the buffer, and the move
  to the front then puts the digit into the buffer and the NUL one byte behind it
  (`Numbers.ZeroInOneByte`). With a size of 0 the unsigned decrement wraps around, and the NUL goes
  0xFFFFFFFF bytes behind the start (`Numbers.NothingFits`). These are all the cases: the call
  stays inside its buffer if and only if the size is not 0 and it is not 0 into one byte
  (`Numbers.StaysInside`).
- strtol with a bad base reads an end pointer that strtoul never wrote; the model gives no end
  pointer there. That happens exactly for a base other than 0 and 2 to 36 (`Numbers.EndWritten`).
- loadlibrary ends one successful path with a bare `return`; the model takes it as success.

## Model

| member | source | states |
|---|---|---|
| Heap.LiveExtent | lib/alloc.c:132-142 | The words of a block in use are exactly those its header size covers. |
| HeapSteps.TakeInv | lib/alloc.c:103-127 | Taking the first free block and storing its size keeps the invariant. |
| HeapSteps.TakeContents | lib/alloc.c:103-127 | A block taken from a free list was not in use, has a zero payload, and no other payload changes. |
| HeapSteps.ReleaseInv | lib/alloc.c:83-96 | Clearing a carved block in use and linking it to the head of its list keeps the invariant. |
| HeapSteps.ReleaseContents | lib/alloc.c:83-96 | Giving a block back removes its payload and changes no other. |
| HeapSteps.MapInv | lib/alloc.c:165-170 | A fresh direct mapping with its size stored keeps the invariant. |
| HeapSteps.MapContents | lib/alloc.c:165-170 | A fresh direct mapping adds one block with a zero payload. |
| HeapSteps.WriteInv | lib/alloc.c:206-225 | Any change inside one payload keeps the invariant and every other payload. |
| HeapCarve.CarveInv | lib/alloc.c:106-120 | A page carved by linking its blocks in order keeps the invariant, with all its blocks on the list of the class. |
| HeapCarve.UnmapInv | lib/alloc.c:140 | The end of a direct mapping keeps the invariant and removes just that block. |
| HeapCarve.SlotsMember | lib/alloc.c:113-118 | The addresses that the carving loop links are exactly the aligned ones of the page. |
| HeapMove.CopyContents | lib/alloc.c:218-222 | Copying min(old, new) payload bytes gives the new block the old payload, cut or filled with zeros, and changes no other. |
| HeapMove.MovedInv | lib/alloc.c:228-237 | A mapping that mremap moved or resized, with the new size stored, keeps the invariant; its payload is the old one, cut or filled with zeros. |
| SizeClass.GetIndex | lib/alloc.c:71-78 | The shift loop computes the number of binary digits of the masked, shifted size. |
| SizeClass.LeastClass | lib/alloc.c:65-78 | For every size up to 2048 the class chosen is the least one that holds it. |
| SizeClass.PageAlignRounds | lib/alloc.c:43 | PAGE_ALIGN rounds up to pages, is 0 exactly for 0 and when the boundary is past 2^64, and is idempotent. |
| SizeClass.NeedFits | lib/alloc.c:157-167 | The block size malloc computes has room for the request, and is at most 2048 exactly when the request goes to a carved block. |
| SizeClass.NeedExactly | lib/alloc.c:157-167 | In plain numbers, the block size: 16 times the least power of two that holds size and header up to 2032 bytes, whole pages above, and none for 0 or a size that does not fit with its header and rounding into 64 bits. |
| SizeClass.MulCheck | lib/alloc.c:188-192 | Dividing the wrapped product back tells exactly whether the product overflowed. |
| Allocator.Allocator.constructor | lib/alloc.c:58 | The initial, empty state satisfies the invariant. |
| Allocator.Allocator.Carve | lib/alloc.c:113-118 | The loop links all blocks of the new page in address order and leaves the rest of the page zero. |
| Allocator.Allocator.SmallMalloc | lib/alloc.c:98-128 | A block of the class with a zero payload, or failure exactly when the list is empty and the kernel has no page; a failure changes nothing. |
| Allocator.Allocator.SmallFree | lib/alloc.c:83-96 | The block leaves the blocks in use and is listed; no other payload changes. |
| Allocator.ServedExactly | lib/alloc.c:151-175 | When malloc can serve a request: a large one exactly if the kernel can place its pages, a small one exactly if the list of its least class has a block or the kernel can place a page, and 0 or a size that does not fit never. |
| Allocator.PlaceableExactly | lib/alloc.c:52-54 | The kernel can place a mapping exactly where none of its pages belongs to a block in use, a carved page or the end of the address space. |
| Allocator.Allocator.Malloc | lib/alloc.c:151-175 | For a size above 2032 it succeeds exactly if the kernel can place the (size+16+4095)/4096 pages, for a smaller one whenever a free block of the class or one page is there, and for 0 or a size from 2^64-4111 on never. Then one new block of the computed size appears, all zero, and nothing else changes; otherwise ENOMEM and no change at all. |
| Allocator.Allocator.Calloc | lib/alloc.c:179-202 | A product of 2^64 or more is refused; otherwise it succeeds exactly when malloc can serve the product, with at least nmemb*size bytes that are all zero although nothing is cleared. |
| Allocator.Allocator.Free | lib/alloc.c:132-143 | A block in use disappears and no other changes, by the path its header size tells; freeing NULL or a block already on a free list changes nothing. |
| Allocator.Allocator.Realloc | lib/alloc.c:206-253 | Succeeds exactly when the size stays, malloc can serve it or the kernel can move the mapping; then the payload is the old one cut or filled with zeros, in a block of the right size that overlaps no other. Otherwise ENOMEM and the old block stays as it was; the same size keeps the pointer; size 0 frees. |
| Allocator.ReallocServedExactly | lib/alloc.c:206-239 | When realloc succeeds, in plain numbers: the size of the block stays, or a carved block can be served like malloc, or the kernel can place the new pages of a mapping once its own are given back. |
| Allocator.Allocator.ReallocCopy | lib/alloc.c:215-225 | The path for carved blocks: allocate, copy what fits, free the old block. |
| Allocator.Allocator.ReallocRemap | lib/alloc.c:226-239 | The path for direct mappings: moved or resized by the kernel, its size stays a multiple of the page and above 2048. |
| Allocator.NewSizeFits | lib/alloc.c:211-213 | The size realloc computes has room for the request; it is a class size only when the request is small. |
| Allocator.NewSizeExactly | lib/alloc.c:211-213 | That size in plain numbers: whole pages for a large request or a mapping, and the least class for a small request to a carved block. |
| Allocator.BlocksApart | lib/alloc.c:83-143 | Two blocks in use never overlap. |
| AllocatorRuns.CarvedPageTiled | lib/alloc.c:106-120 | Each word of a carved page lies in exactly one aligned block, which is either in use with the size of the class or on that class's list, and never both. |
| AllocatorRuns.MappedPageHeld | lib/alloc.c:166-170 | Every page of a direct mapping belongs to a block in use that covers it. |
| AllocatorRuns.SizeTells | lib/alloc.c:135-140 | The header of a block in use is at most 2048 exactly when the block is carved, so free takes the right path. |
| AllocatorRuns.FreeApart | lib/alloc.c:83-143 | A block in use and a free block never overlap. |
| AllocatorRuns.FreeIsZero | lib/alloc.c:88-95 | Every word of a free block but its link is zero, its size included. |
| AllocatorRuns.MallocThenFree | lib/alloc.c:132-175 | Freeing what malloc returned restores the blocks in use and all their payloads. |
| AllocatorRuns.FreeTwice | lib/alloc.c:132-143 | A second free of a carved block does nothing. |
| AllocatorRuns.Perform | lib/alloc.c:132-253 | Each call of a caller who respects ownership keeps the invariant, and the blocks in use are exactly those the caller owns, with room for what was asked. |
| AllocatorRuns.Run | lib/alloc.c:132-253 | The same after every sequence of calls from program start for all answers of the kernel; no two owned payloads overlap each other or a header. |
| QuickSort.Exch | lib/qsort.c:4-13 | The byte-wise exchange swaps two whole elements and touches nothing else. |
| QuickSort.ScanUp | lib/qsort.c:45 | The upward scan stops at the first element not below the pivot. |
| QuickSort.ScanDown | lib/qsort.c:46 | The downward scan stops at the last element not above the pivot, or at l. |
| QuickSort.Scan | lib/qsort.c:44-51 | The scanning loop keeps the four-part layout (equal, less, unseen, greater, equal) and only rearranges. |
| QuickSort.LeftBackStep | lib/qsort.c:52-53 | One step of the left swap-back loop, which stops at k<p, keeps its layout even when its ranges cross. |
| QuickSort.RightBackStep | lib/qsort.c:54 | The same for the right swap-back loop, which stops at k>q. |
| QuickSort.PivotCentred | lib/qsort.c:47-52 | The last exchange puts the pivot between the smaller and the greater part. |
| QuickSort.Partition | lib/qsort.c:22-54 | After the swap-back loops [l..j] is at most, (j,i) equal to and [i..r] at least the pivot, for every choice of the pivot. |
| QuickSort.PartsSorted | lib/qsort.c:55-56 | Sorting both parts of a partition sorts the whole range. |
| QuickSort.Quicksort | lib/qsort.c:20-57 | The range becomes sorted, only by exchanges inside it. |
| QuickSort.QSort | lib/qsort.c:59-72 | The array becomes a sorted permutation of itself for every total preorder; sizes that are too large leave it alone. |
| QuickSort.RearrangedPermutes | lib/qsort.c:4-13 | A sequence of exchanges in a range permutes it and leaves the rest alone. |
| QuickSort.BSearch | lib/bsearch.c:4-20 | What is found matches the key; on ordered data something is found if and only if a match exists. |
| QuickSort.SortedIsOrdered | lib/bsearch.c:4-20 | Data sorted by a total preorder is ordered for every key, as bsearch needs it. |
| QuickSort.SortThenSearch | lib/qsort.c:59-72 | After qsort, bsearch finds a match if and only if the original array had one. |
| DoubleWord.AddSsaaaa | longlong.h:1302-1310 | The two-word sum is exact up to a carry out of the top word. |
| DoubleWord.SubDdmmss | longlong.h:1312-1320 | The two-word difference is exact up to a borrow from the top word. |
| DoubleWord.AddThenSub | longlong.h:1302-1320 | Subtracting what was added gives back both words, wrap-around included. |
| DoubleWord.UmulPpmm | longlong.h:1337-1359 | The two result words are exactly u*v. |
| DoubleWord.Settle | longlong.h:1378-1399 | The correction steps, whose `__r1 += d` and `__r1 -= __m` may wrap, turn an estimate that is off by at most two into the exact digit and remainder. |
| DoubleWord.EstimateBounds | longlong.h:1375-1395 | For a normalised divisor the estimate of a quotient digit is too large by at most two, and no intermediate product overflows. |
| DoubleWord.DivStep | longlong.h:1375-1399 | One digit of the division with 0 <= r < d. |
| DoubleWord.UdivQrnndC | longlong.h:1370-1405 | For normalised d and n1 < d: q*d + r = n1*W + n0 with 0 <= r < d. |
| DoubleWord.MulThenDiv | longlong.h:1337-1405 | Dividing u*d by d gives back u with remainder 0. |
| DoubleWord.WrapIsMod | longlong.h:1302-1405 | The wrap-around written as corrections is the remainder modulo the word size. |
| DoubleWord.SplitWord | longlong.h:37-39 | A word is its high half times the base plus its low half. |
| Bits.OrIsSum | longlong.h:1380-1403 | Joining half words by or is adding them. |
| FutexMutex.InvStep | lib/mtx_trylock.c:7-24 | Every atomic step of every function keeps the mutex invariant. |
| FutexMutex.MutualExclusion | lib/mtx_trylock.c:11-21 | In all runs from a safe start no two threads hold the mutex; a plain mutex has lock 1 exactly when one thread holds it. |
| FutexMutex.SafeStartIsExact | lib/mtx_init.c:3-7 | Mutual exclusion in all runs holds if and only if the owner left by mtx_init is no thread of a recursive mutex. |
| FutexMutex.StaleOwnerShares | lib/mtx_init.c:3-7 | With a stale owner that is a thread, a run in which two threads hold a recursive mutex. |
| FutexMutex.WakeupNeverLost | lib/mtx_timedlock.c:7-23 | In every reachable state with lock 0 and a thread asleep, some thread is about to wake one or is awake in the retry loop, through timeouts, signals and failed waits. |
| FutexMutex.WakeInvRun | lib/mtx_unlock.c:6-22 | The invariant behind it, kept by all runs. |
| FutexMutex.RetryAcquires | lib/mtx_timedlock.c:9-21 | A thread awake in the retry loop takes a free mutex by a run that consists of its own steps only. |
| FutexMutex.WakerAcquires | lib/mtx_unlock.c:14-20 | A thread about to wake and the sleeper it wakes get the free mutex for the sleeper, by steps of these two only. |
| FutexMutex.SleepersGetThrough | lib/mtx_timedlock.c:7-23 | From every reachable state with a free mutex and a sleeper, a helper's own steps, and those of the sleeper when it is woken, give the mutex to the sleeper or to a helper that was already waiting; no call, signal or timeout is needed. |
| FutexMutex.TryLockNeverWaits | lib/mtx_trylock.c:7-28 | mtx_trylock, over all interleavings and whoever has the mutex: it never comes to FUTEX_WAIT, can always make its next step, and is back after at most four of them. |
| FutexMutex.FreeIsTaken | lib/mtx_trylock.c:11-14 | A compare-and-swap that finds lock 0 wins: whatever the others do before its next step, the call then returns with one lock more and the thread as owner. |
| FutexMutex.TakenIsBusy | lib/mtx_trylock.c:15-24 | One that finds the mutex taken by another thread ends a mtx_trylock with nothing held, and sends a mtx_lock to FUTEX_WAIT. |
| FutexMutex.HolderLocksAgain | lib/mtx_trylock.c:15-21 | An owner of a recursive mutex locks it again without waiting, up to 1000 times; then the call fails and leaves the count as it was. |
| FutexMutex.LockReturnsHolding | lib/mtx_timedlock.c:7-23 | However often it is interrupted, mtx_lock comes back only with one lock more, or with an error from 1000 locks of a recursive mutex on. |
| FutexMutex.TimeoutReturns | lib/mtx_timedlock.c:16 | A wait that times out ends the call with nothing changed for its caller. |
| FutexMutex.UnlockReturns | lib/mtx_unlock.c:6-22 | A holder's mtx_unlock never waits, can always go on, and is back after at most five accesses and calls, with one lock less. |
| FutexMutex.ReleaseIsExact | lib/mtx_unlock.c:9-20 | Whatever the others do between the owner test and the release of a holder's unlock call, it lowers the lock exactly if at the test the holder was the owner of a recursive mutex or the lock was 1. |
| FutexMutex.LateClearLosesReleases | lib/mtx_unlock.c:11-16 | A run in which the late `owner=0` makes a holder's unlocks release nothing, so that all threads are stuck although nobody holds the mutex. |
| FutexMutex.StuckForever | lib/mtx_unlock.c:11-16 | That state is never left by any run. |
| FutexMutex.FreeIfUnheldIsExact | lib/mtx_unlock.c:11-16 | With two threads, over all runs: a mutex that nobody has is free, if and only if it is not recursive. |
| FutexMutex.HolderForgotten | lib/mtx_unlock.c:11-16 | A run in which the holder of a recursive mutex is no longer its owner. |
| FutexMutex.OwnerKnownIsExact | lib/mtx_unlock.c:11-16 | With two threads, over all runs: an idle holder finds itself as the owner, if and only if the mutex is not recursive. |
| FutexMutex.HolderBlocksItself | lib/mtx_trylock.c:15-23 | A run in which the holder of a recursive mutex locks it again and falls asleep on it. |
| FutexMutex.SelfBlockedForever | lib/mtx_timedlock.c:9-21 | No run without a timeout of its own gets it out again. |
| HashTable.NextSize | lib/hsearch_r.c:33-35 | The new size is the least prime of the table above the old size. |
| HashTable.Find | lib/hsearch_r.c:15-23 | The search loop finds a bucket with key and hash value, or that there is none in the chain and where it ends. |
| HashTable.ChainedPush | lib/hsearch_r.c:44-50 | A bucket moved to the front of its new chain keeps every chain to its hash values, without duplicates. |
| HashTable.MoveOne | lib/hsearch_r.c:45-49 | Relinking one bucket in place leaves all other chains linked as they were. |
| HashTable.MoveChain | lib/hsearch_r.c:43-50 | The inner loop moves a whole old chain and loses no bucket. |
| HashTable.Relink | lib/hsearch_r.c:42-51 | The new table holds exactly the old buckets, each in the chain its hash value selects. |
| HashTable.Append | lib/hsearch_r.c:60-65 | A new bucket becomes the last of its chain and no other chain changes. |
| HashTable.HCreateR | lib/hcreate_r.c:9-28 | Fails exactly for a count of 0 or a failed allocation, and otherwise gives a table that stands for the empty map. |
| HashTable.HTable.FoundIsEntry | lib/hsearch_r.c:16-23 | The bucket found in the chain is the map's entry of the key, and none is found exactly when the key is absent. |
| HashTable.HTable.Resize | lib/hsearch_r.c:29-59 | A resize, or a failed one, keeps the map and every bucket object. |
| HashTable.HTable.HSearchR | lib/hsearch_r.c:13-68 | The whole call refines a finite map: present keys lead to their old bucket and nothing changes, ENTER adds one fresh bucket, failures add nothing. The size changes, to the next one of the table, exactly if a key is entered while there are at least as many entries as chains, the size is below 2097143 and the allocation works; so the load stays at most one while resizing works. |
| WordStrings.ZeroMaskCorrect | lib/strlen.c:58-60 | The subtract-and-mask test is zero exactly when no byte of the word is zero. |
| WordStrings.ByteIndexCorrect | lib/strlen.c:65-71 | The shifted sums give the index of the first zero byte. |
| WordStrings.WordReachesEnd | lib/strlen.c:53-60 | The loop stops at exactly the word that holds the terminator. |
| WordStrings.StrLen | lib/strlen.c:29-126 | The length for every string and alignment, with no word read past the one that holds the terminator; NULL gives 0. |
| WordStrings.SameBytes | lib/strcmp.c:31-54 | Two words are equal exactly when all their bytes are. |
| WordStrings.CompareWords | lib/strcmp.c:36-50 | Two words either match without a terminator or are resolved to their first deciding byte. |
| WordStrings.ResolveWord | lib/strcmp.c:40-50 | The inner byte loop always stops inside the word. |
| WordStrings.StrCmp | lib/strcmp.c:22-54 | The result is the difference of the bytes at the first place where the strings differ or end: as unsigned characters from the first word boundary of equally aligned strings on, and as signed ones before it and in all others. |
| WordStrings.LexAt | lib/strcmp.c:22-54 | That place decides the lexicographic order. |
| WordStrings.LexZero | lib/strcmp.c:22-54 | The order is 0 exactly for equal strings. |
| WordStrings.CompareStrings | lib/strcmp.c:22-54 | Zero exactly for equal strings; the sign is the lexicographic one if and only if the deciding bytes were compared as unsigned or lie in the same half of the byte range. |
| WordStrings.OrderOfDifference | lib/strcmp.c:31-54 | The same as a statement about the deciding position. |
| WordStrings.DifferenceOrder | lib/strcmp.c:31-54 | When a signed difference of two bytes has the sign of their unsigned order. |
| WordStrings.AlignmentDecides | lib/strcmp.c:22-54 | Two strings that compare as smaller at one alignment and as greater at another. |
| WordStrings.StrCpy | lib/strcpy.c:21-43 | Exactly the bytes through the terminator are copied, and nothing before or after them is touched. |
| WordStrings.CopyWords | lib/strcpy.c:29-43 | The word loop copies the rest of the string. |
| Utf8.WcRToMb | lib/wcrtomb.c:6-36 | Writes the encoding of the character, or its low byte in an 8-bit locale, nothing after it, and returns its length; the cases without a buffer. |
| Utf8.PutMultibyte | lib/wcrtomb.c:13-33 | The loop that lowers the bit count writes all octets of a multi-octet character. |
| Utf8.EncodeByShift | lib/wcrtomb.c:19-31 | The octets are the shifted groups of six bits with their marks. |
| Utf8.EncodingTable | lib/wcrtomb.c:15-32 | The octets of each range of characters in plain numbers, from one octet below 0x80 to six from 0x4000000 on. |
| Utf8.MbState.MbRToWc | lib/mbrtowc.c:7-67 | In UTF-8 the call computes the transition function on the bytes it was given, keeps the state well-formed and returns the count or the error, after which nothing is remembered; in an 8-bit locale it gives the first byte and leaves the state alone. |
| Utf8.MbState.NextOctet | lib/mbrtowc.c:26-63 | One octet is rejected, completes a character, or is one among others, as the transition function says. |
| Utf8.IllegalForgets | lib/mbrtowc.c:29-34 | A rejected octet clears the count, wherever in a sequence it comes. |
| Utf8.LeadOctet | lib/mbrtowc.c:49-58 | The shift loop counts the leading ones and leaves the payload bits. |
| Utf8.RunKeepsWellFormed | lib/mbrtowc.c:20-66 | The partial value never exceeds 31 bits. |
| Utf8.RunResumes | lib/mbrtowc.c:20-66 | Decoding in two calls is decoding the concatenation. |
| Utf8.RunCompletes | lib/mbrtowc.c:29-45 | A started character completes exactly after the announced continuation octets, with their value. |
| Utf8.ValueIsGroups | lib/mbrtowc.c:29-45 | The accumulated value is w exactly when the octets are the groups of w. |
| Utf8.DecodeEncode | lib/mbrtowc.c:20-66 | Decoding an encoding gives back the character and consumes it all, for every w below 2^31. |
| Utf8.AcceptedSequences | lib/mbrtowc.c:20-66 | What the decoder accepts has a value below 2^31 and is no shorter than the encoding; it is the encoding if and only if its first two octets do not announce an overlong form. |
| Utf8.AcceptedExactly | lib/mbrtowc.c:49-58 | From a fresh state a sequence is taken as one character exactly if it has the length its lead octet announces, for leads below 0x80 and from 0xC0 to 0xFD, and continuation octets behind it. |
| Utf8.ShorterIffOverlong | lib/mbrtowc.c:49-58 | A well-formed sequence of n+1 octets stands for a value that n octets can encode exactly if its first two octets are overlong. |
| Utf8.OverlongAccepted | lib/mbrtowc.c:49-58 | An overlong sequence that is accepted. |
| Utf8.DecodeChunks | lib/mbrtowc.c:7-67 | Fed in any non-empty pieces over successive calls, an encoding gives back its character, and the counts sum to its length. |
| Utf8.RejectThenDecode | lib/mbrtowc.c:29-34 | After a call that rejects its input, an encoding fed in any non-empty pieces gives back its character. |
| Utf8.EightBitRoundTrip | lib/wcrtomb.c:9-12 | In an 8-bit locale a byte that wcrtomb stores is read back by mbrtowc. |
| Utf8.ChunkLengths | lib/mbrtowc.c:7-67 | The pieces of a sequence have its length in sum. |
| Numbers.Scan | lib/strtoul.c:13-32 | White space, sign, prefix and base, as the code reads them. |
| Numbers.PushDigit | lib/strtoul.c:37-42 | The test in two halves of the product finds exactly the overflow past 64 bits. |
| Numbers.ScanDigits | lib/strtoul.c:33-44 | The digit loop yields the value of the digits, or overflow exactly when it is 2^64 or more. |
| Numbers.StrToUL | lib/strtoul.c:6-56 | Value, end pointer and errno for every string and base, as the parse function gives them. |
| Numbers.UnsignedText | lib/strtoul.c:13-55 | What that is for every text with a known base: behind blanks, a sign and "0x" (base 0 or 16), or with a leading 0 for octal (base 0), the value of the digits or 2^64 minus it, to the end of the digits; ULONG_MAX and ERANGE from 2^64 on; 0 and EINVAL without a digit. |
| Numbers.EveryTextSpelled | lib/strtoul.c:13-32 | Every text has these parts, so that nothing is left open for a known base. |
| Numbers.OctalText | lib/strtoul.c:22-24 | "0123" in base 0 is 83. |
| Numbers.PushDigitSigned | lib/strtoull.c:37-42 | The same with a signed accumulator whose right shift extends the sign. |
| Numbers.NegativeOverflows | lib/strtoull.c:33-45 | A negative accumulator makes the next digit overflow, as it should. |
| Numbers.ScanDigitsSigned | lib/strtoull.c:33-45 | The digit loop with the signed accumulator gives the same result as with an unsigned one. |
| Numbers.StrToULL | lib/strtoull.c:7-57 | Value, end pointer and errno for every string and base. |
| Numbers.StrToL | lib/strtol.c:12-32 | The value clamped to the range of long, with ERANGE when clamped. |
| Numbers.SignedText | lib/strtol.c:12-32 | For every text with a known base: the signed value of the digits clamped to the range of long, ERANGE exactly if it was clamped, and the end of the digits. |
| Numbers.EndWritten | lib/strtoul.c:18-32 | The end pointer is written if and only if the base is 0 or from 2 to 36. |
| Numbers.ClampAgrees | lib/strtol.c:20-31 | The tests after the unsigned parse clamp exactly the mathematical value. |
| Numbers.SignSkipped | lib/strtol.c:12-20 | Parsing after the skipped sign reads the same digits. |
| Numbers.LToStr | lib/__ltostr.c:4-32 | For every size and number: the text and its NUL are put at the end of the buffer and moved to its start, and nothing else in memory changes; the number of digits is returned. |
| Numbers.TextAtStart | lib/__ltostr.c:9-31 | After the call the low-order size-1 digits and the NUL are at the start of the buffer. |
| Numbers.StaysInside | lib/__ltostr.c:9-29 | In every memory the bytes outside of the buffer stay as they are, if and only if the size is not 0 and it is not 0 into one byte. |
| Numbers.ZeroInOneByte | lib/__ltostr.c:16-29 | Printing 0 into one byte changes the byte before and the byte behind the buffer. |
| Numbers.NothingFits | lib/__ltostr.c:9 | With a size of 0 a byte far behind the buffer changes. |
| Numbers.FillBackwards | lib/__ltostr.c:22-28 | The loop fills the digits from the end until they or the room run out. |
| Numbers.EmittedIsLast | lib/__ltostr.c:22-28 | What the loop emits is the last n digits of the number. |
| Numbers.EmittedInBaseOne | lib/__ltostr.c:13-28 | In base 1 the loop fills the whole buffer with zeros. |
| Numbers.EvalDigits | lib/__ltostr.c:22-28 | The digits have the value of the number. |
| Numbers.DigitCount | lib/__ltostr.c:22-28 | The number of digits is the least one that the number needs: there is no leading zero. |
| Numbers.TextInCase | lib/__ltostr.c:25 | All letters of the text are in the case asked for. |
| Numbers.DefaultBase | lib/__ltostr.c:13 | Base 0 and bases above 36 print like base 10. |
| Numbers.LowDigits | lib/__ltostr.c:22-31 | The last n digits have the value of the number modulo base^n. |
| Numbers.ParseDigits | lib/strtoul.c:18-44 | A string of digits is parsed to its value, with all of them consumed. |
| Numbers.PrintThenParse | lib/__ltostr.c:9-31 | Printing and parsing gives back every number in every base from 2 to 36 and both cases, and in a short buffer the number modulo base^(size-1). |
| Loader.AfterSlash | ldso.c:407-410 | The scan finds the name after the last slash. |
| Loader.ShortNameOfPath | ldso.c:378-383 | A library found in a directory is entered under the short name it was asked for by. |
| Loader.ShortNameSplits | ldso.c:407-410 | The short name has no slash, and what comes before it is empty or ends with one. |
| Loader.DirsAreThePieces | ldso.c:430-446 | The directories are the pieces of LD_LIBRARY_PATH between colons, all of them, empty ones included, and in order. |
| Loader.FirstHitIsFirst | ldso.c:433-441 | What the walk finds is in the first directory below 100 characters that has the file, and it finds nothing exactly if none has. |
| Loader.ResolvedInOrder | ldso.c:420-447 | An absolute name stands for itself; any other is looked for in the default directory and then in the pieces of LD_LIBRARY_PATH, in their order. |
| Loader.NeededExactly | ldso.c:474-484 | The names an object needs are those of its DT_NEEDED entries before the first DT_NULL, whatever else is among them. |
| Loader.Linker.TryDirs | ldso.c:430-446 | The walk along LD_LIBRARY_PATH loads from the first directory, shorter than the buffer, that has the file. |
| Loader.Linker.LoadLibrary | ldso.c:399-449 | Fails exactly for names over 50 characters and for files that are neither loaded nor found; otherwise appends one object, or none when the short name is loaded. |
| Loader.Linker.LoadLibs | ldso.c:451-487 | All DT_NEEDED entries of an object up to DT_NULL are satisfied, or one of them is unavailable; the objects stay in the order in which they were first asked for. |
| Loader.Linker.LoadAll | ldso.c:771-779 | The work list over the growing list terminates, also for cyclic dependencies; when it completes, everything needed is loaded, and otherwise some needed library is unavailable. |
| Loader.World.CountBound | ldso.c:413-415 | Each short name is loaded once, so only finitely many objects can be. |
| Loader.World.WellLoadedAppend | ldso.c:391-395 | Appending an object for an entry of a loaded one keeps the list well formed. |
| Loader.World.InOrderAppend | ldso.c:391-395 | It also keeps the order: every object behind the program was loaded for the first entry that asks for its name, and these entries come in the order of the work list. |
| Loader.LoadedExactlyReachable | ldso.c:771-779 | The finished list is exactly the set of names reachable from the program. |
| Loader.Prepare | ldso.c:764-779 | For all names: the objects are in breadth-first order, each loaded for the first entry that asks for its name. On success the library of every DT_NEEDED entry before DT_NULL of every object is loaded, has a name of at most 50 characters, and exactly what the program reaches is there; otherwise one such entry has a longer name, or a library that is neither loaded nor found. For plain names: success if and only if every name reachable in the file system's dependency graph can be loaded, and then exactly those are loaded, each once. |
| Loader.PlainComplete | ldso.c:771-779 | The completed half of it, name by name. |
| Loader.PlainStopped | ldso.c:476-481 | A run that exits does so because of a reachable name that cannot be loaded. |
| Symbols.ElfHashLoop | ldso.c:489-498 | The loop computes the hash function of System V gABI chapter 5, although it clears the top bits by exclusive or. |
| Symbols.HashBelow28 | ldso.c:489-498 | Hash values have at most 28 bits. |
| Symbols.HashByDigits | ldso.c:492-496 | The hash of a name and one more character, digit by digit: the hash moves up one hexadecimal digit, the character is added, and the eighth digit is folded into the second one. |
| Symbols.LookupObject | ldso.c:537-547 | For a well-formed hash section with unique names the walk of one bucket chain terminates and finds what a scan of the whole symbol table finds. |
| Symbols.DlsymInt | ldso.c:510-557 | The result is the address of a symbol with the name, a value and a section in the first object in load order that has one, and nothing exactly if no object has one. |
| Symbols.ScanIsFirstDefiner | ldso.c:510-557 | The scan yields the address of a definition in the first object that has one, and nothing exactly when none has. |

## Left out

- Numbers.StrToL: the end pointer for a bad base is absent, because the code reads a pointer that was never written.
- Symbols.DlsymInt: an object without DT_HASH is not modelled, because the code dereferences a null table there; the hash section is assumed well formed as the gABI requires.
- Loader.LoadedExactlyReachable: its graph is that of the loaded objects, because with names that contain slashes the file behind a short name depends on which entry came first; Loader.Prepare gives the graph of the file system for names without slashes.
- FutexMutex.MutualExclusion: thread identities are positive; the NULL that thrd_current gives in a program without threads is not modelled.
- Allocator.Allocator.Realloc: memory is modelled in 8-byte words, so that a caller's partial store to a word is a store of the whole word.
- The 32-bit and big-endian variants, and the byte-by-byte variants of the string routines.
- The body of siphash24 and the key it takes: the hash table works for every function of the key.
- Randomness in qsort and in mtx/thread identities: every choice is covered.
- The kernel: mmap gives fresh zero pages or fails, mremap keeps the common prefix or fails, munmap removes; a failing munmap and an exhausted `_malloc` in ldso.c do not occur.
- thrd_create, thrd_join, thrd_exit and the cnd functions, which depend on clone and stack teardown.
- Floating point, printf and scanf, mbsrtowcs and wcsrtombs.
- ELF segment mapping, relocation and page protection in ldso.c.
- The inline-assembly variants in longlong.h.
- ctype, strchr, memchr, the wide-character helpers and the like: each is one loop or one comparison over its own arguments, and no part of the library modelled here depends on them except isspace, isxdigit and isalnum, which `Numbers` contains.
