# chos core, modelled in Dafny

This project models the sequential core of chos, a small x86-64 operating system written in Rust. It covers:

- the support library's containers: the bitmap, the ring queue, and the intrusive doubly and singly linked lists;
- the kernel's buddy page allocator;
- the paging helpers: page-table entries, child counts, 1 GiB and 2 MiB maps and unmaps, and TLB-flush merging;
- address and frame arithmetic, and canonical addresses;
- small value types: bit fields, CPU masks, durations, timer ticks and the oneshot channel;
- the parsers the boot loader and the kernel rely on: ustar archives, file-system paths, the boot command line, the ELF GNU hash table, ACPI tables and Multiboot2 tags.

Each core file of the repository is one Dafny module in one file:

| module (file) | source |
|---|---|
| `Bitmap` (bitmap.dfy) | lib/chos-lib/src/bitmap.rs |
| `RingQueue` (queue.dfy) | lib/chos-lib/src/queue.rs |
| `IntrusiveList` (list.dfy) | lib/chos-lib/src/intrusive/list.rs |
| `IntrusiveSList` (slist.dfy) | lib/chos-lib/src/intrusive/slist.rs |
| `BuddyAlloc` (buddy.dfy) | kernel/src/mm/phys/raw_alloc.rs |
| `Mapper` (mapper.dfy), `OffsetMapping` (offset_mapper.dfy) | lib/chos-lib/src/arch/x64/mm/mapper.rs |
| `Frame` (frame.dfy) | lib/chos-lib/src/mm/mod.rs |
| `Addr` (addr.dfy) | lib/chos-lib/src/mm/addr.rs |
| `Canonical` (canonical.dfy) | lib/chos-lib/src/arch/x64/mm/mod.rs |
| `Bitfield` (bitfield.dfy) | lib/chos-lib/src/bitfield.rs |
| `Cpumask` (cpumask.dfy) | lib/chos-lib/src/cpumask.rs |
| `Duration` (duration.dfy) | lib/chos-lib/src/duration.rs |
| `Timer` (timer.dfy) | kernel/src/timer.rs |
| `Oneshot` (oneshot.dfy) | kernel/src/async_/oneshot.rs |
| `TarUtil` (tarutil.dfy) | lib/chos-lib/src/tar/util.rs |
| `Tar` (tar.dfy) | lib/chos-lib/src/tar/mod.rs |
| `Path` (path.dfy) | kernel/src/fs/path.rs |
| `CmdLine` (cmdline.dfy) | boot/src/arch/x64/cmdline.rs |
| `Fmt` (fmt.dfy) | lib/chos-lib/src/fmt.rs |
| `GnuHash` (gnuhash.dfy) | lib/chos-elf/src/gnu_hash.rs |
| `Iter` (iter.dfy) | lib/chos-lib/src/iter.rs |
| `Stride` (stride.dfy) | lib/chos-lib/src/stride.rs |
| `Acpi` (acpi.dfy) | boot/src/arch/x64/acpi.rs |
| `Multiboot` (mb.dfy) | boot/src/arch/x64/mb.rs |

Shared helpers live in their own modules:

- `Wrappers` holds `Option` and `Result`.
- `IntOps` holds powers of two, alignment, ceiling division and `log2`.
- `Bits` holds bits of unbounded naturals, used for 64-bit words with shifts by variable amounts.
- `Bytes` holds little-endian reads.
- `Str` holds `str::find` and `str::split` on characters.

## How the source is modelled

- **Objects updated in place are classes.** Their methods carry `modifies` clauses and state the whole new state:
  - the bitmap's words (an `array`);
  - the ring queue's heads, count and buffer;
  - the intrusive lists' heads and link cells;
  - the buddy allocator's region;
  - the offset mapper's page tables;
  - the timer heap and the oneshot channel;
  - every iterator: frame ranges, CPU masks, path components, tar, stride slices, the RSDT, the MADT, Multiboot tags and memory maps.
- **Pure code is functions and lemmas.** This covers addresses, canonical form, bit fields, durations, octal fields, the hash, the command line and `Bytes::split`.
- **Loops are methods with invariants.** Each is proved against a function, for example `read_ascii_octal`, `gnu_hash`, `lookup`, `is_checksum_valid`, `min_max`, the tick loop of `on_tick_main_cpu` and `size_of_fmt`.
- **Pointers become indices or names:**
  - list elements are named by `nat` keys of a map of link cells;
  - allocator blocks are page indices within a region's data area;
  - parser cursors are offsets into a byte sequence;
  - wakers are the `nat` of the task they wake.
- **Machine integers are unbounded naturals.** Every place where the source's `u8`, `u16`, `u32` or `u64` arithmetic wraps, truncates or can overflow is written out. That includes the `Wrapping<u8>` checksum, `gnu_hash`, the `gb as u16` cast, the `as_nanos() as u64` cast and the `u32` KiB multiplication.
- **Panics are modelled in one of two ways.** A panic the caller must avoid is a `requires`, for example `push_front` of a linked element or `cpu(n)` with `n >= 64`. A panic that depends on the data is an `Err` outcome, for example a malformed tar header, a bad RSDT length, an index out of range or a second `send`.
- **Where the code is wrong, both versions are modelled.** The model keeps a member for the code as written, with a lemma that shows the problem on a concrete input, and uses the corrected member everywhere else. These are listed under "## Findings".


## Model

| member | source | states |
|---|---|---|
| `Bitmap.CheckedGetBit` | lib/chos-lib/src/bitmap.rs:51-57 | `checked_get_bit` fails with `OutOfRange` exactly when the word index `i / 64` is past the words; otherwise it returns bit `i` |
| `Bitmap.LenCountsBits` | lib/chos-lib/src/bitmap.rs:94-96 | `len() == words * 64`: an index is below `len` exactly when its word exists |
| `Bitmap.SetBit` | lib/chos-lib/src/bitmap.rs:59-66 | after `set_bit(i, b)` bit `i` reads `b` and every other bit reads as before; the words stay 64-bit |
| `Bitmap.SetBitEffect` | lib/chos-lib/src/bitmap.rs:59-66 | or-ing `1 << bit` into word `i / 64` (or and-ing its complement) sets bit `i` to `b` and no other |
| `Bitmap.CheckedSetBit` | lib/chos-lib/src/bitmap.rs:68-76 | `checked_set_bit` fails with `OutOfRange`, changing nothing, exactly when the word is missing; otherwise as `set_bit` |
| `Bitmap.StartAsWritten` | lib/chos-lib/src/bitmap.rs:142-147 | the start of a range as written: `Excluded(0)` panics, `Excluded(i)` gives `i - 1` |
| `Bitmap.StartAsWrittenIncludesBelow` | lib/chos-lib/src/bitmap.rs:145 | as written, the range `(Excluded(3), ..)` starts at bit 2, a bit the bound excludes; the corrected start is 4 |
| `Bitmap.Start` | lib/chos-lib/src/bitmap.rs:142-147 | the corrected first bit of a range: exactly the bits the start bound admits are at or after it; `Excluded(0)` is the panic |
| `Bitmap.End` | lib/chos-lib/src/bitmap.rs:148-152 | the bit one past a range: exactly the bits the end bound admits (`Unbounded` is `len()`) are before it |
| `Bitmap.LowMaskBit` | lib/chos-lib/src/bitmap.rs:165-181 | `(1 << n) - 1` has exactly the bits below `n` set |
| `Bitmap.HighMaskBit` | lib/chos-lib/src/bitmap.rs:164-167 | `!((1 << n) - 1)` has exactly the bits from `n` to 63 set |
| `Bitmap.RangeMaskBit` | lib/chos-lib/src/bitmap.rs:157 | `!((1 << lo) - 1) & ((1 << hi) - 1)` has exactly the bits `lo..hi` set |
| `Bitmap.WordOfBits` | lib/chos-lib/src/bitmap.rs:175-177 | a word whose 64 bits are all `one` is `!0` (or `0`) |
| `Bitmap.OrWritten` | lib/chos-lib/src/bitmap.rs:159-183 | or-ing a mask sets the mask's bits and keeps the others |
| `Bitmap.AndNotWritten` | lib/chos-lib/src/bitmap.rs:161-185 | and-ing the complement of a mask clears the mask's bits and keeps the others |
| `Bitmap.AndWritten` | lib/chos-lib/src/bitmap.rs:169 | and-ing the low mask clears the bits from `lo` up and keeps the bits below |
| `Bitmap.FullWordWrite` | lib/chos-lib/src/bitmap.rs:173-179 | writing `!0` or `0` writes all 64 bits to `v` |
| `Bitmap.SetWithin` | lib/chos-lib/src/bitmap.rs:156-159 | setting a range inside one word sets exactly bits `lo..hi` |
| `Bitmap.ClearWithin` | lib/chos-lib/src/bitmap.rs:160-161 | clearing a range inside one word clears exactly bits `lo..hi` |
| `Bitmap.SetHead` | lib/chos-lib/src/bitmap.rs:164-167 | the first word of a longer range gets bits `lo..64` set |
| `Bitmap.ClearHead` | lib/chos-lib/src/bitmap.rs:168-169 | the first word of a longer range gets bits `lo..64` cleared |
| `Bitmap.SetTail` | lib/chos-lib/src/bitmap.rs:180-183 | the last word of a longer range gets bits `0..hi` set |
| `Bitmap.ClearTail` | lib/chos-lib/src/bitmap.rs:184-185 | the last word of a longer range gets bits `0..hi` cleared |
| `Bitmap.DoneStart` | lib/chos-lib/src/bitmap.rs:153-155 | before any word is written, no bit below the start has changed |
| `Bitmap.DoneStep` | lib/chos-lib/src/bitmap.rs:173-179 | writing word `k` bit by bit extends the written prefix by one word |
| `Bitmap.WriteAdvances` | lib/chos-lib/src/bitmap.rs:156-188 | a word written over the part of the range it holds extends the written prefix by one word |
| `Bitmap.DoneFinal` | lib/chos-lib/src/bitmap.rs:141-189 | once the prefix reaches the end of the range, bits `s..e` read `v` and all others as before |
| `Bitmap.WriteWithin` | lib/chos-lib/src/bitmap.rs:156-162 | the single-word case rewrites word `k` only, writing bits `lo..hi` to `v` |
| `Bitmap.WriteHead` | lib/chos-lib/src/bitmap.rs:164-172 | the first partial word of a longer range rewrites word `k` only, writing bits `lo..64` |
| `Bitmap.WriteTail` | lib/chos-lib/src/bitmap.rs:180-187 | the last partial word rewrites word `k` only, writing bits `0..hi` |
| `Bitmap.WriteFull` | lib/chos-lib/src/bitmap.rs:173-179 | a whole word of the range becomes `!0` or `0`, no other word changes |
| `Bitmap.WriteBits` | lib/chos-lib/src/bitmap.rs:153-188 | the word walk of `set_all_to`: bits `s..e` read `v` afterwards and every other bit reads as before |
| `Bitmap.SetAllTo` | lib/chos-lib/src/bitmap.rs:141-189 | `set_all_to(v, r)` panics (`InvalidBounds`) exactly on `Excluded(0)`, panics (`IndexOutOfBounds`, indexing past the words) exactly when the range is empty at `len()`, and otherwise writes exactly the bits of the range to `v`, leaving the others |
| `Bitmap.SetAll` | lib/chos-lib/src/bitmap.rs:78-80 | `set_all` makes every word `!0`; on no words it panics |
| `Bitmap.UnsetAll` | lib/chos-lib/src/bitmap.rs:82-84 | `unset_all` makes every word `0`; on no words it panics |
| `Bitmap.AllWords` | lib/chos-lib/src/bitmap.rs:280-285 | a bitmap whose every bit reads `one` has every word `!0` (or `0`), the test's expected words |
| `Bitmap.LeadingRunBits` | lib/chos-lib/src/bitmap.rs:98-112 | `leading_zeros`/`leading_ones` of a word: the top bits it counts have the value and the next one does not |
| `Bitmap.TrailingRunBits` | lib/chos-lib/src/bitmap.rs:106-112 | `trailing_zeros`/`trailing_ones` of a word: the low bits it counts have the value and the next one does not |
| `Bitmap.LeadingCountUnique` | lib/chos-lib/src/bitmap.rs:114-126 | the leading count of a bitmap is unique: two counts meeting its definition agree |
| `Bitmap.TrailingCountUnique` | lib/chos-lib/src/bitmap.rs:128-139 | the trailing count is unique |
| `Bitmap.LeadingXs` | lib/chos-lib/src/bitmap.rs:114-126 | `leading_xs` walks the words from the last, adding each word's count while the word is full: the total is the length of the run of `one` bits at the top of the bitmap |
| `Bitmap.LeadingWord` | lib/chos-lib/src/bitmap.rs:119-123 | one more word of the walk: the run now reaches into word `k` by its count, and stops there unless the word is full |
| `Bitmap.TrailingXs` | lib/chos-lib/src/bitmap.rs:128-139 | `trailing_xs` walks the words from the first: the total is the length of the run of `one` bits at the bottom |
| `Bitmap.TrailingWord` | lib/chos-lib/src/bitmap.rs:132-136 | one more word of the trailing walk |
| `Bitmap.RunExamples` | lib/chos-lib/src/bitmap.rs:245-263 | the tests: `leading_zeroes([1, 0, 0, 0]) == 255` and `trailing_zeroes([0, 0, 0, 1 << 63]) == 255` |
| `RingQueue.IncHead` | lib/chos-lib/src/queue.rs:103-115 | moving a head: one on, back to 0 at the buffer length, so a head stays below the length |
| `RingQueue.Empty` | lib/chos-lib/src/queue.rs:52-58 | `RingQueueData::new`: heads and count 0, the invariant holds and the queue holds nothing |
| `RingQueue.TryEnqueueAppends` | lib/chos-lib/src/queue.rs:60-76 | `try_enqueue` succeeds exactly when `count < len`, and then appends the value to the queued items; on a full queue it returns the value and changes nothing; the invariant (`count <= len`, heads below `len`, `write_head == (read_head + count) % len`) is kept |
| `RingQueue.DequeueTakesOldest` | lib/chos-lib/src/queue.rs:92-101 | `dequeue` returns `None` exactly when `count == 0` (changing nothing), else the oldest item, which leaves the queue: first in, first out; the invariant is kept |
| `RingQueue.EnqueueReplaceAppends` | lib/chos-lib/src/queue.rs:78-90 | `enqueue_replace` as intended: with room it appends and returns `None`; on a full queue it returns the oldest item and the queue becomes the rest plus the new value; the invariant is kept |
| `RingQueue.EnqueueReplaceAsWrittenLosesValue` | lib/chos-lib/src/queue.rs:79-83 | as written, `enqueue_replace` on an empty two-slot queue stores the value in slot 0 but moves the read head to slot 1: the invariant is broken and the next read sees the uninitialised slot |
| `RingQueue.EnqueueReplaceAsWrittenSkipsItem` | lib/chos-lib/src/queue.rs:84-89 | as written, `enqueue_replace(4)` on a full three-slot queue of 1, 2, 3 returns 1 but leaves the read head at slot 2 and the write head at slot 0 with a count of 3: the invariant is broken and the next read takes 3, skipping 2; as intended the queue becomes 2, 3, 4 |
| `RingQueue.EnqueueReplaceThenDequeue` | lib/chos-lib/src/queue.rs:78-101 | as intended, the same call queues the value and the next `dequeue` returns it |
| `RingQueue.SlotInjective` | lib/chos-lib/src/queue.rs:60-115 | distinct positions of the ring, counted from the read head, are distinct slots |
| `RingQueue.RingQueue.constructor` | lib/chos-lib/src/queue.rs:52-58 | a new queue over a buffer is empty and satisfies the invariant |
| `RingQueue.RingQueue.IncWriteHead` | lib/chos-lib/src/queue.rs:103-108 | `inc_write_head` moves only the write head, wrapping at the length |
| `RingQueue.RingQueue.IncReadHead` | lib/chos-lib/src/queue.rs:110-115 | `inc_read_head` moves only the read head, wrapping at the length |
| `RingQueue.RingQueue.TryEnqueue` | lib/chos-lib/src/queue.rs:60-76 | the object performs the `try_enqueue` step in place; on success the items gain the value at the end |
| `RingQueue.RingQueue.Enqueue` | lib/chos-lib/src/queue.rs:16-21 | `enqueue` unwraps `try_enqueue`: callers must leave room, and the value is appended |
| `RingQueue.RingQueue.Dequeue` | lib/chos-lib/src/queue.rs:92-101 | the object performs the `dequeue` step in place, returning the oldest item |
| `RingQueue.RingQueue.EnqueueReplace` | lib/chos-lib/src/queue.rs:78-90 | the object performs the intended `enqueue_replace` step in place |
| `RingQueue.EnqueueReplaceAsWrittenEffect` | lib/chos-lib/src/queue.rs:78-90 | as written, `enqueue_replace` writes the value at `write_head` and never moves `write_head`; it returns `None` and counts one more while there is room, and otherwise returns the overwritten value |
| `IntrusiveList.Acquire` | lib/chos-lib/src/intrusive/list.rs:68-84 | `acquire` succeeds exactly when the link is unlinked; it then marks the link linked (with `next` null) and leaves `prev` alone; on a linked link it changes nothing |
| `IntrusiveList.Release` | lib/chos-lib/src/intrusive/list.rs:85-88 | `release` marks the link unlinked and keeps `prev` |
| `IntrusiveList.AcquireRelease` | lib/chos-lib/src/intrusive/list.rs:37-43 | a released link can be acquired again; a second acquire fails; releasing an acquired link is the same as releasing the original (`force_unlink` is `release`) |
| `IntrusiveList.NextNode` | lib/chos-lib/src/intrusive/list.rs:268-270 | the cursor's `next` is an element exactly when the `next` cell names one |
| `IntrusiveList.ChainPushFront` | lib/chos-lib/src/intrusive/list.rs:131-146 | linking a fresh element before the head (`insert_before`, lines 467-476) turns the cells that spell a list into cells that spell the element followed by that list, and changes no cell outside it |
| `IntrusiveList.ChainRemove` | lib/chos-lib/src/intrusive/list.rs:287-304 | the cursor's `unlink` removes exactly the element at that position: the cells then spell the list without it, the element's own link is reset to the new-link state, and no other cell changes |
| `IntrusiveList.ChainNext` | lib/chos-lib/src/intrusive/list.rs:386-395 | following `next` from the k-th element of a list reaches the (k+1)-th, or nothing after the last |
| `IntrusiveList.HList.constructor` | lib/chos-lib/src/intrusive/list.rs:123-129 | `HList::new`: an empty list with no head |
| `IntrusiveList.HList.InsertBefore` | lib/chos-lib/src/intrusive/list.rs:467-476 | `insert_before` rewrites the node's `next` and `prev`, the old predecessor's `next` and the successor's `prev`, and nothing else |
| `IntrusiveList.HList.TryPushFront` | lib/chos-lib/src/intrusive/list.rs:131-146 | pushing fails, returning the element and changing nothing, exactly when the element is already linked; otherwise the list becomes the element followed by the old list; elements outside the list keep their cells |
| `IntrusiveList.HList.PushFront` | lib/chos-lib/src/intrusive/list.rs:148-152 | `push_front` panics on a linked element (a caller obligation here); otherwise the element becomes the head of the old list |
| `IntrusiveList.HList.RawUnlink` | lib/chos-lib/src/intrusive/list.rs:287-304 | the raw cursor's `unlink` rewrites the neighbours' cells around the element and resets its link, touching nothing else |
| `IntrusiveList.HList.Unlink` | lib/chos-lib/src/intrusive/list.rs:373-379 | the mutable cursor's `unlink` (with `mark_unlink`, lines 241-246, moving the head on) removes exactly that element from the list, in place, and leaves it unlinked |
| `IntrusiveList.HList.PopFront` | lib/chos-lib/src/intrusive/list.rs:154-156 | `pop_front` returns `None` exactly on an empty list, otherwise the head, which leaves the list unlinked while the rest stays in order |
| `IntrusiveList.HList.ClearRound` | lib/chos-lib/src/intrusive/list.rs:193-197 | one round of `clear`'s loop pops one element or reports that the list was empty |
| `IntrusiveList.HList.Clear` | lib/chos-lib/src/intrusive/list.rs:193-197 | `clear` empties the list and leaves every element it held unlinked |
| `IntrusiveList.HList.FastClear` | lib/chos-lib/src/intrusive/list.rs:199-201 | `fast_clear` forgets the head and touches no link, so the elements still read as linked |
| `IntrusiveList.HList.ForceUnlink` | lib/chos-lib/src/intrusive/list.rs:41-43 | `force_unlink` on an element outside the list releases only that element's link |
| `IntrusiveList.HList.Iter` | lib/chos-lib/src/intrusive/list.rs:386-395 | iterating from the head visits exactly the list's elements in order |
| `IntrusiveList.PushThree` | lib/chos-lib/src/intrusive/list.rs:525-531 | pushing 0, 1, 2 and iterating gives 2, 1, 0 |
| `IntrusiveList.PopTwo` | lib/chos-lib/src/intrusive/list.rs:541-549 | popping yields the elements newest first, then `None` |
| `IntrusiveList.PushTwice` | lib/chos-lib/src/intrusive/list.rs:533-539 | the second push of one element fails and hands it back |
| `IntrusiveList.UnlinkMiddle` | lib/chos-lib/src/intrusive/list.rs:623-632 | unlinking the middle of 2, 1, 0 through a cursor leaves 2, 0 |
| `IntrusiveList.StalePrevLinksStranger` | lib/chos-lib/src/intrusive/list.rs:131-146 | as written, a pushed element keeps the stale `prev` left by `fast_clear` and `force_unlink`, and the push writes into an element in no list, which then reads as linked and cannot be pushed |
| `IntrusiveList.StalePrevCleared` | lib/chos-lib/src/intrusive/list.rs:682-691 | with the new head's `prev` cleared, the same pushes leave that element unlinked and pushable |
| `IntrusiveList.TryPushFrontAsWritten` | lib/chos-lib/src/intrusive/list.rs:131-146 | as written, `try_push_front` succeeds exactly on an unlinked node, which becomes the head and is linked, and otherwise changes nothing; it leaves the node's stale `prev` in place |
| `IntrusiveSList.UnlinkedNotInChain` | lib/chos-lib/src/intrusive/slist.rs:16-18 | an element whose link reads unlinked is in no list, so `push_front`'s assertion (line 43) protects the list |
| `IntrusiveSList.ChainPush` | lib/chos-lib/src/intrusive/slist.rs:40-47 | pointing an unlinked element at the old head makes the links spell the element followed by the old list |
| `IntrusiveSList.ChainPop` | lib/chos-lib/src/intrusive/slist.rs:49-60 | the head's link names the second element, and resetting it leaves links that spell the rest of the list |
| `IntrusiveSList.MoveNext` | lib/chos-lib/src/intrusive/slist.rs:84-94 | `Cursor::move_next` keeps a null cursor null |
| `IntrusiveSList.MoveNextFollows` | lib/chos-lib/src/intrusive/slist.rs:84-106 | from the k-th element of a list the cursor moves to the (k+1)-th, or to null past the last |
| `IntrusiveSList.SList.constructor` | lib/chos-lib/src/intrusive/slist.rs:33-38 | `SList::new`: an empty list |
| `IntrusiveSList.SList.PushFront` | lib/chos-lib/src/intrusive/slist.rs:40-47 | on an unlinked element (the assertion is a caller obligation here) the element becomes the head, its link names the old head, and no other link changes |
| `IntrusiveSList.SList.PopFront` | lib/chos-lib/src/intrusive/slist.rs:49-60 | `pop_front` returns `None` on an empty list and changes nothing; otherwise it returns the head, the list becomes the rest and only the head's link is reset |
| `IntrusiveSList.SList.Iter` | lib/chos-lib/src/intrusive/slist.rs:119-129 | the iterator yields exactly the list's elements in order |
| `IntrusiveSList.PushThreeIter` | lib/chos-lib/src/intrusive/slist.rs:40-74 | pushing 0, 1, 2 and iterating gives 2, 1, 0 |
| `IntrusiveSList.PopLifo` | lib/chos-lib/src/intrusive/slist.rs:40-60 | pops return the elements newest first, then `None` |
| `IntrusiveSList.SecondPushRefused` | lib/chos-lib/src/intrusive/slist.rs:40-47 | with a linked state distinct from null, an element just pushed (even the tail) no longer reads as unlinked, so a second push is refused |
| `IntrusiveSList.PushFrontAsWritten` | lib/chos-lib/src/intrusive/slist.rs:40-47 | as written, the pushed element's `next` is set to the old head and it becomes the head |
| `IntrusiveSList.TailRelinkCycles` | lib/chos-lib/src/intrusive/slist.rs:12-18 | as written, the only element of a list has a null `next` and reads unlinked, so a second push passes the assertion and points the element at itself |
| `BuddyAlloc.EstimateBitmapBitsCount` | kernel/src/mm/phys/raw_alloc.rs:111-117 | `estimate_bitmap_bits(n)` is `n` minus the number of one bits of `n`: one pair bit for each pair of blocks below the top order |
| `BuddyAlloc.EstimateBitmapBitsBelow` | kernel/src/mm/phys/raw_alloc.rs:111-117 | the estimate is 0 for at most one page and below the page count otherwise |
| `BuddyAlloc.CalculateMeta` | kernel/src/mm/phys/raw_alloc.rs:119-139 | `calculate_meta` corrected, with the bitmap counted in 8-byte words and room for bit number `bitmap_bits`: there is no metadata exactly when the pages it needs outnumber the region's pages, and otherwise it reserves exactly that many pages; the biggest order is the floor log2 of the data pages, free plus metadata pages make the total, and the region header, list heads and bitmap all fit in the metadata pages |
| `BuddyAlloc.MetaCovers` | kernel/src/mm/phys/raw_alloc.rs:62-68 | with the bitmap counted in the words it needs, the bitmap ends inside the metadata size, which the metadata pages cover; there is at least one metadata page |
| `BuddyAlloc.BitmapWords` | kernel/src/mm/phys/raw_alloc.rs:62-68 | the corrected bitmap has a word for bit number `bitmap_bits`, and at most one word more than the `bitmap_bits.ceil_div(8)` words of the source's slice |
| `BuddyAlloc.OffsetPlusRest` | kernel/src/mm/phys/raw_alloc.rs:111-170 | `bitmap_offset` of an order plus the estimate for the pages halved that many times is the estimate for all free pages: the offsets count the pair bits of the lower orders |
| `BuddyAlloc.EstimateMonotone` | kernel/src/mm/phys/raw_alloc.rs:111-117 | more pages never get fewer estimated bitmap bits |
| `BuddyAlloc.PairBitInSlice` | kernel/src/mm/phys/raw_alloc.rs:62-68 | the pair bit of any block lying in the data area, at any order, is at most `bitmap_bits`, so its word lies in the corrected bitmap |
| `BuddyAlloc.ElevenPageMeta` | kernel/src/mm/phys/raw_alloc.rs:119-139 | as written, an 11-page region has one metadata page, 10 free pages, biggest order 3, 8 bitmap bits and a one-word slice |
| `BuddyAlloc.TopOrderFreeOverruns` | kernel/src/mm/phys/raw_alloc.rs:256-318 | as written, on the seeded 11-page region `alloc_pages(3)` takes page 0, and freeing it flips bit 8 at the biggest order: word 1 of a one-word slice, a panic |
| `BuddyAlloc.SeedOverrunsSlice` | kernel/src/mm/phys/raw_alloc.rs:119-199 | as written, a 61-page region has 56 bitmap bits in a 7-word slice, and seeding its order-4 block at page 32 flips bit 56, in word 7 |
| `BuddyAlloc.CalculateMetaAsWritten` | kernel/src/mm/phys/raw_alloc.rs:119-139 | `calculate_meta` as written: there is no metadata exactly when the pages its byte count needs outnumber the region's pages, and otherwise it reserves exactly that many; the biggest order and bitmap size are the floor log2 and the estimate, and free plus metadata pages make the total |
| `BuddyAlloc.BitmapOverrunsMetaPages` | kernel/src/mm/phys/raw_alloc.rs:125-130 | as written, the metadata size adds `ceil_div(bitmap_bits, 8)` bytes for a bitmap whose slice (lines 62-68) holds that many 8-byte words; for a region of 65537 pages the bitmap runs past the metadata pages into the first free block |
| `BuddyAlloc.FreeFromPush` | kernel/src/mm/phys/raw_alloc.rs:256-278 | putting a block of order `o` on its list adds `2^o` to the pages the lists hold, the amount `put_back_block` adds to `free_pages` |
| `BuddyAlloc.FreeFromRemove` | kernel/src/mm/phys/raw_alloc.rs:226-241 | taking a block of order `o` off its list removes `2^o` pages, the amount `alloc_in_region` subtracts |
| `BuddyAlloc.AlignedPush` | kernel/src/mm/phys/raw_alloc.rs:256-278 | pushing a block aligned to its size keeps every free block aligned to its size |
| `BuddyAlloc.AlignedRemove` | kernel/src/mm/phys/raw_alloc.rs:291-298 | removing a block keeps every free block aligned |
| `BuddyAlloc.BuddyFacts` | kernel/src/mm/phys/raw_alloc.rs:294-304 | the buddy of an aligned block of order `o` is aligned, differs from it, and the lower of the two starts the aligned block of order `o + 1` they make together |
| `BuddyAlloc.SplitHalves` | kernel/src/mm/phys/raw_alloc.rs:245-251 | splitting a block of order `o + 1` gives two aligned halves of order `o` |
| `BuddyAlloc.Toggle` | kernel/src/mm/phys/raw_alloc.rs:195-198 | `bitmap[word] ^= 1 << bit` flips exactly that pair bit |
| `BuddyAlloc.SeedStep` | kernel/src/mm/phys/raw_alloc.rs:180-203 | one round of `add_region`'s seeding loop keeps its invariant: the lists hold the pages below the cursor, smaller orders are still empty, each list holds at most one block, sitting after all the bigger ones |
| `BuddyAlloc.EmptyHeads` | kernel/src/mm/phys/raw_alloc.rs:159-170 | the list heads are empty and get the bitmap offsets `add_region` computes by halving the free pages |
| `BuddyAlloc.BuddyRegion.constructor` | kernel/src/mm/phys/raw_alloc.rs:141-206 | `add_region` leaves a valid region: the lists hold exactly the free pages, in aligned blocks, at most one per order, largest first; the cleared bitmap has the pair bit of each seeded block below the biggest order flipped once; each such block is the lower half of a pair that runs past the data area, so its bit is the first after its order's bits; with the biggest order's block present (one metadata page) the bitmap is exactly the set of those bits |
| `BuddyAlloc.BuddyRegion.InitHeads` | kernel/src/mm/phys/raw_alloc.rs:159-173 | the head loop: one empty list per order with its bitmap offset, nothing else changes |
| `BuddyAlloc.BuddyRegion.SeedBlocks` | kernel/src/mm/phys/raw_alloc.rs:175-203 | the seeding loop cuts the free pages into blocks by the bits of the free-page count, largest first, and the region becomes valid; it flips, in the cleared bitmap, the pair bit of each block below the biggest order, the first bit after that order's bits |
| `BuddyAlloc.SeedBitIsPartialPair` | kernel/src/mm/phys/raw_alloc.rs:194-199 | a block seeded with fewer than its own size of pages left after it is the lower half of a pair that runs past the data area: its pair bit is `bitmap_offset` of the next order |
| `BuddyAlloc.SeedBitmapStep` | kernel/src/mm/phys/raw_alloc.rs:180-203 | one round of the seeding loop keeps the bitmap equal to the seeded blocks' pair bits, each block's bit that of a partial pair |
| `BuddyAlloc.ToggledDistinct` | kernel/src/mm/phys/raw_alloc.rs:194-199 | when every order up to the biggest has a pair, the seeded blocks' bits are distinct, so flipping each once leaves exactly those bits set |
| `BuddyAlloc.BuddyRegion.PutBackBlock` | kernel/src/mm/phys/raw_alloc.rs:256-278 | `put_back_block` pushes the block on its order's list, flips its pair bit at every order, the biggest included, and adds `2^order` free pages; validity is kept |
| `BuddyAlloc.BuddyRegion.AllocInRegion` | kernel/src/mm/phys/raw_alloc.rs:214-254 | `alloc_in_region` fails, changing nothing, exactly when no list of that order or above holds a block; otherwise it agrees with the specification of the allocation: from a non-empty list it takes the front block and removes just that block, after a split the upper half is left on the list of the order, lower orders are untouched, the block is aligned and was free, no free block overlaps it afterwards, and `free_pages` drops by `2^order`; validity is kept |
| `BuddyAlloc.BuddyRegion.FreeInRegion` | kernel/src/mm/phys/raw_alloc.rs:280-318 | `free_in_region` as intended, merging with the buddy (not any block at that distance) and counting the buddy's pages out: it succeeds exactly when `BuddyAlloc.FreeSpec` does, and then leaves the region in `FreeSpec`'s state; on success `free_pages` grows by `2^order`, the page lies in a free block of at least that order, and every page free before is still in a free block; validity is kept |
| `BuddyAlloc.FreeSpec` | kernel/src/mm/phys/raw_alloc.rs:280-318 | the free as a function of the region's fields: on success the offsets and metadata are kept, `free_pages` grows by `2^order` and still counts the pages on the lists |
| `BuddyAlloc.FreeSpecMerges` | kernel/src/mm/phys/raw_alloc.rs:280-318 | the free merges up to some order `top`: at each order below it the pair bit was set and the buddy of the block holding the page left its list; at `top`, the biggest order or one whose pair bit was clear, the merged block is pushed; the other lists are unchanged and exactly the pair bits on the way flipped. It fails only at an order whose pair bit is set and whose list lacks the buddy |
| `BuddyAlloc.FreeSpecKeepsFree` | kernel/src/mm/phys/raw_alloc.rs:280-318 | freeing keeps every block aligned, puts the freed pages in a free block, and keeps every page that was free in a free block |
| `BuddyAlloc.FreeSpecMergeExample` | kernel/src/mm/phys/raw_alloc.rs:280-318 | on the three-page region of `BuddyAlloc.MergeOvercountsFree`, the corrected free merges pages 0 and 1 into an order-1 block and counts 2 free pages |
| `BuddyAlloc.AllocPages` | kernel/src/mm/phys/raw_alloc.rs:320-335 | `alloc_pages_unlocked` fails, changing no region, exactly when no region is eligible (big enough order, enough free pages) and holds a block; otherwise the first such region allocates as `alloc_in_region` specifies, the address is its data base plus the block's page, and every other region is unchanged |
| `BuddyAlloc.FreshRegionAllocates` | kernel/src/mm/phys/raw_alloc.rs:141-254 | a freshly added three-page region serves a one-page allocation |
| `BuddyAlloc.DeallocPages` | kernel/src/mm/phys/raw_alloc.rs:280-351 | `dealloc_pages_unlocked` reports an invalid address (the source panics), changing nothing, exactly when no region contains the frame; otherwise the first region containing it handles it: an order above its biggest order (the `assert!` at line 282) and a frame in its metadata pages (the underflow at line 286) are errors that change nothing, and otherwise its free pages grow by `2^order`, the block is free, the region is in the state `BuddyAlloc.FreeSpec` gives, every page free before is still free, and every other region is unchanged; `NotFreed` is exactly `FreeSpec` failing |
| `BuddyAlloc.FindAtDistance` | kernel/src/mm/phys/raw_alloc.rs:291-314 | the cursor walk finds the first block whose distance from the page is `PAGE_SIZE << order`, or reports none exists |
| `BuddyAlloc.FreeAsWritten` | kernel/src/mm/phys/raw_alloc.rs:280-318 | `free_in_region` as written keeps the lists one per order, and succeeds only when the word of the block's pair bit lies in the `bitmap_bits.ceil_div(8)`-word slice; past it, the read below the biggest order or `put_back_block`'s write at it panics |
| `BuddyAlloc.MergeOvercountsFree` | kernel/src/mm/phys/raw_alloc.rs:296-304 | as written, merging takes the buddy off its list without lowering `free_pages`, and the merged block is counted again: three free pages recorded, two held |
| `BuddyAlloc.MergeWithNeighbourMisaligns` | kernel/src/mm/phys/raw_alloc.rs:296-304 | as written, the first block at distance `2^order` is merged even when it is the neighbour on the other side rather than the buddy, giving a block not aligned to its size |
| `BuddyAlloc.EstimateBitmapBits` | kernel/src/mm/phys/raw_alloc.rs:111-117 | `estimate_bitmap_bits` is zero exactly for at most one page |
| `BuddyAlloc.MetaBytesAsWritten` | kernel/src/mm/phys/raw_alloc.rs:124-128 | as written, `meta_size` counts the bitmap in bytes, `bitmap_bits.ceil_div(8)`, where `bitmap_ptr` (lines 62-68) lays out that many 8-byte words: it falls short of the corrected size by seven bytes per word of the slice, and by one more word where the corrected bitmap needs it |
| `BuddyAlloc.MetaPagesNeeded` | kernel/src/mm/phys/raw_alloc.rs:119-130 | the page count `calculate_meta` reserves for metadata is at least one page |
| `BuddyAlloc.AllocSpec` | kernel/src/mm/phys/raw_alloc.rs:214-254 | the allocation `alloc_in_region` makes, as a function of the region's state: it takes the front block of the order or splits one from the order above, keeps the metadata except the free count, and lowers the free count by exactly `2^order`, which still counts the free lists |
| `BuddyAlloc.AllocSpecLists` | kernel/src/mm/phys/raw_alloc.rs:226-251 | the allocation pops the front of a non-empty list, leaves the upper half on an emptied list after a split, and leaves every lower order's list alone |
| `BuddyAlloc.AllocSpecBlock` | kernel/src/mm/phys/raw_alloc.rs:214-254 | the allocated block is aligned to its size, lies inside a block that was free, and every free list stays aligned |
| `BuddyAlloc.BuddyRegion.TryAlloc` | kernel/src/mm/phys/raw_alloc.rs:327-333 | one round of the `alloc_pages_unlocked` loop: it fails, changing nothing, exactly when the region's top order or free count is too small or no list from that order up holds a block; otherwise it allocates as `alloc_in_region` does, an aligned block that was free, and lowers the free count by `2^order` |
| `BuddyAlloc.BuddyRegion.AllocAgreeing` | kernel/src/mm/phys/raw_alloc.rs:214-254 | `alloc_in_region`'s search from an order upwards keeps the region valid, changes only the lists, bitmap and free count, and agrees with the specification of the allocation |
| `BuddyAlloc.BuddyRegion.TakeFront` | kernel/src/mm/phys/raw_alloc.rs:226-241 | taking the front block of a non-empty list agrees with the specification of the allocation |
| `BuddyAlloc.BuddyRegion.SplitFrom` | kernel/src/mm/phys/raw_alloc.rs:243-252 | on an empty list the allocation takes a block of the next order, keeps its lower half and puts the upper half back, agreeing with the specification of the allocation |
| `Mapper.CombineAsWritten` | lib/chos-lib/src/arch/x64/mm/mapper.rs:45-61 | `combine` as written, over `intersection` as written: it panics exactly when both flushes are ranges and the second ends before the first starts; otherwise the result is well formed, and a merged range has at most `FLUSH_MAX_INVLPG_FRAMES` frames and invalidates no address at all |
| `Mapper.Combine` | lib/chos-lib/src/arch/x64/mm/mapper.rs:45-61 | `combine` as intended: every address either flush invalidates stays invalidated, and a merged range has at most `FLUSH_MAX_INVLPG_FRAMES` frames |
| `Mapper.CombineLaws` | lib/chos-lib/src/arch/x64/mm/mapper.rs:46-59 | `All` absorbs any flush and `None` is the identity, on either side, in both versions |
| `Mapper.CombineAsWrittenMissesPage` | lib/chos-lib/src/arch/x64/mm/mapper.rs:48-57 | as written, combining the flushes of `[0x1000, 0x2000)` and `[0, 0x1000)` passes `intesects` and keeps the empty range `[0x1000, 0x1000)`, so pages 0 and 0x1000, which the two flushes need, stay stale in the TLB; the intended merge flushes `[0, 0x2000)` |
| `Mapper.CombineAsWrittenPanicsOrFlushesAll` | lib/chos-lib/src/arch/x64/mm/mapper.rs:48-57 | as written, combining `[0x2000, 0x3000)` with `[0, 0x1000)` panics in `FrameRange::new`, and combining the overlapping `[0, 0x2000)` and `[0x1000, 0x3000)` flushes everything |
| `Mapper.CreatePageEntry` | lib/chos-lib/src/arch/x64/mm/mapper.rs:370-391 | `create_page_entry`: a present entry for the address whose access bits are exactly those of the flags (no-execute without `EXEC`; `NOCACHE` sets both cache-disable and write-through), with a zero child count |
| `Mapper.HugePageEntry` | lib/chos-lib/src/arch/x64/mm/mapper.rs:242-244 | a 1 GiB or 2 MiB leaf is a present huge-page entry for the frame granting the flags |
| `Mapper.UpdatePageEntry` | lib/chos-lib/src/arch/x64/mm/mapper.rs:393-410 | `update_page_entry` keeps presence, address and count, grants what the flags ask, never revokes write, global or user access, never sets no-execute, and clears caching bits unless `NOCACHE` is asked |
| `Mapper.UpdateNeverRevokes` | lib/chos-lib/src/arch/x64/mm/mapper.rs:393-410 | whatever access an entry granted, it still grants after an update |
| `Mapper.UpdateAfterCreate` | lib/chos-lib/src/arch/x64/mm/mapper.rs:370-410 | updating an entry with the flags it was created with leaves it unchanged |
| `Mapper.IncChildAllocCount` | lib/chos-lib/src/arch/x64/mm/mapper.rs:412-415 | the count goes up by one and nothing else changes |
| `Mapper.DecChildAllocCount` | lib/chos-lib/src/arch/x64/mm/mapper.rs:417-421 | on a positive count (the subtraction would underflow otherwise) the count goes down by one, nothing else changes, and the result reports whether it reached zero |
| `Mapper.IncThenDec` | lib/chos-lib/src/arch/x64/mm/mapper.rs:412-421 | decrementing after incrementing gives the entry back and reports zero exactly when the count was zero |
| `Mapper.PresentCountZero` | lib/chos-lib/src/arch/x64/mm/mapper.rs:264-273 | a table counts no present entry exactly when none is present, which is when `unmap` may free it |
| `Mapper.EmptyTablesFacts` | lib/chos-lib/src/arch/x64/mm/paging.rs:57-61 | a hierarchy of empty tables keeps every count right and maps nothing |
| `Mapper.Map1GBranch` | lib/chos-lib/src/arch/x64/mm/mapper.rs:227-248 | `map` of a 1 GiB page within one PML4 entry: `AlreadyMapped` exactly when the slot holds a present entry; an allocation error (nothing changed) exactly when the table was missing and the allocator failed; on success the slot holds the huge-page leaf and the flush is `All` |
| `Mapper.Map1GBranchCounted` | lib/chos-lib/src/arch/x64/mm/mapper.rs:241-246 | the 1 GiB map keeps the PML4 entry's count equal to its table's present entries |
| `Mapper.Map1GBranchTranslate` | lib/chos-lib/src/arch/x64/mm/mapper.rs:227-248 | the 1 GiB map changes no walk outside its slot, and succeeds only where nothing was mapped |
| `Mapper.Map1GStep` | lib/chos-lib/src/arch/x64/mm/mapper.rs:227-248 | the same on the whole hierarchy, and on success the frame translates to the physical frame |
| `Mapper.Map1GKeepsCounted` | lib/chos-lib/src/arch/x64/mm/mapper.rs:241-246 | the 1 GiB map keeps every child count right |
| `Mapper.Map1GTranslate` | lib/chos-lib/src/arch/x64/mm/mapper.rs:227-248 | the 1 GiB map changes the translation of no address outside its 1 GiB slot, and succeeds only on an unmapped frame |
| `Mapper.CountedCanUnmap1G` | lib/chos-lib/src/arch/x64/mm/mapper.rs:264-265 | with the counts right, `unmap`'s decrement of the PML4 entry's count never underflows |
| `Mapper.Unmap1GBranch` | lib/chos-lib/src/arch/x64/mm/mapper.rs:250-275 | `unmap` of a 1 GiB page within one PML4 entry: `NotMapped` exactly when the entry or slot is absent, `InvalidSize` exactly when the slot is not a huge page, both changing nothing; the table frame is freed when the count reaches zero; the flush covers exactly that 1 GiB frame |
| `Mapper.Unmap1GBranchCounted` | lib/chos-lib/src/arch/x64/mm/mapper.rs:264-273 | the 1 GiB unmap keeps the count right, and frees the table only when it has no present entry left |
| `Mapper.Unmap1GBranchTranslate` | lib/chos-lib/src/arch/x64/mm/mapper.rs:250-275 | the 1 GiB unmap changes no walk outside its slot, and succeeds only on a mapped frame |
| `Mapper.Unmap1GStep` | lib/chos-lib/src/arch/x64/mm/mapper.rs:250-275 | the same on the whole hierarchy; on success the frame no longer translates |
| `Mapper.Unmap1GKeepsCounted` | lib/chos-lib/src/arch/x64/mm/mapper.rs:264-273 | the 1 GiB unmap keeps every child count right and frees only an empty table |
| `Mapper.Unmap1GTranslate` | lib/chos-lib/src/arch/x64/mm/mapper.rs:250-275 | the 1 GiB unmap changes no translation outside its slot, and succeeds only where a page was mapped |
| `Mapper.Map2MBranch` | lib/chos-lib/src/arch/x64/mm/mapper.rs:188-213 | `map` of a 2 MiB page within one PML4 entry: `AlreadyMapped` exactly when the directory slot is present or, corrected, when a 1 GiB leaf already covers the slot; allocation errors exactly when a needed table cannot be allocated, with the first frame handed back when only the second allocation fails; on success the page translates to the frame, except as written beneath a 1 GiB leaf, where it succeeds and the translation is left unchanged |
| `Mapper.Map2MBranchCounted` | lib/chos-lib/src/arch/x64/mm/mapper.rs:203-210 | the corrected 2 MiB map keeps every count of the branch right |
| `Mapper.Map2MBranchTranslate` | lib/chos-lib/src/arch/x64/mm/mapper.rs:188-213 | the 2 MiB map changes no walk outside its directory slot; corrected, it succeeds only where nothing was mapped, and as written also beneath a present 1 GiB leaf |
| `Mapper.Map2MStep` | lib/chos-lib/src/arch/x64/mm/mapper.rs:188-213 | the same on the whole hierarchy: `AlreadyMapped` exactly when the slot is taken (corrected: also by a 1 GiB leaf), and success makes the page translate to the frame except as written beneath a 1 GiB leaf, whose translation stays |
| `Mapper.Map2MKeepsCounted` | lib/chos-lib/src/arch/x64/mm/mapper.rs:203-210 | with the PML4 entry's count raised when a new directory is linked into its table, the 2 MiB map keeps every count right |
| `Mapper.Map2MTranslate` | lib/chos-lib/src/arch/x64/mm/mapper.rs:188-213 | the 2 MiB map changes the translation of no other 2 MiB slot; corrected, it succeeds only where nothing was mapped; as written, success over a mapped page leaves that page's translation as it was |
| `Mapper.Map2MCountSlip` | lib/chos-lib/src/arch/x64/mm/mapper.rs:207-210 | as written, a 2 MiB map that links a new directory under an existing table raises only the table's count, not the PML4 entry's; unmapping the 1 GiB neighbour then drops the count to zero, frees the table, and loses the 2 MiB mapping |
| `Mapper.Map2MCountFixed` | lib/chos-lib/src/arch/x64/mm/mapper.rs:207-210 | with the count raised, the same unmap leaves the 2 MiB mapping in place |
| `Mapper.Map1GIntoAbsent` | lib/chos-lib/src/arch/x64/mm/mapper.rs:233-246 | mapping a 1 GiB page under an absent PML4 entry allocates the table, and the entry counts one present entry |
| `Mapper.Map2MCountSlipRun` | lib/chos-lib/src/arch/x64/mm/mapper.rs:188-275 | the slip on concrete tables: map 1 GiB at 0, map 2 MiB at 1 GiB, unmap the 1 GiB page; the table frame is freed and 1 GiB no longer translates |
| `Mapper.Map2MOnlyWhereUnmapped` | lib/chos-lib/src/arch/x64/mm/mapper.rs:196-201 | the corrected 2 MiB map succeeds only where the page translated nowhere, and then translates it to the frame; a page already covered by a 1 GiB or 2 MiB leaf gets `AlreadyMapped` |
| `Mapper.Map2MUnderHugePage` | lib/chos-lib/src/arch/x64/mm/mapper.rs:196-201 | as written, a 2 MiB map beneath a present 1 GiB leaf treats the leaf's frame as a directory and returns `Ok`, while the page keeps translating to the 1 GiB frame, not to the new one; corrected, it is `AlreadyMapped` |
| `Mapper.Map2MUnderHugePageRun` | lib/chos-lib/src/arch/x64/mm/mapper.rs:188-213 | the same on concrete tables: map 1 GiB at virtual 0, then 2 MiB at virtual 0; as written the second map succeeds and 0 still translates to the 1 GiB frame |
| `OffsetMapping.MapRangeStep` | lib/chos-lib/src/arch/x64/mm/mapper.rs:289-293 | one round of `map_range`'s loop keeps its invariant: the frames done so far translate to their physical frames, were unmapped before, and nothing outside the range changed |
| `OffsetMapping.UnmapRangeStep` | lib/chos-lib/src/arch/x64/mm/mapper.rs:301-303 | one round of `unmap_range`'s loop keeps its invariant: the frames done so far no longer translate, were mapped before, and nothing outside the range changed |
| `OffsetMapping.OffsetMapper.constructor` | lib/chos-lib/src/arch/x64/mm/mapper.rs:70-72 | `OffsetMapper::new` over existing tables whose counts are right |
| `OffsetMapping.OffsetMapper.Map1G` | lib/chos-lib/src/arch/x64/mm/mapper.rs:227-248 | the mapper performs the 1 GiB map step in place, and its counts stay right |
| `OffsetMapping.OffsetMapper.Map2M` | lib/chos-lib/src/arch/x64/mm/mapper.rs:188-213 | the mapper performs the corrected 2 MiB map step in place, and its counts stay right |
| `OffsetMapping.OffsetMapper.Unmap1G` | lib/chos-lib/src/arch/x64/mm/mapper.rs:250-275 | the mapper performs the 1 GiB unmap step in place; the count never underflows |
| `OffsetMapping.OffsetMapper.MapRange1G` | lib/chos-lib/src/arch/x64/mm/mapper.rs:282-295 | `map_range` over 1 GiB frames: on success the flush is `None`, every frame of the range maps to the matching physical frame and was unmapped before; on any outcome no translation outside the range changes |
| `OffsetMapping.OffsetMapper.UnmapRange1G` | lib/chos-lib/src/arch/x64/mm/mapper.rs:296-309 | `unmap_range`: on success every frame of the range was mapped and no longer is, and the flush is `All` above `FLUSH_MAX_INVLPG_FRAMES` frames and the range otherwise; no translation outside the range changes |
| `Mapper.Translate` | lib/chos-lib/src/arch/x64/mm/mapper.rs:313-331 | `paddr_of` finds a 1 GiB or 2 MiB leaf exactly when the level-4 entry is present and the level-3 entry is a present huge page, or points on to a present huge level-2 entry; it then gives that leaf's frame |
| `Frame.TryNew` | lib/chos-lib/src/mm/mod.rs:82-91 | `try_new` succeeds exactly on an address that is a multiple of the frame size, and keeps the address |
| `Frame.New` | lib/chos-lib/src/mm/mod.rs:75-80 | `new` on an aligned address (it panics otherwise) gives the frame at that address |
| `Frame.NewAlignUp` | lib/chos-lib/src/mm/mod.rs:93-98 | `new_align_up` gives the first frame boundary at or above the address, less than one frame away |
| `Frame.NewAlignDown` | lib/chos-lib/src/mm/mod.rs:100-105 | `new_align_down` gives the frame boundary at or below the address that holds it |
| `Frame.RangeNew` | lib/chos-lib/src/mm/mod.rs:152-155 | `FrameRange::new` on `start <= end` (it asserts this) keeps both ends |
| `Frame.Intersection` | lib/chos-lib/src/mm/mod.rs:173-188 | `intersection` as intended: when it exists it holds exactly the addresses both ranges hold; `None` only when they share no address |
| `Frame.TryNewIffAligned` | lib/chos-lib/src/mm/mod.rs:82-91 | `try_new` accepts an address exactly when it is a frame boundary |
| `Frame.AddThenSub` | lib/chos-lib/src/mm/mod.rs:118-124 | `add(n)` then `sub(n)` returns the frame, and `add` keeps alignment |
| `Frame.ContainsIffAddresses` | lib/chos-lib/src/mm/mod.rs:169-192 | for a non-empty range, `contains` holds exactly when every address of it is in the other range |
| `Frame.IntersectionAsWrittenIsEmpty` | lib/chos-lib/src/mm/mod.rs:173-188 | as written, `intesects` demands `rhs.end <= self.start`, so any `Some` answer that does not panic is an empty range |
| `Frame.IntersectionAsWrittenMissesOverlap` | lib/chos-lib/src/mm/mod.rs:173-175 | as written, `[0, 0x2000)` and `[0x1000, 0x3000)` share the frame at 0x1000 but get `None` |
| `Frame.IntersectionAsWrittenPanics` | lib/chos-lib/src/mm/mod.rs:177-188 | as written, `[0x2000, 0x3000)` against `[0, 0x1000)` passes `intesects` and then `FrameRange::new`'s assertion fails |
| `Frame.IntersectionSymmetric` | lib/chos-lib/src/mm/mod.rs:177-188 | the intended intersection does not depend on the order of its arguments |
| `Frame.MapElfErrorFrom` | lib/chos-lib/src/mm/mod.rs:296-303 | the conversion to `MapElfError` never yields `InvalidAlignment`, keeps `AlreadyMapped`, and keeps the allocator error |
| `Frame.MapElfErrorFromInjective` | lib/chos-lib/src/mm/mod.rs:296-303 | distinct map errors convert to distinct `MapElfError`s |
| `Frame.RangeIter.constructor` | lib/chos-lib/src/mm/mod.rs:199-210 | a range iterator starts at the range's start |
| `Frame.RangeIter.Next` | lib/chos-lib/src/mm/mod.rs:199-210 | `next` yields the start frame and moves the start one frame on while `start < end`, and otherwise yields `None` and changes nothing |
| `Frame.Frames` | lib/chos-lib/src/mm/mod.rs:199-210 | draining a range yields `frame_count` frames, ascending one frame apart from the start, all inside the range |
| `Frame.AddFrames` | lib/chos-lib/src/mm/mod.rs:118-120 | `add(count)` moves the frame up by exactly `count` frames, and keeps an aligned frame aligned |
| `Frame.SubFrames` | lib/chos-lib/src/mm/mod.rs:122-124 | `sub(count)` moves the frame down by exactly `count` frames, and keeps an aligned frame aligned |
| `Frame.FrameCount` | lib/chos-lib/src/mm/mod.rs:165-167 | `frame_count` is the number of whole frames between the two ends; for aligned ends they are exactly that many frames apart |
| `Frame.Contains` | lib/chos-lib/src/mm/mod.rs:169-171 | `contains` on a non-empty `rhs` holds exactly when every address of `rhs` is in `self` |
| `Frame.ContainsAddress` | lib/chos-lib/src/mm/mod.rs:190-192 | `contains_address` is the half-open test, which only a non-empty range passes |
| `Frame.IntersectsAsWritten` | lib/chos-lib/src/mm/mod.rs:173-175 | as written, `intesects` holds only when `rhs` ends at or before `self` starts, so the ranges it reports share no address |
| `Frame.IntersectionAsWritten` | lib/chos-lib/src/mm/mod.rs:177-188 | as written, `intersection` is `None` exactly when `intesects` fails, and any non-panicking answer is the empty range at `self.start` |
| `Frame.Intersects` | lib/chos-lib/src/mm/mod.rs:173-175 | the overlap test the name promises holds exactly when the later start is at most the earlier end |
| `Addr.VTryNew` | lib/chos-lib/src/mm/addr.rs:174-180 | `VAddr::try_new` succeeds exactly on an address in the low or the high half of the address space, and keeps it |
| `Addr.VMakeCanonical` | lib/chos-lib/src/mm/addr.rs:205-207 | `VAddr::make_canonical` always gives a canonical address |
| `Addr.PageSizeIsShift` | lib/chos-lib/src/mm/mod.rs:247-249 | each frame size's `PAGE_SIZE` is `1 << PAGE_SHIFT` |
| `Addr.DefaultMasks` | lib/chos-lib/src/arch/x64/mm/mod.rs:7-10 | the default page is 4 KiB and the complement of its `PAGE_MASK` is the 12 offset bits |
| `Addr.IsPageAlignedIffMultiple` | lib/chos-lib/src/mm/addr.rs:41-43 | `is_page_aligned` (of both address kinds, line 217 too) holds exactly for multiples of 4096 |
| `Addr.AlignDownIsMask` | lib/chos-lib/src/mm/addr.rs:49-51 | dividing by the page size and multiplying back clears the 12 offset bits |
| `Addr.AlignDownBounds` | lib/chos-lib/src/mm/addr.rs:49-51 | `align_page_down` gives a multiple of 4096 at most 4095 below the address |
| `Addr.AlignUpBounds` | lib/chos-lib/src/mm/addr.rs:45-47 | `align_page_up` succeeds exactly when the address is at most `0xffff_ffff_ffff_f000`, and then gives a multiple of 4096 at most 4095 above it |
| `Addr.VAlignDownCanonical` | lib/chos-lib/src/mm/addr.rs:225-227 | rounding a canonical virtual address down never panics and agrees with the physical rounding |
| `Addr.AlignedDownStaysCanonical` | lib/chos-lib/src/mm/addr.rs:225-227 | rounding down keeps an address in its half |
| `Addr.VAlignUpAcrossHole` | lib/chos-lib/src/mm/addr.rs:221-223 | rounding up just below the non-canonical hole panics in `VAddr::new` |
| `Addr.FrameOffsetRecompose` | lib/chos-lib/src/mm/addr.rs:73-77 | `frame_offset`: the frame part is aligned to the frame size, the offset is below it, and the two add up to the address |
| `Addr.SplitBounds` | lib/chos-lib/src/mm/addr.rs:331-339 | `split`: each table index is below 512 and the offset below 4096 |
| `Addr.SplitRecompose` | lib/chos-lib/src/mm/addr.rs:331-339 | the four indices and the offset rebuild the low 48 bits of the address |
| `Canonical.IsCanonicalIffHalves` | lib/chos-lib/src/arch/x64/mm/mod.rs:15-20 | `is_canonical` holds exactly for addresses in the low half (below `0x0000_8000_0000_0000`) or the high half (from `0xffff_8000_0000_0000`) |
| `Canonical.MakeCanonicalIsCanonical` | lib/chos-lib/src/arch/x64/mm/mod.rs:22-28 | `make_canonical` always gives a canonical address |
| `Canonical.MakeCanonicalIdentity` | lib/chos-lib/src/arch/x64/mm/mod.rs:22-28 | `make_canonical` leaves a canonical address unchanged |
| `Canonical.MakeCanonicalIdempotent` | lib/chos-lib/src/arch/x64/mm/mod.rs:22-28 | applying `make_canonical` twice is applying it once |
| `Canonical.CanonicalMaskValue` | lib/chos-lib/src/arch/x64/mm/mod.rs:15-16 | `CANONICAL_MASK` is bits 47 to 63 |
| `Canonical.MakeCanonicalHighHalf` | lib/chos-lib/src/arch/x64/mm/mod.rs:22-28 | an address with any of bits 47 to 63 set goes to the high half, any other stays in the low half |
| `Canonical.CanonicalExamples` | lib/chos-lib/src/arch/x64/mm/mod.rs:34-51 | the module's tests: the canonical and non-canonical examples and the six `make_canonical` results |
| `Addr.VNew` | lib/chos-lib/src/mm/addr.rs:174-191 | `VAddr::new` (through `try_new`) accepts an address exactly when it is in the low or the high half, and keeps it; `None` stands for the panic |
| `Addr.PAlignPageUp` | lib/chos-lib/src/mm/addr.rs:45-47 | physical `align_page_up` has a result exactly when rounding up to 4096 does not overflow 64 bits |
| `Addr.PAlignPageDown` | lib/chos-lib/src/mm/addr.rs:49-51 | physical `align_page_down` clears the 12 offset bits and moves the address down by less than one page |
| `Addr.Page` | lib/chos-lib/src/mm/addr.rs:53-55 | `page()`, shared by `PAddr` and `VAddr` (the same body at lines 229-231): the page number fits in 52 bits and, shifted back with the 12 offset bits, gives the address |
| `Addr.PFrameOffset` | lib/chos-lib/src/mm/addr.rs:73-77 | physical `frame_offset`: a frame aligned to the frame size plus an offset below the frame size, adding up to the address |
| `Addr.VAlignPageUp` | lib/chos-lib/src/mm/addr.rs:221-223 | virtual `align_page_up` gives a canonical address when it does not panic, and never succeeds above `0xffff_ffff_ffff_f000` |
| `Addr.VAlignUpIsPhysical` | lib/chos-lib/src/mm/addr.rs:221-223 | virtual `align_page_up` panics exactly when the physical rounding overflows or its result is not canonical; otherwise it is the physical result: page-aligned, at least the address and less than a page above it |
| `Addr.VAlignPageDown` | lib/chos-lib/src/mm/addr.rs:225-227 | virtual `align_page_down` never panics on a canonical address |
| `Addr.VFrameOffset` | lib/chos-lib/src/mm/addr.rs:233-240 | virtual `frame_offset`: a frame aligned to the frame size plus an offset below the frame size, adding up to the address |
| `Addr.VSplit` | lib/chos-lib/src/mm/addr.rs:331-339 | `split` gives four 9-bit table indices and a 12-bit offset which, shifted into place, rebuild the low 48 bits of the address |
| `Canonical.IsCanonical` | lib/chos-lib/src/arch/x64/mm/mod.rs:18-20 | `is_canonical` holds exactly for an address in the low or the high half |
| `Canonical.MakeCanonical` | lib/chos-lib/src/arch/x64/mm/mod.rs:22-28 | `make_canonical` gives a canonical address with the input's low 47 bits, and leaves a canonical address unchanged |
| `Bitfield.MaskExactBits` | lib/chos-lib/src/bitfield.rs:79-82 | the mask `((1 << bits) - 1) << from` has exactly the bits `from..=to` set |
| `Bitfield.GetBitsBits` | lib/chos-lib/src/bitfield.rs:86-91 | bit `k` of `get_bits` is bit `from + k` of the word for `k` within the field width, and clear above it |
| `Bitfield.GetBitsBound` | lib/chos-lib/src/bitfield.rs:86-91 | `get_bits` is below `2^(to - from + 1)` |
| `Bitfield.SetBitsKeepsOtherBits` | lib/chos-lib/src/bitfield.rs:94-99 | `set_bits` leaves every bit outside `from..=to` as it was |
| `Bitfield.SetBitsWritesField` | lib/chos-lib/src/bitfield.rs:94-99 | inside the field, `set_bits` writes the low bits of the new value |
| `Bitfield.GetAfterSet` | lib/chos-lib/src/bitfield.rs:86-99 | reading a field after writing it gives the written value cut to the field width |
| `Bitfield.SetOwnValue` | lib/chos-lib/src/bitfield.rs:86-99 | writing back the value a field holds leaves the word unchanged |
| `Bitfield.SetBitsBound` | lib/chos-lib/src/bitfield.rs:94-99 | `set_bits` keeps a 64-bit word within 64 bits |
| `Bitfield.BoolRoundTrip` | lib/chos-lib/src/bitfield.rs:54-68 | a `bool` survives `into_repr` then `from_repr`; a representation survives the reverse trip exactly when it is 0 or 1 |
| `Cpumask.EmptyHasNoCpus` | lib/chos-lib/src/cpumask.rs:11-13 | `empty` holds no CPU |
| `Cpumask.CpuIsSingleton` | lib/chos-lib/src/cpumask.rs:15-17 | `cpu(n)`, for `n < 64`, holds exactly CPU `n` |
| `Cpumask.UnionIsSetUnion` | lib/chos-lib/src/cpumask.rs:23-25 | `union` (and `\|`, `\|=`) is the union of the CPU sets |
| `Cpumask.IntersectionIsSetIntersection` | lib/chos-lib/src/cpumask.rs:27-29 | `intersection` (and `&`, `&=`) is the intersection of the CPU sets |
| `Cpumask.DifferenceIsSetDifference` | lib/chos-lib/src/cpumask.rs:19-21 | `difference` (and `-`, `-=`) is the set difference |
| `Cpumask.ZeroIffNoCpus` | lib/chos-lib/src/cpumask.rs:99 | the iterator's word is zero exactly when no CPU is left |
| `Cpumask.ClearLowest` | lib/chos-lib/src/cpumask.rs:100-101 | `trailing_zeros` of a non-zero word is its lowest CPU, and clearing that bit removes exactly that CPU |
| `Cpumask.CpumaskIter.constructor` | lib/chos-lib/src/cpumask.rs:31-33 | `iter` starts from the mask's word |
| `Cpumask.CpumaskIter.Next` | lib/chos-lib/src/cpumask.rs:98-104 | `next` returns `None` exactly when no bit is left (changing nothing); otherwise it returns the lowest CPU left and removes exactly it |
| `Cpumask.ListLowest` | lib/chos-lib/src/cpumask.rs:98-104 | taking the lowest remaining CPU keeps the list increasing and below every CPU left |
| `Cpumask.ListCpus` | lib/chos-lib/src/cpumask.rs:40-45 | draining `iter()`, as `Debug` does, lists every CPU of the mask exactly once in increasing order |
| `Duration.FromSecs` | lib/chos-lib/src/duration.rs:12-14 | `from_secs` is that many seconds, with the nanoseconds below a second |
| `Duration.FromMillis` | lib/chos-lib/src/duration.rs:16-21 | `from_millis` is that many milliseconds |
| `Duration.FromMicros` | lib/chos-lib/src/duration.rs:23-28 | `from_micros` is that many microseconds |
| `Duration.FromNanos` | lib/chos-lib/src/duration.rs:30-35 | `from_nanos` is that many nanoseconds |
| `Duration.AsNanos` | lib/chos-lib/src/duration.rs:37-39 | `as_nanos` fits in a `u64` when the caller keeps the total within one (the multiplication overflows otherwise) |
| `Duration.AsMillis` | lib/chos-lib/src/duration.rs:41-43 | `as_millis` as intended: the whole milliseconds in the duration |
| `Duration.AsMicros` | lib/chos-lib/src/duration.rs:45-47 | `as_micros` as intended: the whole microseconds in the duration |
| `Duration.CheckedAdd` | lib/chos-lib/src/duration.rs:53-62 | `checked_add` returns `None` exactly when the sum does not fit `u64` seconds; otherwise the sum of the lengths, normalised |
| `Duration.CheckedSub` | lib/chos-lib/src/duration.rs:64-74 | `checked_sub` returns `None` exactly when the right side is longer; otherwise the difference, normalised |
| `Duration.Add` | lib/chos-lib/src/duration.rs:77-82 | `+` panics on overflow (a caller obligation here) and otherwise adds the lengths |
| `Duration.Sub` | lib/chos-lib/src/duration.rs:84-89 | `-` panics on underflow (a caller obligation here) and otherwise subtracts the lengths |
| `Duration.TotalNanosInjective` | lib/chos-lib/src/duration.rs:5-9 | two normalised durations of the same length are equal, so the derived equality is equality of lengths |
| `Duration.NanosRoundTrip` | lib/chos-lib/src/duration.rs:30-39 | `as_nanos(from_nanos(n)) == n`, and `from_nanos(as_nanos(d)) == d` for every duration whose nanoseconds fit a `u64` |
| `Duration.LessIsShorter` | lib/chos-lib/src/duration.rs:5 | the derived order (seconds, then nanoseconds) is the order of lengths |
| `Duration.AddThenSub` | lib/chos-lib/src/duration.rs:53-74 | subtracting what was added gives the duration back |
| `Duration.AsMillisMicrosSwapped` | lib/chos-lib/src/duration.rs:41-47 | as written, `as_millis` of one second is 1,000,000 and `as_micros` is 1,000: the two bodies are swapped |
| `Duration.MillisMicrosRoundTrip` | lib/chos-lib/src/duration.rs:16-28 | with the intended bodies, `as_millis(from_millis(m)) == m` and `as_micros(from_micros(m)) == m` |
| `Duration.DurationExamples` | lib/chos-lib/src/duration.rs:94-120 | the constructor tests: one second, 1100 ms, 1,100,000 µs and 1,100,000,000 ns |
| `Duration.DurationArithmeticExamples` | lib/chos-lib/src/duration.rs:122-142 | the `+` and `-` tests, including the carry and the borrow |
| `Bitfield.GetBits` | lib/chos-lib/src/bitfield.rs:86-91 | `get_bits(from, to)` is a value of `to - from + 1` bits, the width of the mask `from..=to` |
| `Bitfield.SetBits` | lib/chos-lib/src/bitfield.rs:94-99 | after `set_bits(from, to, bits)` the field reads back the low `to - from + 1` bits of `bits` |
| `Cpumask.Empty` | lib/chos-lib/src/cpumask.rs:11-13 | `empty()` is a 64-bit mask with no CPU set |
| `Cpumask.Cpu` | lib/chos-lib/src/cpumask.rs:15-17 | `cpu(n)` is a 64-bit mask holding CPU `n` and no other |
| `Cpumask.Difference` | lib/chos-lib/src/cpumask.rs:19-21 | `difference` holds a CPU exactly when the first mask does and the second does not |
| `Cpumask.Union` | lib/chos-lib/src/cpumask.rs:23-25 | `union` holds a CPU exactly when either mask does |
| `Cpumask.Intersection` | lib/chos-lib/src/cpumask.rs:27-29 | `intersection` holds a CPU exactly when both masks do |
| `Duration.AsSecs` | lib/chos-lib/src/duration.rs:49-51 | `as_secs` is the number of whole seconds in the duration |
| `Duration.AsMillisAsWritten` | lib/chos-lib/src/duration.rs:41-43 | as written, `as_millis` gives the microsecond count |
| `Duration.AsMicrosAsWritten` | lib/chos-lib/src/duration.rs:45-47 | as written, `as_micros` gives the millisecond count |
| `Bitmap.GetBit` | lib/chos-lib/src/bitmap.rs:46-49 | `get_bit(i)` is false in an all-zero word and true in an all-ones word |
| `Timer.NsPerTick` | kernel/src/timer.rs:25 | `NS_PER_TICKS` is at least one nanosecond and is `10^9 / TICKS_HZ` rounded down |
| `Timer.DurationToTicks` | kernel/src/timer.rs:92-94 | the tick count of a duration fits a `u64` |
| `Timer.DurationToTicksIsCeiling` | kernel/src/timer.rs:92-94 | for a duration below 2^64 ns, the tick count is the least number of ticks that lasts at least the duration |
| `Timer.DurationToTicksOfWholeTicks` | kernel/src/timer.rs:92-94 | a duration of exactly `n` ticks converts to `n` |
| `Timer.LongDurationTruncates` | kernel/src/timer.rs:93 | a duration of exactly 2^64 ns converts to zero ticks, because `as_nanos() as u64` cuts it |
| `Timer.Add` | kernel/src/timer.rs:212-220 | `Instant + Duration` fails exactly when the tick sum overflows a `u64`; otherwise it moves the instant on by the duration's ticks |
| `Timer.AddToInstant` | kernel/src/timer.rs:222-230 | `Duration + Instant` is the same as `Instant + Duration` |
| `Timer.Sub` | kernel/src/timer.rs:237-245 | `Instant - Duration` fails exactly when the duration's ticks exceed the instant; otherwise it moves the instant back by them |
| `Timer.SubFromDuration` | kernel/src/timer.rs:247-253 | `Duration - Instant` fails exactly when the instant exceeds the duration's ticks; otherwise it is their difference |
| `Timer.AddSubRoundTrip` | kernel/src/timer.rs:212-258 | subtracting a duration after adding it, or adding it after subtracting it, gives the instant back |
| `Timer.AddWaitsAtLeast` | kernel/src/timer.rs:92-220 | the instant `now + d` lies at least `d` of nanoseconds after `now` |
| `Timer.TimerCmpReverses` | kernel/src/timer.rs:46-50 | with the reversed order, a greatest timer (the top of the max-heap) is exactly one with the earliest deadline |
| `Timer.DueCount` | kernel/src/timer.rs:70-83 | the timers popped on a tick are the prefix of the heap whose deadlines have passed; the next one has not |
| `Timer.DueCountSplits` | kernel/src/timer.rs:70-83 | in a heap ordered by deadline, a timer is popped on tick `t` exactly when its deadline is at most `t` |
| `Timer.PushPos` | kernel/src/timer.rs:120-123 | a pushed timer goes before every timer due later and after every timer due earlier; that it goes after the timers with the same deadline is the model's choice, since `BinaryHeap` leaves that order open |
| `Timer.PushKeepsOrder` | kernel/src/timer.rs:120-123 | pushing a new timer at that place keeps the heap ordered by deadline and free of duplicates |
| `Timer.WakersOf` | kernel/src/timer.rs:76-78 | a popped timer yields a waker to wake only when one was registered |
| `Timer.Timers.constructor` | kernel/src/timer.rs:96-99 | `init_timer` starts with an empty heap and `TICKS` at zero |
| `Timer.Timers.Now` | kernel/src/timer.rs:204-206 | `Instant::now` is the current tick count |
| `Timer.Timers.DelayUntil` | kernel/src/timer.rs:125-135 | `delay_until` creates a fresh timer, not ready and with no waker, and adds exactly it to the heap at its deadline's place |
| `Timer.Timers.Delay` | kernel/src/timer.rs:137-139 | `delay(d)` is `delay_until(now + d)`: it fails exactly when `now + d` overflows, and otherwise adds one timer due then |
| `Timer.Timers.Poll` | kernel/src/timer.rs:106-118 | polling a `Delay` is ready exactly when its timer has fired; when pending it stores the task's waker; the heap and the flags do not change |
| `Timer.Timers.OnTickMainCpu` | kernel/src/timer.rs:65-86 | a tick raises `TICKS` by one, pops exactly the timers now due, marks each ready, takes its waker and wakes it, and leaves every other timer alone |
| `Timer.DrainDue` | kernel/src/timer.rs:70-83 | the `while let` loop over the heap: it stops at the first timer not yet due, and what it pops, wakes and marks is exactly the due prefix |
| `Timer.PushOrdersByDeadline` | kernel/src/timer.rs:120-123 | worked cases: a later deadline goes after, an earlier one before |
| `Timer.FirstTickFiresEarliest` | kernel/src/timer.rs:65-86 | a scenario: with timers due at ticks 1 and 2, the tick to 1 pops only the first, which has no waker, so nothing is woken |
| `Timer.SecondTickWakes` | kernel/src/timer.rs:65-86 | a scenario: the tick to 2 pops the remaining timer and wakes the task that had polled it, leaving the heap empty |
| `Oneshot.Channel.constructor` | kernel/src/async_/oneshot.rs:98-109 | `channel()` starts `Pending` with no waker |
| `Oneshot.Channel.Send` | kernel/src/async_/oneshot.rs:29-39 | `send` succeeds exactly on a `Pending` channel, stores the value and hands back the waker to wake; a second send panics with "send() called twice", a send after the receiver took the value with "send called after drop" |
| `Oneshot.Channel.PollAsWritten` | kernel/src/async_/oneshot.rs:85-95 | `poll` as written: it always leaves the state `Dropped`, even when it returns `Pending` |
| `Oneshot.Channel.Poll` | kernel/src/async_/oneshot.rs:85-95 | `poll` as intended: `Pending` stays `Pending` and stores the waker; `Ready(v)` yields `v` and the channel is then dropped; polling a dropped channel panics with "Sender dropped" |
| `Oneshot.SendThenPoll` | kernel/src/async_/oneshot.rs:29-95 | send then poll yields the value; a second poll panics |
| `Oneshot.PollSendPoll` | kernel/src/async_/oneshot.rs:29-95 | with the intended `poll`: a poll before the send registers the waker, the send returns it to wake, and the next poll yields the value |
| `Oneshot.SendTwicePanics` | kernel/src/async_/oneshot.rs:33 | a second `send` panics |
| `Oneshot.PollBeforeSendPanics` | kernel/src/async_/oneshot.rs:34-90 | with `poll` as written, polling before the send marks the channel dropped, so the later `send` panics with "send called after drop" |
| `TarUtil.Octal` | lib/chos-lib/src/tar/util.rs:4-14 | octal parsing succeeds exactly when every byte is a digit `0`-`7`, and its value is below `8^len` |
| `TarUtil.ReadAsciiOctal` | lib/chos-lib/src/tar/util.rs:4-14 | the loop `res = res * 8 + digit` computes that value, or fails at the first byte that is not a digit |
| `TarUtil.OctalExample` | lib/chos-lib/src/tar/util.rs:31-36 | `"30071"` reads as 12345 |
| `TarUtil.ToOctal` | lib/chos-lib/src/tar/util.rs:4-14 | writing a number as `w` octal digits gives exactly `w` digit bytes |
| `TarUtil.OctalRoundTrip` | lib/chos-lib/src/tar/util.rs:4-14 | a number below `8^w`, written as `w` octal digits, reads back as itself |
| `TarUtil.TrimNulls` | lib/chos-lib/src/tar/util.rs:16-23 | `trim_nulls` is the longest prefix without a NUL, cut at the first NUL when there is one |
| `TarUtil.TrimNullsExamples` | lib/chos-lib/src/tar/util.rs:38-50 | the two tests: trailing NULs are cut, and bytes without a NUL come back whole |
| `TarUtil.TrimNullsNoNull` | lib/chos-lib/src/tar/util.rs:16-23 | bytes without a NUL are returned whole |
| `TarUtil.TrimNullsOfPadded` | lib/chos-lib/src/tar/util.rs:16-23 | a NUL-free name padded with a NUL and anything after trims back to the name |
| `TarUtil.TrimNullsIdempotent` | lib/chos-lib/src/tar/util.rs:16-23 | trimming twice is trimming once |
| `TarUtil.ReadAsciiOctalTrim` | lib/chos-lib/src/tar/util.rs:25-27 | `read_ascii_octal_trim` parses the bytes before the first NUL |
| `Tar.New` | lib/chos-lib/src/tar/mod.rs:23-27 | `Tar::new` accepts exactly the byte strings whose length is a multiple of 512, and keeps them |
| `Tar.HeaderSize` | lib/chos-lib/src/tar/raw.rs:81-83 | a header's size field, read as octal up to its first NUL, is below `8^12` |
| `Tar.Step` | lib/chos-lib/src/tar/mod.rs:72-88 | one step of `TarIter::next`: the cursor stays on a 512-byte boundary within the archive, and moves forward exactly when an entry is returned |
| `Tar.StepEntry` | lib/chos-lib/src/tar/mod.rs:75-83 | an entry returned starts at the cursor, its contents are the `size` bytes after its header, and the cursor moves past them, padded to a block |
| `Tar.StepEnds` | lib/chos-lib/src/tar/mod.rs:73-79 | the walk ends exactly at the end of the bytes or at a header with size zero and an empty name, and the cursor stays put |
| `Tar.ZeroHeaderEnds` | lib/chos-lib/src/tar/mod.rs:77-79 | an all-zero block, the end-of-archive marker, ends the walk |
| `Tar.StepYields` | lib/chos-lib/src/tar/mod.rs:75-83 | a header with a name and a size whose contents fit yields exactly those contents |
| `Tar.TarIter.constructor` | lib/chos-lib/src/tar/mod.rs:29-35 | `iter` starts at the first byte of a valid archive |
| `Tar.TarIter.Next` | lib/chos-lib/src/tar/mod.rs:72-88 | `next` returns what the step function returns and moves the cursor where it says |
| `Tar.HeaderBlockFields` | lib/chos-lib/src/tar/raw.rs:29-47 | a header written for a file holds its name, its size in octal and no ustar signature at the offsets `FileHeader` reads |
| `Tar.OneFileRoundTrip` | lib/chos-lib/src/tar/mod.rs:72-88 | an archive holding one file, followed by the two zero blocks, yields that file and then ends |
| `Tar.StepAsWritten` | lib/chos-lib/src/tar/mod.rs:72-88 | `next` as written keeps the cursor on block boundaries, but never checks that the contents fit |
| `Tar.ContentsRunPastEnd` | lib/chos-lib/src/tar/mod.rs:80-82 | a single header block that claims one byte of contents: as written, `next` builds a slice one byte past the end of the archive; the corrected step reports `ContentsPastEnd` |
| `Path.Classify` | kernel/src/fs/path.rs:74-79 | the text before a separator is `RootDir` exactly when it is empty, `CurDir` exactly when it is `.`, `ParentDir` exactly when it is `..`, and otherwise `Normal` of that text |
| `Path.SepIndex` | kernel/src/fs/path.rs:73 | `find(SEPARATOR).unwrap_or(len)`: the first separator, or the length when there is none |
| `Path.SkipSeps` | kernel/src/fs/path.rs:80-82 | the loop stops on the first byte that is not a separator, having skipped only separators |
| `Path.StepFacts` | kernel/src/fs/path.rs:69-85 | one `next` on a non-empty path shortens it, leaves it not starting with a separator, yields `RootDir` exactly when the path is absolute, and yields `Normal` names that are non-empty and hold no separator |
| `Path.ComponentsOf` | kernel/src/fs/path.rs:67-86 | the components of a path: none exactly for the empty path, `RootDir` first exactly for an absolute path and never after, and `Normal` names without separators |
| `Path.Components.constructor` | kernel/src/fs/path.rs:33-37 | `components` starts on the whole path |
| `Path.Components.Next` | kernel/src/fs/path.rs:69-85 | `next` returns `None` on an empty path and otherwise the first component, leaving the rest of the path |
| `Path.Components.Collect` | kernel/src/fs/path.rs:67-86 | draining the iterator gives exactly the components of the path, and leaves it empty |
| `Path.NonEmpty` | kernel/src/fs/path.rs:80-82 | runs of separators contribute no component: the pieces kept are the non-empty ones |
| `Path.ComponentsOfIsReference` | kernel/src/fs/path.rs:67-86 | the walk agrees with a definition by splitting: a root for an absolute path, then one component per non-empty piece between separators |
| `Path.AbsoluteIffRootFirst` | kernel/src/fs/path.rs:39-45 | a path is absolute exactly when its first component is `RootDir`, and relative exactly when it is not |
| `Path.ComponentsExample` | kernel/src/fs/path.rs:67-86 | `/a` has the components `RootDir`, `Normal("a")` |
| `CmdLine.ParseArg` | boot/src/arch/x64/cmdline.rs:11-16 | an argument splits at its first `=` into a key without `=` and the rest as value; without `=`, it is a bare key; either way key, `=` and value give the argument back |
| `CmdLine.IterCmdline` | boot/src/arch/x64/cmdline.rs:20-24 | `iter_cmdline` yields one argument per piece of `split(' ')`, and no key holds a space or `=` |
| `CmdLine.RenderParseArg` | boot/src/arch/x64/cmdline.rs:11-16 | rendering a parsed argument gives back the text it came from |
| `CmdLine.RenderIterCmdline` | boot/src/arch/x64/cmdline.rs:7-24 | joining the parsed arguments with spaces gives back the command line |
| `CmdLine.ItemCount` | boot/src/arch/x64/cmdline.rs:20-24 | there is one argument more than there are spaces |
| `CmdLine.ParseKeyValue` | boot/src/arch/x64/cmdline.rs:13 | `console=ttyS0` is the key `console` with the value `ttyS0` |
| `CmdLine.ParseBare` | boot/src/arch/x64/cmdline.rs:14 | `quiet` is a bare key |
| `CmdLine.ParseSecondEquals` | boot/src/arch/x64/cmdline.rs:12-13 | `a=b=c` splits at the first `=`: key `a`, value `b=c` |
| `CmdLine.EmptyCmdline` | boot/src/arch/x64/cmdline.rs:20-24 | an empty command line still yields one argument, the empty bare key |
| `Str.Find` | kernel/src/fs/path.rs:73 | `str::find` of a character: none exactly when it does not occur, otherwise its first position |
| `Str.Split` | boot/src/arch/x64/cmdline.rs:22 | `str::split` of a character: at least one piece, and no piece holds the separator |
| `Str.JoinSplit` | boot/src/arch/x64/cmdline.rs:22 | joining the pieces of a split with the separator gives the string back |
| `Str.SplitJoin` | boot/src/arch/x64/cmdline.rs:22 | splitting a join of pieces that hold no separator gives the pieces back |
| `Str.SplitCount` | boot/src/arch/x64/cmdline.rs:22 | a split has one piece more than there are separators |
| `Str.SplitExample` | boot/src/arch/x64/cmdline.rs:22 | `"a  b"` splits at spaces into `"a"`, `""`, `"b"`, and the empty string into one empty piece |
| `Path.AbsoluteIffLeadingSeparator` | kernel/src/fs/path.rs:39-41 | `is_absolute` holds exactly when the first separator is at index 0 |
| `Path.RelativeIffNoLeadingSeparator` | kernel/src/fs/path.rs:43-45 | `is_relative` holds exactly when the path is empty or does not start with a separator |
| `Str.Join` | boot/src/arch/x64/cmdline.rs:22 | joining pieces starts with the first piece and, when no piece holds the separator, puts in one separator fewer than pieces |
| `CmdLine.Render` | boot/src/arch/x64/cmdline.rs:11-16 | writing an argument as `key=value` (or a bare key) is what the argument parser reads back as that argument, when the key holds no `=` |
| `Fmt.Split` | lib/chos-lib/src/fmt.rs:7-19 | `Bytes::split` as written: MiB, KiB and B are each below 1024, the GiB count is cut to 16 bits, and the parts add back up to the count only below 64 TiB |
| `Fmt.SplitLosesGigabytes` | lib/chos-lib/src/fmt.rs:12-18 | 64 TiB splits into four zeros, so it would be shown as `(0B)` |
| `Fmt.SplitExact` | lib/chos-lib/src/fmt.rs:7-19 | the corrected split: MiB, KiB and B below 1024, and the parts always add back up to the count |
| `Fmt.SplitAgrees` | lib/chos-lib/src/fmt.rs:7-19 | below 64 TiB, the split as written agrees with the corrected one |
| `Fmt.SplitUnique` | lib/chos-lib/src/fmt.rs:7-19 | the split is the only one with MiB, KiB and B below 1024 that adds up to the count |
| `Fmt.Shown` | lib/chos-lib/src/fmt.rs:28-41 | `fmt_bytes` shows between one and four numbers: the leading units that are zero are left out, and the bytes are always shown last |
| `Fmt.ShownValue` | lib/chos-lib/src/fmt.rs:27-41 | leaving out the leading zero units loses nothing: the numbers shown, each times its unit, add up to the count |
| `Fmt.FmtBytes` | lib/chos-lib/src/fmt.rs:22-43 | `fmt_bytes` over the corrected split (whole gigabyte count): the display is `(`, then each shown number rendered by `fmt` and followed by its unit, then `)`; it opens with `(` and ends with `B)` |
| `Fmt.FmtBytesAddsUp` | lib/chos-lib/src/fmt.rs:22-43 | the corrected display reads back as the count: one to four rendered numbers with their units, worth the count together, ending with the bytes, the first not zero unless it is the bytes alone |
| `Fmt.FmtBytesAsWritten` | lib/chos-lib/src/fmt.rs:7-43 | `fmt_bytes` as written, over the `u16` split, displays the count with its gigabytes cut to 16 bits, which is the corrected display of the count itself below 64 TiB |
| `Fmt.SizeWriter.constructor` | lib/chos-lib/src/fmt.rs:81-83 | `SizeWriter::new` starts at size zero |
| `Fmt.Utf8Bytes` | lib/chos-lib/src/fmt.rs:92 | `str::len`, the UTF-8 byte length of a text, lies between its number of characters and four times that |
| `Fmt.Utf8BytesAppend` | lib/chos-lib/src/fmt.rs:92 | the byte length of two texts joined is the sum of their byte lengths |
| `Fmt.Utf8BytesAscii` | lib/chos-lib/src/fmt.rs:92 | a text has exactly as many bytes as characters if and only if it is ASCII |
| `Fmt.SizeWriter.WriteStr` | lib/chos-lib/src/fmt.rs:91-94 | `write_str` never fails, and adds the UTF-8 byte length of the string to the size |
| `Fmt.SizeOfFmt` | lib/chos-lib/src/fmt.rs:97-103 | `size_of_fmt` is the UTF-8 byte length of the text the arguments format to, which equals its number of characters if and only if the text is ASCII |
| `Fmt.SizeOfFmtExamples` | lib/chos-lib/src/fmt.rs:110-121 | the five `size_writer` test cases (0, 5, 1, 9 and 11), and the two-byte character U+00E9 counted as 2 |
| `GnuHash.Hash` | lib/chos-elf/src/gnu_hash.rs:72-78 | `gnu_hash` is a 32-bit value |
| `GnuHash.GnuHashOf` | lib/chos-elf/src/gnu_hash.rs:72-78 | the loop `h = h * 33 + b`, wrapping at 2^32, computes that hash |
| `GnuHash.HashIsPolyMod` | lib/chos-elf/src/gnu_hash.rs:72-78 | the wrapping hash is the polynomial `5381 * 33^n + sum of b_i * 33^(n-1-i)` reduced modulo 2^32 |
| `GnuHash.HashExamples` | lib/chos-elf/src/gnu_hash.rs:72-78 | the hashes of `""` (0x1505), `"a"` (0x2b606) and `"printf"` (0x156b2bb8) |
| `GnuHash.Walk` | lib/chos-elf/src/gnu_hash.rs:55-68 | a symbol the chain walk returns lies at or after its start and has the name looked up |
| `GnuHash.Lookup` | lib/chos-elf/src/gnu_hash.rs:33-69 | the `loop` of `lookup`, corrected to reduce the bloom bit numbers modulo 64: it computes the format's lookup (bloom test, bucket, chain walk), with a zero `bloom_size` or `nbuckets` and an index past the chain or the symbol table as panics |
| `GnuHash.LookupRejects` | lib/chos-elf/src/gnu_hash.rs:46-53 | a name that fails the bloom test, or whose bucket starts before `symoffset`, is not found |
| `GnuHash.LookupSound` | lib/chos-elf/src/gnu_hash.rs:55-62 | a symbol found has the name looked up, and its chain hash matches the name's hash apart from the low bit |
| `GnuHash.LookupWalks` | lib/chos-elf/src/gnu_hash.rs:50-68 | a successful lookup is a walk from the name's bucket |
| `GnuHash.WalkFound` | lib/chos-elf/src/gnu_hash.rs:55-68 | a symbol the walk finds comes before any end-of-class mark, and its hash matches |
| `GnuHash.WalkReaches` | lib/chos-elf/src/gnu_hash.rs:55-68 | a walk that starts before a symbol with the name, with no end-of-class mark before it, finds a symbol with the name |
| `GnuHash.LookupComplete` | lib/chos-elf/src/gnu_hash.rs:33-69 | in a table built as the `DT_GNU_HASH` format lays it out, looking up any symbol's name finds a symbol of that name |
| `GnuHash.BloomAsWrittenMissesSymbol` | lib/chos-elf/src/gnu_hash.rs:41-48 | a well-built one-word filter holding the symbol `a`: the bloom test as written reports `a` absent, and the format's test finds it |
| `GnuHash.OneSymbolBloom` | lib/chos-elf/src/gnu_hash.rs:41-46 | for the hash of `a`, that filter passes the format's test and fails the test as written |
| `GnuHash.BloomPassAsWritten` | lib/chos-elf/src/gnu_hash.rs:41-48 | the bloom test as written agrees with the format's test when `bloom_size` is a multiple of 64, and with a one-word filter always tests bit 0 twice |
| `GnuHash.LookupAsWritten` | lib/chos-elf/src/gnu_hash.rs:33-69 | `lookup` as written only finds a symbol of that name; it agrees with the format's lookup when `bloom_size` is a multiple of 64, and otherwise differs from it only by reporting a symbol absent |
| `Iter.MinMax` | lib/chos-lib/src/iter.rs:5-21 | `min_max` is `None` exactly on an empty iterator; otherwise its first part is the least first element and its second part the greatest second element, each taken from some item |
| `Iter.MinMaxSingle` | lib/chos-lib/src/iter.rs:11-20 | a single item is its own min-max |
| `Iter.MinMaxMixes` | lib/chos-lib/src/iter.rs:12-19 | the two parts may come from different items: `(3, 9), (1, 2), (5, 4)` gives `(1, 9)` |
| `Stride.StartIndex` | lib/chos-lib/src/stride.rs:68-72 | the start bound, clamped to the length |
| `Stride.EndIndex` | lib/chos-lib/src/stride.rs:73-77 | the end bound, clamped to the length |
| `Stride.PtrRange` | lib/chos-lib/src/stride.rs:65-80 | `ptr_range` panics (on `end - start`) exactly when the clamped start is past the clamped end; otherwise it gives the two element addresses and the element count between them |
| `Stride.Subslice` | lib/chos-lib/src/stride.rs:30-40 | `subslice` panics in the same case; otherwise it has that many elements and the same stride |
| `Stride.SubsliceElements` | lib/chos-lib/src/stride.rs:30-63 | element `i` of a subslice is element `start + i` of the slice |
| `Stride.RangeInside` | lib/chos-lib/src/stride.rs:65-80 | inside the slice, `lo..hi`, `lo..=hi-1` and an excluded `lo-1` start all mean what they say |
| `Stride.RangeClamped` | lib/chos-lib/src/stride.rs:69-76 | bounds past the end are clamped to it, and a range wholly past the end is an empty subslice at the end |
| `Stride.SubsliceFull` | lib/chos-lib/src/stride.rs:71-76 | `subslice(..)` is the whole slice |
| `Stride.SubsliceOfSubslice` | lib/chos-lib/src/stride.rs:30-40 | a subslice of a subslice is the subslice of the offset range |
| `Stride.Index` | lib/chos-lib/src/stride.rs:85-88 | indexing panics with "out of range" exactly when the index is not below the length; otherwise it is the address `ptr + index * stride` |
| `Stride.IndexInjective` | lib/chos-lib/src/stride.rs:59-88 | with a non-zero stride, different indices give different elements |
| `Stride.StrideSliceIter.constructor` | lib/chos-lib/src/stride.rs:50-57 | `iter` runs from the first element to one past the last |
| `Stride.StrideSliceIter.Next` | lib/chos-lib/src/stride.rs:240-250 | `next` yields the current address and steps one stride, until the end is reached |
| `Stride.IterAll` | lib/chos-lib/src/stride.rs:50-250 | iterating a slice with a non-zero stride yields each element's address once, in order; with a zero stride it yields nothing |
| `Acpi.IsChecksumValid` | boot/src/arch/x64/acpi.rs:23-32 | the `Wrapping<u8>` loop is valid exactly when the bytes of the table, up to its `length`, sum to 0 modulo 256 |
| `Acpi.SumUpdate` | boot/src/arch/x64/acpi.rs:27-31 | changing one byte changes the sum by the difference |
| `Acpi.ChecksumForIsValid` | boot/src/arch/x64/acpi.rs:23-32 | storing the right `checksum` byte makes any table pass the check |
| `Acpi.SdtCount` | boot/src/arch/x64/acpi.rs:73-80 | `sdt_ptr` panics exactly when `length` is below the header size or the bytes after the header are not whole `u32`s; otherwise header plus four bytes per entry is the length |
| `Acpi.RsdtIter.constructor` | boot/src/arch/x64/acpi.rs:60-67 | `sdts` runs from the first entry after the header to one past the last |
| `Acpi.RsdtIter.Next` | boot/src/arch/x64/acpi.rs:91-101 | `next` yields the table address stored in the next entry and steps four bytes, until the end |
| `Acpi.FindSig` | boot/src/arch/x64/acpi.rs:70 | the search stops at the first table with the signature, and none is found exactly when no table has it |
| `Acpi.Madt` | boot/src/arch/x64/acpi.rs:69-71 | `madt` panics when `sdt_ptr` does, and otherwise is the first table whose signature is `APIC`, or none |
| `Acpi.MadtIsFirstApic` | boot/src/arch/x64/acpi.rs:69-71 | `madt` finds nothing exactly when no table has the `APIC` signature, and what it finds has it |
| `Acpi.EntryOfType` | boot/src/arch/x64/acpi.rs:204-211 | types 0, 1, 2, 4 and 5 give their kinds of entry; every other type gives `Unknown` |
| `Acpi.EntryStep` | boot/src/arch/x64/acpi.rs:202-203 | an entry moves the cursor on by its `len` byte |
| `Acpi.MadtIter.constructor` | boot/src/arch/x64/acpi.rs:115-126 | `entries` runs from the end of the MADT's fixed part to its `length` |
| `Acpi.MadtIter.Next` | boot/src/arch/x64/acpi.rs:199-216 | `next` ends at the end, fails on a header past the bytes, and otherwise yields the entry of the header's type and moves on by its length |
| `Acpi.MadtIter.Collect` | boot/src/arch/x64/acpi.rs:197-217 | draining the iterator yields the entries in order and ends at the end |
| `Acpi.EntriesUnfold` | boot/src/arch/x64/acpi.rs:199-216 | the entries are the first entry, then the entries after it |
| `Acpi.ZeroLengthEntryStalls` | boot/src/arch/x64/acpi.rs:203 | an entry whose `len` is zero does not move the cursor, so the iterator never ends |
| `Acpi.TwoEntries` | boot/src/arch/x64/acpi.rs:199-216 | a table holding a local APIC entry of length 8 and an unknown entry of type 3 and length 10 yields exactly those two |
| `Multiboot.TagBody` | boot/src/arch/x64/mb.rs:63-116 | reading a tag fails exactly when its fields run past the info; types 1-6, 14 and 21 give their tags, any other type gives none |
| `Multiboot.BasicMemoryInBytes` | boot/src/arch/x64/mb.rs:80-87 | a basic memory tag whose KiB counts stay below 4 GiB gives them times 1024, in bytes (the `u32` product wraps above that) |
| `Multiboot.AlignOffset` | boot/src/arch/x64/mb.rs:118 | `align_offset(8)` is the least step that reaches a multiple of 8 |
| `Multiboot.AlignOffsetRoundsUp` | boot/src/arch/x64/mb.rs:118 | stepping by it rounds the cursor up to a multiple of 8 |
| `Multiboot.TagEnd` | boot/src/arch/x64/mb.rs:117-118 | the next tag starts at the first multiple of 8 at or after the end of this one |
| `Multiboot.NextFrom` | boot/src/arch/x64/mb.rs:57-124 | the `loop` in `next` never moves back; `None` only at the end, and a tag returned leaves the cursor on a multiple of 8 |
| `Multiboot.NextKnownTag` | boot/src/arch/x64/mb.rs:65-121 | a tag of a known type is returned, and the cursor moves to the next tag |
| `Multiboot.NextSkipsUnknown` | boot/src/arch/x64/mb.rs:115-121 | a tag of an unknown type is skipped and the walk carries on from the next one |
| `Multiboot.ZeroSizeUnknownTagStalls` | boot/src/arch/x64/mb.rs:115-118 | an unknown tag of size zero leaves the cursor where it was, so the source would loop for ever; the model reports `NoProgress` |
| `Multiboot.MultibootParser.constructor` | boot/src/arch/x64/mb.rs:181-184 | a parser over the given span |
| `Multiboot.MultibootParser.Next` | boot/src/arch/x64/mb.rs:57-124 | `next` returns the tag the walk finds and leaves the cursor where the walk does |
| `Multiboot.ParseMb` | boot/src/arch/x64/mb.rs:178-185 | `parse_mb` starts after the 8-byte header and ends `total_size` bytes from the start |
| `Multiboot.BasicMemoryThenEnd` | boot/src/arch/x64/mb.rs:57-124 | an info block holding a basic memory tag (640 KiB low, 63 MiB high) and the end tag yields that tag, then ends |
| `Multiboot.EndTagEndsWalk` | boot/src/arch/x64/mb.rs:57-124 | the end tag, type 0 and size 8, moves the cursor to the end, so `next` returns `None` |
| `Multiboot.EntryType` | boot/src/arch/x64/mb.rs:160-166 | types 1, 3, 4 and 5 are `Available`, `ACPI`, `ReserveHibernate` and `Defective`, and every other type is `Reserved` |
| `Multiboot.EntryAt` | boot/src/arch/x64/mb.rs:157-172 | reading an entry fails exactly when its 20 bytes run past the info; `start` and `end` are 64-bit values |
| `Multiboot.EntrySpan` | boot/src/arch/x64/mb.rs:168-172 | without wrap-around, an entry runs from `base` for `length` bytes |
| `Multiboot.EntriesCount` | boot/src/arch/x64/mb.rs:152-175 | a memory map of `n` bytes yields `ceil(n / entry_size)` entries, entry `i` read at offset `i * entry_size` |
| `Multiboot.MemoryMapParser.constructor` | boot/src/arch/x64/mb.rs:98-106 | the memory map tag's parser runs from after its 8-byte header to the end of the tag, with the tag's `entry_size` |
| `Multiboot.MemoryMapParser.Next` | boot/src/arch/x64/mb.rs:152-175 | `next` ends at the end; otherwise it yields the entry at the cursor and moves on by `entry_size` |
| `Multiboot.MemoryMapParser.Collect` | boot/src/arch/x64/mb.rs:149-176 | draining the parser yields exactly the entries of the map |
| `Multiboot.TotalSize` | boot/src/arch/x64/mb.rs:4-7 | `total_size` is the little-endian 32-bit value of the header's first four bytes |
| `Multiboot.ReadRsdp1` | boot/src/arch/x64/mb.rs:10-17 | reading an `RSDP1` copies the 8 signature bytes, the checksum, the 6 OEM bytes and the revision in order, and the RSDT address is a 32-bit value |


## Left out

- Hardware and I/O: port and MMIO access, the `invlpg` and CR3 writes behind a TLB flush, serial and log output. A flush is modelled as the `Flush` value it carries.
- Concurrency: spinlocks, atomics, `Arc` and wakers. Every operation is modelled as running alone; a lock is taken to be held across the operation it guards.
- `Debug` and `Display` implementations, except the byte-size display and the CPU-mask list.
- `TICKS_HZ` of the kernel timer is not part of this model: the tick length is the `nsPerTick` parameter of `Timer.DurationToTicks`.
- Layout constants of the buddy allocator come from `size_of` in the source and are written in as constants (`Region` 64 bytes, `BlockHead` 24 bytes).
- BuddyAlloc.BuddyRegion: the bitmap is the set of its set bit numbers, and the region's operations do not check a bit's word against the slice: they follow the corrected slice of `BuddyAlloc.BitmapWords` words, which `BuddyAlloc.PairBitInSlice` shows holds every block in the data area. The source's shorter slice, and its panic, are modelled in `BuddyAlloc.FreeAsWritten` and the two Findings rows for lines 194-199 and 271-275; seeding and allocation as written, which can reach the same bit, are not modelled apart from the corrected ones.
- BuddyAlloc.BuddyRegion.FreeInRegion: the XOR meaning of a pair bit (exactly one block of the pair is free) is not proved. When no buddy is found on the list, the model returns `BlockNotFound` where the source panics (raw_alloc.rs lines 308-312). The buddies taken off their lists at lower orders before that stay off, as in the source; the contract states only that the region stays valid then.
- `get_regions_info` (raw_alloc.rs lines 373-386), `add_regions` (lines 208-212) and the locking wrappers `alloc_pages`/`dealloc_pages` (lines 355-364) are not modelled. They only take the lock and loop over `add_region`, or report statistics.
- The mapper's 4 KiB map, the unfinished 4 KiB and 2 MiB unmaps, `duplicate`, the page-table visitor and `map_elf_load_sections`: not modelled. `paddr_of` is modelled for 1 GiB and 2 MiB leaves only.
- `LoggingMapper` is not modelled, because it only logs and forwards. `AllocCleaner` is modelled as the list of frames a failed map hands back.
- The operator impls of `PAddr`/`VAddr` and their conversions to and from pointers are not modelled.
- `field_enum` and the integer `FieldCast` truncations of bit fields are not modelled. `set_bits`, which assigns `*self`, is modelled as a function returning the new word.
- Intrusive list: cursors, `take`, `iter_mut`, `into_iter` and `drop` are not modelled, nor `insert_after` beyond its use by push. Element identity is an index into a table of link cells, not a pointer.
- Intrusive singly linked list: of the cursor, only `move_next` is modelled.
- Tar: `TarEntry::name` and `name_merged` are modelled only as far as name emptiness, which is what ends the archive.
- Multiboot: pointers are offsets into the info block, and a read past its end gives `Err(ReadPastInfo)`. Alignment is applied to offsets. `mem*1024` wraps as a 32-bit product and `base+length` as a 64-bit sum. This follows a release build; the build tool compiles in debug mode unless `--release` is given (build/src/build.rs lines 18-20), and a debug build panics on these overflows instead. An unknown tag of size zero gives `Err(NoProgress)` instead of looping. The RSDPv1 tag is read as raw bytes.
- Multiboot.MemoryMapParser.Collect: requires an entry size above zero. With a zero entry size, the source iterator never advances and yields the same entry forever.
- Stride: `StrideSliceMut` and its mutable iterator share the read-only model; the `From` impls are not modelled.
- Timer: `periodic_ktask`, `CancelToken`, `on_tick` and `schedule_tick` are not modelled. The due timers are drained through `Timer.DrainDue`, with the current tick as a parameter.
- Oneshot: `send_with`, `send_with_future`, `send_ok`, `send_err` and `call_with_sender` are wrappers over `send` and are not modelled separately.
- Str: only `find` and `split` on a single character are modelled.
- Panics in the source on caller mistakes are `requires` clauses:
  - pushing an element that is already linked;
  - decrementing a child-allocation count at zero;
  - a bit-field width outside the word;
  - `Cpumask::cpu(n)` with `n >= 64`;
  - `Range::new` with `start > end`;
  - an overflowing `Duration` add or sub;
  - an overflowing `as_nanos`;
  - `RingQueue::enqueue` on a full queue, where `try_enqueue(..).unwrap()` panics (queue.rs line 19): `RingQueue.RingQueue.Enqueue` requires `count < len`;
  - `enqueue_replace` on a queue with a zero-length buffer, where `count < buf.len()` fails and `buf[write_head]` panics (queue.rs line 85): `RingQueue.RingQueue.EnqueueReplace`, `RingQueue.EnqueueReplaceAppends` and `RingQueue.EnqueueReplaceAsWrittenEffect` require a non-empty buffer.
- Integer overflow: the model follows a debug build, the build tool's default, where overflow panics. Durations, instants, frame ranges and allocator sizes therefore give a `None` or `Err` outcome, or a `requires` listed here, where they would overflow. The one exception is the Multiboot parser, modelled as wrapping (see the Multiboot line above): its numbers come from the boot loader's tables, and a wrapped value keeps the walk total where a panic would stop the boot.
- Tar: the `from_utf8(..).expect("Invalid header")` panic of `FileHeader::name` (tar/raw.rs lines 51-72) on a name that is not UTF-8 is not modelled; names are byte strings, and only their emptiness matters to the walk.
- TarUtil.ReadAsciiOctal: the `u64` product `res *= 8` is unbounded in the model. It cannot overflow on the 12-byte tar fields the archive reads (at most 36 bits), but longer digit strings would overflow in the source.
- Duration.AsNanos: returns the unbounded product; the 64-bit overflow is a precondition rather than modelled wrap-around.
- Mapper.Map1GBranch: a page table allocated for an absent level-4 entry is taken to hold no present entry (`ZeroTable`). The source links the frame `alloc_frame` returns as it is (mapper.rs lines 447-452), and the physical allocator only overwrites one block header in it (raw_alloc.rs line 228), so stale memory could read as present entries. Every 1 GiB map, translation and count lemma rests on this assumption.
- Mapper.Map2MBranch: the same assumption for the level-3 and level-2 tables it allocates. Every 2 MiB map, translation and count lemma rests on it.
- Mapper.Translate: `paddr_of` is modelled for 1 GiB and 2 MiB leaves only, and gives the leaf's frame address without the offset bits added within it.
- BuddyAlloc.CalculateMeta: requires at least two pages. With fewer pages, `log2u64(total_pages - 1)` in the source underflows or takes the log of zero.
- BuddyAlloc.DeallocPages: requires that a frame past the metadata pages is aligned to `2^order`, for an order the region has. The source does not check the alignment, and a misaligned frame corrupts its lists. The source's other two checks, `assert!(order <= meta.biggest_order)` (raw_alloc.rs line 282) and the underflow of `- meta.meta_pages` for a frame in the metadata (line 286, a panic in a debug build), are the `OrderTooBig` and `MetadataFrame` errors.
- Bitmap.SetAllTo: requires `start <= end <= len`. Otherwise the source writes partial words and then panics indexing past the words, or writes two stray partial words when `start > end`.
- Frame.NewAlignUp: requires that rounding up does not overflow 64 bits; the source's `ceil_divu64(addr, PAGE_SIZE) * PAGE_SIZE` would wrap or panic.
- Frame.AddFrames: requires that `addr + count * PAGE_SIZE` does not overflow 64 bits.
- Frame.SubFrames: requires that `count * PAGE_SIZE` does not exceed the address, where the source's `u64` subtraction underflows.
- Acpi.MadtIter.constructor: requires the MADT's `length` to be at least the size of its fixed fields; boot/src/arch/x64/acpi.rs line 119 underflows otherwise.
- Duration.AsMillisAsWritten: the `u64` product `secs * 1_000_000` is unbounded in the model, so its overflow for very long durations is not modelled.
- Duration.AsMicrosAsWritten: the `u64` product `secs * 1_000` is unbounded in the model, so its overflow is not modelled.
- Timer.PushPos: the heap is a sequence sorted by deadline, and a pushed timer goes after the earlier ones with the same deadline. `TimerCmp` (kernel/src/timer.rs lines 40-50) compares deadlines alone and `BinaryHeap` leaves the order of equal elements unspecified, so in `Timer.Timers.OnTickMainCpu` and `Timer.DrainDue` only the set of timers woken on a tick is the source's, not the order in which they are woken.
- Timer.DurationToTicks: `ceil_divu64` computes `(nanos + ticks - 1) / ticks`, whose 64-bit sum can overflow for nanosecond counts near `2^64`; the model divides unbounded integers.
- Timer: `core::time::Duration` (kernel/src/timer.rs line 11) is modelled by the same seconds-and-nanoseconds value as chos's own `Duration` (`Duration.Duration64`). Its `u128` `as_nanos` is cut to 64 bits by the `as u64` cast, written as `% 2^64`.


## Findings

| source | as written | input that shows it | evidently intended | confidence | as-written member | corrected member |
|---|---|---|---|---|---|---|
| lib/chos-lib/src/duration.rs:41-47 | `as_millis` multiplies seconds by 1 000 000 and `as_micros` by 1 000: the two are swapped | one second: `as_millis` is 1 000 000 and `as_micros` is 1 000 | milliseconds are seconds times 1 000 plus nanoseconds over 10^6; microseconds are seconds times 10^6 plus nanoseconds over 1 000 | not executed | `Duration.AsMillisMicrosSwapped` | `Duration.MillisMicrosRoundTrip` |
| lib/chos-lib/src/mm/mod.rs:173-188 | `intesects` tests `self.end >= rhs.start && rhs.end <= self.start` | [0, 0x2000) and [0x1000, 0x3000) overlap, yet the intersection is `None`; [0x2000, 0x3000) with [0, 0x1000) passes the test and `Range::new` panics on start > end | two ranges intersect when each starts before the other ends | not executed | `Frame.IntersectionAsWrittenMissesOverlap` | `Frame.Intersection` |
| lib/chos-lib/src/arch/x64/mm/mapper.rs:48-57 | two range flushes merge through `intersection`, whose `intesects` test is inverted | flushes of [0x1000, 0x2000) and [0, 0x1000) pass `intesects` and merge to the empty range [0x1000, 0x1000), so neither page is flushed; [0x2000, 0x3000) with [0, 0x1000) panics | a combined flush covers both ranges: their hull when small enough, else `All` | not executed | `Mapper.CombineAsWrittenMissesPage` | `Mapper.Combine` |
| lib/chos-lib/src/arch/x64/mm/mapper.rs:207-210 | mapping a 2 MiB page raises the P4 entry's child count only when the P3 table was allocated, not when a new P3 entry is made | map 1 GiB at virtual 0, then 2 MiB at virtual 1 GiB, then unmap the 1 GiB page: the P3 table is freed and the 2 MiB mapping is lost | a table's child count counts its present entries | not executed | `Mapper.Map2MCountSlipRun` | `Mapper.Map2MKeepsCounted` |
| lib/chos-lib/src/arch/x64/mm/mapper.rs:196-201 | `map` of a 2 MiB page takes a present page-directory-pointer entry for a directory even when it is a 1 GiB leaf (`get_page_or_alloc` does not look at the huge bit) | map 1 GiB at virtual 0, then 2 MiB at virtual 0: the second map writes a leaf into the 1 GiB page's own memory and returns `Ok`, yet virtual 0 still translates to the 1 GiB frame | a slot covered by a 1 GiB page is already mapped: `AlreadyMapped` | not executed | `Mapper.Map2MUnderHugePageRun` | `Mapper.Map2MOnlyWhereUnmapped` |
| lib/chos-lib/src/bitmap.rs:145 | an excluded start bound `Excluded(i)` starts at `i - 1` | the range `(Excluded(3), Excluded(5))` starts at bit 2, which it does not contain | start at `i + 1` | not executed | `Bitmap.StartAsWrittenIncludesBelow` | `Bitmap.Start` |
| lib/chos-lib/src/queue.rs:79-83 | `enqueue_replace` on a queue that is not full advances the read head instead of the write head | `enqueue_replace(x)` on an empty 2-slot queue: the count is 1 but the read head is at the empty slot 1, not at `x` | advance the write head, so the value is appended | not executed | `RingQueue.EnqueueReplaceAsWrittenLosesValue` | `RingQueue.EnqueueReplaceAppends` |
| lib/chos-lib/src/intrusive/list.rs:131-146 | `try_push_front` keeps the stale `prev` that `fast_clear` or `force_unlink` left in a link, and `insert_before` copies it into the old head | links with 0's prev at 1, 1's prev at 2, and 2 unlinked; push 1, then 0: element 2, never pushed, reads as linked | a pushed element's `prev` is cleared | not executed | `IntrusiveList.StalePrevLinksStranger` | `IntrusiveList.StalePrevCleared` |
| lib/chos-lib/src/intrusive/slist.rs:12-18 | a link is "unlinked" when its `next` is null, but the tail of a list also has a null `next` | push element 0 on an empty list, then push 0 again: the assertion passes and 0 points at itself | a linked tail is distinguished from an unlinked element, so the second push is refused | not executed | `IntrusiveSList.TailRelinkCycles` | `IntrusiveSList.SecondPushRefused` |
| kernel/src/mm/phys/raw_alloc.rs:125-130 | the bitmap's share of the metadata is `ceil_div(bitmap_bits, 8)` bytes, but the bitmap slice (lines 62-68) is that many 64-bit words long | a region of 65 537 pages: the words of the bitmap end past the metadata pages | the metadata pages cover the whole bitmap slice | not executed | `BuddyAlloc.BitmapOverrunsMetaPages` | `BuddyAlloc.MetaCovers` |
| kernel/src/mm/phys/raw_alloc.rs:271-275 | `put_back_block` flips the pair bit at every order, the biggest included, where the bit number is `bitmap_offset[biggest]`, which equals `bitmap_bits` with one metadata page; the slice (lines 62-68) has `bitmap_bits.ceil_div(8)` words | an 11-page region (8 bitmap bits, one word): `alloc_pages(3)` takes page 0, and freeing it indexes word 1 | a bitmap with a word for every pair bit, bit number `bitmap_bits` included | not executed | `BuddyAlloc.TopOrderFreeOverruns` | `BuddyAlloc.PairBitInSlice` |
| kernel/src/mm/phys/raw_alloc.rs:194-199 | a seeded block whose pair runs past the data area gets bit number `bitmap_offset` of the next order, up to `bitmap_bits`, past a slice of `bitmap_bits.ceil_div(8)` words | a 61-page region (56 bitmap bits, 7 words): `add_region` seeds the order-4 block at page 32 and indexes word 7 | a bitmap with a word for every pair bit | not executed | `BuddyAlloc.SeedOverrunsSlice` | `BuddyAlloc.PairBitInSlice` |
| lib/chos-lib/src/queue.rs:84-89 | `enqueue_replace` on a full queue advances the read head twice and the write head not at all | `enqueue_replace(4)` on a full 3-slot queue holding 1, 2, 3: the read head is at slot 2, the write head at slot 0, and the next read takes 3, skipping 2 | advance both heads once, so the oldest item is replaced and the rest keep their order | not executed | `RingQueue.EnqueueReplaceAsWrittenSkipsItem` | `RingQueue.EnqueueReplaceAppends` |
| kernel/src/mm/phys/raw_alloc.rs:296-304 | a merge removes the buddy from its list but does not lower `free_pages`, and the merged block adds its full size again | a 3-page region after `alloc(0)`, freeing page 0: `free_pages` is 3 where the lists hold 2 pages | `free_pages` equals the pages on the free lists | not executed | `BuddyAlloc.MergeOvercountsFree` | `BuddyAlloc.BuddyRegion.FreeInRegion` |
| kernel/src/mm/phys/raw_alloc.rs:296-304 | the buddy is any free block at distance `PAGE_SIZE << order`, on either side | a 9-page region with order-1 blocks 4 and 0 free: freeing block 2 merges it with block 4 into an order-2 block at page 2 | merge only with the buddy, the block whose offset differs in bit `order` | not executed | `BuddyAlloc.MergeWithNeighbourMisaligns` | `BuddyAlloc.BuddyRegion.FreeInRegion` |
| kernel/src/async_/oneshot.rs:87-91 | `poll` replaces the state with `Dropped` even when it was `Pending` | poll before send, then send: `send` sees `Dropped` and panics | a pending poll leaves the state `Pending` | not executed | `Oneshot.PollBeforeSendPanics` | `Oneshot.PollSendPoll` |
| lib/chos-lib/src/tar/mod.rs:80-82 | the entry's contents are taken without checking that they fit in the archive | one header block whose size field is 1: the contents run past the end | an entry whose contents run past the end is refused: the checked step reports `Err(ContentsPastEnd)` | not executed | `Tar.ContentsRunPastEnd` | `Tar.StepEntry` |
| lib/chos-elf/src/gnu_hash.rs:41-44 | the two Bloom-filter bit numbers are reduced modulo `bloom_size` instead of 64 | a one-word filter with shift 6 holding the symbol "a": every lookup tests bit 0, so "a" is reported absent | bit numbers modulo 64, as the ELF GNU hash format lays them out | not executed | `GnuHash.BloomAsWrittenMissesSymbol` | `GnuHash.LookupComplete` |
| lib/chos-lib/src/fmt.rs:12-18 | the gigabyte count is cast to `u16` | 64 TiB is displayed as `(0B)` | keep the whole gigabyte count | not executed; low, since sizes this large may not arise | `Fmt.SplitLosesGigabytes` | `Fmt.ShownValue` |
