# conix filesystem core, modelled in Dafny

conix is a small 32-bit x86 kernel. This project models its Minix-v1
filesystem engine and the libraries and allocators the engine rests on,
and proves properties of the model:

- the block buffer cache;
- the bitmaps and the zone and inode allocators;
- the block mapper (`bmap`);
- the super-block and inode tables, with `iget`/`iput`, windowed read
  and write, and recursive truncation;
- the directory resolver: permission, separator scanning, name matching,
  `find_entry`/`add_entry`, `named`/`namei`, `mkdir`/`rmdir`/`link`/
  `unlink`, `inode_open`, `abspath`, `chdir`/`chroot`/`getcwd`;
- the open-file table and the file system calls;
- the self-contained cores beside the engine: the string primitives,
  the ring buffer, BCD and ceiling division, the calendar arithmetic,
  the frame and kernel-page allocators, the size-class heap, and the
  device table with its elevator rule.

The disk is a map from `(dev, block)` to 1024-byte contents
(`FsState.FileSystem.blocks`). The filesystem code reads and writes that
map. The buffer cache is modelled on its own as a class over the same
contents (write-through, one buffer per identity). A kernel panic or a
failed kernel `assert` sets `halted`, and nothing is promised after it.
Timestamps, the caller's uid/gid/umask and the loader's memory map are
inputs.

`src/include/conix/list.h` (with its implementation) and
`src/include/sys/stat.h` are not part of this model; their behaviour is
assumed. `list_push` is taken to add at the head and `list_popback` to
take from the tail, so the buffer free list is a queue (`Buffer`).
`list_insert_sort` is taken to insert before the first node whose key is
greater, keeping ascending sector order (`Device.InsertPos`). The mode
constants `S_IFMT` = 0xF000, `S_IFREG` = 0x8000, `S_IFDIR` = 0x4000 and
`S_ISVTX` = 0x200 are taken to be the Minix values (`FsLayout.IFMT` and
its neighbours).

Layout of the modules (one per source file or header, in dependency order):

| module | source |
|---|---|
| `Base` | common constants and byte/word codecs |
| `Bitmap` | `src/lib/bitmap.c` |
| `Buffer` | `src/kernel/buffer.c` |
| `FsLayout` | `src/include/conix/fs.h` records and on-disk encodings |
| `FsState` | the tables and block contents the filesystem works on |
| `Bmap` | `src/fs/bmap.c` |
| `Super` | `src/fs/super.c` |
| `Inode` | `src/fs/inode.c` |
| `CString` | `src/lib/string.c` |
| `Path` | `permission`, separators, `match_name`, `abspath` (`src/fs/namei.c`) |
| `Dir` | `find_entry`, `add_entry` (`src/fs/namei.c`) |
| `Namei` | reference accounting, `named`, `namei` (`src/fs/namei.c`) |
| `NameCalls` | `mkdir`, `rmdir`, `link`, `unlink`, `inode_open`, `getcwd`, `chdir`, `chroot` (`src/fs/namei.c`) |
| `File` | `src/fs/file.c` and the descriptor slots of `src/kernel/task.c` |
| `Fifo` | `src/lib/fifo.c` |
| `StdLib` | `src/lib/stdlib.c` |
| `Time` | `src/kernel/time.c` |
| `Memory` | `src/kernel/memory.c` |
| `Arena` | `src/kernel/arena.c` |
| `Device` | `src/kernel/device.c` |

## Model

| member | source | states |
|---|---|---|
| Fifo.Fifo.Next | src/lib/fifo.c:4-6 | the slot after `pos` is `pos + 1`, or 0 after the last slot |
| Fifo.Fifo.Init | src/lib/fifo.c:8-13 | a fresh ring over the buffer with `head == tail == 0` holds no bytes |
| Fifo.Fifo.Full | src/lib/fifo.c:15-18 | full exactly when `length - 1` bytes are held |
| Fifo.Fifo.Empty | src/lib/fifo.c:20 | empty exactly when no byte is held |
| Fifo.Fifo.Get | src/lib/fifo.c:22-27 | the assertion halts exactly on an empty ring, which is then unchanged; otherwise the oldest byte is returned and dropped from the contents; the representation invariant is kept |
| Fifo.Fifo.Put | src/lib/fifo.c:29-36 | appends the byte, first dropping the oldest when the ring is full; so bytes come out in the order they went in, except those overflow drops |
| StdLib.BinToBcd | src/lib/stdlib.c:17 | `(v / 10) * 16 + v % 10` for `0 <= v < 80` |
| StdLib.BcdRoundTrip | src/lib/stdlib.c:15-17 | decoding the encoding of any `0 <= v < 80` gives `v` back |
| StdLib.BcdRoundTripFailsFrom80 | src/lib/stdlib.c:15-17 | for `80 <= v < 100` the round trip fails, because `uint8` is a signed `char` (src/include/conix/types.h:24) |
| StdLib.BcdToBinOfNinetyNine | src/lib/stdlib.c:15 | the BCD byte 0x99 decodes to -61, not 99 |
| StdLib.BcdToBin | src/lib/stdlib.c:15 | a non-negative byte decodes to ten times its high nibble plus its low nibble, with no wrap-around |
| StdLib.BcdToBinUnsigned | src/lib/stdlib.c:15 | on an unsigned BCD byte: tens digit from the high nibble, units from the low |
| StdLib.BinToBcdUnsigned | src/lib/stdlib.c:17 | on an unsigned byte: high nibble tens, low nibble units, a valid BCD byte |
| StdLib.BcdUnsignedRoundTrip | src/lib/stdlib.c:15-17 | with unsigned bytes both round trips hold over 0..99 and all BCD bytes |
| StdLib.DivRoundUp | src/lib/stdlib.c:19 | `(num + size - 1) / size` in 32-bit arithmetic, non-negative |
| StdLib.DivRoundUpIsCeiling | src/lib/stdlib.c:19 | without wrap-around, the result is the ceiling of `num / size` |
| Time.LeapRuleIsGregorian | src/kernel/time.c:58-60 | the `(year + 2) % 4 == 0` rule matches the Gregorian leap rule for 1970..2099 |
| Time.MonthTableIsCumulative | src/kernel/time.c:30-42 | `month[m]` is the number of days before month `m` in a leap year; a common year has one day less after February |
| Time.GetDay | src/kernel/time.c:47-62 | the days before the month of that year (leap or not), plus `mday`; for month 0 (the table's placeholder) just `mday` |
| Time.MkTimeSum | src/kernel/time.c:91-117 | the sum is the seconds of the years, one day plus `(year + 1) / 4` seconds, the days before the current one as `get_day` counts them, and the time of day |
| Time.MkTime | src/kernel/time.c:91-117 | the sum as written, with C's truncating `(year + 1) / 4`, taken modulo 2^32 |
| Time.MkTimeFits | src/kernel/time.c:91-117 | for valid dates in 1970..2099 the sum fits 32 bits, so no wrap-around |
| Time.MkTimeStrictlyIncreasing | src/kernel/time.c:111-114 | within one year and month, a later (mday, hour, min, sec) gives a strictly larger value |
| Time.DaysBeforeYearClosedForm | src/kernel/time.c:102-104 | the days before a year counted year by year equal `365 * year + (year + 1) / 4` |
| Time.MkTimeIntendedIsEpochSeconds | src/kernel/time.c:91-117 | the corrected `mktime` is exactly the seconds elapsed since 1970-01-01 00:00:00 |
| Time.MkTimeAsWrittenDiscrepancy | src/kernel/time.c:102-104 | the code's value exceeds the elapsed seconds by `DAY + L - DAY * L`, where L is the number of preceding leap days |
| Time.MkTimeOfEpoch | src/kernel/time.c:102-104 | the epoch itself gives 86400 as written and 0 as intended |
| CString.Strlen | src/lib/string.c:44-50 | the index of the first `EOS`: the byte there is `EOS` and none before it is |
| CString.Text | src/lib/string.c:44-50 | the characters before the terminator; they contain no `EOS` |
| CString.Strcmp | src/lib/string.c:52-61 | 0 exactly when the two texts are equal; otherwise the sign of the first differing signed `char` |
| CString.Mismatch | src/lib/string.c:52-61 | the first index where the strings differ, within both texts |
| CString.Memcmp | src/lib/string.c:89-100 | 0 exactly when the first `count` bytes agree; otherwise the sign of the first difference |
| CString.Strchr | src/lib/string.c:64-73 | the first `ch` before the terminator, present exactly when `ch` is in the text; `EOS` is never found |
| CString.Strrchr | src/lib/string.c:76-87 | the last `ch` before the terminator, present exactly when `ch` is in the text |
| CString.Memchr | src/lib/string.c:121-130 | the first `ch` among the first `count` bytes, present exactly when there is one |
| CString.Strcpy | src/lib/string.c:3-11 | copies through the terminator and returns the index of the copied `EOS`, not `dest`; nothing else changes |
| CString.Strcat | src/lib/string.c:29-41 | appends `src` after the text in `dest` through the terminator, returning the index of the new `EOS`; nothing else changes |
| CString.Memset | src/lib/string.c:102-109 | exactly `count` bytes become `ch`, returns `dest` |
| CString.Memcpy | src/lib/string.c:111-119 | exactly `count` bytes are copied, returns `dest` |
| CString.StrncpyBytes | src/lib/string.c:13 | the documented result: the text of `src` cut or padded with `EOS` to exactly `count` bytes |
| CString.Strncpy | src/lib/string.c:13 | the documented `strncpy`: stores exactly `StrncpyBytes(src, count)` at `dest` and nothing else |
| CString.StrncpyAsWrittenExtent | src/lib/string.c:14-27 | the body as written stores 1 byte when `count > 0` and `src` starts with `EOS`, else 2^32 - 1 bytes |
| CString.StrncpyAsWrittenOverruns | src/lib/string.c:14-27 | a 2-character name copied into a 14-byte field overruns the field as written, and stays 14 bytes as documented |
| Memory.Idx | src/kernel/memory.c:15 | `IDX`: the page index of an address, below 2^20 |
| Memory.DIdx | src/kernel/memory.c:16 | `DIDX`: the page-directory slot, below 1024 |
| Memory.TIdx | src/kernel/memory.c:17 | `TIDX`: the page-table slot, below 1024 |
| Memory.Page | src/kernel/memory.c:18 | `PAGE`: a page-aligned 32-bit address |
| Memory.AddressSplits | src/kernel/memory.c:15-18 | an address is directory slot, table slot and page offset; `IDX` is `DIDX * 1024 + TIDX` |
| Memory.PageIdxRoundTrip | src/kernel/memory.c:15-18 | `PAGE` and `IDX` are inverse on the 2^20 pages |
| Memory.Largest | src/kernel/memory.c:50-58 | the first valid region of strictly largest size: no valid region is larger, none before it is as large |
| Memory.Picked | src/kernel/memory.c:50-58 | the region the loop keeps as written: a valid, non-empty region that no later valid region exceeds once its kept size is cut to 32 bits; none only when every valid region is empty |
| Memory.PickedIsLargest | src/kernel/memory.c:50-58 | while every region is below 4 GiB, the region kept is the first strictly largest one (`Largest`) |
| Memory.ScanRegions | src/kernel/memory.c:50-58 | the base and size the scan ends with are those of the region `Picked` keeps, cut to 32 bits, or 0 when none is kept |
| Memory.MemoryInit | src/kernel/memory.c:41-78 | for the known loader and any regions, the layout comes from the region `Picked` keeps, with base and size cut to 32 bits, exactly when it starts at 1 MiB, is page aligned and holds at least 16 MiB; `total_pages == free_pages + 256` |
| Memory.FreeCountUpdate | src/kernel/memory.c:108-136 | changing one reference count moves the free-frame count by that frame's change of freedom |
| Memory.PageAllocator.MapInit | src/kernel/memory.c:84-106 | map pages are the ceiling of `total_pages / 4096`; frames below `start_page` get count 1, the rest 0; `free_pages` drops by the map pages; the kernel map marks the map's own pages |
| Memory.PageAllocator.GetPage | src/kernel/memory.c:108-120 | returns the lowest free frame at or above `start_page`, now referenced once, with one free frame fewer; none (the OOM panic) exactly when no frame is free |
| Memory.PageAllocator.PutPage | src/kernel/memory.c:122-136 | an unaligned address, a frame outside `start_page .. total_pages` or one with no reference halts with nothing changed; otherwise the frame's count drops by one, the free count rises exactly when it reaches 0, and the closing assertion halts exactly when the frame is still referenced and no frame was free |
| Memory.PageAllocator.PutPageIntended | src/kernel/memory.c:122-136 | halts exactly on the same entry assertions, with nothing changed; otherwise the same update, the free count stays below the page total and is positive once the frame is free, so the intended closing check never halts |
| Memory.PutPageAsWrittenPanics | src/kernel/memory.c:134 | with every frame referenced and one shared, dropping one of its references leaves the free count at 0, so the assertion halts |
| Memory.PutPageIntendedCheck | src/kernel/memory.c:129-134 | above the reserved frames, the free count after a drop is below the page total, and one more than before when the frame becomes free |
| Memory.PageAllocator.AllocKPage | src/kernel/memory.c:224-235 | a zero count halts with the map unchanged; otherwise the first-fit run of `count` free kernel pages becomes used and its address is returned, and with no such run the scan panics with the map unchanged (also src/kernel/memory.c:248-253) |
| Memory.PageAllocator.FreeKPage | src/kernel/memory.c:255-260 | an unaligned address or a zero count halts with the map unchanged; otherwise exactly the `count` bits of the run are cleared |
| Memory.ResetPage | src/kernel/memory.c:237-246 | the loop clears bit by bit exactly the `count` bits of the run starting at the page of `addr` |
| Arena.BlockSize | src/kernel/arena.c:15-16 | descriptor `d`'s block size lies between 16 and 1024 |
| Arena.TotalBlock | src/kernel/arena.c:17 | descriptor `d` holds between 3 and 255 blocks |
| Arena.DescriptorTable | src/kernel/arena.c:11-21 | descriptor `d` has `block_size = 16 << d` and `total_block = (4096 - sizeof(arena_t)) / block_size` |
| Arena.SizeClass | src/kernel/arena.c:55-60 | a small request gets the smallest descriptor whose block holds it |
| Arena.BlockLayout | src/kernel/arena.c:23-32 | the blocks of an arena lie inside its page after the header, in increasing order, and map back to their arena |
| Arena.LargePages | src/kernel/arena.c:40-53 | unless `size + 16` wraps, a large arena's pages hold the request and its header |
| Arena.CarveMembers | src/kernel/arena.c:64-79 | a freshly carved page lists blocks of that page only, and every one of them |
| Arena.CarveDistinct | src/kernel/arena.c:64-79 | a freshly carved page lists no block twice |
| Arena.LargeKeeps | src/kernel/arena.c:40-53 | the large path keeps the heap sound; the address past the new header is the one new live pointer |
| Arena.RefillKeeps | src/kernel/arena.c:64-79 | refilling an empty list keeps the heap sound and changes no pointer's liveness |
| Arena.PopKeeps | src/kernel/arena.c:81-86 | popping list `d` keeps the heap sound; its head, a block of descriptor `d`, is the one new live pointer |
| Arena.MallocKeeps | src/kernel/arena.c:34-87 | `kmalloc` keeps the heap sound and hands out exactly one pointer that was not live, in a block that holds the request; a panic changes nothing |
| Arena.FreeLargeKeeps | src/kernel/arena.c:93-97 | freeing a large arena keeps the heap sound; exactly its pointer stops being live |
| Arena.FreePushKeeps | src/kernel/arena.c:99-106 | pushing a small block back below `total_block` keeps the heap sound; exactly that block stops being live |
| Arena.FreeReleaseKeeps | src/kernel/arena.c:107-114 | releasing a small arena whose blocks are all free keeps the heap sound; exactly the freed block stops being live |
| Arena.KfreeKeeps | src/kernel/arena.c:89-115 | `kfree` of a live pointer keeps the heap sound, and that pointer, and only it, stops being live |
| Arena.Heap.Init | src/kernel/arena.c:11-21 | every descriptor starts with an empty free list and there are no arenas |
| Arena.Heap.Malloc | src/kernel/arena.c:34-87 | the heap changes as `MallocStep` says (about which `MallocKeeps` proves soundness and liveness) and the invariant is kept |
| Arena.Heap.MallocLarge | src/kernel/arena.c:40-53 | the large path: pages from the first free run and the address past the header |
| Arena.Heap.Refill | src/kernel/arena.c:64-79 | the refill of an empty list from a fresh page, or no change when no page is free |
| Arena.Heap.PopBlock | src/kernel/arena.c:81-86 | the head of the list is handed out and its arena's `count` decremented |
| Arena.Heap.Kfree | src/kernel/arena.c:89-115 | the heap changes as `KfreeStep` says (about which `KfreeKeeps` proves soundness and liveness) |
| Arena.Heap.FreeLarge | src/kernel/arena.c:93-97 | the large path of `kfree` |
| Arena.Heap.FreeSmall | src/kernel/arena.c:99-106 | the small path of `kfree` while blocks stay live |
| Arena.Heap.FreeArena | src/kernel/arena.c:107-114 | the small path that releases the whole arena |
| Device.CallAsWritten | src/kernel/device.c:45-67 | as written: `EOF` exactly when the `ioctl` hook is missing, whichever hook is then called |
| Device.Dispatch | src/kernel/device.c:45-67 | corrected: `EOF` exactly when the hook to be called is missing |
| Device.DispatchAgrees | src/kernel/device.c:45-67 | for `ioctl`, and for drivers with all hooks or none, both dispatches agree |
| Device.DispatchAsWrittenMisses | src/kernel/device.c:53-67 | as written, a console `write` returns `EOF` although the hook is set |
| Device.InsertShape | src/kernel/device.c:160-161 | insertion puts the request before the first one with a greater sector |
| Device.Insert | src/kernel/device.c:160-161 | the list grows by one, and holds exactly the old requests and the new one |
| Device.InsertKeepsSorted | src/kernel/device.c:160-161 | insertion keeps the request list in ascending sector order |
| Device.InsertRemove | src/kernel/device.c:160-176 | insertion adds exactly the request, and removing it again restores the list |
| Device.ElevatorServes | src/kernel/device.c:113-134 | the next request is the neighbour after turning at either end, and only a lone request has none; moving up it is at a sector no lower, moving down no higher |
| Device.Sector | src/kernel/device.c:141 | the first sector is `idx` plus the partition start, in `uint32` |
| Device.ServeStepKeeps | src/kernel/device.c:136-179 | serving leaves the queue as it was; the next request is a queued one (none only when the queue was empty) and lies in the direction of travel |
| Device.DeviceTable.Init | src/kernel/device.c:69-84 | every slot is a null device numbered by its index, with an empty list, moving up |
| Device.DeviceTable.GetNullDevice | src/kernel/device.c:12-21 | the lowest null slot from 1 on; none only when no such slot exists |
| Device.DeviceTable.Install | src/kernel/device.c:86-98 | fills exactly that lowest null slot (never slot 0) with the type, subtype, parent, hooks and the name as `strncpy` stores it |
| Device.DeviceTable.Get | src/kernel/device.c:23-28 | the assertions halt exactly when `dev` is past the table or its slot is null; otherwise the device numbered `dev`, which is installed |
| Device.DeviceTable.Find | src/kernel/device.c:30-43 | the device with exactly `idx` devices of that subtype before it, or none when there are at most `idx` of them |
| Device.DeviceTable.NextRequest | src/kernel/device.c:113-134 | `request_nextreq` as `NextStep`: the direction turns at either end, and the neighbour in that direction is picked |
| Device.NextStep | src/kernel/device.c:113-134 | only the direction of the device changes; no request is picked exactly when the list holds one request, and a picked request is one of the list |
| Device.DeviceTable.Enqueue | src/kernel/device.c:160-161 | sorted insertion at `InsertPos` |
| Device.DeviceTable.Serve | src/kernel/device.c:160-176 | a panic exactly on an unknown request type; otherwise `ServeStep` |
| Device.DeviceTable.Submit | src/kernel/device.c:136-179 | a device that is missing, null, not a block device, or whose parent is missing or null halts with the table unchanged (`Routable`); otherwise the sector is computed and the request queued on the parent disk, served and removed |
| Bitmap.SetByteBitSpec | src/lib/bitmap.c:43-47 | setting or clearing bit `k` of a byte changes that bit only |
| Bitmap.PutSpec | src/lib/bitmap.c:31-48 | `bitmap_set` of bit `s` gives it the value and leaves every other bit as it was |
| Bitmap.ClearRunSpec | src/lib/bitmap.c:57-62 | the scan counter after `n` bits is the length of the run of clear bits ending there, and the bit before that run is set |
| Bitmap.ScanEnd | src/lib/bitmap.c:57-69 | the first scan position from `from` on at which the counter equals `count`, or none if there is none |
| Bitmap.ScanStart | src/lib/bitmap.c:51-74 | a found start begins `count` clear bits |
| Bitmap.FillSpec | src/lib/bitmap.c:77-82 | marking a window sets exactly its bits and keeps the others |
| Bitmap.ClearSpec | src/lib/bitmap.c:43-47 | clearing a window clears exactly its bits and keeps the others |
| Bitmap.ScanIsFirstFit | src/lib/bitmap.c:51-74 | for `count > 0`, the scan succeeds exactly when some window of `count` clear bits exists, and it finds the lowest such window |
| Bitmap.ScanZeroFindsSetBit | src/lib/bitmap.c:57-69 | with `count == 0` the scan stops only after a set bit, exactly when there is one, and reports the position just past the first |
| Bitmap.ScanReusesFreed | src/lib/bitmap.c:51-84 | a bit handed out and cleared again is the next one handed out |
| Bitmap.Bitmap.Make | src/lib/bitmap.c:5-9 | the map refers to the given bytes and offset |
| Bitmap.Bitmap.Init | src/lib/bitmap.c:11-14 | the bytes are zeroed, so no bit is set |
| Bitmap.Bitmap.Test | src/lib/bitmap.c:16-29 | the bit at `index - offset` |
| Bitmap.Bitmap.Set | src/lib/bitmap.c:31-48 | the map becomes `Put` of the old one (see `PutSpec`) |
| Bitmap.Bitmap.Scan | src/lib/bitmap.c:51-84 | `EOF` and no change when `ScanStart` finds nothing; otherwise `offset` plus the first fit, with that window marked |
| Bitmap.Bitmap.FillWindow | src/lib/bitmap.c:77-82 | the marking loop sets the window as `Fill` does |
| Bitmap.Bitmap.FindWindow | src/lib/bitmap.c:52-74 | the search loop returns the start `ScanStart` defines, or `EOF` |
| Buffer.Hash | src/kernel/buffer.c:21 | the chain index is below the 31 chains |
| Buffer.CarvableBound | src/kernel/buffer.c:65-82 | `get_new_buffer` can carve exactly 3855 buffers from the 4 MiB region |
| Buffer.SlotsDisjoint | src/kernel/buffer.c:8-15 | the data slots of carved buffers lie in the region, do not overlap, and stay above the headers (also src/kernel/buffer.c:65-82) |
| Buffer.Empty | src/kernel/buffer.c:179-186 | the initial cache is well formed and shows exactly what the disk holds |
| Buffer.Victim | src/kernel/buffer.c:94-99 | the recycled buffer comes from the free list (its tail) |
| Buffer.GetblkHit | src/kernel/buffer.c:23-47 | a cached block is returned, its count raised by one and it leaves the free list (also src/kernel/buffer.c:106-111) |
| Buffer.GetblkMiss | src/kernel/buffer.c:65-123 | an uncached block gets a newly carved buffer while one can be carved, else the free list's tail (count 0, clean); the buffer is then named by the block with count 1, invalid, and is hashed; there is none only when neither source has one |
| Buffer.GetblkKeeps | src/kernel/buffer.c:106-123 | `getblk` keeps the cache well formed and changes no block's visible contents |
| Buffer.FillKeeps | src/kernel/buffer.c:133-140 | reading an invalid buffer from disk gives it the block's contents and keeps the cache well formed and transparent |
| Buffer.BreadKeeps | src/kernel/buffer.c:125-142 | `bread` returns a valid, referenced buffer that holds the block's contents, keeps the cache well formed and transparent, and fails only when no buffer is available |
| Buffer.BrelseKeeps | src/kernel/buffer.c:157-177 | `brelse` drops one reference, pushes the buffer on the free list when it reaches zero, writes it back if dirty, and keeps the cache well formed and transparent |
| Buffer.BwriteKeeps | src/kernel/buffer.c:144-155 | `bwrite` stores a dirty buffer's bytes on disk and leaves it clean and valid; the cache stays well formed and transparent |
| Buffer.ModifyKeeps | src/fs/inode.c:152 | writing a held buffer's bytes changes what the cache shows for exactly that block |
| Buffer.IdentityUnique | src/kernel/buffer.c:106-123 | no two buffers cache the same block |
| Buffer.UnlistDistinct | src/kernel/buffer.c:42-44 | taking a buffer off the free list keeps the list free of duplicates |
| Buffer.BufferCache.Init | src/kernel/buffer.c:179-186 | the object starts as `Empty` over the given disk |
| Buffer.BufferCache.GetFromHashTable | src/kernel/buffer.c:23-47 | the lookup step: the hashed buffer, taken off the free list |
| Buffer.BufferCache.GetNewBuffer | src/kernel/buffer.c:65-82 | a fresh buffer is appended exactly when one can be carved, and the carve pointers advance |
| Buffer.BufferCache.Miss | src/kernel/buffer.c:84-103 | the miss half of `getblk`, as `GetblkStep` (also src/kernel/buffer.c:113-122) |
| Buffer.BufferCache.Getblk | src/kernel/buffer.c:106-123 | the object follows `GetblkStep` and stays valid |
| Buffer.BufferCache.Bread | src/kernel/buffer.c:125-142 | the object follows `BreadStep` and stays valid |
| Buffer.BufferCache.Bwrite | src/kernel/buffer.c:144-155 | the object follows `BwriteStep` and stays valid |
| Buffer.BufferCache.Brelse | src/kernel/buffer.c:157-177 | the object follows `BrelseStep` and stays valid |
| Buffer.BufferCache.Modify | src/fs/inode.c:152 | a caller's write into a held, valid buffer: new bytes, marked dirty, the cache still valid |
| FsLayout.LayoutCounts | src/include/conix/fs.h:16-24 | the derived counts: 8192 bits, 32 inodes, 64 entries and 512 indexes per block; 7 direct, 512 single and 262144 double indirect blocks |
| FsLayout.AccMode | src/include/conix/fs.h:30-41 | `flags & O_ACCMODE` is the remainder of the flags modulo 4, for negative flags too |
| FsLayout.TruncUpgrade | src/fs/namei.c:537-539 | a read-only open with `O_TRUNC` becomes read-write; no other open changes, and creation, truncation and append flags are kept |
| FsLayout.NewMode | src/fs/namei.c:280 | a new inode's mode: its permission bits are the requested ones without the umask's, and it is a directory or a regular file as asked (also src/fs/namei.c:560-561) |
| FsLayout.Masked | src/fs/namei.c:280 | `p & ~u` on the nine permission bits keeps at most the bits of `p` |
| FsLayout.ZonesRoundTrip | src/include/conix/fs.h:50 | the little-endian zone array decodes to the zones encoded |
| FsLayout.ZonesBytesRoundTrip | src/include/conix/fs.h:50 | every 18 bytes are the encoding of the zones they decode to |
| FsLayout.InodeRoundTrip | src/include/conix/fs.h:43-51 | a 32-byte on-disk inode decodes to the record encoded |
| FsLayout.InodeBytesRoundTrip | src/include/conix/fs.h:43-51 | every 32 bytes are the encoding of the inode they decode to |
| FsLayout.DentryRoundTrip | src/include/conix/fs.h:87-90 | a 16-byte directory entry decodes to the entry encoded |
| FsLayout.DentryBytesRoundTrip | src/include/conix/fs.h:87-90 | every 16 bytes are the encoding of the entry they decode to |
| FsLayout.SuperRoundTrip | src/include/conix/fs.h:65-74 | the on-disk super block decodes to the record encoded |
| FsLayout.Splice | src/fs/inode.c:166 | copying bytes into a block puts them at the offset and keeps every other byte |
| FsLayout.SpliceSlice | src/fs/inode.c:132 | writing back what was read changes nothing (also src/fs/inode.c:166) |
| FsLayout.SliceApart | src/fs/inode.c:132 | a write does not change the bytes of a disjoint window (also src/fs/inode.c:166) |
| FsLayout.PutIndex | src/fs/bmap.c:140-143 | storing an index entry sets that entry and keeps the others |
| FsLayout.PutInode | src/fs/inode.c:34-37 | storing an inode record sets that record and keeps the block's other records |
| FsLayout.PutDentry | src/fs/namei.c:140-153 | storing a directory entry sets that entry and keeps the block's other entries |
| FsLayout.PutInodeSame | src/fs/inode.c:34-37 | storing the record already there changes nothing |
| FsLayout.PutDentrySame | src/fs/namei.c:140-153 | storing the entry already there changes nothing |
| FsState.PutBlock | src/kernel/buffer.c:144-155 | a written block shows its new content, and no other block changes |
| FsState.UntouchedTrans | src/fs/inode.c:148-170 | two steps that each keep all blocks outside a set keep all blocks outside the union |
| FsState.PutDesc | src/fs/inode.c:34-37 | writing an inode record changes that record, and no other record or block |
| FsState.FindSuper | src/fs/super.c:22-30 | the first mounted slot for the device, or none when no slot has it |
| Bmap.BitOf | src/fs/bmap.c:19-20 | a number's bit within its map block lies inside the block (also src/fs/bmap.c:48-49) |
| Bmap.Locate | src/fs/bmap.c:19-20 | bit `t` of map block `i` stands for number `bias + 8192 * i + t`, and maps back to `(i, t)` |
| Bmap.Split | src/fs/bmap.c:19-20 | every number from the bias on is its map block's base plus its bit |
| Bmap.FirstFreeUnique | src/fs/bmap.c:14-28 | the first free number is unique |
| Bmap.ScanNoneFull | src/fs/bmap.c:22-23 | when `bitmap_scan(map, 1)` finds nothing, every bit of the block is set |
| Bmap.ScanSomeFirst | src/fs/bmap.c:22-23 | when it finds something, it is the lowest clear bit |
| Bmap.AllocHit | src/fs/bmap.c:14-30 | a scan that finds bit `s` of block `i` after full blocks allocates exactly the first free number, and panics exactly when it is not below the limit |
| Bmap.AllocFound | src/fs/bmap.c:14-28 | the lowest clear bit after full blocks is the first free number, and marking it is `Put` of that bit |
| Bmap.AllocNone | src/fs/bmap.c:14-30 | with all eight blocks full, `EOF` is returned and nothing changes |
| Bmap.AllocAbsent | src/fs/bmap.c:15-16 | reaching a missing map block after full ones fails the kernel assertion |
| Bmap.ScanMaps | src/fs/bmap.c:14-28 | the map loop: `Allocated` (the first free number is taken and only its bit set; `EOF` only when all are full; a panic on a missing block or a number past the limit), touching the map blocks only |
| Bmap.AllocBit | src/fs/bmap.c:14-30 | the same on the filesystem state, which keeps its tables |
| Bmap.MapsDistinct | src/fs/super.c:48-65 | a mounted device's map blocks are at most eight and pairwise distinct |
| Bmap.Balloc | src/fs/bmap.c:6-31 | a panic without a super block; otherwise, when `firstdatazone >= 1`, `Allocated` over the zone maps with bias `firstdatazone - 1` and limit `zones`; only zone-map blocks are written |
| Bmap.Ialloc | src/fs/bmap.c:60-82 | a panic without a super block; otherwise `Allocated` over the inode maps with bias 0 and limit `inodes`, as corrected (see Findings) |
| Bmap.IallocOverRead | src/fs/bmap.c:72-73 | as written, a full inode-map block whose next byte in memory is zero yields bit 8192, a number of the next block |
| Bmap.ReleaseSpec | src/fs/bmap.c:33-58 | freeing panics exactly when the number is out of range, outside the maps or not in use; otherwise only its bit is cleared (also src/fs/bmap.c:84-107) |
| Bmap.ReleaseUndoesAlloc | src/fs/bmap.c:6-58 | freeing what was just allocated succeeds and restores every bit |
| Bmap.ReleaseBit | src/fs/bmap.c:40-56 | the freeing loop computes `Release` (also src/fs/bmap.c:92-105) |
| Bmap.ZoneReleaseSpec | src/fs/bmap.c:33-58 | `Released` for the zone maps with bias `firstdatazone - 1` and limit `zones` |
| Bmap.Bfree | src/fs/bmap.c:33-58 | a panic without a super block; otherwise the zone release, as corrected (see Findings) |
| Bmap.Ifree | src/fs/bmap.c:84-107 | a panic without a super block; otherwise the inode release with bias 0, as corrected (see Findings) |
| Bmap.FreeMapAsWritten | src/fs/bmap.c:40-43 | as written: the first `i` with `idx <= 8192 * (i + 1)`, off by one at each boundary and blind to the bias (also src/fs/bmap.c:92-95) |
| Bmap.FreeMapAgreesOffBoundary | src/fs/bmap.c:92-95 | on inode maps the loop's choice is right except at the multiples of 8192 |
| Bmap.BfreeWrongMap | src/fs/bmap.c:40-52 | as written, with first data zone 10, zone 8200 sits in block 0 but the loop takes block 1, below whose offset it lies |
| Bmap.IfreeWrongMap | src/fs/bmap.c:92-102 | as written, inode 8192 is looked for at byte 1024 of block 0, past the block, and the window's length lets it through |
| Bmap.Ptr | src/fs/bmap.c:112-113 | a zone pointer is a 16-bit value (also src/fs/bmap.c:148) |
| Bmap.SetPtr | src/fs/bmap.c:140-143 | storing a zone pointer sets it |
| Bmap.SetPtrFrame | src/fs/bmap.c:140-143 | it writes the holding block only, and in the inode record only the zone array |
| Bmap.Route | src/fs/bmap.c:110-136 | block numbers below 7 go direct, the next 512 through zone 7, the rest through zone 8, each with its remaining index in range |
| Bmap.Rest | src/fs/bmap.c:152-154 | the indices below the top pointer, one per level, each below 512 |
| Bmap.RouteInjective | src/fs/bmap.c:110-155 | different logical blocks take different paths |
| Bmap.DescendStep | src/fs/bmap.c:151-155 | one level down follows the pointer at `block / divider` in the indirect block |
| Bmap.Fetch | src/fs/bmap.c:140-149 | the pointer is returned unchanged unless it is zero and `create` is set; then a new zone is allocated and stored (truncated to 16 bits), touching only the maps and the holder |
| Bmap.FrameCompose | src/fs/bmap.c:139-156 | the write sets of successive steps add up |
| Bmap.Bmap | src/fs/bmap.c:109-157 | without `create`, or when the block is mapped, nothing changes and the result is the zone that `Resolve` finds (0 for a hole); otherwise only map blocks, indirect blocks and the inode's zone array are written |
| Bmap.Resolve | src/fs/bmap.c:109-157 | a direct block resolves to the inode's zone entry; a zero top pointer gives a hole (0) |
| Super.GetFreeSuper | src/fs/super.c:12-20 | the lowest free slot; none (a panic in the caller) exactly when every slot is taken |
| Super.GetSuper | src/fs/super.c:22-30 | the first slot of the device, as `FindSuper`; none exactly when no slot holds it |
| Super.FindSuperFirst | src/fs/super.c:22-30 | a match with no match before it is what `get_super` returns |
| Super.FindSuperByDev | src/fs/super.c:22-30 | the lookup depends on the slots' devices only |
| Super.ReadSuper | src/fs/super.c:32-68 | a mounted device's slot comes back unchanged; otherwise a panic exactly when no slot is free, the magic is not `0x137f` or a map count exceeds 8, and else the first free slot holds the device with inode maps from block 2 and zone maps after them; afterwards `get_super` finds the device there |
| Super.MapBlocks | src/fs/super.c:48-65 | numbering `n` map blocks from `first` succeeds exactly when `n` is within the limit of 8, and then yields the run `first, first + 1, …` |
| Super.ResetSupers | src/fs/super.c:81-89 | every slot freed, with an empty inode list and no root or mount inode, so no device is mounted |
| Inode.InodeIndex | src/fs/inode.c:76 | the record index within its block is below 32 |
| Inode.InodeLocation | src/fs/inode.c:34-37 | inode `nr` lies after the map blocks, at block offset `(nr - 1) / 32` and index `(nr - 1) % 32` (also src/fs/inode.c:76) |
| Inode.InodeLocationInjective | src/fs/inode.c:34-37 | distinct inode numbers have distinct records (also src/fs/inode.c:76) |
| Inode.GetFreeInode | src/fs/inode.c:14-23 | the lowest free slot; none (a panic) exactly when all are taken |
| Inode.FindNr | src/fs/inode.c:43-51 | the first slot on the list holding the number, or none when no slot on it does |
| Inode.FindNrFirst | src/fs/inode.c:43-51 | a match with no match before it is what `find_inode` returns |
| Inode.FindInode | src/fs/inode.c:39-52 | the walk of the device's inode list returns `FindNr` of it |
| Inode.Loaded | src/fs/inode.c:66-79 | a fresh slot's record index is in range |
| Inode.Iget | src/fs/inode.c:54-82 | a panic on an unmounted device; a resident inode gains one reference (in `uint32`) and the access time, nothing else changing; otherwise a panic exactly when `nr > inodes` or no slot is free, and else the lowest free slot is loaded with the inode's record location and `ctime`, and pushed on the device's list |
| Inode.IgetAt | src/fs/inode.c:55-82 | the same on the slot of a device already found |
| Inode.Revisit | src/fs/inode.c:56-59 | the hit path: count plus one in `uint32`, access time now |
| Inode.LoadInode | src/fs/inode.c:62-79 | the miss path: the halting condition, and the loaded slot pushed on the list |
| Inode.FindNrByNr | src/fs/inode.c:43-49 | `find_inode` depends on the slots' numbers only |
| Inode.FoundAgain | src/fs/inode.c:54-82 | once `iget` returned a slot for `nr`, the next `find_inode` of `nr` finds that slot |
| Inode.MountRoot | src/fs/super.c:70-78 | a panic without a root partition; on success the device is mounted at the slot `read_super` picks, only that slot changes, and its root and mount point are the same resident slot holding inode 1 |
| Inode.TakeRoot | src/fs/super.c:76-77 | the second `iget(dev, 1)` returns the first one's slot, which becomes both the root and the mount point |
| Inode.Attach | src/fs/super.c:76-77 | the root and mount-point fields of the slot are set |
| Inode.SuperInit | src/fs/super.c:80-92 | after `super_init` the root device is in slot 0 with inode 1 as root and mount point, and every other slot is free |
| Inode.Without | src/fs/inode.c:99 | `list_remove`: the list keeps exactly its other members |
| Inode.Iput | src/fs/inode.c:84-101 | NULL changes nothing; otherwise the count drops by one in `uint32`; at zero the slot is unlinked and freed, a panic exactly for slot 0 |
| Inode.PutFreeInode | src/fs/inode.c:25-29 | a panic exactly for slot 0 or a slot still referenced; otherwise the slot is freed |
| Inode.InodeInit | src/fs/inode.c:103-108 | every slot freed |
| Inode.FileBytes | src/fs/inode.c:117-135 | the file's bytes from `lo`: each is the byte of the zone its logical block resolves to |
| Inode.ChunkBytes | src/fs/inode.c:125-132 | the window copied from one block is that stretch of the file |
| Inode.FileBytesAppend | src/fs/inode.c:117-135 | consecutive windows join into the stretch they cover |
| Inode.InodeRead | src/fs/inode.c:110-139 | `EOF` at or past the end, changing nothing; with a negative offset, 0 and the access time updated when `len` is 0, a panic otherwise; with a non-negative offset, a panic exactly when a block of the window is a hole; else `min(len, size - offset)` bytes, exactly the file's bytes there, and the access time is updated |
| Inode.ReadWindows | src/fs/inode.c:117-135 | the read loop returns the file's bytes in the window, halting exactly on a hole |
| Inode.ReadWindow | src/fs/inode.c:118-134 | one pass: up to the end of the block or of the request, the file's bytes there |
| Inode.WriteWindow | src/fs/inode.c:148-169 | one pass: a panic past the largest file; else the block is allocated, the bytes land at the offset in it, the size grows to cover them and only maps, indirect blocks, that block and the inode record are written |
| Inode.CopyWindow | src/fs/inode.c:154-166 | the copy into the block and the size update |
| Inode.WriteWindows | src/fs/inode.c:147-169 | the write loop: the size grows to cover the data and only the blocks it allocates or writes change |
| Inode.InodeWrite | src/fs/inode.c:141-174 | a panic on a non-regular file; else all `len` bytes are written, the size covers them, `mtime` and `atime` are now, and no other block changes |
| Inode.FreeTreeFrame | src/fs/inode.c:176-191 | `inode_bfree` writes zone-map blocks only |
| Inode.FreeTree | src/fs/inode.c:176-191 | a zero pointer frees nothing and does not halt |
| Inode.FreeZeroChildren | src/fs/inode.c:186-188 | the loop over zero entries frees nothing |
| Inode.InodeBfreeLeaks | src/fs/inode.c:186 | an indirect block whose first 32 entries are zero is freed alone, leaving every zone its other 480 entries name allocated |
| Inode.InodeBfree | src/fs/inode.c:176-191 | the recursion frees the tree below the pointer as `FreeTree` |
| Inode.BfreeIndirect | src/fs/inode.c:185-190 | an indirect block's children are freed before the block itself |
| Inode.BfreeChildren | src/fs/inode.c:186-188 | the loop over an indirect block's entries |
| Inode.TruncatedAt | src/fs/inode.c:193-215 | truncation depends on where the inode's record is and on the zone maps only |
| Inode.Truncated | src/fs/inode.c:193-215 | nothing changes unless the inode is a file or a directory; when a truncation completes, the record has size 0 and modification time `now` |
| Inode.ClearZoneDesc | src/fs/inode.c:200-201 | freeing one zone pointer zeroes it and keeps the rest of the record |
| Inode.ClearZonesDesc | src/fs/inode.c:199-209 | the zone loop zeroes every pointer from `i` on and keeps the rest of the record |
| Inode.ZonesClearedStep | src/fs/inode.c:199-209 | zeroing pointer `i` and then those from `i + 1` zeroes those from `i` |
| Inode.TruncateFrame | src/fs/inode.c:193-215 | truncation writes zone maps and the inode's record block only |
| Inode.TruncateClears | src/fs/inode.c:193-215 | a truncated file or directory has all nine pointers zero, size 0 and `mtime` now, its other fields kept; any other inode is left alone |
| Inode.InodeTruncate | src/fs/inode.c:193-215 | the state follows `Truncated` |
| Inode.EmptyInode | src/fs/inode.c:211-214 | size 0 and `mtime` now written to the record |
| Inode.ClearAllZones | src/fs/inode.c:199-209 | the zone loop follows `ClearZones` |
| Inode.ClearNext | src/fs/inode.c:199-209 | one more zone of the loop |
| Inode.ClearZoneStep | src/fs/inode.c:200-201 | `inode_bfree` of one zone pointer, then zeroing it |
| Path.GroupAsUid | src/fs/namei.c:26 | the `char` group id compared with the `uint32` user id: sign-extended, so ids from 128 up match no ordinary user |
| Path.And3 | src/fs/namei.c:30 | `mode & mask & 0b111` is below 8 |
| Path.And3Test | src/fs/namei.c:30 | the test holds exactly when the three low mode bits grant every bit the mask asks for |
| Path.ClassBits | src/fs/namei.c:24-28 | the owner's, the group's or the others' three bits |
| Path.PermissionRules | src/fs/namei.c:13-34 | an unlinked inode grants nothing; the kernel user is granted everything on a linked one; any other user is granted exactly what the bits of its class hold |
| Path.Permission | src/fs/namei.c:13-33 | a grant needs a linked inode, and a user other than the kernel is granted only masks below 8 |
| Path.PermissionNothing | src/fs/namei.c:13-34 | an empty mask is granted exactly on a linked inode |
| Path.PermissionFields | src/fs/namei.c:13-34 | the answer depends on mode, owner, group and link count only |
| Path.Eos | src/fs/namei.c:43 | the first terminator at or after `i`, with none before it (also src/fs/namei.c:57) |
| Path.Strsep | src/fs/namei.c:36-47 | the first separator before the terminator, or none when the text holds none |
| Path.Strrsep | src/fs/namei.c:49-61 | the last separator before the terminator, or none when the text holds none |
| Path.StrsepSkip | src/fs/namei.c:36-47 | skipping bytes that are neither separator nor terminator leaves the answer unchanged |
| Path.StrrsepAgree | src/fs/namei.c:49-61 | the answer depends on the text up to its terminator only |
| Path.Chars | src/fs/namei.c:63-82 | the text from `i` up to its terminator |
| Path.Component | src/fs/namei.c:63-82 | the text from `i` up to the next separator or terminator |
| Path.MatchNameMeaning | src/fs/namei.c:63-82 | `match_name` succeeds exactly when the path component equals the entry name, and then `next` is past the component and its separator |
| Path.MatchName | src/fs/namei.c:63-82 | a match never moves `next` backwards, and leaves it in place exactly at the path's terminator |
| Path.MatchNameAdvances | src/fs/namei.c:63-82 | a match moves forward within the path, and moves nowhere only at the terminator |
| Path.Pop | src/fs/namei.c:621-624 | dropping the last component of the working path leaves a shorter prefix of it that is still a directory path |
| Path.Next | src/fs/namei.c:611-630 | one separated component keeps a directory path with the same first byte |
| Path.Last | src/fs/namei.c:633-650 | the final component keeps a directory path with the same first byte |
| Path.Walk | src/fs/namei.c:610-650 | the whole walk keeps a directory path with the same first byte |
| Path.Start | src/fs/namei.c:601-608 | an absolute path restarts at "/", a relative one at the working path cut after its last separator |
| Path.Canonical | src/fs/namei.c:598-651 | the page's text and the byte after it are a directory path beginning as the working path does |
| Path.WalkEnd | src/fs/namei.c:610 | at the terminator the walk stops where it is (also src/fs/namei.c:633-634) |
| Path.WalkLast | src/fs/namei.c:612-613 | without another separator the walk finishes with the last component (also src/fs/namei.c:636-650) |
| Path.WalkNext | src/fs/namei.c:610-630 | with a separator the walk takes that component and goes on past it |
| Path.WalkLeavesDotOrEos | src/fs/namei.c:598-651 | after the walk the byte past the text is the terminator or a '.' |
| Path.PopPage | src/fs/namei.c:621-624 | the page update for "../" is `Pop` of the text |
| Path.Step | src/fs/namei.c:611-630 | one pass of the loop on the page is `Next` |
| Path.Finish | src/fs/namei.c:633-650 | the code after the loop on the page is `Last` |
| Path.Begin | src/fs/namei.c:601-608 | the first lines on the page are `Start` |
| Path.Components | src/fs/namei.c:610-631 | the loop stops at the terminator or at a component without a separator, and keeps what remains to be computed |
| Path.AbspathAsWritten | src/fs/namei.c:598-651 | the page holds `Canonical`'s text and, after it, `Canonical`'s byte, which may be a '.' |
| Path.Abspath | src/fs/namei.c:598-651 | with the end terminated, the page reads as `Canonical`'s text |
| Path.TextAt | src/fs/namei.c:598-651 | a page with its first terminator at `end` reads as the bytes before it |
| Path.NotTextAt | src/fs/namei.c:633-637 | a page whose text is followed by a byte other than the terminator does not read as that text |
| Path.AbspathLeavesDot | src/fs/namei.c:627 | with working path "/" and "a/.", the page holds "/a/" followed by '.' in place of a terminator (also src/fs/namei.c:636-637) |
| Dir.EntryStep | src/fs/namei.c:100-101 | the next entry stays in the same block unless it crosses a 64-entry boundary |
| Dir.PutEntry | src/fs/namei.c:143 | writing an entry changes that entry of that zone and no other entry or block (also src/fs/namei.c:152) |
| Dir.Names | src/fs/namei.c:100-108 | one name per entry the loop reads |
| Dir.Reach | src/fs/namei.c:92 | the loop reads at most as many entries as a directory's zones can hold (also src/fs/namei.c:100) |
| Dir.Search | src/fs/namei.c:100-115 | the first entry `match_name` accepts, with where `next` is left, or none when it accepts none |
| Dir.SearchFindsName | src/fs/namei.c:100-115 | on names without separators: the hit is the first entry whose name equals the component, `next` is past it, and a miss means no entry has that name |
| Dir.MissedAll | src/fs/namei.c:100-112 | the loop invariant: every entry passed was rejected |
| Dir.SearchHit | src/fs/namei.c:108-110 | the first accepted entry is the result |
| Dir.SearchMiss | src/fs/namei.c:114-115 | no accepted entry means no result |
| Dir.FindEntry | src/fs/namei.c:85-116 | a panic exactly for a free directory inode or a miss past the zones' reach; else the result is `Lookup`, with the zone that holds the entry, and no state changes |
| Dir.Scan | src/fs/namei.c:100-112 | the loop over `n` entries returns the search over them and the hit's zone |
| Dir.Probe | src/fs/namei.c:101-108 | one pass: the zone of the entry and `match_name` on its name |
| Dir.EntryName | src/fs/namei.c:152 | the 14-byte field `strncpy` stores |
| Dir.ShownIs | src/fs/namei.c:152 | a field holding a name and then a terminator shows that name |
| Dir.EntryNameBytes | src/fs/namei.c:152 | the field holds the name's bytes, padded with terminators |
| Dir.StoredNameFound | src/fs/namei.c:125-127 | a name of at most 14 bytes without separators is stored so that `match_name` finds it again, to the end of the path (also src/fs/namei.c:152) |
| Dir.FieldFound | src/fs/namei.c:63-82 | a field showing the whole rest of the path is matched to its end |
| Dir.ComponentIsChars | src/fs/namei.c:63-82 | a text without separators is its own component |
| Dir.LongNameLost | src/fs/namei.c:125-127 | a name longer than 14 bytes is stored cut to 14, and `match_name` of the whole name then misses it (also src/fs/namei.c:152) |
| Dir.CheckName | src/fs/namei.c:125-127 | a panic exactly when a separator is among the first 14 characters, and nothing else changes |
| Dir.GrownFacts | src/fs/namei.c:142-146 | growing writes only the entry's zone and the record; the entry then has `nr` 0 and the size covers it |
| Dir.LabelledFacts | src/fs/namei.c:152-155 | naming writes only the entry's zone and the record; the entry then holds the stored name and the record the time |
| Dir.Grow | src/fs/namei.c:142-146 | the state follows `Grown` |
| Dir.Label | src/fs/namei.c:152-155 | the state follows `Labelled` |
| Dir.AddEntry | src/fs/namei.c:118-160 | an existing name is returned with nothing changed; else, unless a panic, the name was accepted and a free entry at or below the end gets `nr` 0 and the stored name, the size covers it, `mtime` is now, and no other block changes but those `bmap` allocates |
| Dir.Place | src/fs/namei.c:129-159 | the allocating loop places the name as `AddEntry` says |
| Dir.Claim | src/fs/namei.c:152-158 | the free entry found gets the name and the time |
| Dir.Visit | src/fs/namei.c:134-150 | one pass: the entry's zone, growth for an entry at or past the end, and whether it is free |
| Dir.Extend | src/fs/namei.c:142-146 | an entry at or past the end is added free; inside the size nothing changes |
| Dir.UntouchedAbsorb | src/fs/namei.c:133-159 | later writes to blocks already written add nothing to what the loop has changed |
| Dir.NextZone | src/fs/namei.c:134-141 | on a block boundary `bmap` with allocation gives a nonzero zone (zero halts); inside a block the zone stays |
| Namei.Home | src/fs/namei.c:201 | the slot `iget` would load for `nr`: its device, number and record location (also src/fs/namei.c:240) |
| Namei.MountsMaps | src/fs/inode.c:54-101 | taking and dropping inodes leaves each device's maps and superblock slot as they were |
| Namei.FindSuperDevs | src/fs/super.c:22-30 | `get_super` depends on the slots' devices only |
| Namei.SameRecord | src/fs/inode.c:34-37 | two slots at the same record read the same inode and the same entries |
| Namei.AtHome | src/fs/inode.c:54-82 | a resident slot reads as the inode it was loaded for |
| Namei.Get | src/fs/inode.c:54-82 | `iget` in the middle of a walk: the slot returned holds the inode with one reference more, and the inode tables stay consistent |
| Namei.TableAfterIget | src/fs/inode.c:54-82 | `iget` keeps every resident slot listed under its device and every listed slot resident, and returns the slot of `(dev, nr)` |
| Namei.NotInCore | src/fs/inode.c:39-52 | when `find_inode` misses, no slot holds the inode |
| Namei.TableAfterHit | src/fs/inode.c:56-59 | a repeated `iget` keeps the tables consistent and adds one reference to that slot |
| Namei.TableAfterLoad | src/fs/inode.c:62-79 | a first `iget` keeps the tables consistent and adds the slot with one reference |
| Namei.LoadListed | src/fs/inode.c:78 | pushing the new slot keeps every resident slot listed |
| Namei.LoadComplete | src/fs/inode.c:78 | pushing the new slot keeps every listed slot resident |
| Namei.Put | src/fs/inode.c:84-101 | `iput` in the middle of a walk drops one reference, keeps the tables consistent, and leaves a still-referenced slot otherwise unchanged |
| Namei.TableAfterPut | src/fs/inode.c:84-101 | `iput` keeps the tables consistent and drops one reference |
| Namei.UnlinkedListed | src/fs/inode.c:99 | freeing a slot and taking it off the lists keeps every resident slot listed |
| Namei.UnlinkedComplete | src/fs/inode.c:99 | freeing a slot and taking it off the lists keeps every listed slot resident |
| Namei.HoldsAfterDrop | src/fs/namei.c:200 | after the `iput` the walk holds no reference beyond those held before it (also src/fs/namei.c:217) |
| Namei.HoldsAfterGot | src/fs/namei.c:201 | after the `iget` the walk holds exactly one reference more, on the new slot |
| Namei.HoldsAfterSwap | src/fs/namei.c:199-201 | `iput` of the directory and `iget` of the entry move the walk's one reference to the entry |
| Namei.LinkedAfterHold | src/fs/namei.c:176 | `inode->count++` keeps the tables consistent and adds one reference |
| Namei.HoldsRoots | src/fs/namei.c:167-171 | the task's root and working directory stay resident during a walk |
| Namei.LookupAdvances | src/fs/namei.c:194 | `find_entry` moves `next` forward within the path, and moves nowhere only at the terminator |
| Namei.FirstShown | src/fs/namei.c:100-112 | the first entry whose name is the component, or none |
| Namei.LookupByName | src/fs/namei.c:85-116 | on a directory without separators in its names, `find_entry` finds the first entry named exactly the component and leaves `next` after it |
| Namei.SearchIsFirst | src/fs/namei.c:100-112 | the search is the first entry with that name |
| Namei.WalkByName | src/fs/namei.c:192-209 | on a tree without separators in names, the loop of `named` is the usual walk: component by component, each into a directory the task may search |
| Namei.Start | src/fs/namei.c:167-169 | a leading separator is skipped |
| Namei.Named | src/fs/namei.c:163-219 | NULL and nothing changed for the empty path; else the outcome of `NamedWalk` from the root or working directory, a walk that never ends halting, with the one reference left on the slot returned and no block changed |
| Namei.Begin | src/fs/namei.c:176-209 | after `inode->count++` the rest of `named` reports `NamedWalk` |
| Namei.EndedAtStart | src/fs/namei.c:179-186 | with no separator past the start, `named` returns the start directory |
| Namei.Hold | src/fs/namei.c:176 | `inode->count++` keeps the tables consistent, holding one reference more |
| Namei.AddRef | src/fs/namei.c:176 | one more reference, in `uint32` |
| Namei.Drop | src/fs/namei.c:215-218 | the failure path's `iput` leaves no reference held |
| Namei.Take | src/fs/namei.c:201 | the `iget` returns a slot holding `(dev, nr)`, the one reference held |
| Namei.Descend | src/fs/namei.c:192-209 | the loop reports the walk from the directory held |
| Namei.Enter | src/fs/namei.c:193-208 | one round: a finished walk or the next directory held with `next` further on |
| Namei.Cross | src/fs/namei.c:199-208 | the step into the entry's inode: a failure unless it is a directory the task may search, the end once `next` reaches the last separator, for ever if `next` did not move |
| Namei.Check | src/fs/namei.c:202-208 | the type and permission test and the loop's exit |
| Namei.Namei | src/fs/namei.c:221-245 | NULL for the empty path; else the outcome of `NameiWalk`: the parent from `named`, then the entry of the last component, with the one reference left on the slot returned and no block changed |
| Namei.Last | src/fs/namei.c:228-244 | from the parent, the last component's entry, or the parent when the path ends there |
| Namei.Swap | src/fs/namei.c:240-242 | `iget` of the entry then `iput` of the parent moves the reference held |
| NameCalls.HoldsAfterGot2 | src/fs/namei.c:374 | the `iget` of the entry adds a second reference held by the call (also src/fs/namei.c:488) |
| NameCalls.HoldsAfterDrop2 | src/fs/namei.c:409 | the `iput` of the entry leaves only the directory's reference (also src/fs/namei.c:517) |
| NameCalls.Release2 | src/fs/namei.c:409-410 | the two `iput`s of the rollback path leave no reference held and the tables consistent (also src/fs/namei.c:517-518) |
| NameCalls.LocatedAfter | src/fs/namei.c:515-519 | slots in use after a call still read their own records when no super block changed |
| NameCalls.SettledAfter | src/fs/namei.c:515-519 | after a call the tables are consistent and hold only the references held before it |
| NameCalls.UnlinkingAt | src/fs/namei.c:502-511 | what `unlink` writes depends only on which records the slots read |
| NameCalls.ClearedAt | src/fs/namei.c:502-506 | clearing the entry and lowering the count through either slot of one record writes the same |
| NameCalls.FreeAt | src/fs/namei.c:508-511 | freeing the inode through either slot of one record writes the same |
| NameCalls.Unlink | src/fs/namei.c:465-520 | a walk that never ends halts; else 0 exactly when `named` reaches a directory with write permission, the entry exists, and it names no directory and is not protected by the sticky bit from the caller; then the entry is cleared, the link count drops (in `uint8`) and at zero the inode is truncated and its bit freed; on `EOF` nothing is written |
| NameCalls.UnlinkAt | src/fs/namei.c:474-519 | the same once `named` has given the directory |
| NameCalls.UnlinkEntry | src/fs/namei.c:488-519 | for the entry found: 0 exactly when it names no directory and the sticky test passes, with the writes of `Unlinking` |
| NameCalls.UnlinkTarget | src/fs/namei.c:489-511 | the checks and writes on the inode `iget` returned |
| NameCalls.Erase | src/fs/namei.c:502-511 | the writes follow `Unlinking` |
| NameCalls.ClearEntry | src/fs/namei.c:502-506 | the writes follow `Cleared` |
| NameCalls.Numbers | src/fs/namei.c:328-339 | one inode number per entry |
| NameCalls.LiveIsCount | src/fs/namei.c:336-338 | the count is the number of entries in use |
| NameCalls.NumbersAt | src/fs/namei.c:328-339 | two slots for one record list the same numbers |
| NameCalls.AsWrittenCountsSize | src/fs/namei.c:314-347 | `is_empty` as written answers "exactly two entries and entry 0 in use", whatever the other entries hold |
| NameCalls.AsWrittenKeepsEmptied | src/fs/namei.c:328-339 | a directory of three entries whose third was removed is empty, yet `is_empty` as written says it is not |
| NameCalls.IsEmpty | src/fs/namei.c:314-347 | a panic exactly for a non-directory or when the loop would pass the zones' reach; else true exactly when zone 0 is present, there are at least two entries and exactly two are in use, and nothing changes |
| NameCalls.CountLive | src/fs/namei.c:323-339 | the loop counts the entries in use |
| NameCalls.Peek | src/fs/namei.c:329-336 | one pass: the entry's zone and inode number |
| NameCalls.RmdiringAt | src/fs/namei.c:392-404 | what `rmdir` writes depends only on which records the slots read |
| NameCalls.DetachedAt | src/fs/namei.c:395-404 | the record writes through either slot of one record are the same |
| NameCalls.Rmdir | src/fs/namei.c:349-413 | a walk that never ends halts; else 0 exactly when `named` reaches a directory with write permission and the entry names another directory on that device, held by no one, empty and not protected by the sticky bit on the parent; then that directory is truncated, its bit freed, its link count 0, the parent's count one lower and `mtime` now, and the entry cleared; on `EOF` nothing is written |
| NameCalls.RmdirAt | src/fs/namei.c:359-412 | the same once `named` has given the directory |
| NameCalls.InCoreHeld | src/fs/namei.c:383 | while the call holds the parent, an inode is resident exactly when it was before or it is the parent |
| NameCalls.RmdirEntry | src/fs/namei.c:374-412 | for the entry found: 0 exactly when the checks pass, with the writes of `Rmdiring` |
| NameCalls.RmdirTarget | src/fs/namei.c:375-404 | the checks, a panic when the link count is not 2, then the writes |
| NameCalls.Vet | src/fs/namei.c:375-388 | the checks of `rmdir`, with the corrected `is_empty` |
| NameCalls.EmptyAt | src/fs/namei.c:314-347 | emptiness depends on the record read |
| NameCalls.Remove | src/fs/namei.c:392-404 | the writes follow `Rmdiring` |
| NameCalls.Detach | src/fs/namei.c:395-404 | the record writes follow `Detached` |
| NameCalls.Forget | src/fs/namei.c:397 | `inode->nr = 0` and the parent's `ctime` and `atime` now (also src/fs/namei.c:400) |
| NameCalls.Mkdir | src/fs/namei.c:247-312 | a walk that never ends halts; else 0 exactly when `named` reaches a directory with write permission and no entry of that name, with the writes `MkdirWrote` describes; `EOF` with nothing written otherwise |
| NameCalls.MkdirAt | src/fs/namei.c:255-311 | the same once `named` has given the directory |
| NameCalls.MkdirNew | src/fs/namei.c:270-306 | for a new name the call succeeds unless it halts: the entry placed by `add_entry`, the lowest free inode number taken by `ialloc` and stored in it, then as `MkdirInode` |
| NameCalls.MkdirTaken | src/fs/namei.c:272-306 | once the name is placed: `ialloc` took the lowest free inode number and the entry holds it as 16 bits, then as `MkdirInode` (`Numbering`) |
| NameCalls.MkdirInode | src/fs/namei.c:275-306 | `iget` of the new number, then the writes `Formed` describes: the new record `Made` (a directory of two entries, two links), the parent's `nlinks + 1`, zone 0 of the new directory allocated and given `.` and `..`; both references given back |
| NameCalls.MkdirGot | src/fs/namei.c:277-302 | with the new inode's slot in hand: the writes of `MkdirBlocks`, then both references given back and the tables settled |
| NameCalls.MkdirBlocks | src/fs/namei.c:277-299 | the writes `Formed` describes, on the record of the new inode, the parent's record and the new zone |
| NameCalls.Settle2 | src/fs/namei.c:301-302 | the two `iput`s leave no reference held and the tables as `Settled` says |
| NameCalls.MkdirWroteShows | src/fs/namei.c:270-306 | after `mkdir`, zone 0 of the new directory names the new inode in `.` and the parent in `..`; where the blocks written are apart, the new record reads back as a directory of two entries with two links whose zone 0 is that zone, and the parent's entry holds the new inode's number |
| NameCalls.Numbered | src/fs/namei.c:272 | the disk with entry `k` of zone `z` given inode number `nr`: its name kept, every other block of the device unchanged |
| NameCalls.Number | src/fs/namei.c:272 | the disk becomes `Numbered`: the entry's inode number is set, nothing else (also src/fs/namei.c:450) |
| NameCalls.Made | src/fs/namei.c:278-283 | the new directory's record: the task's owner and group, a directory mode, two entries of size, two links, `mtime` now, its zones kept |
| NameCalls.Init | src/fs/namei.c:276-283 | the record written is `Made` |
| NameCalls.MoreLinks | src/fs/namei.c:286 | the disk with the inode's `nlinks` one higher in its 8-bit field, the other records of its block and every other block of the device unchanged |
| NameCalls.AddLink | src/fs/namei.c:286 | the disk becomes `MoreLinks`: `nlinks++` in the 8-bit field (also src/fs/namei.c:453) |
| NameCalls.Stamp | src/fs/namei.c:294 | `strcpy` of a short name into the field: the name then a terminator, the rest kept (also src/fs/namei.c:298) |
| NameCalls.Dotted | src/fs/namei.c:292-299 | entry 0 is "." for the new directory, entry 1 is ".." for the parent, the rest of the block is kept |
| NameCalls.Dots | src/fs/namei.c:289-299 | the first block of the new directory is written as `Dotted` |
| NameCalls.HoldsThen2 | src/fs/namei.c:428 | a second call's reference adds to the first's |
| NameCalls.HoldsThen | src/fs/namei.c:428-433 | a second call that holds nothing leaves the first's reference |
| NameCalls.Link | src/fs/namei.c:415-463 | `EOF` with nothing written when `namei` of the old name fails or gives a directory; else as `LinkToOutcome` for the new name; a walk that never ends halts |
| NameCalls.LinkTo | src/fs/namei.c:423-462 | once the old name gives an inode: refused for a directory; else 0 exactly when `named` reaches a directory on the same device, with write permission and no entry of that name, with the writes `LinkWrote` describes |
| NameCalls.LinkAt | src/fs/namei.c:432-462 | the checks on the directory `named` gave; on success the writes `LinkWrote` describes |
| NameCalls.LinkNew | src/fs/namei.c:449-456 | for a new name the call succeeds unless it halts: the entry placed by `add_entry` given the existing inode's number, and that inode's `nlinks + 1` |
| NameCalls.LinkWroteShows | src/fs/namei.c:449-453 | after `link`, where the blocks written are apart, the new entry reads back with the new name and the inode's number, and the inode's record with one link more |
| NameCalls.Touch | src/fs/namei.c:454 | the inode's `ctime` is now |
| NameCalls.OpenMask | src/fs/namei.c:572 | the permission mask for an access mode asks for read, write or both |
| NameCalls.OpenMaskMeaning | src/fs/namei.c:572 | with the corrected mask, opening for reading needs the read bit and opening for writing the write bit |
| NameCalls.OpenMaskAsWrittenGrants | src/fs/namei.c:572 | as written, `O_WRONLY` asks for execute permission and `O_RDONLY` for none, so a file without write or read permission is opened |
| NameCalls.Fresh | src/fs/namei.c:559-568 | a created inode is a regular file with one link |
| NameCalls.Created | src/fs/namei.c:559-568 | the record written on creation: the task's owner and group, a regular mode, size 0, one link, `mtime` now, its zones kept |
| NameCalls.InodeOpen | src/fs/namei.c:522-590 | NULL with nothing written for an empty path, a failed walk or a path ending at a directory; `O_TRUNC` with `O_RDONLY` becomes read-write; an existing entry opens exactly when it is no directory and the access the corrected `OpenMask` asks for is granted (the source's `flag & O_ACCMODE` mask is under Findings), then its `atime` is now and `O_TRUNC` truncates it; a missing one is created with `O_CREAT` and write permission on the directory, with the writes `CreateWrote` describes; the reference left is on the inode returned |
| NameCalls.OpenAt | src/fs/namei.c:533-590 | the same once `named` has given the directory |
| NameCalls.OpenFound | src/fs/namei.c:543-545 | for an existing entry: opened exactly when no directory and permitted (also src/fs/namei.c:571-583) |
| NameCalls.OpenNew | src/fs/namei.c:548-583 | for a missing entry: the entry placed by `add_entry`, the lowest free inode number taken by `ialloc` and stored in it, then as `OpenCreated`; opened exactly when the new inode grants the access |
| NameCalls.OpenCreated | src/fs/namei.c:555-583 | the new record `Created` (a regular file of size 0 with one link, zones as found); the inode returned is the new one, truncated with `O_TRUNC`; refused, the new file stays and nothing more is written |
| NameCalls.CreateWroteShows | src/fs/namei.c:548-566 | after a creating `inode_open` that did not truncate, where the blocks written are apart, the new entry reads back with the new name and number, and the record as a regular file of size 0 with one link |
| NameCalls.Create | src/fs/namei.c:563-569 | the record written is `Created` |
| NameCalls.Makeup | src/fs/namei.c:571-589 | the inode is returned exactly when it is no directory and the access is permitted; then `atime` is now and `O_TRUNC` truncates it; else nothing is written |
| NameCalls.Admit | src/fs/namei.c:576-583 | the success path of `makeup` |
| NameCalls.Opening | src/fs/namei.c:576-579 | `atime` now and the truncation |
| NameCalls.Accessed | src/fs/namei.c:576 | `atime` now |
| NameCalls.MovedAfterDrop | src/fs/namei.c:664-665 | taking the new directory and dropping the old moves one reference |
| NameCalls.TaskHoldsMoved | src/fs/namei.c:664-665 | after the move the task still holds its root and working directory (also src/fs/namei.c:684-685) |
| NameCalls.Chdir | src/fs/namei.c:653-671 | 0 exactly when `namei` gives a directory other than the working one; then the working directory is that inode, its path text is the canonical path and one reference moved; `EOF` leaves the task as it was |
| NameCalls.Chroot | src/fs/namei.c:673-691 | as `chdir`, on the root, without path text |
| NameCalls.Pick | src/fs/namei.c:655-661 | `namei` and the checks: on success a directory other than the current one, held by the call (also src/fs/namei.c:675-682) |
| NameCalls.Screen | src/fs/namei.c:659-661 | accepted exactly for a directory that is not the current one; else the reference is dropped (also src/fs/namei.c:680-682) |
| NameCalls.Rebind | src/fs/namei.c:663-665 | the old directory is dropped and the task points at the new one (also src/fs/namei.c:684-685) |
| NameCalls.Assign | src/fs/namei.c:665 | the task's slot and path text are replaced (also src/fs/namei.c:685) |
| NameCalls.RootsInUse | src/fs/namei.c:653-691 | the slots the task holds are in use |
| NameCalls.Getcwd | src/fs/namei.c:592-596 | the buffer's first `size` bytes are `strncpy` of the working path; the rest is kept |
| File.Int32 | src/fs/file.c:86 | the `int32` offset after an addition: the value wrapped into the 32-bit range, unchanged when it already fits (also src/fs/file.c:107, 122) |
| File.Int32Add | src/fs/file.c:122 | wrapping after each addition equals wrapping once |
| File.FirstFreeFile | src/fs/file.c:11-17 | the first unused file slot from 3, or none when all are used |
| File.FirstFreeFd | src/kernel/task.c:204-208 | the first empty descriptor from 3, or none when all are taken |
| File.GetFile | src/fs/file.c:10-20 | a panic exactly when no slot from 3 is free; else the first free slot gets count 1 and nothing else changes |
| File.GetFd | src/kernel/task.c:202-213 | a panic exactly when no descriptor from 3 is free; else the first free one |
| File.PutFile | src/fs/file.c:22-28 | a panic on count 0; else the count drops by one and at zero the inode is released as `iput` does |
| File.FileInit | src/fs/file.c:134-143 | slots from 3 are cleared, slots 0-2 kept, so `get_file` next gives slot 3 |
| File.StartOffset | src/fs/file.c:46-50 | 0, or with `O_APPEND` the file's size, as an `int32` |
| File.Install | src/fs/file.c:36-50 | a panic exactly when no descriptor or no file slot is free; else the descriptor names a fresh slot holding the inode, the flags, count 1, the mode and the start offset |
| File.Fill | src/fs/file.c:40-46 | the descriptor and the slot are set, nothing else |
| File.SysOpen | src/fs/file.c:30-52 | the inode is the one `inode_open` gives, `EOF` exactly when it gives none (nothing else changed); else a descriptor with the flags as passed, installed as `Install` says |
| File.CreatFlagsAsWritten | src/fs/file.c:55 | `O_CREAT | O_TRUNC` has access mode `O_RDONLY` |
| File.CreatFlags | src/fs/file.c:55 | the corrected flags open for writing |
| File.SysCreatAsWritten | src/fs/file.c:54-56 | as written, a descriptor from `creat` is read-only |
| File.SysCreat | src/fs/file.c:54-56 | corrected, a descriptor from `creat` is write-only |
| File.CreatAsWrittenReadOnly | src/fs/file.c:55 | a slot with `creat`'s flags as written is read-only, so `sys_write` refuses it (also src/fs/file.c:100-101) |
| File.SysClose | src/fs/file.c:58-69 | a panic for `fd >= 16`; an empty descriptor changes nothing; else a panic without an inode, and otherwise `put_file` and the descriptor cleared unless below 3 |
| File.PutFd | src/kernel/task.c:215-221 | descriptors below 3 stay; others are cleared |
| File.Advance | src/fs/file.c:86 | the offset grows by the length, in `int32` (also src/fs/file.c:107) |
| File.SysRead | src/fs/file.c:71-89 | a panic for an empty descriptor; `EOF` on a write-only file; else as `inode_read` at the offset: `EOF` at or past the end; a panic exactly when the offset is negative and `count` is not 0, or a block of the window is a hole; else `min(count, size - offset)` bytes of the file (none at a negative offset), the offset advanced by that |
| File.SysWrite | src/fs/file.c:91-111 | a panic for an empty descriptor; `EOF` with nothing written on a read-only file; a panic for data at a negative offset; else `inode_write`'s effects: the count written is `len`, only the blocks it touched and the inode's record block change, the record's size is `max(size, offset + len)` (kept for empty data) with `mtime` now, and the offset is advanced by `len` |
| File.SeekTarget | src/fs/file.c:117-130 | defined exactly for the three `whence` values, an `int32` |
| File.SeekSetThenCur | src/fs/file.c:118-123 | `SEEK_SET` then `SEEK_CUR` is `SEEK_SET` to the sum |
| File.SeekZero | src/fs/file.c:121-126 | `SEEK_CUR` by 0 keeps the offset; `SEEK_END` by 0 gives the size |
| File.SysLseek | src/fs/file.c:113-132 | a panic for an empty descriptor, an unknown `whence`, or `SEEK_END` without an inode; else the offset is `SeekTarget` and is returned |
| File.Seek | src/fs/file.c:119-125 | the offset is set, nothing else |

## Left out

- Hardware I/O: port I/O and register programming of the disk, console, clock and interrupt controller, and the CMOS reads of `time_read`. The disk is a map from block identity to 1024 bytes behind `bread`/`bwrite`; a block that was never written reads as zeros.
- Concurrency and scheduling: task switching, mutexes and threads are not modelled. That includes the buffer lock in `bread`, the `wait_list` sleep and wake in `get_free_buffer`/`brelse`, and the blocking wait in `device_request`. The model is sequential.
- Buffer.BufferCache.Getblk: an exhausted pool returns None where the source puts the task to sleep until a buffer is released.
- Buffer.BufferCache.Getblk: `hash_locate`/`hash_remove` link a buffer's `rnode` into the chains while `get_from_hash_table` walks `hnode` (src/kernel/buffer.c:30, 54, 61). The model follows the intended design: the 31 chains are a map from identity to buffer and the free list is a sequence.
- Buffer reference counts inside the filesystem code: the filesystem layers read and write block contents directly (`fs.blocks`). Which buffers `bmap`, `iget` or `find_entry` hold at a given moment is not tracked. The cache itself is modelled and proved separately.
- Bmap.Bmap: the code reads `array[index]` after `brelse` (src/fs/bmap.c:145-155). The model reads it sequentially, as if buffer memory were stable until the next cache operation; preemptive reuse of that memory is not modelled.
- Bmap.Bmap: with `create` set and the block not yet mapped, the contract says only which blocks were written and that the inode's other fields are unchanged. It does not promise that the returned zone is what `Resolve` gives afterwards.
- Bitmap.Bitmap.Set: requires the index to lie inside the map. The source asserts only the lower bound (src/lib/bitmap.c:33); an index past the end writes outside the map's bytes, which the model does not represent.
- Bitmap.Bitmap.Test: its requires is the pair of bounds the source asserts (src/lib/bitmap.c:17, 27). The failed assertion, a kernel panic, is a precondition here instead of a halting outcome.
- Inode.InodeBfree: visits only the first 32 entries of each indirect block. src/fs/inode.c:186 loops to `BLOCK_INODES`, while an indirect block holds `BLOCK_INDEXES` = 512 zone numbers. The model follows the code, so truncating a large file does not free every zone; `Inode.InodeBfreeLeaks` states the consequence. No corrected version is modelled.
- Inode.InodeWrite: states the new size, `mtime` and the returned count. It does not state a round trip with `InodeRead` over the written range.
- Inode.MountRoot: the device number is a parameter, because `device_find` on the IDE partitions is not part of the filesystem model. The contract does not say which failure halts the system beyond a missing partition.
- Inode.SuperInit: as for `MountRoot`, the device number is a parameter and the halting cases are not fully characterised.
- NameCalls.InodeOpen: does not promise `Ready` afterwards. The create path takes its inode reference after writing blocks, and that the in-core slots still match their records on disk (`Linked`) afterwards is not proved.
- NameCalls.Chdir: requires the task's `pwd` buffer to be large enough for the new path (`AbspathFits`). It also requires the task to hold its own references on its working and root directories (`TaskHolds`).
- NameCalls.Unlink: promises that the inode table is ready for the next call (`Ready`) only when no device's block 1, where its super block lives, was written (`SupersKept`). That the call's writes never reach a super block is not proved. The same holds for `NameCalls.Rmdir`, `NameCalls.Mkdir` and `NameCalls.Link`.
- File.SysRead: the standard input path (a keyboard device read) is left out, and `fd` must be a table slot. The source indexes `task->files[fd]` without a range check.
- File.SysWrite: the standard output and error paths (console writes) are left out, and `fd` must be a table slot, as for `SysRead`. As for `InodeWrite`, the bytes of the written range are not stated to read back as `data`.
- Inode.InodeRead, Inode.InodeWrite, File.SysRead, File.SysWrite: a negative offset with bytes to move halts. For offsets of -1024 and below, that is `bmap`'s range assertion (src/fs/bmap.c:110) on the block number `offset / 1024` taken as `uint32`. For offsets -1023 to -1, C's truncating division gives block 0, and the negative `offset % 1024` makes the code copy bytes from before the buffer's data slot, which the model does not represent; it halts there too.
- Path.MatchName: the source compares names byte by byte and can read past the 14-byte name field of an entry. The model's `Path.At` gives the terminator past the end of a sequence.
- Dir.EntryName, Dir.EntryNameBytes, Dir.AddEntry, Device.DeviceTable.Install, Path.AbspathAsWritten, Path.Abspath, NameCalls.Getcwd: store names and paths through the documented `strncpy` (`CString.Strncpy`: cut or padded to `count` bytes). The body at src/lib/string.c:14-27 overruns its destination for any non-empty source, so `add_entry` (src/fs/namei.c:152), `device_install` (src/kernel/device.c:93), `abspath` (src/fs/namei.c:627) and `sys_getcwd` (src/fs/namei.c:594) as written write past their buffers; "as written" in these members means as written apart from `strncpy`.
- Path.AbspathAsWritten, Path.Abspath: `abspath` also writes '/' over each separator it reads in the caller's path (src/fs/namei.c:617), turning a '\\' into '/'. The model takes the path as a value and leaves that write out; it does compare "." and ".." as the code does after the rewrite.
- Dir.AddEntry: promises a free or new slot that now holds the name and number (`Placed`). It does not promise that the slot is the first free one.
- Dir.LongNameLost: a name longer than 14 bytes is stored cut to 14 and is never found again under its full name. This is stated as a property of the model, not corrected.
- CString: overlapping source and destination regions are not modelled; strings and buffers are values.
- Device: a request's data buffer and its waiting task are left out, and driver hooks are outside the model. A device records only which of its hooks are present.
- Bmap.Balloc: for a super block whose first data zone is 0 (a bias of -1, which a formatted disk never has) only the halting and the frame are stated, not which zone is allocated.
- Memory.PageAllocator.FreeKPage, Memory.ResetPage: require every page of the run to lie in the kernel map and be marked used. `reset_page` asserts `bitmap_test` page by page (src/kernel/memory.c:243) and halts at the first page that is not, after clearing those before it; the model makes that a precondition instead of a halting outcome. The halts for an unaligned address and a zero count are modelled.
- File.SysClose: requires `fd >= 0`. `fd_t` is a signed 32-bit type and the source asserts only `fd < TASK_FILE_NR` (src/fs/file.c:60), so a negative descriptor indexes `task->files` before the array, which the model does not represent.
- File.SysLseek: requires `fd < TASK_FILE_NR` (and `fd >= 0`). The source indexes `task->files[fd]` without any range check (src/fs/file.c:113-114); a descriptor outside the table reads past the array, which the model does not represent.
- Time.GetDay, Time.MkTimeSum, Time.MkTime, Time.MkTimeIntended: require `0 <= mon <= 12`. Month 0 reads the table's placeholder 0 as the source does; a month above 12 reads past the 13-entry `month` table (src/kernel/time.c:30), which the model does not represent.
- Memory: the paging hardware (`set_cr3`, page tables and directories, `page_fault`, TLB flushes) and `sys_brk` are not modelled.
- Timestamps, the user id and the permission bits of new files are inputs (`now`, the task's `uid`, `mode`). Clock behaviour is not modelled.
- Buffer.BufferCache.Brelse: requires the released buffer to be held (`count > 0`). The source decrements first and its assertion `count >= 0` (src/kernel/buffer.c:163) halts otherwise; the model makes that a precondition.
- Fifo.Fifo.Put: requires a ring longer than one byte. With length 1 the ring is always full and the `fifo_get` assertion (src/lib/fifo.c:23) halts on the first put; the model makes that a precondition.
- Namei.Headroom: the `iget`, `mkdir`, `link` and `open` models require every in-core reference count to stay below the `uint32` wrap by the references the call takes. The source does not check the count.
- NameCalls.Link: the in-core `ctime` update of the linked inode is not stated; `iput` may release the slot before it reaches the disk.
- NameCalls.MkdirWroteShows, NameCalls.LinkWroteShows, NameCalls.CreateWroteShows: state how the final disk reads back only when the blocks the call wrote are apart (no two writes to the same block). On a corrupt file system the writes can overlap; the effect predicates still describe each write in order.
- Syscall plumbing, `printk`, the panic and assert spinning, and the boot order are not modelled. A panic or a failed kernel assertion sets `halted`, and nothing is promised after it.

## Findings

| source | as written | input that shows it | evidently intended | confidence | as-written member | corrected member |
|---|---|---|---|---|---|---|
| src/kernel/time.c:102-104 | adds `DAY + (year + 1) / 4` seconds for leap days | 1970-01-01 00:00:00 gives 86400 | adds `DAY * ((year + 1) / 4)` and gives 0 for the epoch | high, not executed | Time.MkTimeOfEpoch | Time.MkTimeIntendedIsEpochSeconds |
| src/lib/stdlib.c:15 | `bcd_to_bin` returns a `uint8`, which is a signed char (src/include/conix/types.h:24) | 0x99 gives -61 | returns 99, and BCD round-trips for 0..99 | high, not executed | StdLib.BcdToBinOfNinetyNine | StdLib.BcdUnsignedRoundTrip |
| src/fs/bmap.c:40-43, 92-95 | `bfree`/`ifree` pick the map block as the first `i` with `idx <= BLOCK_BITS * (i + 1)`, without the map's bias | first data zone 10, zone 8200 | the same block choice as `balloc`/`ialloc` | medium, not executed | Bmap.BfreeWrongMap | Bmap.ReleaseSpec |
| src/fs/bmap.c:72-73 | `ialloc` scans each inode map block as `BLOCK_BITS` bytes | a full map block whose next byte is zero: the scan reports bit 8192, from byte 1024, past the block | a length of `BLOCK_SIZE` bytes | high, not executed | Bmap.IallocOverRead | Bmap.Ialloc |
| src/lib/string.c:14-27 | the copy loop never advances, and `count` wraps before padding | source "ab" with `count` 14 writes past the 14 bytes | copies up to `count` bytes, then pads with zeros | high, not executed | CString.StrncpyAsWrittenOverruns | CString.Strncpy |
| src/fs/namei.c:627, 636-637 | `abspath` can end without writing the terminator after the text it built | pwd "/" and path "a/." leave "/a/" followed by '.' | the page reads "/a/", terminated | medium, not executed | Path.AbspathLeavesDot | Path.Abspath |
| src/kernel/device.c:53-67 | `device_read`/`device_write` test the `ioctl` hook | a console with `write` but no `ioctl` returns `EOF` on write | test the hook about to be called | high, not executed | Device.DispatchAsWrittenMisses | Device.DispatchAgrees |
| src/fs/namei.c:328-339 | `is_empty` never advances `entry`, so it counts the first entry every time | a directory of size 48 whose third entry was unlinked is refused | empty exactly when `.` and `..` are the only live entries | high, not executed | NameCalls.AsWrittenKeepsEmptied | NameCalls.LiveIsCount |
| src/kernel/memory.c:134 | `put_page` asserts `free_pages > 0` after every drop | every frame referenced, one with count 2: its drop leaves `free_pages` at 0 and halts | `free_pages < total_pages`, and `free_pages > 0` only once the frame is free | medium, not executed | Memory.PutPageAsWrittenPanics | Memory.PageAllocator.PutPageIntended |
| src/fs/namei.c:572 | `inode_open` passes `flag & O_ACCMODE` as the permission mask | O_RDONLY asks for no permission | read, write or both as the access mode says | high, not executed | NameCalls.OpenMaskAsWrittenGrants | NameCalls.OpenMaskMeaning |
| src/fs/file.c:55 | `sys_creat` opens with `O_CREAT \| O_TRUNC`, whose access mode is read-only | a created file's descriptor refuses writes | `O_CREAT \| O_TRUNC \| O_WRONLY` | medium, not executed | File.SysCreatAsWritten | File.SysCreat |
