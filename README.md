# A verified model of a contiguous-allocation virtual file system

This project models `main.c` of a very small virtual file system. The system lives in one
64-block backing store of 4096-byte blocks, laid out as follows:

- block 0 holds the superblock (two free counters and four region offsets);
- block 1 holds an 80-entry inode bitmap and block 2 a 56-entry data bitmap;
- blocks 3-7 hold the inode table (80 records of 256 bytes: size, first block, name);
- blocks 8-63 hold the data region.

A file is stored in one contiguous run of data blocks. It occupies `size / 4096 + 1` blocks,
starting at the lowest block from which a free run that long exists (first fit). Its record
goes into the lowest free inode slot.

The model keeps the backing store in memory, as the class `FileSystem.Vfs`:

- the superblock fields are mutable fields;
- the two bitmaps (`true` = occupied), the inode table and the data region are arrays updated in place;
- the flag `present` stands for "the backing file exists".

The operations are the same as in the C code: format, remove, import, export, delete, list and
map. They are methods. Those that change the store (format, remove, import, delete) carry
`modifies` frames and state their new state in full; export, list and map only read it. The
searches and transfers are loops with invariants.

Every operation keeps the invariant `Valid()`, except Delete with an empty name (see "## Left out"). The helpers that carry out one step of an operation (zero-filling, clearing the bitmaps, marking a run, copying bytes in, erasing one slot) promise only the well-formedness of the arrays, or the invariant for a live slot, and the operation restores `Valid()`:

- each free counter equals the number of clear entries in its bitmap;
- free slots hold erased records;
- live records have distinct names and own pairwise disjoint runs that are marked occupied;
- every occupied block lies in some live record's run.

The modules are:

- `Layout` (`layout.dfy`): the geometry and the block-count rule.
- `Bitmap` (`bitmap.dfy`): free counting, range marking, and the two searches `find_data_space` and `find_inode_space`.
- `InodeTable` (`inodes.dfy`):
  - the record type;
  - the two name lookups: the duplicate check over live slots, and the prefix lookup of export and delete;
  - the listing;
  - the consistency invariant and the lemmas that import and delete preserve it.
- `RunMap` (`runmap.dfy`): the run-length encoding that the layout report prints.
- `Transfer` (`transfer.dfy`): the specification of the chunked copy engine: the effect of a write on the data region (`Overwrite`) and the chunk sizes moved (`ChunkSizes`), with lemmas about both. The copy loops themselves are `Vfs.CopyIn` and `Vfs.CopyOut` in `vfs.dfy`.
- `FileSystem` (`vfs.dfy`): the `Vfs` class, a client that builds and formats a new store, and two client methods that prove:
  - import-then-delete restores the metadata;
  - import-then-export returns the imported bytes.

I/O is replaced by parameters and results:

- the source file of an import is an `Option<seq<byte>>` (None when it cannot be opened);
- the file an export writes is returned as its name and its bytes;
- the listing and the layout report are returned as sequences instead of printed.

## Behaviour of the C code worth knowing

- `find_data_space` in `main.c` never reports failure. When no free run of the needed length exists,
  it still returns an index. The model's `FindDataSpace` returns that index together with a `found` flag, and
  there is no separate "no space" result from the search. `Import` turns a failed search into
  `Rejected(RunNotFound)` (see "Left out").
- Export (`copy_from_vfs`) and delete (`remove_from_vfs`) in `main.c` do not search every live record. They scan, by name, only the first
  `80 - free-inode counter` slots of the inode table and ignore the bitmap. After a delete has freed a
  low slot, a live file in a higher slot can therefore be missed. The model's lookup is exactly this
  prefix scan (`InodeTable.FindInPrefix`), no contract claims that it finds every live file, and
  `InodeTable.PrefixLookupCanMissLiveName` exhibits a consistent table where it misses one.
- The block-count rule of `main.c` (line 132) is `size / 4096 + 1`, not a ceiling division. A file whose size is an exact
  multiple of 4096 gets one spare block, and an empty file gets one block.

## Model

| member | source | states |
|---|---|---|
| Layout.NeededBlocks | main.c:125-135 | the count is at least one, and `size` lies in `[(n-1)*4096, n*4096)`, so the bytes always fit in the run |
| Layout.NeededBlocksExactMultiple | main.c:132 | a size of `k*4096` bytes is given `k+1` blocks (one spare block), so the rule is not a ceiling division |
| Layout.NeededBlocksFits | main.c:132 | the last byte of a file stored from block `first` lies before the end of its reserved run |
| Bitmap.Fill | main.c:92-99 | a bitmap of `n` entries all equal to `v` |
| Bitmap.CountFree | main.c:75-76 | the number of clear entries, never more than the bitmap length |
| Bitmap.Marked | main.c:310-314 | entries in `[lo, hi)` become `v` and every other entry is unchanged |
| Bitmap.CountFreeFill | main.c:75-76 | a cleared bitmap counts all its entries as free, and a filled one counts none |
| Bitmap.NoneFreeIffZero | main.c:260 | the free count is zero exactly when every entry is occupied |
| Bitmap.CountMarkedRun | main.c:310-323 | setting a clear run lowers the free count by its length, and clearing an occupied run raises it by its length |
| Bitmap.MarkThenClear | main.c:463-470 | setting and then clearing the same clear run gives the original bitmap back |
| Bitmap.LowestFreeBound | main.c:163-175 | the lowest free slot is at most `length - free count`, so once it is taken it lies inside the prefix the lookup scans, whose bound has then grown by one |
| Bitmap.FindDataSpace | main.c:137-161 | when the scan completes a run, `[first, first+needed)` is free and no lower start has such a run; otherwise no start has one, the index is at most 56, and it is the start of a free tail too short for the file |
| Bitmap.FindInodeSpace | main.c:163-175 | the lowest free slot; -1 exactly when all 80 slots are occupied |
| InodeTable.FindInPrefix | main.c:382-391 | the first of the first `bound` slots whose name matches, ignoring the bitmap; -1 exactly when none of them matches |
| InodeTable.Listing | main.c:512-521 | one entry per live slot, in slot order (its length is the number of occupied slots) |
| InodeTable.ListingMembership | main.c:512-521 | an entry is listed if and only if some live slot holds that name and size |
| InodeTable.FormattedConsistent | main.c:75-99 | a freshly formatted table with clear bitmaps is consistent |
| InodeTable.RecordInRange | main.c:463-467 | every record's run, live or erased, lies within the 56 data blocks, so delete's clearing loop stays in bounds |
| InodeTable.ImportKeepsConsistent | main.c:301-314 | storing a record in a free slot, on a free run and under a new name, keeps the table consistent |
| InodeTable.DeleteKeepsConsistent | main.c:454-470 | erasing a live record and clearing its slot and run keeps the table consistent |
| InodeTable.FoundNameIsLive | main.c:434-445 | in a consistent table, a non-empty name found by the prefix lookup lies in a live slot |
| InodeTable.ImportedFoundByPrefix | main.c:382-391 | a record just stored in the lowest free slot, under a name no live slot holds, is found by the prefix lookup once the slot counts as taken |
| InodeTable.PrefixLookupCanMissLiveName | main.c:382-391 | a consistent table whose only live file sits in slot 1 while slot 0 is free: the file is live, yet the lookup over the first `80 - free` slots does not find it |
| InodeTable.DeletedNameNotListed | main.c:454-460 | after a live record is deleted, the listing no longer shows its name |
| RunMap.Expand | main.c:552-577 | the bitmap that an encoding stands for; its length is the sum of the run lengths |
| RunMap.ExpandSnoc | main.c:558-575 | emitting one more run appends that many entries of its state |
| RunMap.AddressedSnoc | main.c:552-572 | a run emitted at `(data offset + blocks so far) * 4096` keeps every address correct |
| RunMap.EmitRun | main.c:562-575 | closing a run of equal entries extends an encoding of the bitmap's prefix to an encoding of the longer prefix, and keeps it coalesced and correctly addressed |
| RunMap.AddressOfExtent | main.c:552-572 | the address of the `k`-th run is `(data offset + its first block) * 4096` |
| RunMap.StateOfExtent | main.c:560-566 | every block covered by a run has that run's state |
| RunMap.LeadingRun | main.c:562-575 | the first run of a coalesced encoding is the whole leading stretch of its state |
| RunMap.EncodingUnique | main.c:552-577 | two coalesced, correctly addressed encodings of the same bitmap are equal, so the report is determined by the bitmap |
| Transfer.Overwrite | main.c:185-198 | writing `src` at an offset changes exactly the bytes `[off, off+|src|)`, which then hold `src` |
| Transfer.OverwriteReadBack | main.c:347-359 | reading back the written range gives the written bytes |
| Transfer.OverwriteExtend | main.c:187-197 | writing one more chunk after a prefix is writing the longer prefix |
| Transfer.ChunkSizesStep | main.c:189-197 | a transfer of a non-empty size moves a first chunk of between 1 and 4096 bytes (the whole size when it is shorter than a block) and then the chunks of what remains |
| Transfer.ChunkAppend | main.c:189-197 | after one more turn of the loop, the chunks moved so far, followed by the chunks of what is left, are still the chunks of the whole transfer |
| Transfer.ChunkSizesShape | main.c:187-197 | the chunks add up to the size, all but the last are 4096 bytes, the last is `size mod 4096` (4096 when that is zero), and there are `ceil(size/4096)` of them |
| FileSystem.StoreKeepsCounts | main.c:301-323 | an import keeps the table consistent, and both counters still count the clear bitmap entries after being lowered by 1 and by the needed blocks |
| FileSystem.EraseKeepsCounts | main.c:454-480 | a delete of a live record keeps the table consistent, and both counters still count the clear bitmap entries after being raised |
| FileSystem.Vfs.constructor | main.c:17-41 | a store that does not exist yet |
| FileSystem.Vfs.ZeroFill | main.c:68-72 | every data byte is zero and every inode record reads back as erased, since the whole backing file is written with zero bytes |
| FileSystem.Vfs.ClearBitmaps | main.c:92-104 | every entry of both bitmaps is clear |
| FileSystem.Vfs.Format | main.c:43-107 | refuses with nothing changed when the store exists; otherwise sets the counters to 80 and 56, clears both bitmaps, erases every record, zeroes the data region, and establishes the invariant |
| FileSystem.Vfs.Remove | main.c:109-123 | reports whether a store existed, and afterwards none does |
| FileSystem.Vfs.CopyIn | main.c:177-204 | the data region afterwards is the old one with `src` written from byte `firstBlock*4096`, in chunks of 4096 bytes and a short final chunk |
| FileSystem.Vfs.WriteChunk | main.c:195-196 | one chunk written into the data region: exactly the bytes `[at, at+|buf|)` change, and they hold the chunk |
| FileSystem.Vfs.CopyOut | main.c:334-364 | the artifact is named `"copy_" + name` and holds exactly the `size` bytes of the record's run, read in the same chunks |
| FileSystem.Vfs.MarkRun | main.c:310-313 | the data bitmap afterwards is the old one with `[lo, hi)` set to `v` |
| FileSystem.Vfs.IsUnique | main.c:206-228 | -1 exactly when a slot whose bitmap entry is set holds the name, and 0 otherwise |
| FileSystem.Vfs.LookupPrefix | main.c:380-391 | the prefix lookup over the first `80 - free` slots |
| FileSystem.Vfs.Import | main.c:230-331 | rejections come in the C code's order (source file missing, no store, no free inode, duplicate name, too few free blocks, no run) and change nothing; a success stores the file on the lowest free run and in the lowest free slot, marks both, lowers the counters by the block count and 1, changes nothing else, and keeps the invariant |
| FileSystem.Vfs.Store | main.c:296-323 | the bytes land at the run's first block, the record goes into the slot, the run and the slot are marked, both counters drop by the amounts used, and the invariant still holds |
| FileSystem.Vfs.Export | main.c:367-402 | NotFound exactly when the prefix lookup fails; otherwise `"copy_" + name` with the found record's bytes |
| FileSystem.Vfs.Erase | main.c:454-480 | the record in the slot is erased, the slot cleared, its `size/4096+1` blocks cleared, both counters raised; erasing a live record keeps the invariant |
| FileSystem.Vfs.Delete | main.c:405-488 | -1 with nothing changed when the prefix lookup fails; otherwise the found record is erased, its slot cleared, the `size/4096+1` blocks from its first block cleared, both counters raised, and for a non-empty name the invariant kept |
| FileSystem.Vfs.List | main.c:490-525 | None when there is no store; otherwise the name and size of every live slot in slot order |
| FileSystem.Vfs.Map | main.c:528-578 | the four fixed regions at their byte addresses, then runs that expand to the data bitmap, with adjacent runs differing in state, lengths summing to 56, and each address `(8 + first block) * 4096` |
| FileSystem.Vfs.ImportThenDelete | main.c:230-488 | importing a file and then deleting it gives back both bitmaps, both counters and the inode table |
| FileSystem.Vfs.ImportThenExport | main.c:230-402 | exporting a file right after importing it yields `"copy_" + name` with the imported bytes |
| FileSystem.NewFormatted | main.c:43-107 | a newly built store, once formatted, is present, keeps the invariant, and has all 80 inodes and all 56 data blocks free with both bitmaps clear |

## Left out

- File I/O (`fopen`, `fseek`, `fread`, `fwrite`, `unlink`) and `stat`: the backing store is in memory, a source file is passed in as its bytes, and an exported file is returned as its name and bytes.
- The on-disk C struct layout of the superblock and the inode records (`sizeof`, padding, native-endian integers): it depends on the host, so the fields are modelled abstractly. Inode positions are slot indices instead of byte offsets `i*256`.
- The report text printed by `printf`, including the map's "Size" field. That field prints `4096*i`, the end offset of the run, not its size.
- The `malloc` of the copy name: only the `"copy_"` prefix is modelled.
- The demo driver `main` (main.c:580-637) and the unused `math.h` include.
- FileSystem.Vfs.Import: when `find_data_space` finds no run, the C code goes on and writes past the 56-entry data bitmap (undefined behaviour). The model rejects with `RunNotFound` and changes nothing.
- FileSystem.Vfs.Import: requires a name shorter than 128 characters with no NUL. `strcpy` into the 128-byte name field overflows otherwise. Each character of a name stands for one byte of the C string, so the bound is the C bound in bytes; multi-byte encodings are not modelled. An empty name is a source that cannot be opened.
- FileSystem.Vfs.Import: sizes are unbounded integers. The C code stores the 64-bit `st_size` into a 32-bit `int` (main.c:131, 282, 304). That conversion is implementation-defined, and GCC reduces the value modulo 2^32 into a signed `int`. So a source of 2^31 bytes or more has a wrong size. A size in [2^31, 2^32) becomes negative, gets at most one block under truncating division, and can raise the free-block counter (main.c:322). A larger source can be stored as a truncated prefix under a wrong size. That wrap is not modelled: the model rejects every such source with `NoSpace`, because it needs more than 56 blocks.
- FileSystem.Vfs.Import: the C success path ends without a return value, and the model returns `Imported`. The same holds for `Format` and `Export`.
- FileSystem.Vfs.Export: requires the store to exist. The C code does not check that the store opened and would read through a null stream.
- FileSystem.Vfs.Delete: requires the store to exist, for the same reason as Export.
- FileSystem.Vfs.Delete: promises the invariant only for a non-empty name. The prefix lookup ignores the bitmap, so an empty name can match an erased record in a free slot. Deleting it clears block 0 and raises both counters, which breaks the counter invariant, and the model states that new state as it is.
- FileSystem.Vfs.Delete: leaves the file's bytes in the data region, as the C code does. Only the record and the bitmaps are cleared.
- FileSystem.Vfs.Map: `occupied[56]` is read out of bounds on the final iteration of the C loop (main.c:562, 573). The model treats `i == 56` as the end sentinel and never reads that entry.
- Concurrency: the program has none.
