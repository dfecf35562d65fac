# rustnix, modelled and verified

This project models the parts of the rustnix kernel and its image builder that carry the most state:
the inode filesystem with its allocator, streams and on-disk format; the two task executors; process
nesting with saved CPU contexts; physical frames and page ranges; and the Unix-time formula. Each model
follows the branches, constants and failure cases of the code. A Rust panic (an index out of range, an
`expect`, an `unwrap`) is an explicit outcome.

How the filesystem part is put together:

- `FsTypes`, `DiskCodec` and `BlockTree` hold the records, their byte layout and the pointer trees.
- `FsImage` states the invariant of an image and what each operation does to it. The allocator appears
  there only as "the first free blocks in ascending order".
- `FsModel` is the reference: a plain map from names to bytes and metadata, with counters for free
  blocks and inodes. A file also carries its spare blocks, those it keeps after shrinking, because they
  decide how much space a deletion gives back.
- `FsFrames`, `FsRefine`, `FsDelete` and `FsRuns` prove that images refine the map, operation by
  operation and over whole runs; `FsTheorems` says what follows for images alone.
- `PhysFs`, `VirtFs` and `Loader` are the classes and loops of the source, proved against these
  specifications; `Streams` is the reference for file handles.
- `FsSpill` follows the writes that leave the direct pointers for the single-indirect table and says
  exactly which of them read back; the limit of 5632 bytes in the other modules is where the code itself
  stops reading back what it wrote.

The executors are step machines (`Executors`), compared in `RoundRobin` and given as classes in
`TaskExecutors`. `Memory`, `Processes` and `Clock` are self-contained, except that process exit uses the
page ranges of `Memory`.

Where the code differs from its own description, the model follows the code:

- The header of fs.rs says an inode stores the size of the file. It stores only a block count, so a file
  reads back padded to whole blocks, and every write through a handle makes it longer.
- `delete` shortens the inode table while other methods go on indexing it by the superblock's count. So
  from a table as long as recorded, flushing works exactly until the first deletion, and creating a file
  on a shortened table without an unused inode panics.
- `write_file` past the direct range stores pointers where reading does not look for them in order.
- Entry 63 of a double-indirect block is enumerated by `get_all_block_addresses` but addressed by no
  block number.
- `create_file` accepts a name that exists; only `open` looks first.
- `alloc_pages` with size 0 maps one page.

Inputs that the source takes from outside are parameters: clock readings, the sectors of a disk and
those a device refuses to write, which pages are user-accessible, the order in which a hash map delivers
files (any sequence of distinct names), the answers of futures, the page tables a mapping turns out to
need, whether a program file is readable, parses and loads, and whether a frame or the argument page can
be had.

## Model

| member | source | states |
|---|---|---|
| `Bytes.Get64OfPut64` | kernel/src/internal/fs.rs:588-597 | `from_le_bytes` undoes `to_le_bytes` for every 64-bit word |
| `Bytes.Put64OfGet64` | kernel/src/internal/fs.rs:420-451 | and the other way round for every eight bytes |
| `Bytes.LittleEndian` | kernel/src/internal/fs.rs:420-451 | the least significant byte comes first |
| `FsTypes.PadInjective` | kernel/src/internal/fs.rs:791-803 | two different names never take the same 384-byte form, so lookup by padded name is lookup by name |
| `FsTypes.MetaRoundTrip` | kernel/src/internal/fs.rs:732-739 | a metadata block read back gives the five fields stored |
| `FsTypes.MetaLayout` | kernel/src/internal/fs.rs:732-739 | owner, creation, modification and access time and permissions are at bytes 0, 8, 16, 24 and 32 of the metadata block, the rest is zero |
| `FsTypes.PermsRoundTrip` | kernel/src/internal/fs.rs:1404-1441 | `get_perms` of what `chmod` stored returns the three digits given |
| `FsTypes.PermsLayout` | kernel/src/internal/fs.rs:728 | the three digits are the low bytes of the permission word, user first |
| `BlockTree.TableLayout` | kernel/src/internal/fs.rs:298-304 | entry j of a table block is the word at byte 8j |
| `BlockTree.GetBlockReadsSlot` | kernel/src/internal/fs.rs:282-333 | for every block number below 4108+64^3, `get_block` reads one particular slot of the pointer trees; holes read as zero as long as block 0 is zero |
| `BlockTree.GetBlockDomain` | kernel/src/internal/fs.rs:282-333 | `get_block` panics for every block number from 4108+64^3 on, whatever the blocks hold; below that it stays within its tables for every block present, and for holes too as long as block 0, which is never allocated, is zero |
| `BlockTree.SlotsAddressed` | kernel/src/internal/fs.rs:282-333 | distinct block numbers decode to distinct slots, and every slot is decoded to except the 64 below entry 63 of the double block |
| `BlockTree.AllAddressesAreNonZeroSlots` | kernel/src/internal/fs.rs:335-414 | on any inode the enumeration is the non-zero slots of direct, single, double and triple trees in order |
| `BlockTree.EnumerationAgreesWithLookup` | kernel/src/internal/fs.rs:282-414 | on an inode filled densely up to N blocks the enumeration has length N and its nth entry is `get_block(n)`, across all four levels |
| `BlockTree.LookedUpIff` | kernel/src/internal/fs.rs:282-333 | an address in a slot other than those 64 is returned by `get_block` for some block number, whatever the blocks hold; and as long as block 0 is zero, which `FsTheorems.HolesReadZero` proves of every run, no other address is |
| `BlockTree.AllLookedUpIff` | kernel/src/internal/fs.rs:286-414 | `get_block` finds every address the enumeration lists if each of those 64 slots is empty or repeats an address found elsewhere, and, as long as block 0 is zero, only if |
| `BlockTree.Entry63Inode` | kernel/src/internal/fs.rs:286-296 | an inode with entry 63 of its double block in use: its block is enumerated and no block number finds it |
| `BlockTree.CollectSingle` | kernel/src/internal/fs.rs:345-359 | the loop over one table collects its non-zero entries, or panics exactly on a table pointer out of range |
| `BlockTree.CollectDouble` | kernel/src/internal/fs.rs:361-382 | the two nested loops collect the leaves of a two-level tree, or panic exactly on a table pointer out of range |
| `BlockTree.CollectTriple` | kernel/src/internal/fs.rs:384-411 | the three nested loops collect the leaves of a three-level tree, or panic exactly on a table pointer out of range |
| `BlockTree.GetAllBlockAddresses` | kernel/src/internal/fs.rs:335-414 | the whole method returns the specified enumeration, or panics exactly when some table pointer is out of range |
| `FsImage.FreeListSize` | kernel/src/internal/fs.rs:647-671 | the blocks the allocator hands out, in order, are as many as there are free blocks: index at least 1, all zero, in no inode's direct pointers |
| `FsImage.PaddedChunks` | kernel/src/internal/fs.rs:812-815 | cutting the padded data into blocks gives |data|/512+1 of them and loses nothing |
| `FsModel.ChmodSets` | kernel/src/internal/fs.rs:1250-1306 | on the map: `chmod` sets the three digits of an existing file and changes neither its owner, times nor bytes nor any other file |
| `FsModel.ChownSets` | kernel/src/internal/fs.rs:1308-1365 | `chown` sets the owner and changes neither permissions, times nor bytes nor any other file |
| `FsRefine.CreateRefines` | kernel/src/internal/fs.rs:709-743 | `create_file` with a new name adds an empty file with the given metadata to the map, takes one block and one inode, and fails with DiskFull, OutOfInodes or a panic exactly when the map's counters say so; on OutOfInodes the metadata block is lost unless it is all zero; the invariant is kept |
| `FsRefine.WriteRefines` | kernel/src/internal/fs.rs:805-1010 | `write_file` of fewer than 5632 bytes replaces the file's bytes by the padded data, keeps what it must of the metadata, keeps or extends the blocks held, reports FileNotFound or DiskFull exactly when the map does, leaves every other file alone and keeps the invariant |
| `FsRefine.SetMetaRefines` | kernel/src/internal/fs.rs:1250-1365 | `chmod` and `chown` change one metadata field of one file and nothing else |
| `FsRefine.StoreExists` | kernel/src/internal/fs.rs:416-585 | every image satisfying the invariant, a loaded one included, stands for a map from names to files, and every table entry is a file or an unused slot |
| `FsRefine.ImplementsUnique` | kernel/src/internal/fs.rs:791-803 | an image stands for only one such map |
| `FsDelete.DeleteRefines` | kernel/src/internal/fs.rs:1228-1242 | `delete` removes the name, leaves all others, shortens the table by one and raises the free count as the map says |
| `FsDelete.DeletedFree` | kernel/src/internal/fs.rs:1228-1242 | the free set grows by exactly the first num_data_blocks blocks and those spare blocks that are all zero; other spare blocks are lost |
| `FsRuns.StepRefines` | kernel/src/internal/fs.rs:709-1365 | any one of create (of a new name), write (below 5632 bytes), chmod, chown, delete refines the step of the map and keeps the invariant |
| `FsRuns.RunRefines` | kernel/src/internal/fs.rs:647-1365 | every run of these operations, of any length, answers what the map answers and ends in an image that implements the map: no block shared, pointers a non-zero in-range prefix, unused inodes zero, live names unique |
| `FsRuns.RunUnique` | kernel/src/internal/fs.rs:647-1365 | such a run has one outcome |
| `FsRuns.InodesConserved` | kernel/src/internal/fs.rs:1238-1240 | files plus unused slots are the table, and each successful deletion shortens it by one for good |
| `FsRuns.RunTables` | kernel/src/internal/fs.rs:647-1365 | a run on images keeps the superblock, and the inode table has become shorter by exactly the successful deletions |
| `FsRuns.RunKeepsFirst` | kernel/src/internal/fs.rs:647-1365 | no run writes block 0 |
| `FsTheorems.WriteThenRead` | kernel/src/internal/fs.rs:745-917 | after a successful write of fewer than 5632 bytes the file reads as the data followed by zeros to 512*(|data|/512+1) bytes, whatever its length was before; creation and access time survive, owner and permissions are those given or else survive; a file that shrinks keeps its tail blocks as they were; every other name reads as before |
| `FsTheorems.WriteSucceedsIff` | kernel/src/internal/fs.rs:870-917 | a write to an existing file succeeds if and only if the free blocks are at least the extra ones needed, lowers the free count by exactly that number, and fails only with DiskFull |
| `FsTheorems.WriteTakesLowest` | kernel/src/internal/fs.rs:882-917 | a successful write leaves the blocks the file holds under their pointers, adds the lowest free blocks in ascending order behind them, and changes no other inode |
| `FsTheorems.DiskFullKeepsContents` | kernel/src/internal/fs.rs:862-895 | a DiskFull write changes only the target's metadata block, which gets the new metadata all the same, and no file's bytes |
| `FsTheorems.DeleteGivesBack` | kernel/src/internal/fs.rs:1228-1242 | after `delete` the name is not found, its inode and no other is gone from the table, all others read as before, each of the first num_data_blocks blocks is acceptable to the allocator again, and the free count rises by exactly those plus the zero spares |
| `FsTheorems.CreateThenRead` | kernel/src/internal/fs.rs:709-743 | a new file is empty and has exactly the owner, permissions and times given; every other name reads as before |
| `FsTheorems.CreateSucceedsIff` | kernel/src/internal/fs.rs:709-743 | `create_file` succeeds if and only if there are a free block and an unused inode; DiskFull changes nothing; without an unused inode the metadata is still written to the lowest free block, and it is OutOfInodes on a full-length table and a panic on a shortened one |
| `FsTheorems.CreateTakesLowest` | kernel/src/internal/fs.rs:709-743 | a successful `create_file` uses the first unused inode and the lowest free block and changes no other |
| `FsTheorems.ChmodThenRead` | kernel/src/internal/fs.rs:1250-1306 | on images: `chmod` changes the three digits of one file and nothing else that any lookup shows |
| `FsTheorems.ChownThenRead` | kernel/src/internal/fs.rs:1308-1365 | and `chown` the owner of one file |
| `FsTheorems.HolesReadZero` | kernel/src/internal/fs.rs:647-671 | on every run from the loader's image block 0 stays zero, also through a flush and a load, so null table pointers look up as zero |
| `FsTheorems.CreateKeepsUniqueIff` | kernel/src/internal/fs.rs:709-743 | a successful `create_file` keeps live names unique if and only if the name was not there |
| `FsTheorems.CreateTwice` | kernel/src/internal/fs.rs:709-743 | creating any name twice on a fresh image succeeds twice and leaves it in the table twice |
| `FsTheorems.FlushableAfterIff` | kernel/src/internal/fs.rs:598-629 | after any run `write_to_disk` stays within its tables if and only if inode_table_size plus the successful deletions is at most the table length at the start |
| `FsTheorems.DeletionPreventsFlush` | kernel/src/internal/fs.rs:598-629 | from an image whose inode table is as long as the superblock says, the result of any run can be flushed if and only if no deletion succeeded, and is then loaded back as the same image |
| `FsTheorems.CreateDeleteFlush` | kernel/src/internal/fs.rs:598-629 | on the loader's start image: after creating any file flushing works, after deleting it again it panics |
| `FsSpill.ReservesItself` | kernel/src/internal/fs.rs:217-230 | on a file without a table both searches in `allocate_single_indirect_block` return the same block, so the new table's reserved entry is its own number; with no free block it panics |
| `FsSpill.TurnsFill` | kernel/src/internal/fs.rs:907-925 | after any number of turns of the single-indirect arm, what each of the 64 entries holds: stored pointers wrapped round, the table's own number, all-zero blocks, or the last stored pointers |
| `FsSpill.SpillReads` | kernel/src/internal/fs.rs:907-925 | a write of 12 to 75 data blocks that goes through: the table is the least block that was free and not taken for non-zero data, and what each data block reads back as (itself, the table, the block 52 further on, or zeros) |
| `FsSpill.SpillReadsBackIff` | kernel/src/internal/fs.rs:907-925 | for all contents of 5632 to 38399 bytes there is room for: the write goes through and reads back as the padded data if and only if no newly taken direct block is all zero and, up to 63 blocks, block 11 is word for word the table about to be built from the free list, later blocks are zero and one more block is free, or, from 64 blocks on, all blocks from 11 on are zero |
| `FsSpill.WriteSingleReadsBackIff` | kernel/src/internal/fs.rs:745-925 | the same for `write_file` followed by `read_file` under the same name |
| `FsSpill.WriteSingleMeta` | kernel/src/internal/fs.rs:852-862 | such a write leaves creation and access time, the given or else the old owner and permissions, and the new modification time |
| `FsSpill.WriteSingleKeepsOthers` | kernel/src/internal/fs.rs:745-925 | after a write of 5632 to 38399 bytes that does not panic, whether it succeeds or not, `read_file` of every other name returns what it returned before |
| `FsSpill.LimitIsTight` | kernel/src/internal/fs.rs:907-925 | for exactly 5632 bytes, on every image with room, the write goes through and the read-back is not the padded data |
| `PhysFsClass.PhysFs.constructor` | kernel/src/internal/fs.rs:416-585 | any image satisfying the invariant is a start state |
| `PhysFsClass.PhysFs.FindEmptyDataBlock` | kernel/src/internal/fs.rs:647-671 | the lowest free block outside the ignore list, or DiskFull exactly when there is none |
| `PhysFsClass.PhysFs.FindEmptyInode` | kernel/src/internal/fs.rs:673-681 | the first unused inode; with none left, OutOfInodes on a full-length table and a panic on one that deletions have shortened |
| `PhysFsClass.PhysFs.WriteToDataBlock` | kernel/src/internal/fs.rs:683-690 | replaces one block, or InvalidDataBlock out of range |
| `PhysFsClass.PhysFs.FindInodeByName` | kernel/src/internal/fs.rs:791-803 | the first inode with the padded name |
| `PhysFsClass.PhysFs.UpdateInode` | kernel/src/internal/fs.rs:698-707 | replaces the first inode with that name, or InvalidInode |
| `PhysFsClass.PhysFs.CreateFile` | kernel/src/internal/fs.rs:709-743 | the new fields are those of the image specification for any name, and for a new name the object's map takes the `create_file` step |
| `PhysFsClass.PhysFs.ReadData` | kernel/src/internal/fs.rs:779-785 | on any inode, with or without indirect tables, the blocks that the enumeration lists from entry 1 to num_data_blocks-1 joined, or a panic where one is missing or out of range |
| `PhysFsClass.PhysFs.ReadFile` | kernel/src/internal/fs.rs:745-789 | on any image the metadata and those blocks, FileNotFound or a panic; on an image within the invariant exactly the bytes and metadata the map holds, FileNotFound exactly for names it does not |
| `PhysFsClass.PhysFs.ChooseBlocks` | kernel/src/internal/fs.rs:882-895 | the choosing loop picks the blocks already held and then the lowest free ones in order, DiskFull exactly when these are too few |
| `PhysFsClass.PhysFs.StoreBlocks` | kernel/src/internal/fs.rs:897-903 | the writing loop stores chunk i under pointer i for every i |
| `PhysFsClass.PhysFs.AllocateSingleIndirect` | kernel/src/internal/fs.rs:217-231 | the table and the reserved entry are those of the specification, or it panics |
| `PhysFsClass.PhysFs.StorePointers` | kernel/src/internal/fs.rs:911-925 | the direct arm of the pointer loop sets entries 1..n and leaves entry 0 and the old tail; from 12 blocks on the single-indirect arm does the specified turns, panic included |
| `PhysFsClass.PhysFs.StoreContents` | kernel/src/internal/fs.rs:897-1006 | filling the blocks and updating the inode twice gives the specified image, in the direct and the single-indirect range |
| `PhysFsClass.PhysFs.WriteBlocks` | kernel/src/internal/fs.rs:870-1006 | choosing and storing: DiskFull with nothing changed exactly when the free blocks are too few, otherwise the specified image |
| `PhysFsClass.PhysFs.WriteFile` | kernel/src/internal/fs.rs:805-1010 | for contents below 5632 bytes the object's map takes the `write_file` step with the same result and the fields are those of the image specification; for 5632 to 38399 bytes the fields and the result are those of the spilling write, panic included |
| `VirtFsClass.VirtFs.Exists` | kernel/src/internal/fs.rs:1244-1248 | true exactly for names in the map |
| `VirtFsClass.VirtFs.SetMetadata` | kernel/src/internal/fs.rs:1250-1306 | rewriting the metadata block is the map's metadata step |
| `VirtFsClass.VirtFs.Chmod` | kernel/src/internal/fs.rs:1250-1306 | sets the permissions of one file to the digits given and changes nothing else of it or of any other |
| `VirtFsClass.VirtFs.Chown` | kernel/src/internal/fs.rs:1308-1365 | sets the owner of one file and changes nothing else of it or of any other |
| `VirtFsClass.VirtFs.GetMetadata` | kernel/src/internal/fs.rs:1367-1441 | the metadata behind `get_owner` and `get_perms` |
| `VirtFsClass.VirtFs.Delete` | kernel/src/internal/fs.rs:1228-1242 | the zeroing loop and `retain` are the map's deletion step |
| `VirtFsClass.VirtFs.Open` | kernel/src/internal/fs.rs:1197-1226 | creates a missing file only with the create flag, starts at the end with the append flag, and otherwise fails |
| `VirtFsClass.FileHandle.Read` | kernel/src/internal/fs.rs:1115-1136 | bytes from the cursor up to the length asked for or the end; denied, not found, or a panic past the end |
| `VirtFsClass.FileHandle.Overlaid` | kernel/src/internal/fs.rs:1150-1158 | the two resizes and the copy lay the buffer over the zero-extended contents |
| `VirtFsClass.FileHandle.Write` | kernel/src/internal/fs.rs:1138-1163 | as long as the result stays below 5632 bytes: rewrites the file with the buffer laid over [pos, pos+n) and moves the cursor; on failure the cursor stays |
| `VirtFsClass.FileHandle.Seek` | kernel/src/internal/fs.rs:1190-1193 | sets the cursor anywhere |
| `VirtFsClass.Session.Serve` | kernel/src/internal/fs.rs:1113-1441 | one call on any handle, writes within 5632 bytes, is answered as the reference model answers it |
| `VirtFsClass.Session.ServeAll` | kernel/src/internal/fs.rs:1113-1441 | any interleaving of such calls by any number of handles gets, reply by reply, the answers of byte arrays with one cursor per handle |
| `Streams.WriteOverlays` | kernel/src/internal/fs.rs:1138-1163 | a successful write changes exactly [pos, pos+n) and zero-fills, sets the length to 512*(max(len, pos+n)/512+1), which is strictly more than before, and touches no other file |
| `Streams.ReadYourWrites` | kernel/src/internal/fs.rs:1115-1163 | the next read of the written range, through any handle on the file, returns the buffer |
| `Streams.ReadsConcatenate` | kernel/src/internal/fs.rs:1115-1136 | consecutive reads of any sizes concatenate to the file's bytes from the cursor to where they end |
| `Streams.OpenOutcome` | kernel/src/internal/fs.rs:1197-1226 | `open`: a handle with the name and flags given, its cursor at the end of the file with the append flag and at 0 without; an existing file is left alone; a missing one is FileNotFound without the create flag and otherwise created empty with owner 0 and permissions 6,6,6, or fails as `create_file` does |
| `Streams.OpenThenWrite` | kernel/src/internal/fs.rs:1138-1226 | opening with the append flag and writing: the file starts with its old bytes followed by the buffer; without the flag it starts with the buffer followed by the rest of its old bytes |
| `Streams.ReadOutcome` | kernel/src/internal/fs.rs:1115-1136 | a read is denied exactly without the read flag, FileNotFound for a missing file, a panic past the end, and otherwise as many bytes as asked for or left |
| `Streams.WriteOutcome` | kernel/src/internal/fs.rs:1138-1163 | a write is denied exactly without the write flag, FileNotFound for a missing file, and otherwise succeeds if and only if the free blocks suffice; a failed one moves no cursor and changes no bytes; only the modification time changes in the metadata |
| `Streams.CallsByName` | kernel/src/internal/fs.rs:1228-1441 | `delete`, `get_owner`, `get_perms` and `exists`: their answers for names that exist and names that do not |
| `Streams.ChangeThenGet` | kernel/src/internal/fs.rs:1250-1441 | after `chmod`, `get_perms` gives the digits set and `get_owner` what it gave before; after `chown` the other way round |
| `Streams.OtherHandlesKept` | kernel/src/internal/fs.rs:1113-1226 | a call through one handle moves no other cursor; `open` adds one handle; `seek` and `read` change no file |
| `DiskCodec.SuperblockRoundTrip` | kernel/src/internal/fs.rs:416-451 | decoding the superblock sector gives the six fields encoded |
| `DiskCodec.SuperblockLayout` | kernel/src/internal/fs.rs:588-597 | the byte offsets of the six fields |
| `DiskCodec.InodeRoundTrip` | kernel/src/internal/fs.rs:473-557 | decoding an inode sector gives every field back, indirect pointers and name included |
| `DiskCodec.InodeSectorRoundTrip` | kernel/src/internal/fs.rs:473-557 | and every 512-byte sector is the encoding of exactly one inode |
| `DiskCodec.InodeLayout` | kernel/src/internal/fs.rs:600-623 | the byte offsets of count, twelve pointers, three indirect pointers and name |
| `DiskCodec.WrittenSectors` | kernel/src/internal/fs.rs:588-645 | below 2^32 sectors no two records share one: each holds its record afterwards and no other sector changes |
| `DiskCodec.DiskLayout` | kernel/src/internal/fs.rs:588-645 | after a flush the superblock is in sector 0, inode i in sector 1+i and block i in sector 1+inode_table_size+i |
| `DiskCodec.PanicLeaves` | kernel/src/internal/fs.rs:598-645 | a flush that panics on a short table has written every record before the missing one and no other sector |
| `DiskCodec.FlushThenLoad` | kernel/src/internal/fs.rs:416-645 | every outcome of `read_from_disk` after `write_to_disk` over any old contents: InvalidSuperblock, a panic, or the persisted part of the image |
| `DiskCodec.RoundTripExactIff` | kernel/src/internal/fs.rs:416-645 | loading returns the very image flushed if and only if the magic number is right, the superblock's counts are the table lengths, and inodes past inode_table_size are empty |
| `DiskCodec.LoadOkIff` | kernel/src/internal/fs.rs:416-585 | on any disk: loading succeeds if and only if the magic number is right, inode_table_size is at most num_inodes and every sector is readable, and what it then returns; ReadError, InvalidSuperblock or a panic otherwise |
| `DiskCodec.InodeSector` | kernel/src/internal/fs.rs:600-625 | filling a zeroed sector field by field gives the inode's encoding |
| `DiskCodec.WriteToDisk` | kernel/src/internal/fs.rs:588-645 | writes the sectors in order up to the first one the device refuses, with WriteError; with none refused, panics exactly when a table is shorter than its recorded size and otherwise has written all of the image |
| `DiskCodec.ReadFromDisk` | kernel/src/internal/fs.rs:416-585 | the loading loops compute the specified load, ReadError and panics included |
| `Loader.InitImplements` | fs-loader/src/fs.rs:1471-1503 | the loader's start image is the empty map with 8191 free blocks and 1024 inodes |
| `Loader.BuildSucceedsIff` | fs-loader/src/main.rs:73-78 | for distinct names and contents below 5632 bytes the load loop gets through if and only if inodes and blocks suffice, and then holds every file |
| `Loader.LoadedFileIs` | fs-loader/src/main.rs:73-76 | a loaded file is its contents zero-padded with permissions 7,7,7, owner 0 and all times 0 |
| `Loader.EndToEnd` | fs-loader/src/main.rs:69-80 | any such set that fits 1024 inodes and 8191 blocks is built, flushed over any disk, loaded by the kernel as the same image, and read back zero-padded under every name; no other name exists |
| `Loader.LoadFiles` | fs-loader/src/main.rs:73-78 | the loop over files below 5632 bytes is the specified build, false where an unwrap panics |
| `Loader.BuildDisk` | fs-loader/src/main.rs:61-80 | produces a disk if and only if the files fit and no sector is refused; the kernel's load of it finds exactly these files |
| `Loader.BootAndRead` | kernel/src/internal/fs.rs:1026-1037 | loading that disk and reading any one of the files returns its contents zero-padded |
| `Loader.FreshImageFlushes` | kernel/src/internal/fs.rs:1041-1070 | what `VirtFs::new` sets up can be flushed if and only if the disk has at most 2049 sectors, and reloads as it was if and only if it has 2049 |
| `Executors.StepKeepsInv` | kernel/src/internal/task/executor.rs:26-60 | create, spawn, pop, wake at any time and return keep: pushes are pops then queue, cached wakers are live, ids are unspawned, live or finished, a notified id is queued, no poll after completion |
| `Executors.RunKeepsInv` | kernel/src/internal/task/executor.rs:26-108 | hence over every run, and pushes, pops and the poll log only grow |
| `Executors.Reachable` | kernel/src/internal/task/executor.rs:17-23 | every reachable state of a new executor satisfies it |
| `Executors.PanicsIffFull` | kernel/src/internal/task/executor.rs:26-32 | the only panic is a push, by spawn or wake, on a queue of 100 |
| `Executors.PushesBalance` | kernel/src/internal/task/executor.rs:42-60 | per task, pushes are pops plus queued occurrences |
| `Executors.PoppedWithinCapacity` | kernel/src/internal/task/executor.rs:42-60 | an id queued at position k is the (k+1)th popped from then on, so within 100 pops |
| `Executors.NeverPolledAgain` | kernel/src/internal/task/executor.rs:51-58 | a task that returned Ready is not polled again, whatever stale wakes arrive |
| `Executors.QueueFromEvents` | kernel/src/internal/task/executor.rs:26-60 | on every run the queue is what was queued followed by the id of every spawn and every wake in order, duplicates included, less as many from the front as were popped; each creation takes the next id |
| `Executors.TasksFromEvents` | kernel/src/internal/task/executor.rs:26-60 | on every run a task exists exactly when it existed or was spawned and has not come back Ready, and its waker is cached exactly when it has been polled as well |
| `Executors.StepTasks` | kernel/src/internal/task/executor.rs:42-60 | one event: a pop polls the task exactly when it exists, and Ready removes task and waker |
| `RoundRobin.NextRound` | kernel/src/internal/task/simple_executor.rs:41-51 | the next polls are the queue in order, whatever the tasks answer |
| `RoundRobin.BetweenPolls` | kernel/src/internal/task/simple_executor.rs:41-51 | between two consecutive polls of a task each other task still live is polled exactly once |
| `RoundRobin.TurnInLockstep` | kernel/src/internal/task/executor.rs:42-60 | one turn of `Executor` on a task that wakes itself exactly when pending is one turn of `SimpleExecutor` |
| `RoundRobin.SameTrace` | kernel/src/internal/task/executor.rs:34-60 | for such tasks, sharing state and finishing or not, both executors make the same polls with the same answers for any number of turns, without a panic |
| `RoundRobin.SpawnAll` | kernel/src/internal/task/executor.rs:26-32 | creating and spawning tasks in any interleaving gets through if and only if the spawned ones fit the queue of 100, and queues them in order with nothing else live |
| `RoundRobin.SameTraceFromNew` | kernel/src/internal/task/executor.rs:17-60 | from a new `Executor`, whatever tasks are created and spawned: it panics if and only if more than 100 are, and otherwise makes the polls `SimpleExecutor` makes on the same tasks, with the same answers, for every number of turns |
| `TaskExecutors.RunsToCompletion` | kernel/src/internal/task/simple_executor.rs:41-51 | tasks that finish are run to completion in exactly as many polls as they need together |
| `TaskExecutors.PollsPerTask` | kernel/src/internal/task/simple_executor.rs:41-51 | each task is polled once more than it is pending, and no other task is polled |
| `TaskExecutors.SimpleExecutor.Spawn` | kernel/src/internal/task/simple_executor.rs:18-20 | appends the task |
| `TaskExecutors.SimpleExecutor.RunOne` | kernel/src/internal/task/simple_executor.rs:42-49 | one turn of the loop is the specified step |
| `TaskExecutors.SimpleExecutor.Run` | kernel/src/internal/task/simple_executor.rs:41-51 | terminates with an empty queue after exactly that trace |
| `TaskExecutors.Executor.NewTask` | kernel/src/internal/task/mod.rs:19-38 | a task gets the next unused id |
| `TaskExecutors.Executor.Spawn` | kernel/src/internal/task/executor.rs:26-32 | inserts the task and queues its id last; fails exactly on a full queue |
| `TaskExecutors.Executor.WakeTask` | kernel/src/internal/task/executor.rs:87-90 | queues the id last, whether queued already or finished, and changes nothing else; fails exactly on a full queue |
| `TaskExecutors.Executor.RunOne` | kernel/src/internal/task/executor.rs:42-59 | one turn of the loop on any queue: stale ids are dropped, and whatever the poll answers and whichever wakes arrive during it, the outcome is that of the step machine, panic included |
| `TaskExecutors.Executor.WakeAll` | kernel/src/internal/task/executor.rs:87-108 | any number of wakes in a row is a run of the step machine, panic included |
| `TaskExecutors.Executor.RunLoop` | kernel/src/internal/task/executor.rs:34-60 | the loop, on any tasks and any queue, with wakes during the polls and between the turns, for any number of turns, is a run of the step machine |
| `TaskExecutors.Executor.RunSelfWaking` | kernel/src/internal/task/executor.rs:42-59 | one turn on a live task that wakes itself exactly when pending is `SimpleExecutor`'s turn and does not panic |
| `TaskExecutors.Executor.RunReadyTasks` | kernel/src/internal/task/executor.rs:34-60 | on self-waking tasks that finish: `SimpleExecutor`'s trace, no panic, all tables empty at the end |
| `Memory.UsableFramesExact` | kernel/src/internal/memory.rs:127-133 | on a well-formed memory map every usable frame is listed once, no other is, and their size is the usable memory |
| `Memory.AllocationsExact` | kernel/src/internal/memory.rs:137-142 | no frame is handed out twice, all lie in usable regions, exactly the usable count succeed and every later call fails |
| `Memory.BootInfoFrameAllocator.AllocateFrame` | kernel/src/internal/memory.rs:137-142 | returns the frame at the shared counter and advances it |
| `Memory.AllocateBy` | kernel/src/internal/memory.rs:137-169 | any schedule of calls through any number of allocators draws from the one list in order |
| `Memory.MapRangeMaps` | kernel/src/internal/memory.rs:185-204 | a successful call maps exactly the pages of its range, none mapped before, to distinct frames drawn by this call, draws exactly the frames pages and tables need, and changes no other mapping |
| `Memory.MapRangeFrames` | kernel/src/internal/memory.rs:185-204 | each page gets the next frame in the order of allocation, before those of the page tables it misses |
| `Memory.MapRangeSucceedsIff` | kernel/src/internal/memory.rs:185-204 | success if and only if no page of the range was mapped and the frames suffice for pages and tables |
| `Memory.MapRangeFails` | kernel/src/internal/memory.rs:192-202 | on failure there is a first page that was mapped already or that the frames do not reach; the pages of the range before it stay mapped, the frames drawn up to there are used up, and nothing else changes |
| `Memory.AllocPagesExact` | kernel/src/internal/memory.rs:172-204 | when it succeeds, the pages that become mapped are those overlapping [addr, addr+size) if and only if size is at least 1; with size 0 it is the page of addr |
| `Memory.FreeUndoesAlloc` | kernel/src/internal/memory.rs:208-223 | `free_pages` over the same range restores the mapping |
| `Memory.FreePagesExact` | kernel/src/internal/memory.rs:208-223 | `free_pages` unmaps exactly the pages overlapping [addr, addr+size) |
| `Memory.Mapper.AllocPages` | kernel/src/internal/memory.rs:172-205 | the loop computes the specified mapping, counter and result |
| `Memory.Mapper.FreePages` | kernel/src/internal/memory.rs:208-223 | unmaps exactly the pages of the range |
| `Processes.ExecFails` | kernel/src/internal/process.rs:405-467 | a failed EXEC changes neither PID nor MAX_PID and returns to the caller with only rax changed, to -1 for an unreadable file and 130 otherwise; the window is used up if the table had room |
| `Processes.ExecSucceeds` | kernel/src/internal/process.rs:469-498 | a successful EXEC pushes the caller's context; the child gets the next pid, its parent's pid as ppid and a new window, and starts at the window plus the entry point of an ELF file that parses, or at the window itself, with the stack at its last page |
| `Processes.ExitPops` | kernel/src/internal/process.rs:303-308 | EXIT resumes the context on top of the stack and pops it |
| `Processes.HandleRefines` | kernel/src/internal/interrupts.rs:290-332 | every EXEC and every EXIT from pid at least 1: the kernel goes down exactly for an EXEC that finds no frame, fewer than four bytes or no room for arguments, and otherwise keeps PID = MAX_PID-1, entry k with pid k and parent k-1, saved contexts and windows as the stack has them |
| `Processes.RunRefines` | kernel/src/internal/interrupts.rs:290-332 | over every run of such calls |
| `Processes.FromBoot` | kernel/src/internal/process.rs:405-499 | on every run from boot: PID = MAX_PID-1 below 4, entry k has pid k and parent k-1 for each live k, and the windows handed out follow each other in steps of 10 MiB from the end of the kernel heap |
| `Processes.ExitRestoresParent` | kernel/src/internal/interrupts.rs:304-332 | however deep the nesting between, the EXIT that ends a child restores exactly the registers and stack frame saved at the EXEC that created it |
| `Processes.ExitFromFirstIff` | kernel/src/internal/process.rs:303-308 | EXIT keeps PID = MAX_PID-1 if and only if it comes from pid at least 1; from pid 0 MAX_PID becomes 0 and the process resumes its own last EXEC, or the kernel panics |
| `Processes.WindowsDisjoint` | kernel/src/internal/process.rs:431-433 | windows handed out, failed creations included, are disjoint and above the kernel heap |
| `Processes.LayoutOrdered` | kernel/src/internal/process.rs:512-544 | inside a window the argument page, the heap and the stack base are in order without overlap, at the offsets the source computes |
| `Processes.ExitUnmapsWindow` | kernel/src/internal/process.rs:303-316 | EXIT from pid at least 1 unmaps every page of the exiting process's window, changes no mapping in any other window handed out, and no process still live has that window |
| `Processes.ExitFreesUserRange` | kernel/src/internal/process.rs:581-600 | EXIT also unmaps the 10 MiB from 0x800000 exactly when the first page there is mapped and user-accessible, and no page outside these ranges |
| `Processes.ProcessTable.Create` | kernel/src/internal/process.rs:405-499 | the statics change as specified, with the window taken even when loading fails |
| `Processes.ProcessTable.Exit` | kernel/src/internal/process.rs:303-316 | MAX_PID drops, PID becomes the parent's, and the mapping is what freeing the exiting process's pages leaves |
| `Processes.ProcessTable.Syscall` | kernel/src/internal/interrupts.rs:290-332 | the handler is the stack step, or panics exactly for the EXECs that bring the kernel down; EXIT also frees the pages |
| `Clock.YearsExact` | kernel/src/internal/clk/mod.rs:38-39 | the three divisions count the leap years since 1970, for every year |
| `Clock.MonthsExact` | kernel/src/internal/clk/mod.rs:40-47 | the month expression is the cumulative month length, leap years included |
| `Clock.DaysExact` | kernel/src/internal/clk/mod.rs:38-49 | the closed form is the recursive calendar count of days |
| `Clock.StrictlyIncreasing` | kernel/src/internal/clk/mod.rs:28-53 | later dates have larger values |
| `Clock.Injective` | kernel/src/internal/clk/mod.rs:28-53 | different dates have different values |
| `Clock.NextAddsOne` | kernel/src/internal/clk/mod.rs:28-53 | the next second of the calendar is one more, through every carry |
| `Clock.CountsSeconds` | kernel/src/internal/clk/mod.rs:28-53 | so the value is the number of seconds since 1970-01-01 00:00:00, and each number has its date |
| `Clock.GetUnixTimeCounts` | kernel/src/internal/clk/mod.rs:28-53 | what `get_unix_time` returns for a clock reading is the number of seconds after 1970-01-01 00:00:00 at which the calendar shows that reading |

## Left out

- PhysFsClass.PhysFs.WriteFile: covers contents below 38400 bytes; from there on the double and triple arms come in, which are not modelled. When the single-indirect arm panics half way, nothing is said of the fields.
- FsRuns.RunRefines: writes of 5632 bytes or more are not part of the runs, because they read back only under the condition of FsSpill.SpillReadsBackIff and leave pointers outside the invariant, and names are created once, as `open` ensures; FsTheorems.CreateKeepsUniqueIff covers the other case.
- VirtFsClass.Session.ServeAll: writes that would make a file 5632 bytes or longer are not part of the conversations.
- FsSpill.SpillReads: one write to a file without a table yet; `allocate_block`, whose result is never stored back, and a second such write to the same file are not modelled.
- FsTypes.PadInjective: names are nonempty, at most 384 bytes and without a trailing NUL; longer ones panic in the source and an empty one matches unused inodes.
- DiskCodec.WrittenSectors: disks of at most 2^32 sectors; beyond that the cast to u32 wraps and records collide.
- TaskExecutors.Executor.RunReadyTasks: tasks that wake themselves and finish, so that the loop ends; RunLoop covers any tasks and queues and SameTrace tasks that never finish, turn by turn.
- Memory.MapRangeMaps: the paging library is a map from pages to frames; how many page tables a mapping misses is a parameter.
- Processes.RunRefines: calls that bring the kernel down end a run and are not part of it; after EXIT from pid 0, which Processes.ExitFromFirstIff describes, the stack relation no longer holds.
- Processes.ExitUnmapsWindow: page tables shared between processes are not modelled; the mapping is that of the exiting process.
- Clock.DaysExact: fields the RTC could deliver outside the calendar are not covered.
- The global filesystem table and its lock, cloning through get_fs_mut, listing, closing and polling a handle, and the descriptor table: bookkeeping with one branch each.
- ATA port access and host file access: replaced by a map from sector numbers to 512 bytes.
- ELF parsing, CR3 switches, inline assembly and the process heap's allocator: foreign or hardware code.
- Exit from the page-fault handler: it does not pass through the context restore.
- VGA, serial, keyboard, console, ACPI, GDT, PIT and TSC timing, the null, zero and random devices, /proc, users and error codes: easy members or hardware.
- Wrap-around of 64-bit counters (task ids, frames, code addresses): not reachable in practice and not modelled.
