# Customized Virtual File System — storage and descriptor engine in Dafny

This project models the in-memory file system of `Customized_Virtual_File_System.cpp`. The file system has three pieces of global state:

- **the inode list**: 50 records, each with a name, sizes, a file type (0 = free), a 1024-byte data buffer, link and reference counts and a permission;
- **the user file descriptor table (UFDT)**: 50 slots, each empty or pointing at a file table with read and write offsets, a mode, a reference count and the inode it is bound to;
- **the superblock**: a count of total and free inodes.

The model keeps that state in one object, `VirtualFileSystem.FileSystem`:

- `inodes: array<Inode>` holds the list in list order. Index i holds inode number i + 1, and a pointer to an inode becomes its index.
- `ufdt: array<Option<FileTable>>` holds the descriptor table.
- `totalInodes` and `freeInodes` hold the superblock.

Every operation of the engine is a method with a loop wherever the source has one. Return values are the source's C integers, -1 to -5, with `END_OF_FILE = -4`.

Each method is proved against a pure description split across four modules:

- `VfsTypes`: constants, records and mode tests.
- `InodePool`: the inode list as a sequence, with its lookups, its free count and the inode updates of create and delete.
- `DescriptorTable`: the slot table, the lowest-empty-slot search and the `get_file_desc` walk.
- `FileData`: byte effects of `memset` and of the `strcpy` in `write_file`.

`FileSystem.Valid()` is the invariant every operation keeps:

- the superblock's free count equals the number of free inodes;
- every inode keeps its number, a file type of 0 or 1, a link count of 1 exactly when allocated and a size in 0..FILE_SIZE, and a buffer that is either absent or FILE_SIZE bytes long, and FILE_SIZE bytes whenever the inode is allocated;
- no inode before an allocated one carries its name, so names are unique among allocated inodes;
- every occupied slot is bound to an inode with a buffer, has reference count 1 and has offsets within the buffer.

`Scenarios` holds short sessions on a fresh file system, each with its outcome proved as the shell user would see it: a write, seek and read round trip; re-creation after delete; the permission check on open; double close; an over-long write; padding after a seek past the end; a write that ends exactly at the end of the buffer.

Quirks of the code that the model keeps:

- **open_file's permission test** has a last disjunct that is a non-zero constant. A Write-only file can therefore never be opened, and a Read-only one only in modes 1, 4 and 5 (`OpenDenied`).
- **The get_file_desc walk** stops at the first empty slot. It answers the first slot bound to an inode carrying the name, which may not be the descriptor the caller holds, and may even be a slot bound to a freed inode with a stale name.
- **is_open** reads the inode's reference count, not the table.
- **create_file** refuses only a permission of 0 or above 3, so negative permissions are accepted.
- **close_all_files** empties every slot but leaves the inodes' reference counts as they were.
- **delete_file** empties only the slot get_file_desc answers. Other slots bound to the inode stay.
- **truncate_file** applies to every inode whose stored name matches, free ones included. When growing, it clears the whole of `[0, size)`, old content included, rather than only the new tail. It clamps the offsets once for each matching inode.
- **lseek with SEEK_CUR or a negative whence** returns 0 and changes nothing.

## Model

| member | source | states |
|---|---|---|
| `VfsTypes.CanWrite` | Customized_Virtual_File_System.cpp:540-541 | write_file accepts exactly modes 2, 3, 6 and 7: the modes in 1..7 with the WRITE bit set |
| `VfsTypes.CanRead` | Customized_Virtual_File_System.cpp:675-676 | read_file accepts exactly modes 1, 3, 5 and 7: the modes in 1..7 with the READ bit set |
| `VfsTypes.AppendMode` | Customized_Virtual_File_System.cpp:649-652 | open_file puts the write offset at the end of the file exactly for modes 4..7: the modes with the APPEND bit set |
| `VfsTypes.OpenDenied` | Customized_Virtual_File_System.cpp:627-629 | the permission test as written refuses every mode on a Write-only inode, refuses modes 2, 3, 6 and 7 on a Read-only inode, and never refuses a Read+Write inode |
| `FileData.FillRange` | Customized_Virtual_File_System.cpp:576 | memset over [lo, hi) sets exactly those bytes and keeps the length and every other byte |
| `FileData.WriteGuardAdmits` | Customized_Virtual_File_System.cpp:546-547 | write_file's size guard: a write is refused only when write_offset + n ends past FILE_SIZE, so one ending exactly at FILE_SIZE passes |
| `FileData.StrcpyStores` | Customized_Virtual_File_System.cpp:549 | the indices strcpy stores to when it copies an n-byte string to offset: the n bytes and then the terminator at offset + n |
| `FileData.CopyTerminated` | Customized_Virtual_File_System.cpp:549 | the copy keeps the buffer length, places the n bytes at the write offset, puts a 0 right after them when that is inside the buffer, and keeps every other byte |
| `FileData.CopyTerminatedIsStrcpyInBuffer` | Customized_Virtual_File_System.cpp:549 | the corrected copy does every strcpy store that lands inside the buffer, with strcpy's byte, and touches nothing else; the one store it drops is the terminator, exactly when the string ends at the buffer's end |
| `FileData.Truncated` | Customized_Virtual_File_System.cpp:572-584 | truncating one inode changes only its size and bytes: shrinking clears exactly [size, old size) and keeps the rest; growing clears [0, size) and keeps the bytes from size on |
| `FileData.Extended` | Customized_Virtual_File_System.cpp:723-746 | a seek target past the end fills [old size, target) with spaces and makes the target the size; any other target changes nothing |
| `InodePool.CountFree` | Customized_Virtual_File_System.cpp:55 | the number of free inodes never exceeds the number of inodes |
| `InodePool.CountFreeUpdate` | Customized_Virtual_File_System.cpp:478 | overwriting one inode moves the free count by exactly the change in that inode's freeness |
| `InodePool.CountFreeSameTypes` | Customized_Virtual_File_System.cpp:53-56 | lists with the same file types in every position have the same free count |
| `InodePool.CountFreeAllFree` | Customized_Virtual_File_System.cpp:69-70 | a list of all-free inodes has free count equal to its length, the 50 initialize_superblock stores |
| `InodePool.FirstFreeFrom` | Customized_Virtual_File_System.cpp:218-229 | get_free_inode's walk: -1 exactly when no inode from k on is free; otherwise a free inode with none free before it |
| `InodePool.FreeCountFindsInode` | Customized_Virtual_File_System.cpp:435-454 | a non-zero free count means get_free_inode finds an inode, and a zero count means it finds none |
| `InodePool.FirstNamedFrom` | Customized_Virtual_File_System.cpp:600-611 | get_existing_inode's walk: -1 exactly when no inode from k on carries the name; otherwise the first that does |
| `InodePool.FirstNamedIsLive` | Customized_Virtual_File_System.cpp:231-242 | when no inode before an allocated one carries its name (which create_file keeps true) and an allocated inode carries the name, the first inode with the name is that one, and it is the only allocated one with the name |
| `InodePool.FirstNamedSameNames` | Customized_Virtual_File_System.cpp:600-611 | get_existing_inode reads only names: lists with equal names in every position answer it alike |
| `InodePool.HasLiveSameNames` | Customized_Virtual_File_System.cpp:231-242 | is_file_exists reads only names and file types |
| `InodePool.OpenStatus` | Customized_Virtual_File_System.cpp:359-377 | is_open answers -1 exactly for an unknown name, 1 when the named inode's reference count is non-zero and 0 when it is zero |
| `InodePool.OpenStatusSame` | Customized_Virtual_File_System.cpp:359-377 | is_open reads only names, file types and reference counts |
| `InodePool.Created` | Customized_Virtual_File_System.cpp:462-476 | the inode create_file builds keeps its number and gets the name, the permission, size 0, file size 1024, type regular, link and reference count 1 and an all-zero 1024-byte buffer |
| `InodePool.Reclaimed` | Customized_Virtual_File_System.cpp:510-514 | the inode delete_file leaves is free, with link count, size, reference count and permission 0, and name, number and buffer as they were |
| `InodePool.CreateKeepsPool` | Customized_Virtual_File_System.cpp:453-478 | create_file on the first free inode with a name no allocated inode has keeps the inode invariant and takes exactly one inode from the free count |
| `InodePool.DeleteKeepsPool` | Customized_Virtual_File_System.cpp:498-518 | delete_file on an allocated inode keeps the inode invariant and gives exactly one inode back to the free count |
| `InodePool.CreateThenDeleteRestoresCount` | Customized_Virtual_File_System.cpp:478-517 | deleting the inode create_file just took brings the free count back to what it was |
| `InodePool.UpdateKeepsPool` | Customized_Virtual_File_System.cpp:552-556 | changing an inode while keeping its name, type and per-inode facts keeps the inode invariant and the free count |
| `InodePool.LiveNames` | Customized_Virtual_File_System.cpp:113-130 | display_file_list lists as many names as there are allocated inodes, and a name is listed exactly when an allocated inode carries it |
| `DescriptorTable.FirstEmptyFrom` | Customized_Virtual_File_System.cpp:441-445 | the lowest-empty-slot loop: -1 exactly when every slot from k on is occupied; otherwise an empty slot with every one before it occupied |
| `DescriptorTable.DescFrom` | Customized_Virtual_File_System.cpp:251-256 | the get_file_desc walk from k answers the first slot bound to an inode with the name before the first empty slot, or -1 when an empty slot comes first |
| `DescriptorTable.DescOf` | Customized_Virtual_File_System.cpp:244-257 | get_file_desc: -1 for an unknown name; a slot it answers is occupied, bound to an inode carrying the name, and every slot before it is occupied and bound elsewhere; -1 for a known name means an empty slot came first |
| `DescriptorTable.Clamp` | Customized_Virtual_File_System.cpp:586-592 | truncate_file brings an offset above size down to size and keeps an offset at or below it; mode, inode and count are untouched |
| `DescriptorTable.TableValidSameLengths` | Customized_Virtual_File_System.cpp:38-50 | changing inodes without changing any buffer length keeps every slot's facts |
| `DescriptorTable.DescFromSame` | Customized_Virtual_File_System.cpp:251-256 | the get_file_desc walk reads only names and which inode each slot is bound to |
| `DescriptorTable.DescOfSame` | Customized_Virtual_File_System.cpp:244-257 | the same for the whole of get_file_desc, under changes that keep names, file types and slot bindings |
| `VirtualFileSystem.WritePasses` | Customized_Virtual_File_System.cpp:540-547 | write_file gets past its mode, file type and size checks on the slot get_file_desc answers: the same guard `WriteFile` tests before its -3, -4 and -5 returns |
| `VirtualFileSystem.WriteStoresPastBuffer` | Customized_Virtual_File_System.cpp:546-549 | in every valid state where write_file gets past its checks with a string ending exactly at FILE_SIZE, the buffer of the slot's inode is FILE_SIZE bytes long and the strcpy terminator goes to index FILE_SIZE, one past its end |
| `VirtualFileSystem.TruncatedIfNamed` | Customized_Virtual_File_System.cpp:572-584 | inside truncate_file's loop an inode carrying the name is truncated and any other is left alone |
| `VirtualFileSystem.TruncatedPrefix` | Customized_Virtual_File_System.cpp:570-596 | the inode list after truncate_file's loop has passed k inodes: those before k truncated when named, the rest as they were |
| `VirtualFileSystem.TruncatedPrefixStep` | Customized_Virtual_File_System.cpp:570-596 | one more turn of the loop updates exactly inode k |
| `VirtualFileSystem.TruncatedTable` | Customized_Virtual_File_System.cpp:584-593 | the descriptor table after truncate_file's loop has passed k inodes: same shape as before, and the only slot that can differ is the one get_file_desc answers, once the first inode with the name of an open file is passed |
| `VirtualFileSystem.TruncatedPrefixKeeps` | Customized_Virtual_File_System.cpp:570-596 | the loop changes no name, file type, reference count or buffer length |
| `VirtualFileSystem.TruncatedTableStep` | Customized_Virtual_File_System.cpp:585-593 | the slot is clamped at the first inode carrying the name of an open file, and clamping again at later matches changes nothing |
| `VirtualFileSystem.FileSystem.constructor` | Customized_Virtual_File_System.cpp:62-111 | create_dilb and initialize_superblock: 50 free inodes numbered 1..50 with no buffer, every slot empty, free count 50, and the invariant holds |
| `VirtualFileSystem.FileSystem.GetFreeInode` | Customized_Virtual_File_System.cpp:218-229 | answers the first free inode, or -1 |
| `VirtualFileSystem.FileSystem.IsFileExists` | Customized_Virtual_File_System.cpp:231-242 | 1 exactly when an allocated inode carries the name, 0 exactly when none does |
| `VirtualFileSystem.FileSystem.GetExistingInode` | Customized_Virtual_File_System.cpp:600-611 | answers the first inode carrying the name, free or not, or -1 |
| `VirtualFileSystem.FileSystem.IsOpen` | Customized_Virtual_File_System.cpp:359-377 | answers is_open's -1, 0 or 1 from the inode's reference count |
| `VirtualFileSystem.FileSystem.GetFileDesc` | Customized_Virtual_File_System.cpp:244-257 | answers the get_file_desc walk: the first slot bound to an inode with the name before an empty slot, or -1 |
| `VirtualFileSystem.FileSystem.Stat` | Customized_Virtual_File_System.cpp:259-289 | None for an unknown name, otherwise the allocated inode carrying that name |
| `VirtualFileSystem.FileSystem.Fstat` | Customized_Virtual_File_System.cpp:291-321 | an invalid descriptor exactly when it is negative, not opened exactly for an empty slot, otherwise the inode the slot is bound to |
| `VirtualFileSystem.FileSystem.DisplayFileList` | Customized_Virtual_File_System.cpp:113-130 | the names of the allocated inodes in list order, none when all 50 are free |
| `VirtualFileSystem.FileSystem.FindEmptySlot` | Customized_Virtual_File_System.cpp:631-635 | answers the lowest empty slot, or -1 when the table is full |
| `VirtualFileSystem.FileSystem.CreateFile` | Customized_Virtual_File_System.cpp:427-481 | -1 for permission 0 or above 3, -2 with no free inode, -3 for a taken name, each with nothing changed; otherwise the lowest empty slot gets a table with offsets 0, mode = permission and count 1, bound to the first free inode, which becomes `Created`; the free count drops by one and the invariant holds |
| `VirtualFileSystem.FileSystem.OpenFile` | Customized_Virtual_File_System.cpp:613-655 | -1 for an unknown name, -2 for a mode outside 1..7, -3 when the permission test refuses, each with nothing changed; otherwise the lowest empty slot gets a table with read offset 0, write offset at the end for the append modes and 0 otherwise, count 1, bound to the named inode, whose reference count goes up by one |
| `VirtualFileSystem.FileSystem.CloseFile` | Customized_Virtual_File_System.cpp:379-398 | -1 and nothing changed for an empty slot; otherwise exactly that slot is emptied and the bound inode's reference count drops by one |
| `VirtualFileSystem.FileSystem.CloseAllFiles` | Customized_Virtual_File_System.cpp:132-157 | every slot ends empty and no inode changes |
| `VirtualFileSystem.FileSystem.DeleteFile` | Customized_Virtual_File_System.cpp:483-521 | -1 and nothing changed for an unknown name; otherwise the named inode becomes `Reclaimed`, the slot get_file_desc answers (if any) is emptied and no other, and the free count rises by one |
| `VirtualFileSystem.FileSystem.WriteFile` | Customized_Virtual_File_System.cpp:523-559 | -1, -2, then on the slot get_file_desc answers -3 without write mode, -4 for a non-regular inode, -5 when it would end past 1024, each with nothing changed; otherwise the bytes land at the write offset, the write offset moves by n, the size becomes the larger of the old size and the new write offset, and n is returned |
| `VirtualFileSystem.FileSystem.ReadFile` | Customized_Virtual_File_System.cpp:657-698 | -1, -2, then -3 without read mode and END_OF_FILE at the end, with nothing changed; otherwise it returns the smaller of n and the bytes left, hands over exactly those bytes from the read offset, and moves the read offset past them, never beyond the size |
| `VirtualFileSystem.FileSystem.Reposition` | Customized_Virtual_File_System.cpp:726-744 | lseek's last step: the slot's inode takes its new value and both offsets move to the target |
| `VirtualFileSystem.FileSystem.Lseek` | Customized_Virtual_File_System.cpp:700-758 | -1, -2, -3 for whence 3 or more; SEEK_SET and SEEK_END aim at offset or size + offset, -3 and no change for a negative target, otherwise the inode becomes `Extended` to the target, both offsets move to it and it is returned; any other whence returns 0 with no change |
| `VirtualFileSystem.FileSystem.TruncateInode` | Customized_Virtual_File_System.cpp:572-593 | one matching inode is truncated, and when the file is open the slot get_file_desc answers is clamped |
| `VirtualFileSystem.FileSystem.ClampOpenDesc` | Customized_Virtual_File_System.cpp:585-593 | when is_open answers 1 the slot get_file_desc answers is clamped to size, otherwise nothing changes |
| `VirtualFileSystem.FileSystem.TruncateStep` | Customized_Virtual_File_System.cpp:570-596 | one turn of truncate_file's loop takes the state from k inodes passed to k + 1 |
| `VirtualFileSystem.FileSystem.TruncateFile` | Customized_Virtual_File_System.cpp:561-598 | -1 and no change for an unknown name; otherwise 0, every inode carrying the name is `Truncated`, the rest unchanged, and when the file is open the slot get_file_desc answers has its offsets clamped to size |
| `Scenarios.FirstSlotAnswers` | Customized_Virtual_File_System.cpp:244-257 | when slot 0 is bound to an inode with a live name, get_file_desc answers 0 |
| `Scenarios.NewWithFile` | Customized_Virtual_File_System.cpp:427-481 | on a fresh system the first create_file takes inode 0 and slot 0 and leaves 49 inodes free |
| `Scenarios.WriteSeekRead` | Customized_Virtual_File_System.cpp:523-758 | create, open, write "hello", seek to 0: reading 5 bytes gives "hello" and reading again gives END_OF_FILE |
| `Scenarios.RecreateAfterDelete` | Customized_Virtual_File_System.cpp:427-521 | a second create of a name gives -3; after a delete the name is created again on inode 1 with size 0 and an all-zero buffer |
| `Scenarios.OpenReadOnly` | Customized_Virtual_File_System.cpp:613-655 | a Read-only file refuses mode Write with -3 and opens in mode Read |
| `Scenarios.OpenWriteOnly` | Customized_Virtual_File_System.cpp:627-629 | a Write-only file refuses both mode Write and mode Read |
| `Scenarios.CloseTwice` | Customized_Virtual_File_System.cpp:379-398 | closing a descriptor twice gives 0 and then -1 |
| `Scenarios.WriteTooLong` | Customized_Virtual_File_System.cpp:546-547 | a 1025-byte write gives -5 and the file's size stays 0 |
| `Scenarios.SeekEndPads` | Customized_Virtual_File_System.cpp:739-746 | after "ab", seeking 3 past the end gives 5, and reading 3 bytes from offset 2 gives three spaces |
| `Scenarios.StrayTerminator` | Customized_Virtual_File_System.cpp:546-549 | seeking to 1000 and writing 24 bytes passes the guard and grows the file to 1024, and strcpy's terminator would go to index 1024, the buffer's length |

## Left out

- The `main` command loop, command parsing and all messages (lines 760-947). These are console I/O.
- `clear_screen`, `display_commands`, `manual` and `backup_all_files`. The first and last call host programs and host files; the other two print fixed text.
- The printing in `stat`, `fstat` and `display_file_list`. These are modelled as queries that return the inode or the names.
- The commented-out `close_file` by name (lines 400-425). It is not compiled.
- The `malloc` failure branches returning -4 (lines 449-450, 473-474, 640-641) and the failure branch of `create_dilb`. Allocation is taken to succeed.
- The linked list's `next_inode` pointers. List order is index order.
- The stores into a file table just before it is freed, in `delete_file` and `close_all_files`. Nothing can read them.
- C `int` width. Offsets, sizes and counts are unbounded integers; the preconditions keep every offset within 0..1024.
- Names are Dafny strings, and each one stands for a NUL-free C string of single-byte characters held in the 50-byte `file_name` buffer. So the length bound of `create_file` counts characters as bytes, a name containing a NUL character is outside what the model describes, and names are compared as whole character sequences, as `strcmp` does on terminated strings. A name never written by `create_file` is uninitialised memory in the source; here it is the empty name, and its `file_size` is 0.
- VirtualFileSystem.FileSystem.WriteFile: leaves out the out-of-bounds store of the terminator at index 1024 when a write ends exactly at FILE_SIZE, because the buffer holds only 1024 bytes; the copy keeps every store inside the buffer (see Findings).
- VirtualFileSystem.FileSystem.ReadFile: returns the count handed to the console `write`, not that call's own result, because console output is not modelled.
- VirtualFileSystem.FileSystem.CreateFile: requires a name shorter than 50 characters, and an empty slot whenever it gets past its checks. The source otherwise writes past `file_name` or uses slot 50.
- VirtualFileSystem.FileSystem.OpenFile: requires an empty slot whenever it gets past its checks, because the source otherwise uses slot 50.
- VirtualFileSystem.FileSystem.GetFileDesc: requires, for a known name, an empty slot or a matching slot somewhere in the table. Otherwise the source's walk reads past slot 49.
- VirtualFileSystem.FileSystem.DeleteFile: requires the same of get_file_desc for a known name.
- VirtualFileSystem.FileSystem.CloseFile: requires a descriptor in 0..49, because the source indexes the table without a check.
- VirtualFileSystem.FileSystem.Fstat: requires a descriptor below 50, for the same reason.
- VirtualFileSystem.FileSystem.WriteFile: requires get_file_desc to find a slot for an open file; the source would use slot -1. It also requires data without zero bytes, which is what `strcpy` copies. Once the checks pass, the n bytes must fit the buffer and the new write offset must not be negative.
- VirtualFileSystem.FileSystem.ReadFile: requires get_file_desc to find a slot for an open file. Past the mode and end checks it also requires a non-negative count and a read offset not above the size. Otherwise the console `write` gets a negative length.
- VirtualFileSystem.FileSystem.Lseek: requires get_file_desc to find a slot for an open file when whence is below 3, and a target within 1024, because the source's `memset` is unchecked.
- VirtualFileSystem.FileSystem.TruncateFile: for a known name it requires a size in 0..1024, an allocated buffer in every inode carrying the name, and a slot from get_file_desc when the file is open. The source's `memset` and slot access are otherwise out of bounds.

## Findings

| source | as written | input that shows it | evidently intended | confidence | as-written member | corrected member |
|---|---|---|---|---|---|---|
| Customized_Virtual_File_System.cpp:546-549 | the guard refuses a write only when write_offset + n > 1024, and `strcpy` then stores n bytes and a terminating 0 at write_offset + n | a 24-byte write at write offset 1000: the guard admits it and the terminator is stored at index 1024 of a 1024-byte buffer | no store outside the buffer: the terminator is dropped, or the guard refuses write_offset + n == 1024 | not executed | `VirtualFileSystem.WriteStoresPastBuffer` | `FileData.CopyTerminated` |
