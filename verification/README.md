# Verified models of the simple file system and of the table reservation system

Two programs are modelled and proved correct in Dafny 4.11.

**The file system** (`file_system/sfs_api.c` over `file_system/disk_emu.c`). A disk of 1024
blocks of 1024 bytes holds up to one hundred files. A file's first twelve blocks are named by
its inode, the others by 4-byte integers in an indirect block on the same disk; a bitmap hands
out free blocks. The classes `Disk`, `FreeMap` and `FileSystem` keep the state in arrays and
update it in place with the loops of the source. The main theorem is a refinement over whole
sessions: whatever calls a program makes after `mksfs(1)`, every reply is the one that one
hundred flat byte sequences with cursors (module `Volume`) would give; the two kinds of call
that are excepted (`Volume.Admissible`) are described below. What the volume promises is then proved about it: round
trips, zero-filled gaps, stable names, conservation of blocks.

| file | content |
|---|---|
| `Bytes.dfy` | bytes, splices, the 4-byte integers of an indirect block |
| `Disk.dfy`, `FreeMap.dfy` | the disk emulator; the bitmap as a set of blocks |
| `Chunks.dfy` | the partial/full/partial loops as one splice or slice of the concatenated blocks |
| `Volume.dfy`, `Answers.dfy` | the flat files, runs of calls, and their theorems; what each call answers and changes, in plain terms |
| `Layout.dfy`, `Store.dfy` | inodes and who holds which block: the invariant and the growth of a file |
| `Refinement.dfy`, `FileSystem.dfy`, `Session.dfy` | each call, and every session, against the flat files |
| `AsWritten.dfy` | two lines that the model corrects, with the exact conditions under which they do no harm, and sessions that reach them |

**The reservation system** (`Reservation system/main.c`). Any number of processes share twenty
tables, ten per section, under one semaphore per section. `Tables.dfy` has the commands as
written, each run without interruption, against a specification of atomic commands.
`Protocol.dfy` is the transition system of all processes, one step per wait, loop iteration,
copied name and post. `Safety.dfy` proves the invariant, the lock discipline, freedom from
deadlock, termination and that no table is booked twice. `Linearisation.dfy` proves that every
interleaving has the outcome of running whole commands one after the other, and `Bookings.dfy`
counts free tables and bookings. `Safety.ProgramOrder` says that every process runs its own
commands, in order, up to its first `exit`. Since every process starts with `init`, which takes both
semaphores and frees all tables, bookings last until the next process starts.

## How the model treats the source

- `file_system/sfs_api.c:608` copies as many bytes as there are indirect entries. The model
  copies four bytes per entry, as line 531 does. `AsWritten.ShortCopyExact` says for which
  writes the short copy leaves the file with the right contents whatever the unset memory held:
  exactly those that begin behind the old blocks or end before the first entry that was not
  copied. `AsWritten.ShortCopyAppend` has the one-byte append that can lose its byte, and
  `AsWritten.AppendReachable` the session that leads to it.
- `file_system/sfs_api.c:54` lets the scan read the word behind the 128 words of the bitmap.
  The model stops at 128. `AsWritten.ScanPastExact`: the scan as written is right if and only if
  a block is free or that word is zero.
- `file_system/sfs_api.c:672` does not check the allocation of the indirect block. The model
  keeps this. `FileSystem.FileSystem.FWrite` is correct in every state but the one named by
  `Volume.Strands`: the write is the first to pass twelve blocks and its data takes the last free
  blocks. Then the call reports success, leaves a file of more than 12288 bytes without an indirect
  block, so that the invariant is lost, and writes the numbers of the file's later blocks over
  block 0. `AsWritten.StrandingReachable` is a session that ends in such a state.
- A read or write of zero bytes looks up the block under the cursor like any other (lines 537-541,
  690-693). When the cursor is on a block boundary and the file ends at or before it, that list
  entry was never set. Such a call is excluded, but only if it gets that far: a read that is
  refused, a write to a closed file, beyond the size limit or on a full disk is covered
  (`Volume.ReadDefined`, `Volume.WriteDefined`).
- A name takes the ten bytes at the token: the token, its terminator and whatever follows in the
  command buffer. The two bytes of padding behind `name[10]` are zero in new shared memory, so
  `strcmp` with the sentinel is equality of ten bytes.

## Model

| member | source | states |
|---|---|---|
| Bytes.DecodeEncode | file_system/sfs_api.c:652-655 | an integer stored in a block and read back is itself |
| Bytes.AppendEntries | file_system/sfs_api.c:649-656 | appending integers to an indirect block at entry k keeps the first k entries; reading back yields old and new in order |
| Bytes.PatchMore | file_system/disk_emu.c:116-128 | a copy that continues where the last one ended is one longer copy |
| Disk.Disk.constructor | file_system/disk_emu.c:29-63 | a new disk is 1024 zero blocks |
| Disk.Disk.ReadBlocks | file_system/disk_emu.c:96-138 | copies exactly the requested blocks into the buffer, or fails beyond the last block and changes nothing |
| Disk.Disk.WriteBlocks | file_system/disk_emu.c:143-180 | stores the buffer in exactly the requested blocks, or fails beyond the last block and changes nothing |
| Disk.ImageStore | file_system/disk_emu.c:158-172 | storing whole blocks is one splice of the disk file at 1024 times the start block |
| FreeMap.UseBit | file_system/sfs_api.c:19-20 | clears one bit and keeps the other seven |
| FreeMap.FreeBit | file_system/sfs_api.c:16-17 | sets one bit and keeps the other seven |
| FreeMap.Ffs | file_system/sfs_api.c:67 | the lowest set bit, counted from 1, or 0 exactly for a zero word |
| FreeMap.UseBitInSet | file_system/sfs_api.c:40-46 | clearing the bit of a block takes exactly that block out of the free set |
| FreeMap.FreeBitInSet | file_system/sfs_api.c:76-86 | setting the bit of a block puts exactly that block into the free set |
| FreeMap.ZeroWordUsed | file_system/sfs_api.c:52-57 | a zero word means that its eight blocks are all used |
| FreeMap.LowestBit | file_system/sfs_api.c:67-73 | the lowest bit of the first nonzero word is the least free block |
| FreeMap.FreeMap.constructor | file_system/sfs_api.c:29-30 | at first every block is free |
| FreeMap.FreeMap.ForceSetIndex | file_system/sfs_api.c:40-46 | removes exactly the given block |
| FreeMap.FreeMap.GetIndex | file_system/sfs_api.c:47-74 | removes and returns the least free block, or returns 0 when none is free |
| FreeMap.FreeMap.RmIndex | file_system/sfs_api.c:76-86 | adds exactly the given block |
| Chunks.PatchBlock | file_system/sfs_api.c:93-106 | patching a part of one listed block is a splice of the concatenation at that block's place, if the blocks are distinct |
| Chunks.SpliceChunk | file_system/sfs_api.c:128-147 | a further chunk behind the previous ones extends the one splice and changes no unlisted block |
| Chunks.WritePartblock | file_system/sfs_api.c:93-106 | read-modify-write changes only the given bytes of one block |
| Chunks.WritePart | file_system/sfs_api.c:128-147 | a partial chunk extends the splice made so far |
| Chunks.WriteWhole | file_system/sfs_api.c:133-141 | a full block extends the splice made so far |
| Chunks.WriteHelper | file_system/sfs_api.c:109-149 | partial, full and partial chunks together are one splice of the concatenated blocks; other blocks stay; all bytes are counted |
| Chunks.RangeChunk | file_system/sfs_api.c:448-472 | a further piece of the block in which the range ends extends the range read |
| Chunks.ReadPartblock | file_system/sfs_api.c:422-435 | copies the given part of one block |
| Chunks.ReadHelper | file_system/sfs_api.c:438-474 | fills the buffer with exactly the slice of the concatenated blocks |
| Layout.ContentsByte | file_system/sfs_api.c:501-541 | byte k of a file is byte k % 1024 of direct block k / 1024 below 12288, and of the block in entry k / 1024 - 12 of the indirect block from there on |
| Layout.InodeFrame | file_system/sfs_api.c:501-535 | a file's layout, blocks and contents depend on the blocks it holds only |
| Layout.OwnedCount | file_system/sfs_api.c:574-612 | a file holds as many distinct blocks as its size asks for, with one more past twelve |
| Layout.LinkedHeld | file_system/sfs_api.c:635-687 | after growth the blocks held are still distinct data blocks: the old ones and those taken |
| Layout.LinkedFlat | file_system/sfs_api.c:635-687 | a grown file reads as the old bytes followed by zeros |
| Layout.PaddedOverwrite | file_system/sfs_api.c:690-700 | on zero-padded blocks a splice is an overwrite of the file's bytes with a zero-filled gap, and the padding stays zero |
| Layout.ListKept | file_system/sfs_api.c:690-693 | writing through a file's list never touches its indirect block, so the list stays |
| Layout.LinkedWrite | file_system/sfs_api.c:635-700 | a write to a grown file overwrites its contents, keeps its layout right, and changes no block outside it |
| Layout.ReservedKept | file_system/sfs_api.c:186-246 | blocks 0 to 34 belong to no file, so a write leaves them alone |
| Store.OwnersDisjoint | file_system/sfs_api.c:635-687 | no block belongs to two files, no free block to any, and all lie in 35..1023 |
| Store.PointersAreDistinct | file_system/sfs_api.c:635-687 | in a valid state no block number occurs twice among all direct pointers, indirect pointers and live entries; each is in 35..1023 and marked used |
| Store.SizeAndPointersAgree | file_system/sfs_api.c:574-612 | in a valid state the set direct pointers are the prefix that the size asks for, the indirect pointer is set if and only if the size exceeds 12288, and bytes past the size are zero |
| Store.OwnershipGrows | file_system/sfs_api.c:635-647 | a file that takes free blocks keeps every data block in exactly one place |
| Store.Conservation | file_system/sfs_api.c:635-647 | free, lost and held blocks add up to the 989 data blocks |
| Store.AbandonInv | file_system/sfs_api.c:637-642 | blocks taken by a write that then fails are lost, and nothing else changes |
| Store.GrownInv | file_system/sfs_api.c:635-700 | a write to one file keeps the whole invariant and every other file's contents |
| Store.VolumeWellFormed | file_system/sfs_api.c:36-38 | the invariants of disk, tables and bitmap give those of the volume, with block conservation |
| Store.FormatInv | file_system/sfs_api.c:186-246 | what `mksfs(1)` leaves satisfies the invariant and is the formatted volume |
| Refinement.WriteGrows | file_system/sfs_api.c:635-702 | allocation, linking and writing together let one file grow by exactly the blocks taken |
| Refinement.WriteRefines | file_system/sfs_api.c:549-711 | a write that finds its blocks is the flat write |
| Refinement.FullRefines | file_system/sfs_api.c:637-642 | a write on a full disk changes no file, size or cursor and leaves the free set empty |
| Refinement.SeekRefines | file_system/sfs_api.c:712-717 | a seek moves one cursor |
| Refinement.CloseRefines | file_system/sfs_api.c:403-419 | a close changes one open flag and no contents |
| Refinement.ReopenRefines | file_system/sfs_api.c:368-381 | opening an existing name gives its slot with the cursor at the end of the file |
| Refinement.CreateRefines | file_system/sfs_api.c:383-397 | a new name goes to the first unused slot, and the directory stays a prefix of distinct names |
| Refinement.NoSlotRefines | file_system/sfs_api.c:385-400 | with all slots used a new name is refused |
| FileSystem.LoadBlockNums | file_system/sfs_api.c:574-612 | rebuilds exactly the file's block list, with its length and both fill levels |
| FileSystem.TakeBlocks | file_system/sfs_api.c:632-647 | succeeds if and only if enough blocks are free; takes distinct ones and lists them behind the file's own; a failure empties the map |
| FileSystem.DirectLinked | file_system/sfs_api.c:661-668 | direct pointers only: the list is the old one with the new blocks behind |
| FileSystem.AppendLinked | file_system/sfs_api.c:649-656 | append to the indirect block: the list is the old one with the new blocks behind |
| FileSystem.CrossLinked | file_system/sfs_api.c:669-686 | fill the direct pointers and start an indirect block: the list is the old one with the new blocks behind, whatever the unset memory held |
| FileSystem.AppendIndirect | file_system/sfs_api.c:652-656 | read-modify-write of the indirect block from the given entry on |
| FileSystem.StartIndirect | file_system/sfs_api.c:674-684 | the new indirect block starts with the remaining numbers |
| FileSystem.WriteCase | file_system/sfs_api.c:553-647 | the size check bounds the blocks by 268; the three outcomes of a write in terms of block counts |
| FileSystem.WriteDone | file_system/sfs_api.c:690-702 | a completed write keeps the invariant, leaves blocks 0 to 34 alone and is the flat write |
| FileSystem.WriteOutcome | file_system/sfs_api.c:565-710 | whatever a write did to blocks, inodes, map and cursors, on full disk or not, is the flat write |
| FileSystem.StrandedOutcome | file_system/sfs_api.c:669-686 | a stranding write leaves a file over twelve blocks without indirect block and the numbers of its later blocks, free until then, in block 0; blocks 1 to 34 stay |
| FileSystem.ReadRefines | file_system/sfs_api.c:489-545 | a read in range is the flat read: only its cursor moves |
| FileSystem.CheckName | file_system/sfs_api.c:333-365 | the loops decide `LegalName`, which `Answers.DottedName` states in plain terms |
| FileSystem.FileSystem.constructor | file_system/sfs_api.c:153-249 | program start and `mksfs(1)` give the formatted volume |
| FileSystem.FileSystem.LinkDirect | file_system/sfs_api.c:664-668 | the free direct slots get the stored numbers in order |
| FileSystem.FileSystem.LinkBlocks | file_system/sfs_api.c:649-687 | in each of the three cases the new blocks are linked behind the old ones |
| FileSystem.FileSystem.CrossBlocks | file_system/sfs_api.c:669-686 | the third case; without a block for the indirect one its pointer becomes 0 and the remaining numbers go to block 0 |
| FileSystem.FileSystem.GrowFile | file_system/sfs_api.c:632-687 | takes and links the blocks, or fails and changes nothing but the free map |
| FileSystem.FileSystem.ExtendFile | file_system/sfs_api.c:619-688 | adds exactly the blocks that rounding up the end of the write asks for |
| FileSystem.FileSystem.Settle | file_system/sfs_api.c:695-702 | the size becomes the maximum of the old size and the end; the cursor moves to the end |
| FileSystem.FileSystem.PrepareBlocks | file_system/sfs_api.c:565-688 | finds the file's blocks and extends them, or empties the free map and fails |
| FileSystem.FileSystem.FillBlocks | file_system/sfs_api.c:690-702 | splices the data into the listed blocks, then sets size and cursor |
| FileSystem.FileSystem.WriteData | file_system/sfs_api.c:565-710 | behind the checks: extends the file, splices the data into its blocks, sets size and cursor |
| FileSystem.FileSystem.WriteAccepted | file_system/sfs_api.c:565-710 | a write that passed the checks is the flat write, except in the stranding state |
| FileSystem.FileSystem.FWrite | file_system/sfs_api.c:549-711 | every write is the flat write, keeps the invariant and leaves blocks 0 to 34 alone, if and only if it does not strand the file; what a stranding write leaves; a refused write answers -1 and leaves inodes, cursors, disk and free map as they were, one on a full disk all but the free map |
| FileSystem.FileSystem.ReadData | file_system/sfs_api.c:500-541 | collects exactly the requested bytes of the file's contents |
| FileSystem.FileSystem.ReadAccepted | file_system/sfs_api.c:500-545 | a read that passed the checks is the flat read and moves one cursor |
| FileSystem.FileSystem.FRead | file_system/sfs_api.c:477-548 | succeeds if and only if the file is open and reaches past the range; returns exactly those bytes; changes one cursor only; a refused read changes nothing |
| FileSystem.FileSystem.FSeek | file_system/sfs_api.c:712-717 | is the flat seek: sets that cursor and no other |
| FileSystem.FileSystem.FClose | file_system/sfs_api.c:403-419 | is the flat close: sets the mode of an open file to 1; on a closed file answers -1 and changes nothing |
| FileSystem.FileSystem.FindEntry | file_system/sfs_api.c:368-386 | the first directory entry with a name |
| FileSystem.FileSystem.Reopen | file_system/sfs_api.c:369-377 | is the flat open of an existing name |
| FileSystem.FileSystem.Create | file_system/sfs_api.c:385-396 | is the flat open of a new name |
| FileSystem.FileSystem.FOpen | file_system/sfs_api.c:332-402 | is the flat open, with all its refusals; a refusal changes nothing |
| Volume.RunStep | file_system/sfs_api.c:332-717 | a run is taken call by call |
| Session.Call | file_system/sfs_api.c:332-717 | every call keeps the invariant and answers what the flat files answer |
| Session.Run | file_system/sfs_api.c:153-717 | from `mksfs(1)` on, all replies of any session are those of the flat files |
| Volume.WriteTakes | file_system/sfs_api.c:620-647 | a write takes exactly the missing data blocks, and one more when it first crosses twelve |
| Volume.ApplyWellFormed | file_system/sfs_api.c:332-717 | every call keeps directory order, distinct names, the size bound and block conservation |
| Volume.RunWellFormed | file_system/sfs_api.c:332-717 | the same over whole runs |
| Volume.RunKeepsContents | file_system/sfs_api.c:549-711 | a file that nobody writes keeps its contents over any run |
| Volume.WrittenContents | file_system/sfs_api.c:549-711 | a successful seek and write turns the contents into their overwrite at that position |
| Volume.ReadBack | file_system/sfs_api.c:477-717 | after a write and any calls that do not write the file, any range is read from the bytes that the write left |
| Volume.RoundTrip | file_system/sfs_api.c:477-717 | what was written at a position is read back there after any calls that do not write the file |
| Volume.GapReadsZero | file_system/sfs_api.c:620-647 | a gap left by writing past the end reads as zeros ever after |
| Volume.ReplyAt | file_system/sfs_api.c:332-717 | what each call of a session replies |
| Volume.LaterRead | file_system/sfs_api.c:477-717 | in the replies of any session: a read after a write of the same file, with no other write of it in between, replies with the bytes that the write left, and fails just when the file is closed or too short |
| Volume.SessionRoundTrip | file_system/sfs_api.c:477-717 | in the replies of any session: what was written comes back |
| Volume.OpenIsStable | file_system/sfs_api.c:368-397 | a name once opened gives the same id for ever, with the cursor at the current size |
| Volume.OpenIsInjective | file_system/sfs_api.c:368-397 | different names give different ids |
| Answers.FormattedIs | file_system/sfs_api.c:186-246 | after `mksfs(1)` there are a hundred closed, empty, nameless files and 989 free blocks |
| Answers.WriteAccepts | file_system/sfs_api.c:553-642 | a write succeeds if and only if the file is open, the range ends at 274432 at most, and the missing blocks are free |
| Answers.WriteRefused | file_system/sfs_api.c:553-642 | any other write answers -1 and changes no contents, size or cursor; refused by the two checks it changes nothing at all, refused for want of blocks it uses up the free ones |
| Answers.WriteSucceeds | file_system/sfs_api.c:690-710 | byte by byte what a successful write leaves, its cursor, and that other files stay |
| Answers.WriteBlocks | file_system/sfs_api.c:620-687 | a successful write takes the missing blocks, and one more when it is the first to pass 12288 bytes |
| Answers.ReadAnswers | file_system/sfs_api.c:483-545 | a read answers the bytes at the cursor if and only if the file is open and long enough; otherwise nothing changes |
| Answers.SeekMoves | file_system/sfs_api.c:712-717 | a seek changes that one cursor |
| Answers.CloseAnswers | file_system/sfs_api.c:407-415 | closing answers 0 for an open file; for a closed one it answers -1 and changes nothing |
| Answers.DottedName | file_system/sfs_api.c:345-365 | base, period and extension without a period is legal if and only if the extension has at most three characters and the name at most twenty |
| Answers.SplitName | file_system/sfs_api.c:345-350 | every name with a period is of that form |
| Answers.OpenAccepts | file_system/sfs_api.c:333-397 | such a name opens whenever it is in use or a slot is unused |
| Answers.OpenRefusesLong | file_system/sfs_api.c:333-365 | with a longer extension or more than twenty characters, open answers -1 and changes nothing |
| Answers.OpenRefusesPlain | file_system/sfs_api.c:351-354 | without a period, open answers -1 and changes nothing |
| Answers.OpenRefusesFull | file_system/sfs_api.c:385-400 | a new name is refused when no slot is unused |
| Answers.OpenAnswers | file_system/sfs_api.c:368-397 | what a successful open leaves: the file of that name with the cursor at its end, or an empty one in the first unused slot |
| Answers.ReadDefinedExact | file_system/sfs_api.c:537-541 | the reads excluded are those that look up a block that the file has not |
| Answers.WriteDefinedExact | file_system/sfs_api.c:690-693 | the writes excluded are those that look up a block that the file has not even after its extension |
| AsWritten.ThroughSpliced | file_system/sfs_api.c:109-149 | through a list of distinct blocks the chunk loop is one splice |
| AsWritten.ShortCopyHarmless | file_system/sfs_api.c:608 | a write that begins behind the old blocks or stays within the first quarter of the indirect entries changes the disk as it should, whatever the unset memory held |
| AsWritten.ShortCopyHarms | file_system/sfs_api.c:608 | for every other write there are memory contents and data for which a byte is not written |
| AsWritten.ShortCopyExact | file_system/sfs_api.c:608 | with the short copy the file has the right contents after a write, for all memory contents and data, if and only if the write is of the first kind |
| AsWritten.ShortCopyAppend | file_system/sfs_api.c:608 | writing one byte at position 12289 of a file of 12289 bytes is of the other kind: for some memory and byte the file's contents are wrong |
| AsWritten.AppendReachable | file_system/sfs_api.c:608 | a session that leaves such a file with the cursor at its end, and in which that write is the next call |
| AsWritten.ScanPastExact | file_system/sfs_api.c:52-57 | the scan as written finds the least free block, or 0 if there is none, exactly while a block is free or the word behind the map is zero |
| AsWritten.ScanPastFull | file_system/sfs_api.c:52-57 | on a full map with 128 behind it the scan as written answers block 1031 |
| AsWritten.StrandingReachable | file_system/sfs_api.c:672 | a session of nine calls after which a write strands its file |
| Tables.Shown | Reservation system/main.c:84 | what `%s` prints of a name |
| Tables.CopiedNameIsTaken | Reservation system/main.c:98-107 | the ten bytes copied from a token never equal the sentinel |
| Tables.CopiedNameIsShown | Reservation system/main.c:84 | `status` shows the first ten characters of the name given |
| Tables.Dispatch | Reservation system/main.c:192-219 | no command that a line can give writes the sentinel as a name |
| Tables.DispatchIs | Reservation system/main.c:192-219 | the command for each first character, with the second token's first ten characters as name, the third's first character as section, and a number if and only if there is a fourth |
| Tables.FirstFree | Reservation system/main.c:149-157 | the least free table of a section, or none |
| Tables.Atomic | Reservation system/main.c:41-183 | the command's effect keeps the table numbers right, and `init` sets them |
| Tables.InitIs | Reservation system/main.c:54-62 | `init` numbers the rows 100-109 and 200-209 and marks all of them empty |
| Tables.StatusIs | Reservation system/main.c:78-80 | `status` prints number and name of all twenty rows and changes nothing |
| Tables.OthersDoNothing | Reservation system/main.c:216-219 | `exit` and unknown commands leave the tables alone |
| Tables.ReserveSomeIs | Reservation system/main.c:138-183 | the first empty row of the section's ten gets the name given, or none is empty and it says so; nothing else changes |
| Tables.ReserveSpecificIs | Reservation system/main.c:90-136 | the row with the number gets the name given if it is empty, else it cannot be reserved; a number outside the section's ten is invalid |
| Tables.ReservationTakesOneFreeTable | Reservation system/main.c:96-183 | a reservation that prints nothing stored its own name in one empty row of its section, the first or the one with its number, and changed nothing else |
| Tables.StatusAfterBooking | Reservation system/main.c:78-102 | a `status` right after a booking shows the first ten characters of the token in the row booked, and the other rows as before |
| Tables.ReserveSomeFails | Reservation system/main.c:149-162 | fails if and only if the section has no free table |
| Tables.ReserveSpecificBooks | Reservation system/main.c:98-110 | books if and only if the number belongs to a free table of the section |
| Tables.Restaurant.constructor | Reservation system/main.c:245-271 | after start-up all tables are free, whatever the memory held |
| Tables.Restaurant.InitTables | Reservation system/main.c:41-69 | numbers the rows 100-109 and 200-209 and marks them empty; takes A, B and gives back A, B |
| Tables.Restaurant.PrintTableInfo | Reservation system/main.c:71-88 | prints number and shown name of each of the twenty rows; takes A, B and gives back A, B |
| Tables.Restaurant.ScanForNumber | Reservation system/main.c:98-110 | the loop that goes on after a match stores the name given in the empty row with the number and prints nothing, or changes nothing and prints why |
| Tables.Restaurant.ReserveSpecificTable | Reservation system/main.c:90-136 | the reservation of a given table; takes and gives back its section's semaphore only |
| Tables.Restaurant.ScanForFree | Reservation system/main.c:149-162 | the loop that stops at the first free table stores the name given there and prints nothing, or changes nothing and says so |
| Tables.Restaurant.ReserveSomeTable | Reservation system/main.c:138-183 | the reservation of any table; takes and gives back its section's semaphore only |
| Tables.Restaurant.ProcessCmd | Reservation system/main.c:185-221 | every command is its atomic effect; only `exit` answers 0 |
| Tables.Restaurant.RunProcess | Reservation system/main.c:272-281 | the main loop runs the commands in order and ends after the first `exit`, or after all |
| Protocol.Step | Reservation system/main.c:41-183 | a step keeps every program counter fit for its command |
| Protocol.ClaimWrites | Reservation system/main.c:102-152 | the step that copies a name writes the name given to the row claimed, and nothing else |
| Protocol.OthersWriteNothing | Reservation system/main.c:41-183 | no other step outside the loop of `init` writes to the tables |
| Protocol.StepsFollowLocking | Reservation system/main.c:50-180 | the steps of a command do the same waits and posts, in the same order, as the command as written |
| Protocol.SyncIsHolding | Reservation system/main.c:50-180 | waits and posts are exactly where a process starts and stops to hold a semaphore |
| Protocol.StepExclusive | Reservation system/main.c:50-180 | each semaphore is free or has exactly one holder after every step |
| Protocol.Counting | Reservation system/main.c:257-258 | a semaphore's value and the number of its holders add up to 1 |
| Safety.WritesUnderLock | Reservation system/main.c:54-62 | a step writes only rows whose section's semaphore the process holds |
| Safety.ReadsUnderLock | Reservation system/main.c:96-183 | a step depends on no name outside the sections whose semaphores the process holds |
| Safety.HoldersDiffer | Reservation system/main.c:50-180 | two processes never hold the same semaphore |
| Safety.StartInv | Reservation system/main.c:245-271 | the invariant holds at the start, with any memory content |
| Safety.KnowledgeIsStable | Reservation system/main.c:96-183 | what a scan has found out stays true while other processes step |
| Safety.StepConsistent | Reservation system/main.c:41-183 | a process's own step keeps what it knows of the tables true |
| Safety.StepInv | Reservation system/main.c:41-183 | every step of any process keeps the invariant |
| Safety.RunInv | Reservation system/main.c:41-183 | the invariant holds in every reachable state |
| Safety.NoDeadlock | Reservation system/main.c:50-68 | in every reachable state with an unfinished process some process can step |
| Safety.StepWorks | Reservation system/main.c:41-183 | every step lowers the work that is left |
| Safety.RunsAreBounded | Reservation system/main.c:41-183 | no run is longer than the work at its start |
| Safety.RunsFinish | Reservation system/main.c:272-283 | every run can be continued until all processes have finished |
| Safety.StepFollows | Reservation system/main.c:272-281 | a step goes on in the process's own command list |
| Safety.ProgramOrder | Reservation system/main.c:271-281 | in every reachable state a process has completed, in order, the first of `init` and its commands; when all have finished, all of them or all up to the first `exit` |
| Safety.StepKeepsBookings | Reservation system/main.c:98-107 | outside `init` a taken table is left alone, and a changed one gets a name that is not the sentinel |
| Safety.RunKeepsBookings | Reservation system/main.c:98-107 | between two `init` commands a booked table never changes, in any interleaving |
| Safety.BookingsDiffer | Reservation system/main.c:149-157 | two reservations without an `init` between them never take the same table |
| Linearisation.LocalStutter | Reservation system/main.c:41-183 | a step at which no command takes effect changes nothing that can be seen |
| Linearisation.LocalCommit | Reservation system/main.c:41-183 | the step at which a command takes effect has the whole effect and prints the lines of the atomic command |
| Linearisation.StepStutters | Reservation system/main.c:41-183 | the former, among any other processes |
| Linearisation.StepRuns | Reservation system/main.c:41-183 | the latter, among any other processes |
| Linearisation.Linearises | Reservation system/main.c:41-183 | after any interleaving, finished or not, the state stands for that of a sequential run |
| Linearisation.FinishedIsSerial | Reservation system/main.c:41-183 | once all have finished, every process has run its program up to the first `exit`, and tables and all printed lines are those of the same programs run command by command in order of commitment |
| Linearisation.OrderKeepsTime | Reservation system/main.c:41-183 | at any time the order holds of each process exactly the commands that have ended and the current one if it has taken effect, and later only grows |
| Linearisation.RealTime | Reservation system/main.c:41-183 | a command that had ended at some time comes, in the order of any longer run, before every command that had not begun then |
| Linearisation.SerialLog | Reservation system/main.c:192-219 | every logged command printed what the atomic command prints at one point of the sequential run |
| Linearisation.StatusIsSnapshot | Reservation system/main.c:71-88 | each `status` prints number and shown name of all twenty rows as they were at one moment |
| Bookings.CommandCounts | Reservation system/main.c:54-62 | a booking takes one table from its own section, `init` frees all ten, nothing else changes the count |
| Bookings.SerialCounts | Reservation system/main.c:138-183 | free tables and bookings since the last `init` make ten, over sequential runs |
| Bookings.RunCounts | Reservation system/main.c:138-183 | the same in every reachable state of the interleaved system outside an `init` loop |

## Left out

- FileSystem.FileSystem.FWrite: what calls do after a write has stranded its file is not modelled.
- Session.Run: sessions contain no stranding write and no empty access that indexes an unset list entry, where the source's behaviour is undefined.
- AsWritten.ShortCopyExact: a negative number from unset memory, which the emulator's check lets through, is taken as refused; the failing cases do not rest on it.
- FileSystem.FileSystem.constructor: the source's table writes read past small buffers (`file_system/sfs_api.c:174`, `237`); the bytes of blocks 0 to 34 are arbitrary memory here, and nothing reads them.
- FileSystem.StartIndirect: the source writes 1024 bytes from a shorter array; what follows the numbers is arbitrary memory.
- FileSystem.CheckName: names are finite sequences; the source may read past the terminator of a short name.
- Disk.Disk.ReadBlocks: the 1024-fold repetition of one copy (`file_system/disk_emu.c:124-127`), retries and latency.
- Negative positions and lengths, and file ids outside 0..99, which the source does not check; integer widths, since all sizes stay below 2^31.
- `mksfs(0)`: inodes, directory and bitmap are written at format time only, so mounting again does not restore them.
- `sfs_remove` has no body; `sfs_getnextfilename` and `sfs_getfilesize` are plain table lookups.
- The semaphore `disk_access`: each call of the file system is atomic. The source's early returns all release it.
- `file_system/bitmap.c` (not linked), the FUSE wrappers, the test drivers, and the shell.
- Tables.Dispatch: the number of a reservation is given; `strtok`, `atoi`, long lines and end of input are not modelled, nor is `reserve` without a section, which dereferences a null pointer.
- Protocol.Step: copying ten bytes is one step, as is each loop iteration; `sleep`, `srand` and the order of lines on a shared terminal are left out, and a process's command list is finite.
- `Reservation system/clearout.c` and the setup of shared memory: the semaphores start at 1, as after a first start.
