# In-memory block file system (filesystem.c), modelled in Dafny

`filesystem.c` keeps a whole disk image in memory. The image is `NUM_BLOCKS` blocks of
`BLOCK_SIZE` bytes. It carries a directory of 256 entries, 256 inodes, and a free flag per
block and per inode. A small shell drives it with these commands:

- `createfs`, `close`, `df`
- `insert`, `delete`, `undel`, `attrib`, `list`
- `read`, `encrypt` and `decrypt`
- `retrieve`, with or without a new name

The C program lays the directory, the inodes and both free maps over `data` (filesystem.c:132-135):

- the directory fills blocks 0-17;
- the free-inode map is in block 19;
- the inode table runs from block 20 to 1048;
- the free-block map covers blocks 1000-1063.

The last two therefore overlap the data blocks, which start at 1001. They also overlap each
other in blocks 1000-1048: the free map starts at slot 833 of inode 243 and holds inodes
244-255 whole. The flag loop runs after the inode reset, so it writes 1 over those inodes.
Inode 243's attribute becomes 1 (hidden), and no slot of inodes 244-255 holds -1. The model keeps the
tables as separate typed arrays, apart from the data, as the rest of the code evidently
intends. `FileSystem.FileSystem` is a class that
holds one array per C table:

- `data` holds the blocks, each a `seq<bv8>` of `BLOCK_SIZE` bytes;
- `freeBlocks` and `freeInodes` are `bool` arrays;
- `directory[i]` is a `DirectoryEntry(filename, inUse, inode)`;
- `inodes[n]` is an `Inode(blocks, inUse, attribute, fileSize, hr, min, sec)`, with
  `BLOCKS_PER_FILE` block slots, the used ones first and the rest `-1`.

The constants are the C ones: 1024-byte blocks, 65536 blocks, 1024 slots per inode, 256 files,
data from block 1001 on, and at most 1048576 bytes per file.

Each command is a method that changes these arrays the way the C function does, with its loops
kept as loops. Every contract ties the new state or the result to a specification function of
the old state:

- a file's content, `Content`, is the first `fileSize` bytes of its blocks in list order;
- `Claim` and `Release` are the free flags after blocks are taken or given back;
- `SetLive` sets the in-use flags of an entry and of its inode;
- `Attributed`, `Displayed` and `Rows` are the effects of `attrib` and `list`;
- `XorFile`, `EncryptUpTo` and `ReadUpTo` are the effects of `encrypt`, `decrypt` and `read`.

Two invariants are stated over the whole state. `Valid` says the metadata is well formed:
every inode lists `ceil(fileSize / BLOCK_SIZE)` distinct data blocks, a named entry owns an
allocated inode that no other named entry owns, and a free inode is pristine. `Consistent`
says the blocks of every live file are marked taken and no two live files share a block.
Every command but `close` keeps `Valid`. `close` leaves the zeroed image, which is not valid
until the next `createfs`. Every command but `close` keeps `Consistent`, with two more
exceptions, as in the C code: `delete` of an entry that is already deleted, and `undel`. Both
break it once a later `insert` has reused the file's blocks.

Where the C code departs from what the surrounding code evidently intends, the model follows
the intent. Each such place carries a comment that cites the line. `## Findings` pairs each
place in the list below with a member that models the code as written. The other departures
are listed under `## Left out`.

- The inode reset loops write `BLOCKS_PER_FILE` slots, not `NUM_BLOCKS` (filesystem.c:152-154, 207-209).
- `findFreeBlock` scans from `FIRST_DATA_BLOCK` and returns the block whose flag it clears.
- `insert` claims one block per chunk.
- `Delete` and `Undelete` stop at the first `-1` slot.
- `attrib` and the read-only guard before `delete` use the entry's own inode.
- `list` reduces the hour of the entry's own inode.
- `insert` stores the name whole. The `strncpy` at filesystem.c:413 copies no terminator over the old name, and the image name at lines 190 and 240 is copied the same way.
- The tables are kept apart from the data blocks (filesystem.c:132-135).
- `delete` of a name no entry holds reports that the file is not found and changes nothing (filesystem.c:474-482).

The scenarios module chains commands and states what they promise together:

- a file inserted and then retrieved comes back byte for byte;
- delete followed by undel restores every table;
- insert followed by delete restores the free space;
- decrypt undoes encrypt;
- `attrib +r` blocks a later delete;
- `attrib +h` hides a file from a plain `list`.

## Model

| member | source | states |
|---|---|---|
| FsTypes.BlocksFor | filesystem.c:419-462 | the number of blocks a file of `size` bytes takes is ceil(size / BLOCK_SIZE): enough blocks to hold it, and one block fewer is too few |
| FsTypes.PristineBlocks | filesystem.c:152-154 | the slots of a reset inode: BLOCKS_PER_FILE slots, all -1 |
| FsTypes.Pristine | filesystem.c:150-157 | an inode as the reset loops leave it: every slot -1, not in use, attribute 0 and size 0 |
| Bitmap.FirstFree | filesystem.c:88-128 | the first-fit scan returns the lowest set flag at or after `from`, or -1 exactly when no flag from there on is set |
| Bitmap.CountFree | filesystem.c:170-182 | the count of set flags in [lo, hi) is at most hi - lo |
| Bitmap.CountFreeUpdate | filesystem.c:170-182 | setting one flag takes the old flag out of the count and puts the new one in, when the flag lies in the counted range, and otherwise leaves the count alone |
| Bitmap.CountFreePositive | filesystem.c:170-182 | the count is positive if and only if some flag in the range is set |
| Bitmap.CountFreeAll | filesystem.c:216-220 | when every flag of the range is set, the count is the width of the range |
| Bitmap.CountFreeSame | filesystem.c:170-182 | the count depends only on the flags inside the range |
| FileLayout.FirstUnused | filesystem.c:116-128 | `findFreeInodeBlock`'s scan: the first -1 slot at or after `from`, with no -1 slot before it, or the slot count when there is none |
| FileLayout.Listed | filesystem.c:484-492 | a file's blocks in order: the slots before the first -1, the slots `delete`, `undel`, `read`, `encrypt` and `retrieve` walk (the 0 sentinel of line 487 is a Findings row) |
| FileLayout.WellFormed | filesystem.c:403-462 | the shape every inode keeps: BLOCKS_PER_FILE slots, then a prefix of distinct data blocks followed only by -1, with ceil(fileSize / BLOCK_SIZE) blocks listed |
| FileLayout.Span | filesystem.c:562-598 | the bytes at file offsets from .. to-1, where offset p is byte p % BLOCK_SIZE of the file's block p / BLOCK_SIZE |
| FileLayout.Content | filesystem.c:671-697 | a file's content: the bytes at offsets 0 .. fileSize-1 of its listed blocks |
| FileLayout.RangeOf | filesystem.c:562-598 | what `readFile` emits for one file: offsets start .. start+num-1 when they lie in the listed blocks, and nothing otherwise |
| FileLayout.BlockExtent | filesystem.c:562-598 | block j of a file of `size` bytes covers bytes j*BLOCK_SIZE up to min((j+1)*BLOCK_SIZE, size), so the last block is cut to size % BLOCK_SIZE bytes |
| FileLayout.WellFormedReadable | filesystem.c:671-697 | a well-formed inode lists ceil(fileSize / BLOCK_SIZE) data blocks, and its content can be read from any full-sized disk |
| FileLayout.SpanIsConcat | filesystem.c:677-697 | reading the listed blocks byte by byte gives their concatenation in list order |
| FileLayout.ContentIsBlockPrefix | filesystem.c:671-697 | a file's content is exactly fileSize bytes long, and it is the prefix of the concatenation of its blocks in list order |
| FileLayout.SpanSnoc | filesystem.c:562-598 | extending a read range by one byte appends the byte at that file offset |
| FileLayout.SpanExtendBlock | filesystem.c:435-440 | the bytes up to n bytes into block j are the bytes of the earlier blocks followed by the first n bytes of block j |
| FileLayout.SpanFrame | filesystem.c:419-462 | a read of the first blocks is unaffected by appending blocks to the list or by writing blocks outside it |
| FileLayout.SpanAppend | filesystem.c:562-598 | two adjacent byte ranges read in turn equal the joined range |
| FileLayout.ReadWithinFile | filesystem.c:556-601 | a range read inside the file gives the bytes start .. start+num-1 of the file's content |
| FileLayout.XorFile | filesystem.c:603-653 | encryption XORs a byte of the disk with the cipher exactly when the byte lies inside the file, and keeps every block's length |
| FileLayout.XorIf | filesystem.c:618-646 | one byte, XORed with the cipher when the loop reaches it and left alone otherwise |
| FileLayout.XorBelow | filesystem.c:609-650 | the disk once the loop has XORed the file offsets below p, every other byte unchanged |
| FileLayout.XorBelowZero | filesystem.c:609-650 | before the first byte of the loop nothing is changed |
| FileLayout.CoveredStep | filesystem.c:609-650 | one more loop step covers exactly one more byte, byte k of block j |
| FileLayout.CoveredFresh | filesystem.c:609-650 | because a file's blocks are distinct, the byte a step reaches has not been reached before |
| FileLayout.XorBelowStepAt | filesystem.c:609-650 | one loop step changes only byte k of the file's block j, in one block of the disk |
| FileLayout.XorBelowStep | filesystem.c:609-650 | one loop step XORs byte k of block j with the cipher and changes nothing else |
| FileLayout.XorIfTwice | filesystem.c:618-646 | XORing one byte twice with the same cipher restores it |
| FileLayout.XorIfCommute | filesystem.c:618-646 | XORs of one byte with two ciphers can be applied in either order |
| FileLayout.XorFileInvolution | filesystem.c:976-1003 | decrypting with the cipher used to encrypt restores the whole disk |
| FileLayout.XorFileCommute | filesystem.c:603-653 | encrypting two files gives the same disk in either order |
| FileLayout.XorFileContent | filesystem.c:603-653 | after encryption the file's content is its old content with every byte XORed with the cipher |
| FileLayout.XorFileOutside | filesystem.c:603-653 | encryption leaves every block the file does not list unchanged |
| InsertCopy.Slots | filesystem.c:438-440 | the slots of an inode that holds the blocks of L: L first, then -1 up to BLOCKS_PER_FILE |
| InsertCopy.SlotsEmpty | filesystem.c:152-154 | an inode that holds no block has the slots of a reset inode |
| InsertCopy.SlotsStep | filesystem.c:438-440 | with blocks L recorded, the free-slot scan finds slot \|L\|; marking it 0 and then storing block b gives the slots of L + [b] |
| InsertCopy.FirstUnusedIs | filesystem.c:116-128 | the first -1 slot is n when every slot before n is used and slot n is not |
| InsertCopy.SlotsListed | filesystem.c:484-492 | the blocks an inode with slots Slots(L) lists are exactly L |
| InsertCopy.Claim | filesystem.c:427-433 | after blocks L are claimed, a flag is set exactly when it was set before and its block is not in L |
| InsertCopy.FirstFit | filesystem.c:427-433 | the blocks successive calls of the corrected `findFreeBlock` hand out: block j is the lowest free data block once the blocks before it are claimed |
| InsertCopy.FirstFitBlocks | filesystem.c:427-433 | a first-fit block list holds distinct data blocks that were free, none listed twice |
| InsertCopy.ClaimStep | filesystem.c:427-433 | claiming the lowest block still free extends a first-fit list by that block and lowers the free count by one |
| InsertCopy.ClaimCount | filesystem.c:347-351 | claiming a first-fit list of blocks lowers the free count by its length |
| InsertCopy.FreshFirstFit | filesystem.c:419-440 | on an image with every block free, chunk j of a file goes to block FIRST_DATA_BLOCK + j |
| InsertCopy.ClaimAvailable | filesystem.c:347-433 | when the file fits in `df` space, a free block is left for every chunk the copy loop starts |
| InsertCopy.HoldsStep | filesystem.c:435-440 | writing chunk \|L\| into a fresh block b keeps the earlier chunks and adds that chunk's bytes |
| InsertCopy.HoldsSpan | filesystem.c:419-462 | when the first w source bytes are held in L's blocks, reading L's first w bytes gives them back |
| InsertCopy.ChunkStep | filesystem.c:435-440 | writing a chunk into a block not yet listed extends what L's blocks read back by that chunk |
| InsertCopy.Copied | filesystem.c:419-462 | the state of the copy loop: the source bytes copied so far are in the blocks of L, and every other block is as before |
| InsertCopy.InsertedFacts | filesystem.c:403-462 | an inode filled with ceil(size / BLOCK_SIZE) first-fit blocks is well formed, lists those blocks, and each was free |
| InsertCopy.ChunksFit | filesystem.c:340-344 | a file admitted under MAX_FILE_SIZE never needs more than BLOCKS_PER_FILE slots |
| Tables.Release | filesystem.c:484-492 | after blocks L are released, a flag is set exactly when it was set before or its block is in L |
| Tables.TablesValid | filesystem.c:403-413 | the metadata invariant: inodes are well formed and free ones reset; an entry in use has a name; a named entry owns a taken inode whose in-use flag equals its own; no two named entries share an inode |
| Tables.BlocksConsistent | filesystem.c:427-440 | the block invariant: every block of a file in use is marked taken, and no block belongs to two files in use |
| Tables.ReleaseClaim | filesystem.c:469-526 | releasing taken blocks and then claiming them restores the flags, and claiming free blocks and then releasing them restores them too |
| Tables.ReleaseCount | filesystem.c:484-492 | releasing a list of distinct taken data blocks raises the free count by its length |
| Tables.InsertKeepsValid | filesystem.c:403-413 | recording a new file in a free entry and a free inode keeps the metadata well formed |
| Tables.InsertKeepsConsistent | filesystem.c:403-462 | when the new file's blocks were free and are then claimed, live files still have taken, pairwise disjoint blocks |
| Tables.SetLive | filesystem.c:479-482 | delete and undel change the in-use flags of the entry and of its own inode and nothing else |
| Tables.SetLiveRoundTrip | filesystem.c:469-526 | clearing and then setting back the in-use flags of a live entry restores both tables |
| Tables.SetLiveKeepsValid | filesystem.c:479-514 | flipping the in-use flags of a named entry keeps the metadata well formed |
| Tables.DeleteKeepsConsistent | filesystem.c:469-493 | deleting a live file and releasing its blocks keeps the block invariant, and frees exactly its blocks |
| Tables.UndeleteKeepsConsistent | filesystem.c:496-526 | undeleting a file whose blocks are all still free, and claiming them, keeps the block invariant |
| Tables.SameLayoutKeeps | filesystem.c:528-554 | changing only inode fields other than the block slots, the size and the in-use flag keeps both invariants |
| Tables.AttributedKeeps | filesystem.c:528-554 | `attrib` keeps both invariants |
| Tables.DisplayedKeeps | filesystem.c:277-284 | the hour rewrite of `list` keeps both invariants |
| DirectoryView.FreeEntries | filesystem.c:354-370 | the free-entry map marks an entry free exactly when it is not in use |
| DirectoryView.FirstNamed | filesystem.c:474-477 | the first entry with the name at or after `from`, or -1 exactly when there is none |
| DirectoryView.LastNamed | filesystem.c:721-747 | the last entry with the name below n, or -1 exactly when there is none |
| DirectoryView.Matches | filesystem.c:558-560 | the entry test of `read`, `encrypt` and `retrieve`: the entry has the name, in use or not, and points at an inode of the table |
| DirectoryView.NamedOnlyAt | filesystem.c:354-413 | after a name new to the directory is recorded in entry e, both lookups find e |
| DirectoryView.EncryptUpTo | filesystem.c:603-653 | `encryptFile` after entries 0 .. n-1: the file of each matching entry is XORed in turn |
| DirectoryView.EncryptUpToCommute | filesystem.c:603-653 | encrypting every matching entry commutes with encrypting any other file |
| DirectoryView.EncryptTwice | filesystem.c:976-1003 | `decrypt` with the cipher of an earlier `encrypt` of the same name restores the whole disk |
| DirectoryView.EncryptUpToSingle | filesystem.c:603-653 | when one entry holds the name, encryption XORs exactly that file's bytes |
| DirectoryView.EncryptUpToNone | filesystem.c:603-653 | when no entry holds the name, the disk is unchanged |
| DirectoryView.ReadUpTo | filesystem.c:556-601 | `readFile` after entries 0 .. n-1: the range of each matching entry's file, in entry order |
| DirectoryView.ReadUpToSingle | filesystem.c:556-601 | when one entry holds the name, `read` emits that file's range and nothing else |
| DirectoryView.ReadNamedSlice | filesystem.c:556-601 | a read inside the only file with the name gives bytes start .. start+num-1 of its content |
| DirectoryView.ReadUpToNone | filesystem.c:556-601 | when no entry holds the name, `read` emits nothing |
| DirectoryView.Shown | filesystem.c:286-311 | `list` prints an entry in use when the flag is `-h` or `-a`, or when its file's attribute is not HIDDEN |
| DirectoryView.RowOf | filesystem.c:286-311 | the line printed for an entry: name, size and time, plus the attribute byte for `-a` |
| DirectoryView.Rows | filesystem.c:267-313 | the lines `list` prints for entries 0 .. n-1, in directory order |
| DirectoryView.ShownIndices | filesystem.c:286-311 | a listing holds each entry it shows once, in directory order, and every entry it should show |
| DirectoryView.ListingFilter | filesystem.c:286-311 | `list -h` and `list -a` show exactly the in-use entries; a plain `list` shows exactly the in-use entries whose attribute is not hidden |
| DirectoryView.AttribValue | filesystem.c:528-554 | `+r` writes 2, `+h` writes 1, `-r` and `-h` write 0, and no flag writes any other value |
| DirectoryView.Attributed | filesystem.c:528-554 | the inode table after `attrib` visits entries 0 .. n-1: the inode of each entry with the name gets the value, the entry's own inode standing for line 546's `inodes[i]` |
| DirectoryView.AttributedStep | filesystem.c:528-554 | one more entry of the loop sets the attribute of its own inode when it has the name, and otherwise changes nothing |
| DirectoryView.AttributedEffect | filesystem.c:528-554 | `attrib` changes only attributes; every inode owned by an entry with the name gets the value; only inodes owned by such an entry change |
| DirectoryView.HiddenNotShown | filesystem.c:305-311 | after `attrib +h` a file is absent from a plain `list`, and `list -h` still shows it when it is in use |
| DirectoryView.DisplayHour | filesystem.c:277-284 | the hour `list` stores back: 24 added when negative, then reduced modulo 12 when past 12, read from the entry's own inode (line 283 corrected) |
| DirectoryView.Displayed | filesystem.c:267-284 | the inode table after `list` visits entries 0 .. n-1: the inode of each entry in use holds its display hour |
| DirectoryView.DisplayHourClock | filesystem.c:277-284 | the stored hour keeps its value modulo 12, lands in 0..12 from a stamp of -24 or more, is stable under a second listing, and is untouched when already in 0..12 |
| DirectoryView.DisplayedStep | filesystem.c:267-284 | one more in-use entry rewrites only the hour of its own inode, which no earlier entry has touched |
| DirectoryView.DisplayedFinal | filesystem.c:267-284 | an inode's hour is final once its entry has been listed |
| DirectoryView.RowsAreShown | filesystem.c:262-318 | the printed rows are the shown entries, one row each, in directory order |
| FileSystem.FileSystem.constructor | filesystem.c:130-168 | `init`: every entry is empty, every inode pristine and free, every flag set, both invariants hold, and `df` reports the whole data area |
| FileSystem.FileSystem.ResetTables | filesystem.c:141-167 | the reset loops: every entry is empty with the given inode number, every inode has its slots cleared and is free, every block is free, and both invariants hold |
| FileSystem.FileSystem.ClearInode | filesystem.c:150-158 | one inode gets BLOCKS_PER_FILE slots of -1, in-use 0, attribute 0 and size 0; no other inode changes |
| FileSystem.ZeroBlock | filesystem.c:192 | a block of BLOCK_SIZE zero bytes, as the memset of `data` leaves it |
| FileSystem.ZeroInode | filesystem.c:257-259 | an inode with every byte zero, as `closefs` leaves it: not in use, size 0, every slot 0 |
| FileSystem.FileSystem.ResetIsValid | filesystem.c:141-167 | a directory of empty entries over pristine free inodes satisfies both invariants |
| FileSystem.FileSystem.ZeroImage | filesystem.c:257-259 | every block, table and flag is zeroed |
| FileSystem.FileSystem.CreateFs | filesystem.c:186-221 | `createfs` opens an image of zeroed blocks, with every entry empty, every inode and block free, and `df` equal to (NUM_BLOCKS - FIRST_DATA_BLOCK) * BLOCK_SIZE |
| FileSystem.FileSystem.CloseFs | filesystem.c:247-260 | `close` without an open image fails and changes nothing; otherwise it closes the image and zeroes the whole state |
| FileSystem.FileSystem.FindFreeBlock | filesystem.c:88-100 | returns the lowest free data block and clears exactly its flag, lowering `df` by one block; returns -1 and changes nothing when `df` is 0 |
| FileSystem.FileSystem.FindFreeInode | filesystem.c:102-114 | returns the lowest free inode and clears exactly its flag; returns -1 and changes nothing when none is free |
| FileSystem.FileSystem.FindFreeInodeBlock | filesystem.c:116-128 | returns the first -1 slot of the inode and marks exactly it 0; returns -1 and changes nothing when every slot is used |
| FileSystem.FileSystem.Df | filesystem.c:170-182 | `df` is BLOCK_SIZE times the number of free data blocks |
| FileSystem.FileSystem.FreeSpace | filesystem.c:170-182 | the bytes in free data blocks: BLOCK_SIZE times the set flags from FIRST_DATA_BLOCK up to NUM_BLOCKS, what `df` returns |
| FileSystem.FileSystem.FindFreeDirectoryEntry | filesystem.c:354-370 | the lowest entry not in use, or -1 when every entry is in use |
| FileSystem.FileSystem.InsertRefusal | filesystem.c:331-401 | the first check `insert` fails, in the source's order: no host file, more than MAX_FILE_SIZE bytes, more than `df`, no free entry, no free inode; none when all pass |
| FileSystem.FileSystem.Insert | filesystem.c:320-467 | a refused insert (missing, too large, bigger than `df`, no free entry, no free inode) reports why and changes nothing. A successful one records the name in the first free entry and fills the first free inode. That inode lists ceil(size/BLOCK_SIZE) first-fit blocks, now taken, with chunk j in block j. It stamps the hour minus 5, stores exactly the source bytes, and lowers `df` by the blocks taken. Both invariants are kept |
| FileSystem.FileSystem.Store | filesystem.c:403-462 | the writes of an admitted insert: entry, inode, flags and blocks as above, and the stored content is the source |
| FileSystem.FileSystem.CopyIn | filesystem.c:419-462 | the copy loop takes ceil(size/BLOCK_SIZE) first-fit blocks, records them in order in the inode, writes the source into them, and lowers `df` by that many blocks |
| FileSystem.FileSystem.CopyPass | filesystem.c:425-462 | one pass claims the next first-fit block, writes the next chunk into it and records it in the next slot |
| FileSystem.FileSystem.ClaimBlock | filesystem.c:427-433 | claims the lowest free data block, which is not yet in the list |
| FileSystem.FileSystem.WriteChunk | filesystem.c:435-436 | writes the chunk into the block, keeping the chunks already written |
| FileSystem.FileSystem.RecordBlock | filesystem.c:438-440 | the block goes into the first -1 slot, and no flag changes |
| FileSystem.FileSystem.FindNamed | filesystem.c:474-477 | the index of the first entry with the name, or -1 |
| FileSystem.FileSystem.Delete | filesystem.c:469-493 | an unknown name reports FileNotFound; a read-only file (main's guard, filesystem.c:884-918) is refused. Either way nothing changes. Otherwise the first entry with the name and its inode are marked not in use and exactly the file's blocks are freed, raising `df` by their size. Both invariants are kept |
| FileSystem.FileSystem.Unlink | filesystem.c:479-492 | clears the two in-use flags and releases exactly the listed blocks |
| FileSystem.FileSystem.ReleaseListed | filesystem.c:484-492 | sets the free flag of exactly the blocks the inode lists |
| FileSystem.FileSystem.Undelete | filesystem.c:496-526 | an unknown name reports FileNotFound and changes nothing; otherwise the first entry with the name and its inode are marked in use and exactly the file's blocks are claimed. The block invariant is kept when those blocks were still free |
| FileSystem.FileSystem.Relink | filesystem.c:510-524 | sets the two in-use flags and claims exactly the listed blocks |
| FileSystem.FileSystem.ClaimListed | filesystem.c:516-524 | clears the free flag of exactly the blocks the inode lists |
| FileSystem.FileSystem.Attrib | filesystem.c:528-554 | an unknown flag changes nothing; otherwise every inode owned by an entry with the name gets the flag's value and nothing else changes. Both invariants are kept |
| FileSystem.FileSystem.List | filesystem.c:262-318 | the rows are those of the shown entries in directory order, and the "no file" report is given exactly when no entry is in use. The hours are rewritten as `list` does, and both invariants are kept |
| FileSystem.FileSystem.ListEntries | filesystem.c:267-313 | the listing loop: hours rewritten entry by entry, rows of the shown entries, and whether any entry is in use |
| FileSystem.FileSystem.AdjustHour | filesystem.c:277-284 | only the hour of that inode changes, to its display value |
| FileSystem.FileSystem.EntryRow | filesystem.c:286-311 | one row for an in-use entry that the flag shows, none otherwise |
| FileSystem.FileSystem.ReadFile | filesystem.c:556-601 | emits the requested range of every entry with the name, in directory order; for one file that is bytes start .. start+num-1 of its content |
| FileSystem.FileSystem.ReadRange | filesystem.c:562-598 | emits the bytes at file offsets start .. start+num-1 of one inode |
| FileSystem.FileSystem.ReadBlock | filesystem.c:566-596 | emits bytes lo .. hi-1 of the file's block j |
| FileSystem.FileSystem.EncryptFile | filesystem.c:603-653 | XORs with the cipher the bytes of every entry with the name and no other byte; decrypt undoes it |
| FileSystem.FileSystem.XorInPlace | filesystem.c:609-650 | XORs exactly the bytes of the file, offsets 0 .. fileSize-1, and no other byte of the disk |
| FileSystem.FileSystem.XorBlock | filesystem.c:614-648 | the inner loop XORs bytes 0 .. hi-1 of the file's block j |
| FileSystem.FileSystem.RetrieveExt | filesystem.c:705-753 | nothing is written when no entry has the name; otherwise the new file gets the content of the last entry with the name |
| FileSystem.FileSystem.ReadEntry | filesystem.c:671-697 | the bytes written for an entry are its file's content |
| FileSystem.FileSystem.Retrieve | filesystem.c:655-703 | a file is written exactly when some entry has the name; it has that name and the content of the last such entry |
| FileSystem.FileSystem.ReadOut | filesystem.c:671-697 | emits full blocks in list order and then the last block cut to size: fileSize bytes in all |
| FileSystem.FileSystem.FileContent | filesystem.c:671-697 | the bytes of the file an entry names, which `retrieve` writes |
| Scenarios.InsertThenRetrieve | filesystem.c:655-703 | a file inserted under a new name and then retrieved is given back byte for byte |
| Scenarios.DeleteThenUndelete | filesystem.c:469-526 | `delete` and then `undel` of a live file that is not read-only restores the directory, the inodes and the free flags |
| Scenarios.InsertThenDelete | filesystem.c:320-493 | `insert` of a new name and then `delete` of it leaves `df` as it was |
| Scenarios.EncryptThenDecrypt | filesystem.c:976-1003 | `encrypt` and then `decrypt` with the same cipher restores every block |
| Scenarios.ReadOnlyThenDelete | filesystem.c:884-918 | after `attrib +r`, `delete` of the name is refused |
| Scenarios.HideThenList | filesystem.c:286-311 | after `attrib +h`, a plain `list` leaves the file out and `list -h` keeps it |
| Findings.FindFreeBlockLeavesBlockFree | filesystem.c:88-100 | as written, on a fresh image the block handed out is 1001 while its flag stays set, so `df` does not drop |
| Findings.FindFreeBlockAsWritten | filesystem.c:88-100 | `findFreeBlock` as written: clears the lowest set flag i, counted from block 0, and returns i + 1001 |
| Findings.ChunkClaimLeaksBlock | filesystem.c:427-461 | with line 461 as written and `findFreeBlock` corrected (filesystem.c:95-96), a one-chunk insert on a fresh image lists block 1001, yet blocks 1001 and 1002 are both taken |
| Findings.ChunkClaimAsWritten | filesystem.c:427-461 | one copy pass with line 461 as written and `findFreeBlock` corrected: the chunk's block, and a second block taken and dropped |
| Findings.ChunkClaimSkipsBlock | filesystem.c:427-461 | fully as written, a one-chunk insert on a fresh image lists 1001, leaves 1002 free and lowers the free count by one |
| Findings.SecondChunkSkipsBlock | filesystem.c:427-461 | fully as written, a two-chunk insert on a fresh image gets blocks 1001 and 1003, skipping the free block 1002, so its blocks are not first fit |
| Findings.PassAsWritten | filesystem.c:427-461 | one copy pass fully as written: the as-written search, the flag cleared at line 440, and the search at line 461 whose result is dropped |
| Findings.PassesAsWritten | filesystem.c:419-462 | n copy passes fully as written: the flags and the blocks the inode lists |
| Findings.StaleNameTail | filesystem.c:411-413 | as written, `insert xy` over the deleted entry "abcdef" leaves the name "xycdef", and neither lookup finds "xy" |
| Findings.CopyNameAsWritten | filesystem.c:413 | the name copy with `strncpy` and no terminator: a longer old name's tail stays behind the new name |
| Findings.TablesOverlapData | filesystem.c:132-135 | the free map covers blocks 1000-1063 and the inode table blocks 20-1048; the flag of block 1024 is byte 0 of block 1001. The free map starts at slot 833 of inode 243, whose attribute byte is flag 766, and holds inodes 244-255 whole |
| Findings.ClaimOverwritesFileByte | filesystem.c:440 | on a fresh image, a file of 24 chunks or more has chunk 0 in block 1001 and chunk 23 in block 1024, and clearing the flag of block 1024 zeroes the file's first byte |
| Findings.ClaimFlat | filesystem.c:440 | line 440 on the flat image: the flag of block b is the byte at 1000 * BLOCK_SIZE + b, set to 0 |
| Findings.CreatedBlockNotZero | filesystem.c:192-219 | as written, after `createfs` every byte of data block 1001 holds 1 |
| Findings.CreatedFlat | filesystem.c:192-219 | the flat image after the memset and the flag loop of `createfs`: the flag bytes hold 1 and every other byte 0 (the inode reset left out) |
| Findings.CreatedInodesOverwritten | filesystem.c:216-219 | as written, after the flag loop inode 243's attribute is HIDDEN, and no slot of inodes 244-255 holds -1 |
| Findings.ResetLoopOverruns | filesystem.c:152-154 | as written, the reset loop writes an inode's in_use field and the following inodes, and that of inode 255 writes 0xFF into block 1300 |
| Findings.ResetSlotsAsWritten | filesystem.c:152-154 | the reset loop for inode i on the flat image: NUM_BLOCKS slots from the inode's start, each four 0xFF bytes |
| Findings.DeleteMissFreesLiveFile | filesystem.c:474-492 | as written, `delete zz` with no entry "zz" reads the zero entry past the directory. It frees block 1001 and clears inode 0's in-use flag, though the live entry "a" owns them |
| Findings.DeleteMissAsWritten | filesystem.c:474-492 | `Delete` of a name no entry holds: inode 0 is marked not in use and the blocks it lists are freed |
| Findings.FlagsWrittenPastListed | filesystem.c:484-492 | as written, for a one-block file the delete loop goes on past the listed block to the -1 slot |
| Findings.FlagsWrittenAsWritten | filesystem.c:484-492 | the blocks whose flags the loops of `Delete` and `Undelete` write as written: the slots up to one holding 0 |
| Findings.DeleteGuardReadsWrongInode | filesystem.c:889-897 | as written, the read-only guard reads inode 0 for entry 0, so a read-only file owned by inode 1 is deleted |
| Findings.DeleteAllowedAsWritten | filesystem.c:889-897 | `main`'s read-only test as written: it reads the inode whose index is that of the first entry with the name |
| Findings.AttribWritesWrongInode | filesystem.c:546 | as written, `attrib +h b` marks inode 0 hidden, and `b` (inode 1) still shows in a plain `list` |
| Findings.AttribAsWritten | filesystem.c:528-554 | `attrib` as written: each entry i with the name sets the attribute of inode i |
| Findings.ListHourReadsWrongInode | filesystem.c:283 | as written, an entry stamped 18 whose index names another inode is listed with that inode's hour |
| Findings.CRem | filesystem.c:283 | C's `%` for a positive divisor: the remainder takes the sign of the dividend |
| Findings.ListHourAsWritten | filesystem.c:277-284 | the hour `list` stores as written: a past-12 hour is replaced by the hour of inode i modulo 12 |

## Left out

- The shell is not modelled: its prompt, history, tokenising, dispatch, argument checks and `cd` (filesystem.c:755-1049). Only the read-only guard before `delete` is kept, inside `Delete`.
- `savefs` and `openfs` are not modelled. They only copy the image to and from a host file. The `image_open` checks that `main` makes before each command are left out with the shell.
- Host files are parameters. `insert` takes the host file as `Option<seq<bv8>>`, where `None` means `stat` failed. `retrieve` returns the bytes it would write rather than calling `fopen`/`fwrite`. A failing `fopen` in `retrieve` (filesystem.c:662-669) is not modelled.
- The clock is a parameter: `insert` takes `hour`, `minute` and `second` instead of calling `time`/`localtime`.
- The `fread` error branch of the copy loop is not modelled (filesystem.c:445-449). The model reads every chunk from the byte sequence, and it proves the loop never runs out of blocks or slots. So no unrecorded partial file can arise.
- The metadata tables are separate arrays, not views over `data`. In C the inode table reaches block 1048 and the free map covers blocks 1000-1063, inside the data area that starts at block 1001 (filesystem.c:132-135). So a flag write or an inode write there changes file data, and a data write changes a flag or an inode. The two tables also overlap each other in blocks 1000-1048. The flag loop of `init` and `createfs` (filesystem.c:163-166, 216-219) runs after the inode reset and writes 1 over slot 833 onward of inode 243 and over all of inodes 244-255. So the 244th file inserted after `init` or `createfs` gets inode 243, whose attribute is 1. It is hidden from a plain `list`, because `insert` never writes the attribute. Inodes 244-255 have no -1 slot, so `findFreeInodeBlock` returns -1 and line 439 writes `blocks[-1]`. The model keeps all the tables apart, and the frame of every method that changes state assumes it. In C a flag write for a block b from 1024 on lands in data block 1000 + b / 1024, and flags 784-50175 are the bytes of inodes 244-255 (inode 244's attribute is flag 4882, in data block 1004; Findings.TablesOverlapData). So on a fresh image, after inserting "a" (block 1001) and then a 23-block "b" (blocks 1002-1024), `delete b` sets flag 1024 to 1, which is byte 0 of block 1001: the first byte of "a" changes. These contracts hold only under the separate layout:
  - the content and `df` promises of FileSystem.FileSystem.Insert, FileSystem.FileSystem.Store and FileSystem.FileSystem.CopyIn;
  - the zeroed blocks and the pristine, plain inodes of FileSystem.FileSystem.constructor, FileSystem.FileSystem.ResetTables and FileSystem.FileSystem.CreateFs;
  - the bytes FileSystem.FileSystem.Retrieve, FileSystem.FileSystem.ReadFile and FileSystem.FileSystem.EncryptFile promise for a file with blocks from 1001 on;
  - the frames, data and other inodes unchanged, of FileSystem.FileSystem.FindFreeBlock, FileSystem.FileSystem.FindFreeInodeBlock, FileSystem.FileSystem.ClaimBlock and FileSystem.FileSystem.RecordBlock;
  - the frames of FileSystem.FileSystem.Delete, FileSystem.FileSystem.Unlink and FileSystem.FileSystem.ReleaseListed;
  - the frames of FileSystem.FileSystem.Undelete, FileSystem.FileSystem.Relink and FileSystem.FileSystem.ClaimListed;
  - the inode writes of FileSystem.FileSystem.Attrib, FileSystem.FileSystem.List, FileSystem.FileSystem.ListEntries and FileSystem.FileSystem.AdjustHour, which in C change flags and data bytes when they reach inodes 243-255;
  - Scenarios.InsertThenRetrieve, Scenarios.InsertThenDelete and Scenarios.DeleteThenUndelete.
- Fixed-width name fields are not modelled. Names are whole strings. In C, `strncpy` with `strlen` never truncates. It writes no terminator, and a name of 64 bytes or more runs past the field into `in_use`, `inode` and the next entry. A name-taking command requires a non-empty name, which the shell's tokeniser always gives.
- `attrib` with `+` and a letter other than `r` or `h` writes an uninitialised byte in C. The model writes nothing.
- `readFile` with a range past the file's listed blocks reads slot -1 or unrelated memory in C, which is undefined. The model emits nothing for that entry.
- `readFile` with a negative `start` reads out of range in C. `start_block` is `start / 1024` rounded toward zero: 0 for -1023 .. -1, with bytes `data[b][start]` at negative offsets printed, and negative below that, so the loop reads `blocks[start_block]` before the inode's slots. The model emits nothing for that entry. A negative `num` with a non-negative `start` prints nothing in C either.
- A lookup for a name no entry holds stops at i = 256 in C. `Delete` then reads entry 256, a zero entry, so it treats inode 0 as the file's. It clears inode 0's in-use flag and frees the blocks inode 0 lists, which a live file may own (see Findings, filesystem.c:474-482). The delete guard reads `inodes[256].attribute`, a byte of the free map, which holds 0 or 1 unless a file write has landed there, so the call normally goes through. `Undelete` reports not found cleanly (filesystem.c:504-507). The model reports `FileNotFound` and changes nothing.
- Output formatting is not modelled: the `printf` text of `list`, `read` and the error messages. `list` returns rows, including the attribute for `-a`. `read` returns the bytes.
- FileSystem.FileSystem.Delete: the block invariant is promised only when the entry is live. A second `delete` of a deleted entry releases its old blocks, which a later insert may own; the source does the same.
- FileSystem.FileSystem.Undelete: the block invariant is promised only when the reclaimed blocks are still free. After a later insert reuses them, the source's `undel` makes two files share blocks, and the model does the same.
- FileSystem.FileSystem.Insert: sets the inode's in-use flag along with the entry's, which the source never does (filesystem.c:403-413). `Delete` and `Undelete` then flip both flags. Its name and content promises hold only with the name stored whole and the tables apart from the data blocks (Findings.StaleNameTail, Findings.ClaimOverwritesFileByte).
- FileSystem.FileSystem.Store: stores the name whole. In C a shorter name written over a deleted entry keeps the old name's tail (Findings.StaleNameTail). Its content promise rests on the layout above.
- FileSystem.FileSystem.CopyIn: promises the source bytes in the recorded blocks. In C the flag cleared for a block at or above 1024 is a byte of blocks 1001-1063, possibly inside this file (Findings.ClaimOverwritesFileByte).
- FileSystem.FileSystem.CreateFs: promises every data block zero and every inode pristine and plain. In C the free flags make every byte of blocks 1001-1063 one (Findings.CreatedBlockNotZero). The reset loops write 0xFF as far as block 1300 (Findings.ResetLoopOverruns). The flags also overwrite inodes 243-255, leaving inode 243 hidden and no -1 slot in inodes 244-255 (Findings.CreatedInodesOverwritten).
- FileSystem.FileSystem.constructor: promises every data block zero and every inode pristine and plain, as for `createfs`. `init` runs the same loops over a zero image (filesystem.c:141-166), so in C it leaves the same bytes in blocks 1001-1063 and in inodes 243-255.
- FileSystem.FileSystem.ResetTables: promises every inode pristine and plain. In C the flag loop that ends the reset overwrites inodes 243-255 (Findings.CreatedInodesOverwritten).
- Scenarios.InsertThenRetrieve: holds with the name stored whole and the tables apart. In C, a name written over a longer deleted name is not found again, and a file of 24 blocks or more loses its first byte.

## Findings

| source | as written | input that shows it | evidently intended | confidence | as-written member | corrected member |
|---|---|---|---|---|---|---|
| filesystem.c:95-96 | `findFreeBlock` clears flag i, counted from block 0, and returns i + 1001 | fresh image: returns 1001, clears flag 0, and block 1001 stays free | scan from FIRST_DATA_BLOCK and return the block whose flag is cleared | not executed | Findings.FindFreeBlockLeavesBlockFree, on Findings.FindFreeBlockAsWritten | FileSystem.FileSystem.FindFreeBlock |
| filesystem.c:461 | each pass of the copy loop calls `findFreeBlock` a second time and drops the result | fresh image: a two-chunk file gets 1001 and 1003 and the free block 1002 is skipped. With lines 95-96 corrected, a one-chunk file takes 1001 and 1002 instead (Findings.ChunkClaimLeaksBlock) | one block claimed per chunk | not executed | Findings.SecondChunkSkipsBlock, on Findings.PassesAsWritten | FileSystem.FileSystem.CopyIn |
| filesystem.c:487 | the loops of `Delete` and `Undelete` (also line 519) stop at a slot holding 0, while unused slots hold -1 | one-block file: the loop writes the flag of block -1 | stop at the first -1 slot | not executed | Findings.FlagsWrittenPastListed, on Findings.FlagsWrittenAsWritten | FileSystem.FileSystem.ReleaseListed |
| filesystem.c:897 | the read-only guard reads `inodes[i]` for directory index i | entry 0 "b" owns read-only inode 1 while inode 0 is writable: the delete goes through | read the entry's own inode | not executed | Findings.DeleteGuardReadsWrongInode, on Findings.DeleteAllowedAsWritten | FileSystem.FileSystem.Delete |
| filesystem.c:546 | `attrib` writes `inodes[i]` for directory index i (also line 550) | `attrib +h b` with "b" at entry 0 owning inode 1: inode 0 is hidden and "b" still listed | write the entry's own inode | not executed | Findings.AttribWritesWrongInode, on Findings.AttribAsWritten | DirectoryView.AttributedEffect |
| filesystem.c:283 | `list` replaces a past-12 hour with that of `inodes[i]` modulo 12 | "b" at entry 0 owns inode 1 stamped 18, inode 0 stamped 3: listed as 3, not 6 | reduce the entry's own inode's hour | not executed | Findings.ListHourReadsWrongInode, on Findings.ListHourAsWritten | DirectoryView.DisplayHourClock |
| filesystem.c:413 | `strncpy(field, name, strlen(name))` copies no terminator into a field `insert` does not clear (the image name likewise at 190 and 240) | delete "abcdef", then insert "xy": entry 0 reads "xycdef" and no lookup finds "xy" | store the name whole | not executed | Findings.StaleNameTail, on Findings.CopyNameAsWritten | FileSystem.FileSystem.Store |
| filesystem.c:133-134 | the inode table (blocks 20-1048) and the free map (blocks 1000-1063) are laid over `data`, whose data blocks start at 1001 | fresh image, a file of 24 blocks: clearing the flag of block 1024, its chunk 23, zeroes the file's first byte in block 1001. Also, after `init` or `createfs` the 244th file inserted gets inode 243, whose attribute byte is flag 766 and holds 1, so a plain `list` hides it (Findings.CreatedInodesOverwritten) | tables kept apart from the data blocks | not executed | Findings.ClaimOverwritesFileByte, on Findings.ClaimFlat | FileSystem.FileSystem.CopyIn |
| filesystem.c:474-482 | for a name no entry holds, the scan stops at i = 256 and `Delete` reads the zero entry past the directory as if it held inode 0 | live "a" owns inode 0, which lists 1001; `delete zz` frees 1001 and clears inode 0's in-use flag | report not found and change nothing | not executed | Findings.DeleteMissFreesLiveFile, on Findings.DeleteMissAsWritten | FileSystem.FileSystem.Delete |
| filesystem.c:152-154 | the reset loops (also lines 207-209) write NUM_BLOCKS slots of an inode that has BLOCKS_PER_FILE | inode 255's loop writes 0xFF into block 1300, and each loop overwrites its own in_use field and the following inodes | write BLOCKS_PER_FILE slots | not executed | Findings.ResetLoopOverruns, on Findings.ResetSlotsAsWritten | FileSystem.FileSystem.ClearInode |
