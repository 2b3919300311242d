/**
 * The file system state of filesystem.c and the operations of its shell commands. The block
 * store and the four metadata tables are arrays updated in place, as in the C globals.
 */
module FileSystem {
  import opened FsTypes
  import opened Bitmap
  import opened FileLayout
  import opened DirectoryView
  import opened InsertCopy
  import opened Tables

  /** A block of zero bytes. */
  function ZeroBlock(): (b: Block)
    ensures |b| == BLOCK_SIZE && forall k :: 0 <= k < |b| ==> b[k] == 0
  {
    seq(BLOCK_SIZE, _ => 0)
  }

  /** An inode whose bytes are all zero, as a zeroed image holds it. */
  function ZeroInode(): (ino: Inode)
    ensures |ino.blocks| == BLOCKS_PER_FILE && !ino.inUse && ino.fileSize == 0
  {
    Inode(seq(BLOCKS_PER_FILE, _ => 0), false, 0, 0, 0, 0, 0)
  }

  class FileSystem {
    /** `data`: NUM_BLOCKS blocks of BLOCK_SIZE bytes. */
    const data: array<Block>
    /** `free_blocks` and `free_inodes`: true when the block, or inode, is free. */
    const freeBlocks: array<bool>
    const freeInodes: array<bool>
    const directory: array<DirectoryEntry>
    const inodes: array<Inode>
    var imageName: string
    var imageOpen: bool

    /** The arrays have the lengths of the C tables. */
    predicate Shaped() {
      data.Length == NUM_BLOCKS && freeBlocks.Length == NUM_BLOCKS &&
      freeInodes.Length == NUM_FILES && directory.Length == NUM_FILES && inodes.Length == NUM_FILES &&
      freeBlocks != freeInodes
    }

    /** The arrays and their elements have the sizes of the C tables. */
    ghost predicate Sized()
      reads data
    {
      Shaped() && FullBlocks(data[..])
    }

    /** The metadata invariant over the current tables (see TablesValid). */
    ghost predicate Valid()
      reads data, inodes, directory, freeInodes
    {
      Sized() && TablesValid(directory[..], inodes[..], freeInodes[..])
    }

    /** The block invariant over the current tables (see BlocksConsistent). */
    ghost predicate Consistent()
      reads inodes, directory, freeBlocks
    {
      BlocksConsistent(directory[..], inodes[..], freeBlocks[..])
    }

    /** Bytes in free data blocks: what `df` reports. */
    ghost function FreeSpace(): nat
      reads freeBlocks
      requires freeBlocks.Length == NUM_BLOCKS
    {
      BLOCK_SIZE * CountFree(freeBlocks[..], FIRST_DATA_BLOCK, NUM_BLOCKS)
    }

    /** The bytes of the file entry i names. */
    ghost function FileContent(i: int): seq<bv8>
      reads data, inodes, directory, freeInodes
      requires Valid() && 0 <= i < NUM_FILES && Recorded(directory[..], i)
    {
      WellFormedReadable(data[..], inodes[directory[i].inode]);
      Content(data[..], inodes[directory[i].inode])
    }

    /** Every block, table and name is zero, as `memset` leaves them. */
    ghost predicate Zeroed()
      reads this, data, inodes, directory, freeInodes, freeBlocks
      requires Sized()
    {
      imageName == "" &&
      (forall b :: 0 <= b < NUM_BLOCKS ==> data[b] == ZeroBlock() && !freeBlocks[b]) &&
      (forall n :: 0 <= n < NUM_FILES ==>
         directory[n] == DirectoryEntry("", false, 0) && inodes[n] == ZeroInode() && !freeInodes[n])
    }

    /**
     * `init`: the tables of a fresh process, every entry and inode free, no image open. The
     * tables are kept apart from `data`; in the source the flag loop at lines 163-166 writes
     * into blocks 1000-1063 and over inodes 243-255 (`Findings.CreatedInodesOverwritten`).
     */
    constructor ()
      ensures Valid() && Consistent()
      ensures !imageOpen && imageName == ""
      ensures forall i :: 0 <= i < NUM_FILES ==>
                directory[i] == DirectoryEntry("", false, UNUSED) && freeInodes[i] && Pristine(inodes[i])
      ensures forall b :: 0 <= b < NUM_BLOCKS ==> data[b] == ZeroBlock() && freeBlocks[b]
      ensures FreeSpace() == (NUM_BLOCKS - FIRST_DATA_BLOCK) * BLOCK_SIZE
    {
      data := new Block[NUM_BLOCKS](_ => ZeroBlock());
      freeBlocks := new bool[NUM_BLOCKS](_ => false);
      freeInodes := new bool[NUM_FILES](_ => false);
      directory := new DirectoryEntry[NUM_FILES](_ => DirectoryEntry("", false, 0));
      inodes := new Inode[NUM_FILES](_ => ZeroInode());
      imageName := "";
      imageOpen := false;
      new;
      ResetTables(UNUSED);
    }

    /**
     * The table loops shared by `init` (filesystem.c:141-167) and `createfs` (197-220): every
     * entry unnamed, unused and pointing at `entryInode`, every inode free with no blocks,
     * every block free. The block-slot loop is bounded by BLOCKS_PER_FILE, the length of
     * `blocks`; the source bounds it by NUM_BLOCKS (lines 152 and 208).
     */
    method ResetTables(entryInode: int)
      requires Sized() && forall n :: 0 <= n < NUM_FILES ==> |inodes[n].blocks| == BLOCKS_PER_FILE
      modifies directory, inodes, freeInodes, freeBlocks
      ensures Sized() && Valid() && Consistent()
      ensures forall i :: 0 <= i < NUM_FILES ==>
                directory[i] == DirectoryEntry("", false, entryInode) && freeInodes[i] &&
                inodes[i] == old(inodes[i]).(blocks := PristineBlocks(), inUse := false,
                                             attribute := 0, fileSize := 0)
      ensures forall b :: 0 <= b < NUM_BLOCKS ==> freeBlocks[b]
      ensures FreeSpace() == (NUM_BLOCKS - FIRST_DATA_BLOCK) * BLOCK_SIZE
    {
      var i := 0;
      while i < NUM_FILES
        invariant 0 <= i <= NUM_FILES && Sized()
        invariant forall i' :: 0 <= i' < i ==>
                    directory[i'] == DirectoryEntry("", false, entryInode) && freeInodes[i'] &&
                    inodes[i'] == old(inodes[i']).(blocks := PristineBlocks(), inUse := false,
                                                   attribute := 0, fileSize := 0)
        invariant forall i' :: i <= i' < NUM_FILES ==> inodes[i'] == old(inodes[i'])
      {
        directory[i] := directory[i].(inUse := false, inode := entryInode);
        freeInodes[i] := true;
        directory[i] := directory[i].(filename := "");
        ClearInode(i);
        i := i + 1;
      }
      var b := 0;
      while b < NUM_BLOCKS
        modifies freeBlocks
        invariant 0 <= b <= NUM_BLOCKS
        invariant forall b' :: 0 <= b' < b ==> freeBlocks[b']
      {
        freeBlocks[b] := true;
        b := b + 1;
      }
      ResetIsValid();
      CountFreeAll(freeBlocks[..], FIRST_DATA_BLOCK, NUM_BLOCKS);
    }

    /** The slot loop of the table reset for inode i (filesystem.c:151-159): every slot UNUSED, and the inode not in use, plain and empty. */
    method ClearInode(i: int)
      requires Sized() && 0 <= i < NUM_FILES && |inodes[i].blocks| == BLOCKS_PER_FILE
      modifies inodes
      ensures Sized()
      ensures inodes[..] == old(inodes[..])[i := old(inodes[i]).(blocks := PristineBlocks(), inUse := false,
                                                                 attribute := 0, fileSize := 0)]
    {
      var j := 0;
      while j < BLOCKS_PER_FILE
        invariant 0 <= j <= BLOCKS_PER_FILE && Sized()
        invariant |inodes[i].blocks| == BLOCKS_PER_FILE
        invariant forall k :: 0 <= k < j ==> inodes[i].blocks[k] == UNUSED
        invariant forall k :: j <= k < BLOCKS_PER_FILE ==> inodes[i].blocks[k] == old(inodes[i]).blocks[k]
        invariant j > 0 ==> inodes[i] == old(inodes[i]).(blocks := inodes[i].blocks, inUse := false,
                                                         attribute := 0, fileSize := 0)
        invariant j == 0 ==> inodes[i] == old(inodes[i])
        invariant forall i' :: 0 <= i' < NUM_FILES && i' != i ==> inodes[i'] == old(inodes[i'])
      {
        inodes[i] := inodes[i].(blocks := inodes[i].blocks[j := UNUSED], inUse := false,
                                attribute := 0, fileSize := 0);
        j := j + 1;
      }
      assert inodes[i].blocks == PristineBlocks();
    }

    /** Tables in the reset state satisfy both invariants. */
    lemma ResetIsValid()
      requires Sized()
      requires forall i :: 0 <= i < NUM_FILES ==>
                 directory[i].filename == "" && !directory[i].inUse && freeInodes[i] && Pristine(inodes[i])
      ensures Valid() && Consistent()
    {
      forall n | 0 <= n < NUM_FILES
        ensures WellFormed(inodes[n])
      {
        assert FirstUnused(inodes[n].blocks, 0) == 0;
      }
      assert forall i :: 0 <= i < NUM_FILES ==> !Live(directory[..], inodes[..], i);
    }

    /** The `memset` of the whole image (filesystem.c:192 and 259), which also clears the tables it holds. */
    method ZeroImage()
      requires Sized()
      modifies this, data, inodes, directory, freeInodes, freeBlocks
      ensures Sized() && Zeroed()
      ensures imageOpen == old(imageOpen)
    {
      forall b | 0 <= b < NUM_BLOCKS {
        data[b] := ZeroBlock();
      }
      forall b | 0 <= b < NUM_BLOCKS {
        freeBlocks[b] := false;
      }
      forall n | 0 <= n < NUM_FILES {
        directory[n] := DirectoryEntry("", false, 0);
      }
      forall n | 0 <= n < NUM_FILES {
        inodes[n] := ZeroInode();
      }
      forall n | 0 <= n < NUM_FILES {
        freeInodes[n] := false;
      }
      imageName := "";
    }

    /**
     * `createfs` (filesystem.c:186-221): a zeroed image named `filename`, open, with every
     * entry pointing at inode 1 (line 201), every inode and every block free. The data blocks
     * are zero because the tables are kept apart from them; in the source the free flags set
     * at lines 217-219 are bytes of blocks 1000-1063 (`Findings.CreatedFlat`).
     */
    method CreateFs(filename: string)
      requires Sized()
      modifies this, data, inodes, directory, freeInodes, freeBlocks
      ensures Valid() && Consistent()
      ensures imageOpen && imageName == filename
      ensures forall b :: 0 <= b < NUM_BLOCKS ==> data[b] == ZeroBlock() && freeBlocks[b]
      ensures forall i :: 0 <= i < NUM_FILES ==>
                directory[i] == DirectoryEntry("", false, 1) && freeInodes[i] && Pristine(inodes[i])
      ensures FreeSpace() == (NUM_BLOCKS - FIRST_DATA_BLOCK) * BLOCK_SIZE
    {
      ZeroImage();
      imageName := filename;
      imageOpen := true;
      ResetTables(1);
    }

    /** `closefs` (filesystem.c:247-260): fails with no image open; otherwise closes it and zeroes the image. */
    method CloseFs() returns (r: Outcome)
      requires Sized()
      modifies this, data, inodes, directory, freeInodes, freeBlocks
      ensures Sized()
      ensures !old(imageOpen) ==>
                r == Failed(NoImageOpen) && imageName == old(imageName) && !imageOpen &&
                data[..] == old(data[..]) && inodes[..] == old(inodes[..]) &&
                directory[..] == old(directory[..]) && freeInodes[..] == old(freeInodes[..]) &&
                freeBlocks[..] == old(freeBlocks[..])
      ensures old(imageOpen) ==> r == Done && !imageOpen && Zeroed()
    {
      if !imageOpen {
        return Failed(NoImageOpen);
      }
      imageOpen := false;
      ZeroImage();
      r := Done;
    }

    /**
     * `findFreeBlock`: claims the lowest free data block. The source scans from block 0 and
     * returns i + 1001 after clearing flag i (filesystem.c:91-96); this scan covers the data
     * blocks and returns the block whose flag it clears.
     */
    method FindFreeBlock() returns (r: int)
      requires Shaped()
      modifies freeBlocks
      ensures r == FirstFree(old(freeBlocks[..]), FIRST_DATA_BLOCK)
      ensures r == -1 ==> unchanged(freeBlocks)
      ensures r != -1 ==> DataBlock(r) && old(freeBlocks[r]) && freeBlocks[..] == old(freeBlocks[..])[r := false]
      ensures r != -1 ==> FreeSpace() + BLOCK_SIZE == old(FreeSpace())
      ensures r == -1 ==> FreeSpace() == 0
    {
      var i := FIRST_DATA_BLOCK;
      while i < NUM_BLOCKS
        invariant FIRST_DATA_BLOCK <= i <= NUM_BLOCKS
        invariant FirstFree(freeBlocks[..], FIRST_DATA_BLOCK) == FirstFree(freeBlocks[..], i)
      {
        if freeBlocks[i] {
          CountFreeUpdate(freeBlocks[..], FIRST_DATA_BLOCK, NUM_BLOCKS, i, false);
          freeBlocks[i] := false;
          return i;
        }
        i := i + 1;
      }
      CountFreePositive(freeBlocks[..], FIRST_DATA_BLOCK, NUM_BLOCKS);
      return -1;
    }

    /** `findFreeInode` (filesystem.c:102-114): claims the lowest free inode. */
    method FindFreeInode() returns (r: int)
      requires Shaped()
      modifies freeInodes
      ensures r == FirstFree(old(freeInodes[..]), 0)
      ensures r == -1 ==> unchanged(freeInodes)
      ensures r != -1 ==> 0 <= r < NUM_FILES && old(freeInodes[r]) && freeInodes[..] == old(freeInodes[..])[r := false]
    {
      var i := 0;
      while i < NUM_FILES
        invariant 0 <= i <= NUM_FILES
        invariant FirstFree(freeInodes[..], 0) == FirstFree(freeInodes[..], i)
      {
        if freeInodes[i] {
          freeInodes[i] := false;
          return i;
        }
        i := i + 1;
      }
      return -1;
    }

    /**
     * `findFreeInodeBlock` (filesystem.c:116-128): the first UNUSED slot of the inode, which it
     * overwrites with 0 until the caller stores the block there.
     */
    method FindFreeInodeBlock(ino: int) returns (r: int)
      requires Shaped() && 0 <= ino < NUM_FILES && |inodes[ino].blocks| == BLOCKS_PER_FILE
      modifies inodes
      ensures r == if FirstUnused(old(inodes[ino].blocks), 0) < BLOCKS_PER_FILE
                   then FirstUnused(old(inodes[ino].blocks), 0) else -1
      ensures r == -1 ==> unchanged(inodes)
      ensures r != -1 ==>
                inodes[..] == old(inodes[..])[ino := old(inodes[ino]).(blocks := old(inodes[ino].blocks)[r := 0])]
    {
      var i := 0;
      while i < BLOCKS_PER_FILE
        invariant 0 <= i <= BLOCKS_PER_FILE && unchanged(inodes)
        invariant FirstUnused(inodes[ino].blocks, 0) == FirstUnused(inodes[ino].blocks, i)
      {
        if inodes[ino].blocks[i] == UNUSED {
          inodes[ino] := inodes[ino].(blocks := inodes[ino].blocks[i := 0]);
          return i;
        }
        i := i + 1;
      }
      return -1;
    }

    /** `df` (filesystem.c:170-182): the bytes in free data blocks. */
    method Df() returns (bytes: nat)
      requires Sized()
      ensures bytes == FreeSpace()
    {
      var count := 0;
      var j := FIRST_DATA_BLOCK;
      while j < NUM_BLOCKS
        invariant FIRST_DATA_BLOCK <= j <= NUM_BLOCKS
        invariant count == CountFree(freeBlocks[..], FIRST_DATA_BLOCK, j)
      {
        if freeBlocks[j] {
          count := count + 1;
        }
        j := j + 1;
      }
      bytes := count * BLOCK_SIZE;
    }

    /** The scan of `insert` for the first entry not in use (filesystem.c:354-364). */
    method FindFreeDirectoryEntry() returns (r: int)
      requires Sized()
      ensures r == FirstFree(FreeEntries(directory[..]), 0)
    {
      var i := 0;
      while i < NUM_FILES
        invariant 0 <= i <= NUM_FILES
        invariant FirstFree(FreeEntries(directory[..]), 0) == FirstFree(FreeEntries(directory[..]), i)
      {
        if !directory[i].inUse {
          return i;
        }
        i := i + 1;
      }
      return -1;
    }

    /**
     * Why `insert` refuses, checked in the order of filesystem.c:331-401: the host file is
     * missing, larger than MAX_FILE_SIZE, larger than the free space, or no entry or no inode is free.
     */
    ghost function InsertRefusal(source: Option<seq<bv8>>): Option<FsError>
      reads data, inodes, directory, freeInodes, freeBlocks
      requires Sized()
    {
      if source.None? then Some(FileNotFound)
      else if |source.value| > MAX_FILE_SIZE then Some(FileTooLarge)
      else if |source.value| > FreeSpace() then Some(InsufficientSpace)
      else if FirstFree(FreeEntries(directory[..]), 0) == -1 then Some(DirectoryFull)
      else if FirstFree(freeInodes[..], 0) == -1 then Some(InodeExhausted)
      else None
    }

    /**
     * `insert` (filesystem.c:320-467): stores the bytes of the host file `source` (None when it
     * does not exist) under `name` in the first free entry and the first free inode, stamped
     * with the local time `hour`:`minute`:`second` (the hour is stored minus 5, line 407).
     * The file's blocks L are the lowest free data blocks, one per started BLOCK_SIZE chunk,
     * chunk j in block L[j]. The source never sets the inode's in-use flag; here it is set
     * with the entry's.
     */
    method Insert(name: string, source: Option<seq<bv8>>, hour: int, minute: int, second: int)
      returns (r: Outcome, ghost entry: int, ghost ino: int, ghost L: seq<int>)
      requires Valid() && name != ""
      modifies data, freeBlocks, freeInodes, directory, inodes
      ensures Valid()
      ensures old(InsertRefusal(source)).Some? ==>
                r == Failed(old(InsertRefusal(source)).value) &&
                unchanged(data, freeBlocks, freeInodes, directory, inodes)
      ensures old(InsertRefusal(source)).None? ==>
                r == Done && 0 <= entry < NUM_FILES && 0 <= ino < NUM_FILES &&
                entry == FirstFree(FreeEntries(old(directory[..])), 0) &&
                ino == FirstFree(old(freeInodes[..]), 0)
      ensures old(InsertRefusal(source)).None? ==>
                var src := source.value;
                |L| == BlocksFor(|src|) &&
                directory[..] == old(directory[..])[entry := DirectoryEntry(name, true, ino)] &&
                freeInodes[..] == old(freeInodes[..])[ino := false] &&
                inodes[..] == old(inodes[..])[ino := Inode(Slots(L), true, 0, |src|, hour - 5, minute, second)] &&
                FirstFit(old(freeBlocks[..]), L) && freeBlocks[..] == Claim(old(freeBlocks[..]), L) &&
                Copied(data[..], old(data[..]), L, src, |src|)
      ensures old(InsertRefusal(source)).None? ==>
                FileContent(entry) == source.value && FreeSpace() == old(FreeSpace()) - |L| * BLOCK_SIZE
      ensures old(Consistent()) ==> Consistent()
    {
      ghost var refusal := InsertRefusal(source);
      entry, ino, L := -1, -1, [];
      if source.None? {
        return Failed(FileNotFound), entry, ino, L;
      }
      var src := source.value;
      if |src| > MAX_FILE_SIZE {
        return Failed(FileTooLarge), entry, ino, L;
      }
      var free := Df();
      if |src| > free {
        return Failed(InsufficientSpace), entry, ino, L;
      }
      var e := FindFreeDirectoryEntry();
      if e == -1 {
        return Failed(DirectoryFull), entry, ino, L;
      }
      ghost var dir0, inodes0, freeInos0, free0 := directory[..], inodes[..], freeInodes[..], freeBlocks[..];
      var n := FindFreeInode();
      if n == -1 {
        return Failed(InodeExhausted), entry, ino, L;
      }
      assert refusal.None?;
      entry, ino := e, n;
      L := Store(e, n, name, src, hour, minute, second, dir0, inodes0, freeInos0);
      r := Done;
    }

    /**
     * The part of `insert` after its checks (filesystem.c:403-462): the inode and the entry are
     * filled in and the bytes copied. `dir0`, `inodes0` and `freeInos0` are the tables before
     * `findFreeInode` claimed inode n. The name is stored whole; the source's `strncpy` at
     * line 413 copies no terminator over a longer old name (`Findings.CopyNameAsWritten`).
     */
    method Store(e: int, n: int, name: string, src: seq<bv8>, hour: int, minute: int, second: int,
                 ghost dir0: seq<DirectoryEntry>, ghost inodes0: seq<Inode>, ghost freeInos0: seq<bool>)
      returns (ghost L: seq<int>)
      requires TablesValid(dir0, inodes0, freeInos0) && Sized() && name != ""
      requires 0 <= e < NUM_FILES && !dir0[e].inUse && 0 <= n < NUM_FILES && freeInos0[n]
      requires directory[..] == dir0 && inodes[..] == inodes0 && freeInodes[..] == freeInos0[n := false]
      requires |src| <= MAX_FILE_SIZE && |src| <= FreeSpace()
      modifies data, freeBlocks, freeInodes, directory, inodes
      ensures Valid() && |L| == BlocksFor(|src|)
      ensures directory[..] == dir0[e := DirectoryEntry(name, true, n)] && freeInodes[..] == freeInos0[n := false]
      ensures inodes[..] == inodes0[n := Inode(Slots(L), true, 0, |src|, hour - 5, minute, second)]
      ensures FirstFit(old(freeBlocks[..]), L) && freeBlocks[..] == Claim(old(freeBlocks[..]), L)
      ensures Copied(data[..], old(data[..]), L, src, |src|)
      ensures FileContent(e) == src && FreeSpace() == old(FreeSpace()) - |L| * BLOCK_SIZE
      ensures BlocksConsistent(dir0, inodes0, old(freeBlocks[..])) ==> Consistent()
    {
      ghost var free0 := freeBlocks[..];
      assert Pristine(inodes[n]);
      freeInodes[n] := false;
      assert freeInodes[..] == freeInos0[n := false];
      inodes[n] := inodes[n].(fileSize := |src|, hr := hour - 5, min := minute, sec := second, inUse := true);
      directory[e] := DirectoryEntry(name, true, n);
      assert directory[..] == dir0[e := DirectoryEntry(name, true, n)];
      L := CopyIn(n, src);
      ghost var node := Inode(Slots(L), true, 0, |src|, hour - 5, minute, second);
      assert inodes[..] == inodes0[n := node];
      ChunksFit(|src|);
      InsertedFacts(node, L, src, free0);
      InsertKeepsValid(dir0, inodes0, freeInos0, e, n, name, node);
      if BlocksConsistent(dir0, inodes0, free0) {
        InsertKeepsConsistent(dir0, inodes0, freeInos0, free0, e, n, name, node);
      }
      HoldsSpan(data[..], L, src, |src|);
    }

    /**
     * The copy loop of `insert` (filesystem.c:419-462): for each started BLOCK_SIZE chunk of
     * `src`, the lowest free data block receives the chunk and is recorded in the inode's next
     * slot. The admission checks make a failing block search (line 429) impossible. The
     * source calls `findFreeBlock` once more at the end of each pass (line 461), claiming a
     * block no slot records; the model makes one claim per chunk.
     */
    method CopyIn(ino: int, src: seq<bv8>) returns (ghost L: seq<int>)
      requires Sized() && 0 <= ino < NUM_FILES
      requires inodes[ino].blocks == PristineBlocks()
      requires |src| <= MAX_FILE_SIZE && |src| <= FreeSpace()
      modifies data, freeBlocks, inodes
      ensures Sized()
      ensures |L| == BlocksFor(|src|)
      ensures inodes[..] == old(inodes[..])[ino := old(inodes[ino]).(blocks := Slots(L))]
      ensures FirstFit(old(freeBlocks[..]), L)
      ensures freeBlocks[..] == Claim(old(freeBlocks[..]), L)
      ensures Copied(data[..], old(data[..]), L, src, |src|)
      ensures FreeSpace() == old(FreeSpace()) - |L| * BLOCK_SIZE
    {
      ghost var flags0, data0, inodes0 := freeBlocks[..], data[..], inodes[..];
      ChunksFit(|src|);
      var copySize: int := |src|;
      var offset: nat := 0;
      ghost var written: nat := 0;
      L := [];
      SlotsEmpty();
      assert inodes0[ino := inodes0[ino].(blocks := Slots(L))] == inodes0;
      while copySize > 0
        invariant Sized()
        invariant offset == |L| * BLOCK_SIZE && copySize == |src| - offset
        invariant |L| <= BlocksFor(|src|)
        invariant written == if offset <= |src| then offset else |src|
        invariant inodes[..] == inodes0[ino := inodes0[ino].(blocks := Slots(L))]
        invariant FirstFit(flags0, L) && freeBlocks[..] == Claim(flags0, L)
        invariant Copied(data[..], data0, L, src, written)
        decreases copySize
      {
        var chunk := if copySize < BLOCK_SIZE then copySize else BLOCK_SIZE;
        var block := CopyPass(ino, src, offset, chunk, flags0, data0, inodes0, L);
        L := L + [block];
        written := offset + chunk;
        copySize := copySize - BLOCK_SIZE;
        offset := offset + BLOCK_SIZE;
      }
      ClaimCount(flags0, L);
    }

    /** One pass of the copy loop (filesystem.c:427-440): the next first-fit block receives the chunk at `offset` and joins the inode's slots. */
    method CopyPass(ino: int, src: seq<bv8>, offset: nat, chunk: nat, ghost flags0: seq<bool>, ghost data0: Disk,
                    ghost inodes0: seq<Inode>, ghost L: seq<int>) returns (block: int)
      requires Sized() && 0 <= ino < NUM_FILES && |flags0| == NUM_BLOCKS && |inodes0| == NUM_FILES
      requires |src| <= BLOCK_SIZE * CountFree(flags0, FIRST_DATA_BLOCK, NUM_BLOCKS) && |L| < BlocksFor(|src|)
      requires BlocksFor(|src|) <= BLOCKS_PER_FILE
      requires offset == |L| * BLOCK_SIZE && chunk <= BLOCK_SIZE && offset + chunk <= |src|
      requires inodes[..] == inodes0[ino := inodes0[ino].(blocks := Slots(L))]
      requires FirstFit(flags0, L) && freeBlocks[..] == Claim(flags0, L)
      requires Copied(data[..], data0, L, src, offset)
      modifies data, freeBlocks, inodes
      ensures Sized()
      ensures inodes[..] == inodes0[ino := inodes0[ino].(blocks := Slots(L + [block]))]
      ensures FirstFit(flags0, L + [block]) && freeBlocks[..] == Claim(flags0, L + [block])
      ensures Copied(data[..], data0, L + [block], src, offset + chunk)
    {
      block := ClaimBlock(|src|, flags0, L);
      WriteChunk(block, src, offset, chunk, data0, L);
      RecordBlock(ino, block, L, inodes0);
    }

    /** The block search of one copy pass (filesystem.c:427-432): it always finds the next first-fit block. */
    method ClaimBlock(size: nat, ghost flags0: seq<bool>, ghost L: seq<int>) returns (block: int)
      requires Shaped() && |flags0| == NUM_BLOCKS
      requires FirstFit(flags0, L) && freeBlocks[..] == Claim(flags0, L)
      requires size <= BLOCK_SIZE * CountFree(flags0, FIRST_DATA_BLOCK, NUM_BLOCKS) && |L| < BlocksFor(size)
      modifies freeBlocks
      ensures 0 <= block < NUM_BLOCKS && block !in L && !freeBlocks[block]
      ensures FirstFit(flags0, L + [block]) && freeBlocks[..] == Claim(flags0, L + [block])
    {
      ClaimAvailable(flags0, L, size);
      block := FindFreeBlock();
      ClaimStep(flags0, L, block);
    }

    /** The `fread` of one copy pass (filesystem.c:434-435): the chunk lands at the start of the block. */
    method WriteChunk(block: int, src: seq<bv8>, offset: nat, chunk: nat, ghost data0: Disk, ghost L: seq<int>)
      requires Sized() && 0 <= block < NUM_BLOCKS && block !in L
      requires offset == |L| * BLOCK_SIZE && chunk <= BLOCK_SIZE && offset + chunk <= |src|
      requires Copied(data[..], data0, L, src, offset)
      modifies data
      ensures Sized() && Copied(data[..], data0, L + [block], src, offset + chunk)
    {
      ghost var d := data[..];
      data[block] := src[offset..offset + chunk] + data[block][chunk..];
      assert data[..] == d[block := src[offset..offset + chunk] + d[block][chunk..]];
      ChunkStep(d, data0, L, block, src, offset, chunk);
    }

    /**
     * The bookkeeping of one copy pass (filesystem.c:438-440): the block goes to the inode's
     * first free slot, and its flag, already cleared by the search, is cleared again.
     */
    method RecordBlock(ino: int, block: int, ghost L: seq<int>, ghost inodes0: seq<Inode>)
      requires Shaped() && 0 <= ino < NUM_FILES && |L| < BLOCKS_PER_FILE
      requires |inodes0| == NUM_FILES && inodes[..] == inodes0[ino := inodes0[ino].(blocks := Slots(L))]
      requires forall j :: 0 <= j < |L| ==> L[j] != UNUSED
      requires 0 <= block < NUM_BLOCKS && !freeBlocks[block]
      modifies inodes, freeBlocks
      ensures inodes[..] == inodes0[ino := inodes0[ino].(blocks := Slots(L + [block]))]
      ensures freeBlocks[..] == old(freeBlocks[..])
    {
      SlotsStep(L, block);
      assert inodes[ino].blocks == Slots(L);
      var slot := FindFreeInodeBlock(ino);
      inodes[ino] := inodes[ino].(blocks := inodes[ino].blocks[slot := block]);
      freeBlocks[block] := false;
      assert freeBlocks[..] == old(freeBlocks[..]);
    }

    /**
     * The name lookup of `Delete` and `Undelete` (filesystem.c:474-477, 499-502): the first
     * entry, in use or not, whose name is `name`. When no entry matches, the source reads the
     * entry one past the table, a zero entry pointing at inode 0, and `Delete` goes on to free
     * inode 0's blocks (`Findings.DeleteMissAsWritten`); here the scan returns -1.
     */
    method FindNamed(name: string) returns (i: int)
      requires Shaped()
      ensures i == FirstNamed(directory[..], name, 0)
    {
      i := 0;
      while i < NUM_FILES && directory[i].filename != name
        invariant 0 <= i <= NUM_FILES
        invariant FirstNamed(directory[..], name, 0) == FirstNamed(directory[..], name, i)
      {
        i := i + 1;
      }
      if i == NUM_FILES {
        i := -1;
      }
    }

    /**
     * `delete` as the shell runs it (filesystem.c:884-918, then `Delete` at 469-493): the first
     * entry named `name` is looked up; a read-only file is refused; otherwise the entry and its
     * inode are marked unused and every block the inode lists is marked free. The name stays,
     * so `Undelete` can find the entry again. The read-only check in the source reads
     * `inodes[i]` with the directory index i (line 897); here it reads the entry's own inode.
     */
    method Delete(name: string) returns (r: Outcome, ghost i: int)
      requires Valid() && name != ""
      modifies directory, inodes, freeBlocks
      ensures Valid()
      ensures i == FirstNamed(old(directory[..]), name, 0)
      ensures i == -1 ==> r == Failed(FileNotFound) && unchanged(directory, inodes, freeBlocks)
      ensures i != -1 ==> 0 <= old(directory[i].inode) < NUM_FILES
      ensures i != -1 && old(inodes[directory[i].inode].attribute) == READ_ONLY ==>
                r == Failed(ReadOnlyViolation) && unchanged(directory, inodes, freeBlocks)
      ensures i != -1 && old(inodes[directory[i].inode].attribute) != READ_ONLY ==>
                r == Done &&
                (directory[..], inodes[..]) == SetLive(old(directory[..]), old(inodes[..]), i, false) &&
                freeBlocks[..] == Release(old(freeBlocks[..]), old(FileBlocks(directory[..], inodes[..], i)))
      ensures i != -1 && r == Done && old(Consistent()) && old(directory[i].inUse) ==>
                Consistent() &&
                FreeSpace() == old(FreeSpace()) + |old(FileBlocks(directory[..], inodes[..], i))| * BLOCK_SIZE
    {
      var e := FindNamed(name);
      i := e;
      if e == -1 {
        return Failed(FileNotFound), i;
      }
      assert Recorded(directory[..], e);
      var n := directory[e].inode;
      if inodes[n].attribute == READ_ONLY {
        return Failed(ReadOnlyViolation), i;
      }
      Unlink(e);
      r := Done;
    }

    /** The writes of `Delete` once the entry e is found and not read-only (filesystem.c:480-492). */
    method Unlink(e: int)
      requires Valid() && 0 <= e < NUM_FILES && Recorded(directory[..], e)
      modifies directory, inodes, freeBlocks
      ensures Valid()
      ensures (directory[..], inodes[..]) == SetLive(old(directory[..]), old(inodes[..]), e, false)
      ensures freeBlocks[..] == Release(old(freeBlocks[..]), old(FileBlocks(directory[..], inodes[..], e)))
      ensures old(Consistent()) && old(directory[e].inUse) ==>
                Consistent() &&
                FreeSpace() == old(FreeSpace()) + |old(FileBlocks(directory[..], inodes[..], e))| * BLOCK_SIZE
    {
      var n := directory[e].inode;
      ghost var dir0, inodes0, free0 := directory[..], inodes[..], freeBlocks[..];
      ghost var L := FileBlocks(dir0, inodes0, e);
      directory[e] := directory[e].(inUse := false);
      inodes[n] := inodes[n].(inUse := false);
      assert (directory[..], inodes[..]) == SetLive(dir0, inodes0, e, false);
      SetLiveKeepsValid(dir0, inodes0, freeInodes[..], e, false);
      ReleaseListed(n);
      if BlocksConsistent(dir0, inodes0, free0) && dir0[e].inUse {
        DeleteKeepsConsistent(dir0, inodes0, freeInodes[..], free0, e);
        assert Live(dir0, inodes0, e);
        WellFormedReadable(data[..], inodes0[n]);
        ReleaseCount(free0, L);
      }
    }

    /**
     * The block loop of `Delete` (filesystem.c:484-492): marks free every block the inode lists,
     * up to its first unused slot. The source stops at a slot holding 0, but unused slots hold
     * -1 (lines 121 and 154); here the loop stops at -1.
     */
    method ReleaseListed(n: int)
      requires Shaped() && 0 <= n < NUM_FILES && WellFormed(inodes[n])
      modifies freeBlocks
      ensures freeBlocks[..] == Release(old(freeBlocks[..]), Listed(inodes[n]))
    {
      ghost var blocks := inodes[n].blocks;
      ghost var m := FirstUnused(blocks, 0);
      var k := 0;
      var index := inodes[n].blocks[0];
      while index != UNUSED && k < BLOCKS_PER_FILE
        invariant 0 <= k <= m
        invariant k < BLOCKS_PER_FILE ==> index == blocks[k]
        invariant freeBlocks[..] == Release(old(freeBlocks[..]), blocks[..k])
        decreases BLOCKS_PER_FILE - k
      {
        freeBlocks[index] := true;
        assert blocks[..k + 1] == blocks[..k] + [index];
        k := k + 1;
        if k < BLOCKS_PER_FILE {
          index := inodes[n].blocks[k];
        }
      }
    }

    /**
     * `Undelete` (filesystem.c:496-526): the first entry named `name` and its inode are marked
     * in use again and every block the inode lists is marked taken, whether or not another file
     * has claimed it since. The loop stops at -1 where the source stops at 0 (line 519).
     */
    method Undelete(name: string) returns (r: Outcome, ghost i: int)
      requires Valid() && name != ""
      modifies directory, inodes, freeBlocks
      ensures Valid()
      ensures i == FirstNamed(old(directory[..]), name, 0)
      ensures i == -1 ==> r == Failed(FileNotFound) && unchanged(directory, inodes, freeBlocks)
      ensures i != -1 ==> 0 <= old(directory[i].inode) < NUM_FILES
      ensures i != -1 ==>
                r == Done &&
                (directory[..], inodes[..]) == SetLive(old(directory[..]), old(inodes[..]), i, true) &&
                freeBlocks[..] == Claim(old(freeBlocks[..]), old(FileBlocks(directory[..], inodes[..], i)))
      ensures i != -1 && old(Consistent()) &&
              (forall b :: b in old(FileBlocks(directory[..], inodes[..], i)) ==> 0 <= b < NUM_BLOCKS && old(freeBlocks[b])) ==>
                Consistent()
    {
      var e := FindNamed(name);
      i := e;
      if e == -1 {
        return Failed(FileNotFound), i;
      }
      assert Recorded(directory[..], e);
      Relink(e);
      r := Done;
    }

    /** The writes of `Undelete` once the entry e is found (filesystem.c:510-524). */
    method Relink(e: int)
      requires Valid() && 0 <= e < NUM_FILES && Recorded(directory[..], e)
      modifies directory, inodes, freeBlocks
      ensures Valid()
      ensures (directory[..], inodes[..]) == SetLive(old(directory[..]), old(inodes[..]), e, true)
      ensures freeBlocks[..] == Claim(old(freeBlocks[..]), old(FileBlocks(directory[..], inodes[..], e)))
      ensures old(Consistent()) &&
              (forall b :: b in old(FileBlocks(directory[..], inodes[..], e)) ==> 0 <= b < NUM_BLOCKS && old(freeBlocks[b])) ==>
                Consistent()
    {
      var n := directory[e].inode;
      ghost var dir0, inodes0, free0 := directory[..], inodes[..], freeBlocks[..];
      directory[e] := directory[e].(inUse := true);
      inodes[n] := inodes[n].(inUse := true);
      assert (directory[..], inodes[..]) == SetLive(dir0, inodes0, e, true);
      SetLiveKeepsValid(dir0, inodes0, freeInodes[..], e, true);
      ClaimListed(n);
      if BlocksConsistent(dir0, inodes0, free0) &&
         forall b :: b in FileBlocks(dir0, inodes0, e) ==> 0 <= b < NUM_BLOCKS && free0[b] {
        UndeleteKeepsConsistent(dir0, inodes0, freeInodes[..], free0, e);
      }
    }

    /** The block loop of `Undelete` (filesystem.c:516-524): marks taken every block the inode lists. */
    method ClaimListed(n: int)
      requires Shaped() && 0 <= n < NUM_FILES && WellFormed(inodes[n])
      modifies freeBlocks
      ensures freeBlocks[..] == Claim(old(freeBlocks[..]), Listed(inodes[n]))
    {
      ghost var blocks := inodes[n].blocks;
      ghost var m := FirstUnused(blocks, 0);
      var k := 0;
      var index := inodes[n].blocks[0];
      while index != UNUSED && k < BLOCKS_PER_FILE
        invariant 0 <= k <= m
        invariant k < BLOCKS_PER_FILE ==> index == blocks[k]
        invariant freeBlocks[..] == Claim(old(freeBlocks[..]), blocks[..k])
        decreases BLOCKS_PER_FILE - k
      {
        freeBlocks[index] := false;
        assert blocks[..k + 1] == blocks[..k] + [index];
        k := k + 1;
        if k < BLOCKS_PER_FILE {
          index := inodes[n].blocks[k];
        }
      }
    }

    /**
     * `attrib` (filesystem.c:528-554): every entry named `name`, deleted or not, has the
     * attribute of its file set to AttribValue(flag). The source writes `inodes[i]`, the inode
     * with the entry's own index (lines 546 and 550); this writes the inode the entry names.
     */
    method Attrib(flag: string, name: string)
      requires Valid() && name != ""
      modifies inodes
      ensures Valid()
      ensures AttribValue(flag).None? ==> unchanged(inodes)
      ensures AttribValue(flag).Some? ==>
                inodes[..] == Attributed(directory[..], old(inodes[..]), name, AttribValue(flag).value, NUM_FILES)
      ensures old(Consistent()) ==> Consistent()
    {
      var value := AttribValue(flag);
      if value.None? {
        return;
      }
      var v := value.value;
      ghost var inos0 := inodes[..];
      var i := 0;
      while i < NUM_FILES
        invariant 0 <= i <= NUM_FILES
        invariant inodes[..] == Attributed(directory[..], inos0, name, v, i)
      {
        AttributedStep(directory[..], inos0, name, v, i);
        if directory[i].filename == name {
          assert Recorded(directory[..], i);
          var n := directory[i].inode;
          inodes[n] := inodes[n].(attribute := v);
        }
        i := i + 1;
      }
      AttributedKeeps(directory[..], inos0, freeInodes[..], freeBlocks[..], name, v);
    }

    /**
     * `list` (filesystem.c:262-318): every entry in use has the hour of its inode adjusted to
     * DisplayHour (the source reduces `inodes[i].hr` at line 283; this reduces the hour it
     * tested), and the rows printed are those of Rows over the adjusted table; `found` is
     * false exactly when the source prints that no file was found.
     */
    method List(flag: string) returns (rows: seq<ListRow>, found: bool)
      requires Valid()
      modifies inodes
      ensures Valid()
      ensures inodes[..] == Displayed(directory[..], old(inodes[..]), NUM_FILES)
      ensures rows == Rows(directory[..], inodes[..], flag, NUM_FILES)
      ensures found <==> exists i :: 0 <= i < NUM_FILES && directory[i].inUse
      ensures old(Consistent()) ==> Consistent()
    {
      ghost var inos0 := inodes[..];
      assert forall i :: 0 <= i < NUM_FILES && directory[i].inUse ==> Recorded(directory[..], i);
      rows, found := ListEntries(flag);
      DisplayedKeeps(directory[..], inos0, freeInodes[..], freeBlocks[..]);
    }

    /** The loop of `list` over the directory, where entries in use name distinct inodes of the table. */
    method ListEntries(flag: string) returns (rows: seq<ListRow>, found: bool)
      requires Shaped()
      requires forall i :: 0 <= i < NUM_FILES && directory[i].inUse ==> 0 <= directory[i].inode < NUM_FILES
      requires forall i, j :: 0 <= j < i < NUM_FILES && directory[i].inUse && directory[j].inUse ==>
                 directory[j].inode != directory[i].inode
      modifies inodes
      ensures inodes[..] == Displayed(directory[..], old(inodes[..]), NUM_FILES)
      ensures rows == Rows(directory[..], inodes[..], flag, NUM_FILES)
      ensures found <==> exists i :: 0 <= i < NUM_FILES && directory[i].inUse
    {
      ghost var inos0 := inodes[..];
      ghost var dir := directory[..];
      ghost var shown := Displayed(dir, inos0, NUM_FILES);
      rows, found := [], false;
      var i := 0;
      while i < NUM_FILES
        invariant 0 <= i <= NUM_FILES
        invariant inodes[..] == Displayed(dir, inos0, i)
        invariant rows == Rows(dir, shown, flag, i)
        invariant found <==> exists j :: 0 <= j < i && directory[j].inUse
      {
        DisplayedStep(dir, inos0, i);
        if directory[i].inUse {
          found := true;
          var n := directory[i].inode;
          DisplayedFinal(dir, inos0, NUM_FILES, i);
          AdjustHour(n);
          assert inodes[..] == Displayed(dir, inos0, i + 1);
          var row := EntryRow(i, flag);
          rows := rows + row;
        }
        i := i + 1;
      }
    }

    /** The hour adjustment of `list` for one inode (filesystem.c:277-284). */
    method AdjustHour(n: int)
      requires Shaped() && 0 <= n < NUM_FILES
      modifies inodes
      ensures inodes[..] == old(inodes[..])[n := old(inodes[n]).(hr := DisplayHour(old(inodes[n].hr)))]
    {
      if inodes[n].hr < 0 {
        inodes[n] := inodes[n].(hr := inodes[n].hr + 24);
      }
      if inodes[n].hr > 12 {
        inodes[n] := inodes[n].(hr := inodes[n].hr % 12);
      }
    }

    /** What `list` prints for entry i, which is in use (filesystem.c:286-310): its row, unless it is hidden and no flag shows everything. */
    method EntryRow(i: int, flag: string) returns (r: seq<ListRow>)
      requires Shaped() && 0 <= i < NUM_FILES && directory[i].inUse && 0 <= directory[i].inode < NUM_FILES
      ensures r == if Shown(directory[..], inodes[..], flag, i) then [RowOf(directory[..], inodes[..], flag, i)] else []
    {
      var ino := inodes[directory[i].inode];
      if flag == "-h" {
        r := [ListRow(directory[i].filename, ino.fileSize, ino.hr, ino.min, ino.sec, None)];
      } else if flag == "-a" {
        r := [ListRow(directory[i].filename, ino.fileSize, ino.hr, ino.min, ino.sec, Some(ino.attribute))];
      } else if ino.attribute != HIDDEN {
        r := [ListRow(directory[i].filename, ino.fileSize, ino.hr, ino.min, ino.sec, None)];
      } else {
        r := [];
      }
    }

    /**
     * `readFile` (filesystem.c:556-601): for every entry named `name`, deleted or not, the
     * bytes at offsets [start, start + num) of its file, in directory order.
     */
    method ReadFile(name: string, start: int, num: int) returns (out: seq<bv8>)
      requires Valid() && name != ""
      ensures out == ReadUpTo(data[..], directory[..], inodes[..], name, start, num, NUM_FILES)
    {
      out := [];
      var i := 0;
      while i < NUM_FILES
        invariant 0 <= i <= NUM_FILES
        invariant out == ReadUpTo(data[..], directory[..], inodes[..], name, start, num, i)
      {
        if directory[i].filename == name {
          assert Recorded(directory[..], i);
          var bytes := ReadRange(directory[i].inode, start, num);
          out := out + bytes;
        }
        i := i + 1;
      }
    }

    /**
     * The block loop of `readFile` for inode n (filesystem.c:562-597): blocks start / BLOCK_SIZE
     * to (start + num) / BLOCK_SIZE, the first read from start % BLOCK_SIZE and the last up to
     * (start + num) % BLOCK_SIZE. A range that is negative or leaves the listed blocks, which
     * the source reads out of bounds, emits nothing.
     */
    method ReadRange(n: int, start: int, num: int) returns (out: seq<bv8>)
      requires Sized() && 0 <= n < NUM_FILES && WellFormed(inodes[n])
      ensures out == RangeOf(data[..], inodes[n], start, num)
    {
      ghost var L := Listed(inodes[n]);
      WellFormedReadable(data[..], inodes[n]);
      var count := FirstUnused(inodes[n].blocks, 0);
      if !(0 <= start && 0 <= num && start + num <= count * BLOCK_SIZE) {
        return [];
      }
      var end := start + num;
      var startBlock, endBlock := start / BLOCK_SIZE, end / BLOCK_SIZE;
      out := [];
      var j := startBlock;
      while j <= endBlock
        invariant startBlock <= j <= endBlock + 1
        invariant out == Span(data[..], L, start, if j == startBlock then start else Min(j * BLOCK_SIZE, end))
      {
        var lo, hi;
        if startBlock == endBlock {
          lo, hi := start % BLOCK_SIZE, end % BLOCK_SIZE;
        } else if j == endBlock {
          lo, hi := 0, end % BLOCK_SIZE;
        } else if j == startBlock {
          lo, hi := start % BLOCK_SIZE, BLOCK_SIZE;
        } else {
          lo, hi := 0, BLOCK_SIZE;
        }
        var bytes := ReadBlock(n, j, lo, hi);
        SpanAppend(data[..], L, start, j * BLOCK_SIZE + lo, j * BLOCK_SIZE + hi);
        out := out + bytes;
        j := j + 1;
      }
    }

    /** The bytes lo to hi of the j-th block of inode n, one at a time. */
    method ReadBlock(n: int, j: int, lo: int, hi: int) returns (bytes: seq<bv8>)
      requires Shaped() && 0 <= n < NUM_FILES && BlocksIn(data[..], Listed(inodes[n]))
      requires 0 <= j && 0 <= lo <= hi <= BLOCK_SIZE && j * BLOCK_SIZE + hi <= |Listed(inodes[n])| * BLOCK_SIZE
      ensures bytes == Span(data[..], Listed(inodes[n]), j * BLOCK_SIZE + lo, j * BLOCK_SIZE + hi)
    {
      ghost var L := Listed(inodes[n]);
      bytes := [];
      var k := lo;
      while k < hi
        invariant lo <= k <= hi
        invariant bytes == Span(data[..], L, j * BLOCK_SIZE + lo, j * BLOCK_SIZE + k)
      {
        assert j < |L|;
        DivMod(j, k);
        SpanSnoc(data[..], L, j * BLOCK_SIZE + lo, j * BLOCK_SIZE + k);
        bytes := bytes + [data[inodes[n].blocks[j]][k]];
        k := k + 1;
      }
    }

    /**
     * `encryptFile` (filesystem.c:603-653), which also serves `decrypt`: for every entry named
     * `name`, deleted or not, the bytes of its file are XORed with `cipher` in place.
     */
    method EncryptFile(name: string, cipher: bv8)
      requires Valid() && name != ""
      modifies data
      ensures Valid()
      ensures data[..] == EncryptUpTo(old(data[..]), directory[..], inodes[..], name, cipher, NUM_FILES)
    {
      ghost var d0 := data[..];
      var i := 0;
      while i < NUM_FILES
        invariant 0 <= i <= NUM_FILES && Sized()
        invariant data[..] == EncryptUpTo(d0, directory[..], inodes[..], name, cipher, i)
      {
        if directory[i].filename == name {
          assert Recorded(directory[..], i);
          XorInPlace(directory[i].inode, cipher);
        }
        i := i + 1;
      }
    }

    /**
     * The block loop of `encryptFile` for inode n (filesystem.c:609-649): offsets [0, fileSize),
     * block by block, the last block up to fileSize % BLOCK_SIZE.
     */
    method XorInPlace(n: int, cipher: bv8)
      requires Sized() && 0 <= n < NUM_FILES && WellFormed(inodes[n])
      modifies data
      ensures Sized()
      ensures data[..] == XorFile(old(data[..]), inodes[n], cipher)
    {
      ghost var d0, ino := data[..], inodes[n];
      WellFormedReadable(d0, ino);
      XorBelowZero(d0, ino, cipher);
      var size := inodes[n].fileSize;
      var endBlock := size / BLOCK_SIZE;
      var j := 0;
      while j <= endBlock
        invariant 0 <= j <= endBlock + 1 && Sized()
        invariant data[..] == XorBelow(d0, ino, cipher, Min(j * BLOCK_SIZE, size))
      {
        var hi := if j == endBlock then size % BLOCK_SIZE else BLOCK_SIZE;
        BlockExtent(size, j);
        XorBlock(n, j, hi, cipher, d0, ino);
        j := j + 1;
      }
    }

    /** Bytes [0, hi) of the j-th block of inode n XORed in place, the file's offsets j * BLOCK_SIZE to j * BLOCK_SIZE + hi. */
    method XorBlock(n: int, j: int, hi: int, cipher: bv8, ghost d0: Disk, ghost ino: Inode)
      requires Shaped() && 0 <= n < NUM_FILES && inodes[n] == ino && WellFormed(ino) && FullBlocks(d0) && |d0| == NUM_BLOCKS
      requires 0 <= j && 0 <= hi <= BLOCK_SIZE && j * BLOCK_SIZE + hi <= ino.fileSize
      requires data[..] == XorBelow(d0, ino, cipher, j * BLOCK_SIZE)
      modifies data
      ensures data[..] == XorBelow(d0, ino, cipher, j * BLOCK_SIZE + hi)
    {
      var k := 0;
      while k < hi
        invariant 0 <= k <= hi
        invariant data[..] == XorBelow(d0, ino, cipher, j * BLOCK_SIZE + k)
      {
        assert j < |Listed(ino)|;
        XorBelowStep(d0, ino, cipher, j, k);
        var b := inodes[n].blocks[j];
        data[b] := data[b][k := data[b][k] ^ cipher];
        k := k + 1;
      }
    }

    /**
     * `retrieveExt` (filesystem.c:705-753): the file written to `outName` when some entry,
     * deleted or not, is named `name`. Every such entry rewrites the output in turn, so the
     * last one's content is what remains; None when no entry has the name.
     */
    method RetrieveExt(name: string, outName: string) returns (r: Option<Retrieved>)
      requires Valid() && name != ""
      ensures var last := LastNamed(directory[..], name, NUM_FILES);
              r == if last == -1 then None else Some(Retrieved(outName, FileContent(last)))
    {
      r := None;
      var i := 0;
      ghost var last := -1;
      while i < NUM_FILES
        invariant 0 <= i <= NUM_FILES && last == LastNamed(directory[..], name, i)
        invariant last == -1 ==> r == None
        invariant last != -1 ==> Recorded(directory[..], last) && r == Some(Retrieved(outName, FileContent(last)))
      {
        if directory[i].filename == name {
          var bytes := ReadEntry(i);
          r := Some(Retrieved(outName, bytes));
          last := i;
        }
        i := i + 1;
      }
    }

    /** The bytes of the file entry i names, read through its inode. */
    method ReadEntry(i: int) returns (bytes: seq<bv8>)
      requires Valid() && 0 <= i < NUM_FILES && directory[i].filename != ""
      ensures bytes == FileContent(i)
    {
      assert Recorded(directory[..], i);
      bytes := ReadOut(directory[i].inode);
    }

    /** `retrieve` (filesystem.c:655-703): `retrieveExt` with the file's own name as the output. */
    method Retrieve(name: string) returns (r: Option<Retrieved>)
      requires Valid() && name != ""
      ensures r.Some? <==> exists i :: 0 <= i < NUM_FILES && directory[i].filename == name
      ensures r.Some? ==> r.value.path == name && r.value.bytes == FileContent(LastNamed(directory[..], name, NUM_FILES))
    {
      r := RetrieveExt(name, name);
    }

    /**
     * The copy loop of `retrieve` for inode n (filesystem.c:679-698): BLOCK_SIZE bytes of each
     * listed block in turn, the last block only up to the remaining size.
     */
    method ReadOut(n: int) returns (bytes: seq<bv8>)
      requires Sized() && 0 <= n < NUM_FILES && WellFormed(inodes[n])
      ensures Readable(data[..], inodes[n]) && bytes == Content(data[..], inodes[n])
    {
      ghost var L := Listed(inodes[n]);
      WellFormedReadable(data[..], inodes[n]);
      var size := inodes[n].fileSize;
      var blockIndex := 0;
      var remaining: int := size;
      bytes := [];
      while remaining > 0
        invariant 0 <= blockIndex <= |L| && remaining == size - blockIndex * BLOCK_SIZE
        invariant remaining > 0 ==> blockIndex < |L|
        invariant bytes == Span(data[..], L, 0, Min(blockIndex * BLOCK_SIZE, size))
        decreases remaining
      {
        var count := if remaining < BLOCK_SIZE then remaining else BLOCK_SIZE;
        SpanExtendBlock(data[..], L, blockIndex, count);
        bytes := bytes + data[inodes[n].blocks[blockIndex]][..count];
        remaining := remaining - BLOCK_SIZE;
        blockIndex := blockIndex + 1;
      }
    }
  }
}
