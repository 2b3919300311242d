/**
 * Parts of filesystem.c modelled as written, each with the input that shows how it departs
 * from what the surrounding code evidently intends. The rest of the model uses the corrected
 * behaviour; README's Findings table pairs each one here with its correction.
 */
module Findings {
  import opened FsTypes
  import opened Bitmap
  import opened InsertCopy
  import opened DirectoryView
  import opened Tables
  import opened FileLayout

  /** `findFreeBlock` as written (filesystem.c:88-100): clears the lowest set flag i from block 0 on and returns i + 1001. */
  function FindFreeBlockAsWritten(flags: seq<bool>): (seq<bool>, int) {
    var i := FirstFree(flags, 0);
    if i == -1 then (flags, -1) else (flags[i := false], i + FIRST_DATA_BLOCK)
  }

  /**
   * On a fresh image the block handed out is 1001 while flag 0 is cleared instead: block 1001
   * stays marked free and `df` still counts it.
   */
  lemma FindFreeBlockLeavesBlockFree(s: seq<bool>)
    requires |s| == NUM_BLOCKS && forall b :: 0 <= b < |s| ==> s[b]
    ensures var (flags, b) := FindFreeBlockAsWritten(s);
            b == FIRST_DATA_BLOCK && flags[b] &&
            CountFree(flags, FIRST_DATA_BLOCK, NUM_BLOCKS) == CountFree(s, FIRST_DATA_BLOCK, NUM_BLOCKS)
  {
    var (flags, b) := FindFreeBlockAsWritten(s);
    assert FirstFree(s, 0) == 0;
    CountFreeSame(flags, s, FIRST_DATA_BLOCK, NUM_BLOCKS);
  }

  /**
   * One pass of the copy loop of `insert` (filesystem.c:427-461) with line 461 as written and
   * `findFreeBlock` corrected (lines 95-96): the block the chunk goes to, and a second block
   * claimed at the end of the pass and never recorded.
   */
  function ChunkClaimAsWritten(flags: seq<bool>): (seq<bool>, int) {
    var b := FirstFree(flags, FIRST_DATA_BLOCK);
    if b == -1 then (flags, -1)
    else
      var f := flags[b := false];
      var b' := FirstFree(f, FIRST_DATA_BLOCK);
      (if b' == -1 then f else f[b' := false], b)
  }

  /**
   * With `findFreeBlock` corrected, a one-chunk file on a fresh image lists block 1001, yet
   * block 1002 is taken too and two blocks' worth of free space is gone.
   */
  lemma ChunkClaimLeaksBlock(s: seq<bool>)
    requires |s| == NUM_BLOCKS && forall b :: 0 <= b < |s| ==> s[b]
    ensures var (flags, b) := ChunkClaimAsWritten(s);
            b == FIRST_DATA_BLOCK && !flags[FIRST_DATA_BLOCK + 1] &&
            CountFree(flags, FIRST_DATA_BLOCK, NUM_BLOCKS) + 2 == CountFree(s, FIRST_DATA_BLOCK, NUM_BLOCKS)
  {
    var f := s[FIRST_DATA_BLOCK := false];
    assert FirstFree(s, FIRST_DATA_BLOCK) == FIRST_DATA_BLOCK;
    assert FirstFree(f, FIRST_DATA_BLOCK + 1) == FIRST_DATA_BLOCK + 1;
    assert FirstFree(f, FIRST_DATA_BLOCK) == FIRST_DATA_BLOCK + 1;
    assert ChunkClaimAsWritten(s) == (f[FIRST_DATA_BLOCK + 1 := false], FIRST_DATA_BLOCK);
    CountFreeUpdate(s, FIRST_DATA_BLOCK, NUM_BLOCKS, FIRST_DATA_BLOCK, false);
    CountFreeUpdate(f, FIRST_DATA_BLOCK, NUM_BLOCKS, FIRST_DATA_BLOCK + 1, false);
  }

  /**
   * One pass of the copy loop of `insert` fully as written (filesystem.c:427-461): the block
   * the as-written `findFreeBlock` hands out takes the chunk and has its own flag cleared
   * (line 440), then `findFreeBlock` runs once more and its result is dropped (line 461).
   * Returns the new flags and the block recorded, or -1 when the search found none.
   */
  function PassAsWritten(flags: seq<bool>): (seq<bool>, int) {
    var (f1, b) := FindFreeBlockAsWritten(flags);
    if b == -1 then (f1, -1)
    else
      var f2 := if b < |f1| then f1[b := false] else f1;
      (FindFreeBlockAsWritten(f2).0, b)
  }

  /** n passes of the copy loop fully as written: the flags and the blocks the inode lists. */
  function PassesAsWritten(flags: seq<bool>, n: nat): (seq<bool>, seq<int>)
    decreases n
  {
    if n == 0 then (flags, [])
    else
      var prev := PassesAsWritten(flags, n - 1);
      var step := PassAsWritten(prev.0);
      if step.1 == -1 then (step.0, prev.1) else (step.0, prev.1 + [step.1])
  }

  /** When k is the lowest free flag, the as-written search clears it and returns k + FIRST_DATA_BLOCK. */
  lemma FindLowest(f: seq<bool>, k: nat)
    requires k < |f| && f[k] && forall b :: 0 <= b < k ==> !f[b]
    ensures FindFreeBlockAsWritten(f) == (f[k := false], k + FIRST_DATA_BLOCK)
  {
    var r := FirstFree(f, 0);
    assert r != -1;
    assert !(r < k) && !(k < r);
  }

  /** The first pass on a fresh image: block 1001 is recorded and flags 0, 1001 and 1 are cleared. */
  lemma FirstPassFresh(s: seq<bool>)
    requires |s| == NUM_BLOCKS && forall b :: 0 <= b < |s| ==> s[b]
    ensures PassesAsWritten(s, 1) == (s[0 := false][FIRST_DATA_BLOCK := false][1 := false], [FIRST_DATA_BLOCK])
  {
    assert PassesAsWritten(s, 0) == (s, []);
    FindLowest(s, 0);
    FindLowest(s[0 := false][FIRST_DATA_BLOCK := false], 1);
    assert [] + [FIRST_DATA_BLOCK] == [FIRST_DATA_BLOCK];
  }

  /** Clearing flags 0, 1001 and 1 of a fresh image lowers the count from 1001 by one. */
  lemma FirstPassCount(s: seq<bool>)
    requires |s| == NUM_BLOCKS && forall b :: 0 <= b < |s| ==> s[b]
    ensures CountFree(s[0 := false][FIRST_DATA_BLOCK := false][1 := false], FIRST_DATA_BLOCK, NUM_BLOCKS) + 1
            == CountFree(s, FIRST_DATA_BLOCK, NUM_BLOCKS)
  {
    var a := s[0 := false];
    CountFreeUpdate(s, FIRST_DATA_BLOCK, NUM_BLOCKS, 0, false);
    CountFreeUpdate(a, FIRST_DATA_BLOCK, NUM_BLOCKS, FIRST_DATA_BLOCK, false);
    CountFreeUpdate(a[FIRST_DATA_BLOCK := false], FIRST_DATA_BLOCK, NUM_BLOCKS, 1, false);
  }

  /**
   * Fully as written, the dropped call consumes the next flag instead: a one-chunk file on a
   * fresh image lists 1001, leaves 1002 free and lowers the count by one.
   */
  lemma ChunkClaimSkipsBlock(s: seq<bool>)
    requires |s| == NUM_BLOCKS && forall b :: 0 <= b < |s| ==> s[b]
    ensures var (f, L) := PassesAsWritten(s, 1);
            L == [FIRST_DATA_BLOCK] && f[FIRST_DATA_BLOCK + 1] &&
            CountFree(f, FIRST_DATA_BLOCK, NUM_BLOCKS) + 1 == CountFree(s, FIRST_DATA_BLOCK, NUM_BLOCKS)
  {
    FirstPassFresh(s);
    FirstPassCount(s);
  }

  /** The second pass on a fresh image: block 1003 is recorded and flags 2, 1003 and 3 are cleared. */
  lemma SecondPassFresh(s: seq<bool>)
    requires |s| == NUM_BLOCKS && forall b :: 0 <= b < |s| ==> s[b]
    ensures var f := s[0 := false][FIRST_DATA_BLOCK := false][1 := false];
            PassAsWritten(f) == (f[2 := false][FIRST_DATA_BLOCK + 2 := false][3 := false], FIRST_DATA_BLOCK + 2)
  {
    var f := s[0 := false][FIRST_DATA_BLOCK := false][1 := false];
    FindLowest(f, 2);
    var g1 := f[2 := false][FIRST_DATA_BLOCK + 2 := false];
    FindLowest(g1, 3);
  }

  /** Two passes on a fresh image, in full: the flags cleared and the blocks listed. */
  lemma TwoPassesFresh(s: seq<bool>)
    requires |s| == NUM_BLOCKS && forall b :: 0 <= b < |s| ==> s[b]
    ensures PassesAsWritten(s, 2) ==
            (s[0 := false][FIRST_DATA_BLOCK := false][1 := false][2 := false][FIRST_DATA_BLOCK + 2 := false][3 := false],
             [FIRST_DATA_BLOCK, FIRST_DATA_BLOCK + 2])
  {
    FirstPassFresh(s);
    SecondPassFresh(s);
    assert [FIRST_DATA_BLOCK] + [FIRST_DATA_BLOCK + 2] == [FIRST_DATA_BLOCK, FIRST_DATA_BLOCK + 2];
  }

  /** On a fresh image, blocks 1001 and 1003 are not what first fit hands out for two chunks. */
  lemma GapNotFirstFit(s: seq<bool>)
    requires |s| == NUM_BLOCKS && forall b :: 0 <= b < |s| ==> s[b]
    ensures !FirstFit(s, [FIRST_DATA_BLOCK, FIRST_DATA_BLOCK + 2])
  {
    var L := [FIRST_DATA_BLOCK, FIRST_DATA_BLOCK + 2];
    var c := Claim(s, [FIRST_DATA_BLOCK]);
    assert !c[FIRST_DATA_BLOCK] && c[FIRST_DATA_BLOCK + 1];
    assert FirstFree(c, FIRST_DATA_BLOCK + 1) == FIRST_DATA_BLOCK + 1;
    assert FirstFree(c, FIRST_DATA_BLOCK) == FIRST_DATA_BLOCK + 1;
    assert L[..1] == [FIRST_DATA_BLOCK];
    assert L[1] != FirstFree(Claim(s, L[..1]), FIRST_DATA_BLOCK);
  }

  /**
   * Two passes on a fresh image: the file gets blocks 1001 and 1003 and the free block 1002
   * is skipped, so its blocks are not the first-fit ones.
   */
  lemma SecondChunkSkipsBlock(s: seq<bool>)
    requires |s| == NUM_BLOCKS && forall b :: 0 <= b < |s| ==> s[b]
    ensures var (f, L) := PassesAsWritten(s, 2);
            L == [FIRST_DATA_BLOCK, FIRST_DATA_BLOCK + 2] && f[FIRST_DATA_BLOCK + 1] && !FirstFit(s, L)
  {
    TwoPassesFresh(s);
    GapNotFirstFit(s);
    var k := FIRST_DATA_BLOCK + 1;
    var f0 := s[0 := false];
    assert f0[k];
    var f1 := f0[FIRST_DATA_BLOCK := false];
    assert f1[k];
    var f2 := f1[1 := false];
    assert f2[k];
    var f3 := f2[2 := false];
    assert f3[k];
    var f4 := f3[FIRST_DATA_BLOCK + 2 := false];
    assert f4[k];
    assert f4[3 := false][k];
  }

  /**
   * `strncpy(field, name, strlen(name))` as written (filesystem.c:413, and for the image
   * name 190): the name's bytes are copied but no terminating zero, and `insert` does not clear
   * the field first, so the tail of a longer old name stays behind.
   */
  function CopyNameAsWritten(prev: string, name: string): string {
    if |prev| > |name| then name + prev[|name|..] else name
  }

  /** Entry 0 keeps the name "abcdef" of a deleted file; every other entry is empty. */
  function DeletedEntry(): (dir: seq<DirectoryEntry>)
    ensures |dir| == NUM_FILES
  {
    seq(NUM_FILES, i => if i == 0 then DirectoryEntry("abcdef", false, 0) else DirectoryEntry("", false, UNUSED))
  }

  /**
   * `insert xy` reuses entry 0 and, as written, it reads "xycdef": neither the lookup of
   * `delete`/`read` nor that of `retrieve` finds "xy" afterwards.
   */
  lemma StaleNameTail()
    ensures var dir := DeletedEntry();
            var e := FirstFree(FreeEntries(dir), 0);
            var dir' := dir[e := DirectoryEntry(CopyNameAsWritten(dir[e].filename, "xy"), true, 1)];
            e == 0 && dir'[0].filename == "xycdef" &&
            FirstNamed(dir', "xy", 0) == -1 && LastNamed(dir', "xy", NUM_FILES) == -1
  {
    var dir := DeletedEntry();
    assert FreeEntries(dir)[0];
    assert FirstFree(FreeEntries(dir), 0) == 0;
    var n := CopyNameAsWritten("abcdef", "xy");
    assert n == "xycdef";
    var dir' := dir[0 := DirectoryEntry(n, true, 1)];
    assert forall i :: 0 <= i < NUM_FILES ==> dir'[i].filename != "xy";
  }

  /**
   * The byte offsets of the tables `init` lays over `data` (filesystem.c:132-135), with the
   * record sizes of the usual 64-bit ABI: a directory entry takes 72 bytes (name, in_use,
   * two bytes of padding, inode) and an inode 4116 (1024 slots, in_use, attribute, one byte of
   * padding, file_size, hr, min, sec).
   */
  const ENTRY_BYTES: nat := 72
  const INODE_BYTES: nat := 4116
  const INODE_TABLE_AT: nat := 20 * BLOCK_SIZE
  const FREE_MAP_AT: nat := 1000 * BLOCK_SIZE

  /** Where byte k of block b lies in the flat image. */
  function BlockByte(b: nat, k: nat): nat {
    b * BLOCK_SIZE + k
  }

  /** Where the free flag of block b lies: `free_blocks` starts at block 1000. */
  function FlagByte(b: nat): nat {
    FREE_MAP_AT + b
  }

  /** Where slot j of inode i lies: the inode table starts at block 20. */
  function SlotByte(i: nat, j: nat): nat {
    INODE_TABLE_AT + i * INODE_BYTES + 4 * j
  }

  /** Line 440 as written on the flat image: the flag of block b is a byte, set to 0. */
  function ClaimFlat(m: seq<bv8>, b: nat): seq<bv8>
    requires FlagByte(b) < |m|
  {
    m[FlagByte(b) := 0]
  }

  /**
   * The free map and the inode table both reach into the data area: the flags occupy blocks
   * 1000-1063 and the inodes blocks 20-1048, while data blocks start at 1001. The flag of
   * block 1024 is byte 0 of block 1001. The two tables also overlap each other: the free map
   * starts at slot 833 of inode 243, whose attribute byte is flag 766, and inodes 244-255 lie
   * wholly inside it, as flags 784-50175. So a flag write for a block from 1024 on changes a
   * data byte, and one for a block from 784 on changes one of those inodes: inode 244's
   * attribute is flag 4882, a byte of data block 1004.
   */
  lemma TablesOverlapData()
    ensures FlagByte(0) / BLOCK_SIZE == 1000 && FlagByte(NUM_BLOCKS - 1) / BLOCK_SIZE == 1063
    ensures (INODE_TABLE_AT + NUM_FILES * INODE_BYTES - 1) / BLOCK_SIZE == 1048
    ensures FlagByte(1024) == BlockByte(FIRST_DATA_BLOCK, 0)
    ensures SlotByte(243, 832) < FREE_MAP_AT <= SlotByte(243, 833)
    ensures INODE_TABLE_AT + 243 * INODE_BYTES + 4098 == FlagByte(766)
    ensures FREE_MAP_AT <= INODE_TABLE_AT + 244 * INODE_BYTES
    ensures INODE_TABLE_AT + NUM_FILES * INODE_BYTES <= FlagByte(NUM_BLOCKS)
    ensures INODE_TABLE_AT + 244 * INODE_BYTES == FlagByte(784)
    ensures INODE_TABLE_AT + NUM_FILES * INODE_BYTES == FlagByte(50176)
    ensures INODE_TABLE_AT + 244 * INODE_BYTES + 4098 == FlagByte(4882) && FlagByte(4882) / BLOCK_SIZE == 1004
  {
  }

  /**
   * A file of at least 24 chunks inserted on a fresh image, even with every other finding
   * corrected: chunk 0 lies in block 1001 and chunk 23 in block 1024, so recording chunk 23
   * sets the first byte of the file to 0.
   */
  lemma ClaimOverwritesFileByte(m: seq<bv8>, flags: seq<bool>, L: seq<int>)
    requires |flags| == NUM_BLOCKS && forall b :: 0 <= b < NUM_BLOCKS ==> flags[b]
    requires FirstFit(flags, L) && |L| >= 24
    requires |m| == NUM_BLOCKS * BLOCK_SIZE
    ensures L[0] == FIRST_DATA_BLOCK && L[23] == 1024
    ensures ClaimFlat(m, L[23])[BlockByte(L[0], 0)] == 0
  {
    FreshFirstFit(flags, L);
  }

  /**
   * `createfs` as written on the flat image (filesystem.c:192 and 217-219): every byte is
   * zeroed, then the NUM_BLOCKS flag bytes are set to 1. The inode reset is left out here.
   */
  function CreatedFlat(): (m: seq<bv8>)
    ensures |m| == NUM_BLOCKS * BLOCK_SIZE
  {
    seq(NUM_BLOCKS * BLOCK_SIZE, p => if FREE_MAP_AT <= p < FREE_MAP_AT + NUM_BLOCKS then 1 as bv8 else 0)
  }

  /** After `createfs` as written, every byte of data block 1001 holds 1, not 0. */
  lemma CreatedBlockNotZero()
    ensures forall k :: 0 <= k < BLOCK_SIZE ==> CreatedFlat()[BlockByte(FIRST_DATA_BLOCK, k)] == 1
  {
  }

  /**
   * The flag loop runs after the inode reset (filesystem.c:163-166 in `init`, 216-219 in
   * `createfs`), so it also writes 1 over the inodes that lie in the free map. Inode 243, the
   * one the 244th insert takes, has attribute HIDDEN, which `insert` never rewrites, so a plain
   * `list` leaves that file out. No slot of inodes 244-255 holds -1, whose bytes are all 0xFF,
   * so `findFreeInodeBlock` finds no slot for them.
   */
  lemma CreatedInodesOverwritten()
    ensures CreatedFlat()[INODE_TABLE_AT + 243 * INODE_BYTES + 4098] == HIDDEN
    ensures forall i, j :: 244 <= i < NUM_FILES && 0 <= j < BLOCKS_PER_FILE ==>
              CreatedFlat()[SlotByte(i, j)] == 1
  {
  }

  /**
   * The reset loop as written for inode i (filesystem.c:152-154 and 207-209) on the flat image:
   * slots 0 .. NUM_BLOCKS-1 are written, each with -1, that is four 0xFF bytes.
   */
  function ResetSlotsAsWritten(m: seq<bv8>, i: nat): (r: seq<bv8>)
    ensures |r| == |m|
  {
    seq(|m|, p requires 0 <= p < |m| => if SlotByte(i, 0) <= p < SlotByte(i, NUM_BLOCKS) then 0xFF as bv8 else m[p])
  }

  /**
   * Slot BLOCKS_PER_FILE is already the inode's in_use field, inode 0's loop runs over the
   * inodes after it, and that of inode 255 writes 0xFF into data blocks up to 1300.
   */
  lemma ResetLoopOverruns(m: seq<bv8>)
    requires |m| == NUM_BLOCKS * BLOCK_SIZE
    ensures SlotByte(0, BLOCKS_PER_FILE) == INODE_TABLE_AT + 4096
    ensures SlotByte(0, NUM_BLOCKS) > SlotByte(1, 0)
    ensures SlotByte(NUM_FILES - 1, NUM_BLOCKS - 1) / BLOCK_SIZE == 1300
    ensures ResetSlotsAsWritten(m, NUM_FILES - 1)[BlockByte(1300, 0)] == 0xFF
  {
    assert SlotByte(NUM_FILES - 1, 0) == 1070060 && SlotByte(NUM_FILES - 1, NUM_BLOCKS) == 1332204;
    assert BlockByte(1300, 0) == 1331200;
  }

  /**
   * `Delete` as written for a name no entry holds (filesystem.c:474-492). The scan stops at
   * i = NUM_FILES and reads the entry just past the directory, byte 0 of block 18
   * (NUM_FILES * ENTRY_BYTES), which no command sets to anything but 0, so its inode field is 0. Inode 0 is then
   * marked not in use and the blocks it lists are freed. The slots are read up to the first
   * -1 here, to keep this apart from the line-487 finding. The guard in `main` reads
   * `inodes[256].attribute`, a byte of the free map, which holds 0 or 1 unless a file write has
   * landed there, so it normally lets the call through.
   */
  function DeleteMissAsWritten(inodes: seq<Inode>, flags: seq<bool>): (seq<Inode>, seq<bool>)
    requires |inodes| == NUM_FILES
  {
    (inodes[0 := inodes[0].(inUse := false)], Release(flags, Listed(inodes[0])))
  }

  /**
   * Entry 0 "a" is live and owns inode 0, which lists block 1001. `delete zz` as written
   * frees block 1001 and clears inode 0's in-use flag although "a" is still in use.
   */
  lemma DeleteMissFreesLiveFile()
    ensures NUM_FILES * ENTRY_BYTES == BlockByte(18, 0)
    ensures FREE_MAP_AT <= INODE_TABLE_AT + NUM_FILES * INODE_BYTES + 4098 < FREE_MAP_AT + NUM_BLOCKS
    ensures var dir := seq(NUM_FILES, i => if i == 0 then DirectoryEntry("a", true, 0) else DirectoryEntry("", false, UNUSED));
            var ino := Inode(Slots([FIRST_DATA_BLOCK]), true, 0, 1, 0, 0, 0);
            var inos := seq(NUM_FILES, n => if n == 0 then ino else Inode(PristineBlocks(), false, 0, 0, 0, 0, 0));
            var flags := seq(NUM_BLOCKS, b => b != FIRST_DATA_BLOCK);
            var (inos', flags') := DeleteMissAsWritten(inos, flags);
            FirstNamed(dir, "zz", 0) == -1 && dir[0].inUse && dir[0].inode == 0 &&
            Listed(inos[0]) == [FIRST_DATA_BLOCK] && !flags[FIRST_DATA_BLOCK] &&
            flags'[FIRST_DATA_BLOCK] && !inos'[0].inUse
  {
    var dir := seq(NUM_FILES, i => if i == 0 then DirectoryEntry("a", true, 0) else DirectoryEntry("", false, UNUSED));
    assert forall i :: 0 <= i < NUM_FILES ==> dir[i].filename != "zz";
    var ino := Inode(Slots([FIRST_DATA_BLOCK]), true, 0, 1, 0, 0, 0);
    SlotsListed(ino, [FIRST_DATA_BLOCK]);
  }

  /**
   * The block numbers the loops of `Delete` and `Undelete` write flags for, as written
   * (filesystem.c:484-492 and 516-524): slots from k on, up to a slot holding 0.
   */
  function FlagsWrittenAsWritten(blocks: seq<int>, k: nat): seq<int>
    decreases |blocks| - k
  {
    if k >= |blocks| || blocks[k] == 0 then [] else [blocks[k]] + FlagsWrittenAsWritten(blocks, k + 1)
  }

  /**
   * Unused slots hold -1, not 0, so for a one-block file the loops go on past the listed block
   * and write the flag of block -1, outside the free-block table.
   */
  lemma FlagsWrittenPastListed()
    ensures UNUSED in FlagsWrittenAsWritten(Slots([FIRST_DATA_BLOCK]), 0)
  {
    var s := Slots([FIRST_DATA_BLOCK]);
    assert FlagsWrittenAsWritten(s, 0) == [FIRST_DATA_BLOCK] + FlagsWrittenAsWritten(s, 1);
    assert FlagsWrittenAsWritten(s, 1) == [UNUSED] + FlagsWrittenAsWritten(s, 2);
  }

  /** The read-only test `main` makes before `delete` (filesystem.c:889-897): the inode whose index is that of the first entry with the name. */
  predicate DeleteAllowedAsWritten(dir: seq<DirectoryEntry>, inodes: seq<Inode>, name: string)
    requires |dir| == |inodes|
  {
    var i := FirstNamed(dir, name, 0);
    0 <= i && inodes[i].attribute != READ_ONLY
  }

  /** Entry 0 is file "b", which owns inode 1; inode 0 is an older file's. */
  function ReusedEntry(attribute: bv8): (r: (seq<DirectoryEntry>, seq<Inode>))
    ensures |r.0| == NUM_FILES && |r.1| == NUM_FILES
  {
    var dir := seq(NUM_FILES, i => if i == 0 then DirectoryEntry("b", true, 1) else DirectoryEntry("", false, -1));
    var inos := seq(NUM_FILES, n => Inode(PristineBlocks(), n <= 1, if n == 1 then attribute else 0, 0, 0, 0, 0));
    (dir, inos)
  }

  /** Entry 0 names inode 1, which is read-only, yet the test reads inode 0 and lets the delete through. */
  lemma DeleteGuardReadsWrongInode()
    ensures var (dir, inos) := ReusedEntry(READ_ONLY);
            inos[dir[0].inode].attribute == READ_ONLY && DeleteAllowedAsWritten(dir, inos, "b")
  {
    var (dir, inos) := ReusedEntry(READ_ONLY);
    assert FirstNamed(dir, "b", 0) == 0;
  }

  /** `attrib` as written (filesystem.c:528-554): every entry i with the name sets the attribute of inode i. */
  function AttribAsWritten(dir: seq<DirectoryEntry>, inodes: seq<Inode>, name: string, v: bv8): (r: seq<Inode>)
    ensures |r| == |inodes|
  {
    seq(|inodes|, m requires 0 <= m < |inodes| =>
      if m < |dir| && dir[m].filename == name then inodes[m].(attribute := v) else inodes[m])
  }

  /**
   * `attrib +h b` on that directory marks inode 0 hidden and leaves the inode of "b" as it
   * was, so a plain `list`, which reads the entry's own inode, still shows "b".
   */
  lemma AttribWritesWrongInode()
    ensures var (dir, inos) := ReusedEntry(0);
            var a := AttribAsWritten(dir, inos, "b", HIDDEN);
            a[0].attribute == HIDDEN && a[1].attribute == 0 &&
            0 in ShownIndices(dir, a, "", NUM_FILES)
  {
    var (dir, inos) := ReusedEntry(0);
    var a := AttribAsWritten(dir, inos, "b", HIDDEN);
    ListingFilter(dir, a, "", 0);
  }

  /** C's `%` for a positive divisor: the remainder takes the sign of the dividend. */
  function CRem(a: int, b: int): int
    requires b > 0
  {
    if a >= 0 then a % b else -((-a) % b)
  }

  /**
   * The hour `list` stores for the entry at index i, which owns inode m, as written
   * (filesystem.c:277-284): a past-12 hour is replaced by that of inode i modulo 12.
   */
  function ListHourAsWritten(inodes: seq<Inode>, i: nat, m: nat): int
    requires i < |inodes| && m < |inodes|
  {
    var h := if inodes[m].hr < 0 then inodes[m].hr + 24 else inodes[m].hr;
    if h > 12 then (if i == m then CRem(h, 12) else CRem(inodes[i].hr, 12)) else h
  }

  /** With "b" at entry 0 stamped 18 (6 pm) and inode 0 stamped 3, the listing shows 3 instead of 6. */
  lemma ListHourReadsWrongInode()
    ensures var (dir, inos) := ReusedEntry(0);
            var inos' := inos[1 := inos[1].(hr := 18)][0 := inos[0].(hr := 3)];
            ListHourAsWritten(inos', 0, dir[0].inode) == 3 && DisplayHour(inos'[dir[0].inode].hr) == 6
  {
  }
}
