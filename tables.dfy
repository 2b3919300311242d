/**
 * The invariants of the metadata tables, over snapshots of the directory, the inodes and the
 * two free-flag tables, and the table updates of the file operations that keep them.
 */
module Tables {
  import opened FsTypes
  import opened Bitmap
  import opened FileLayout
  import opened InsertCopy
  import opened DirectoryView

  /** Entry i has a name, so it was written by `insert` (a deleted entry keeps its name). */
  predicate Recorded(dir: seq<DirectoryEntry>, i: int)
    requires 0 <= i < |dir|
  {
    dir[i].filename != ""
  }

  /**
   * The metadata invariant: inodes are well formed and free ones pristine; entries in use
   * are recorded; a recorded entry owns an allocated inode that shares its in-use flag, and
   * no two recorded entries own the same inode.
   */
  ghost predicate TablesValid(dir: seq<DirectoryEntry>, inos: seq<Inode>, freeInos: seq<bool>) {
    |dir| == NUM_FILES && |inos| == NUM_FILES && |freeInos| == NUM_FILES &&
    (forall n :: 0 <= n < NUM_FILES ==> WellFormed(inos[n])) &&
    (forall n :: 0 <= n < NUM_FILES && freeInos[n] ==> Pristine(inos[n])) &&
    (forall i :: 0 <= i < NUM_FILES && dir[i].inUse ==> Recorded(dir, i)) &&
    (forall i :: 0 <= i < NUM_FILES && Recorded(dir, i) ==>
       0 <= dir[i].inode < NUM_FILES && !freeInos[dir[i].inode] &&
       dir[i].inUse == inos[dir[i].inode].inUse) &&
    (forall i, i' :: 0 <= i < i' < NUM_FILES && Recorded(dir, i) && Recorded(dir, i') ==>
       dir[i].inode != dir[i'].inode)
  }

  /** Entry i is in use and names an inode of the table. */
  predicate Live(dir: seq<DirectoryEntry>, inos: seq<Inode>, i: int)
    requires 0 <= i < |dir|
  {
    dir[i].inUse && 0 <= dir[i].inode < |inos|
  }

  /** The blocks of the file entry i names. */
  function FileBlocks(dir: seq<DirectoryEntry>, inos: seq<Inode>, i: int): seq<int>
    requires 0 <= i < |dir| && 0 <= dir[i].inode < |inos|
  {
    Listed(inos[dir[i].inode])
  }

  /** Two block lists that share no block. */
  ghost predicate Disjoint(s: seq<int>, t: seq<int>) {
    forall x :: x in s ==> x !in t
  }

  lemma DisjointSymmetric(s: seq<int>, t: seq<int>)
    requires Disjoint(s, t)
    ensures Disjoint(t, s)
  {
  }

  /** Every block of L is a block of the table whose free flag is clear. */
  ghost predicate Allocated(L: seq<int>, freeBlocks: seq<bool>) {
    forall b :: b in L ==> 0 <= b < |freeBlocks| && !freeBlocks[b]
  }

  /** The block invariant: blocks of live files are allocated, and no block belongs to two live files. */
  ghost predicate BlocksConsistent(dir: seq<DirectoryEntry>, inos: seq<Inode>, freeBlocks: seq<bool>) {
    (forall i :: 0 <= i < |dir| && Live(dir, inos, i) ==> Allocated(FileBlocks(dir, inos, i), freeBlocks)) &&
    (forall i, i' :: 0 <= i < i' < |dir| && Live(dir, inos, i) && Live(dir, inos, i') ==>
       Disjoint(FileBlocks(dir, inos, i), FileBlocks(dir, inos, i')))
  }

  /** The free flags once the blocks of L are released. */
  function Release(flags: seq<bool>, L: seq<int>): (r: seq<bool>)
    ensures |r| == |flags|
    ensures forall b :: 0 <= b < |flags| ==> (r[b] <==> flags[b] || b in L)
  {
    seq(|flags|, b requires 0 <= b < |flags| => flags[b] || b in L)
  }

  /** Claiming released blocks restores the flags when they were all taken; releasing claimed ones, when all were free. */
  lemma ReleaseClaim(flags: seq<bool>, L: seq<int>)
    ensures (forall b :: b in L && 0 <= b < |flags| ==> !flags[b]) ==> Claim(Release(flags, L), L) == flags
    ensures (forall b :: b in L && 0 <= b < |flags| ==> flags[b]) ==> Release(Claim(flags, L), L) == flags
  {
    if forall b :: b in L && 0 <= b < |flags| ==> !flags[b] {
      assert Claim(Release(flags, L), L) == flags;
    }
    if forall b :: b in L && 0 <= b < |flags| ==> flags[b] {
      assert Release(Claim(flags, L), L) == flags;
    }
  }

  /** Releasing distinct allocated data blocks adds one free block each. */
  lemma {:induction false} ReleaseCount(flags: seq<bool>, L: seq<int>)
    requires |flags| == NUM_BLOCKS
    requires forall j :: 0 <= j < |L| ==> DataBlock(L[j]) && !flags[L[j]]
    requires forall j, j' :: 0 <= j < j' < |L| ==> L[j] != L[j']
    ensures CountFree(Release(flags, L), FIRST_DATA_BLOCK, NUM_BLOCKS)
         == CountFree(flags, FIRST_DATA_BLOCK, NUM_BLOCKS) + |L|
    decreases |L|
  {
    if L == [] {
      assert Release(flags, L) == flags;
    } else {
      var P := L[..|L| - 1];
      var b := L[|L| - 1];
      assert P + [b] == L;
      ReleaseCount(flags, P);
      assert Release(flags, P)[b := true] == Release(flags, L);
      CountFreeUpdate(Release(flags, P), FIRST_DATA_BLOCK, NUM_BLOCKS, b, true);
    }
  }

  /** `insert` fills free entry e with `name` and free inode n with `ino`: the tables stay valid. */
  lemma InsertKeepsValid(dir: seq<DirectoryEntry>, inos: seq<Inode>, freeInos: seq<bool>,
                         e: int, n: int, name: string, ino: Inode)
    requires TablesValid(dir, inos, freeInos)
    requires 0 <= e < NUM_FILES && !dir[e].inUse && 0 <= n < NUM_FILES && freeInos[n]
    requires name != "" && WellFormed(ino) && ino.inUse
    ensures TablesValid(dir[e := DirectoryEntry(name, true, n)], inos[n := ino], freeInos[n := false])
  {
    var dir', inos', freeInos' := dir[e := DirectoryEntry(name, true, n)], inos[n := ino], freeInos[n := false];
    forall i, i' | 0 <= i < i' < NUM_FILES && Recorded(dir', i) && Recorded(dir', i')
      ensures dir'[i].inode != dir'[i'].inode
    {
      if i != e && i' != e {
        assert Recorded(dir, i) && Recorded(dir, i');
      } else if i == e {
        assert Recorded(dir, i');
      } else {
        assert Recorded(dir, i);
      }
    }
    forall i | 0 <= i < NUM_FILES && Recorded(dir', i) && i != e
      ensures 0 <= dir'[i].inode < NUM_FILES && !freeInos'[dir'[i].inode] &&
              dir'[i].inUse == inos'[dir'[i].inode].inUse
    {
      assert Recorded(dir, i);
    }
  }

  /** The blocks L given to the new file were free: the block invariant holds with them claimed. */
  lemma InsertKeepsConsistent(dir: seq<DirectoryEntry>, inos: seq<Inode>, freeInos: seq<bool>,
                              freeBlocks: seq<bool>, e: int, n: int, name: string, ino: Inode)
    requires TablesValid(dir, inos, freeInos) && BlocksConsistent(dir, inos, freeBlocks)
    requires 0 <= e < NUM_FILES && !dir[e].inUse && 0 <= n < NUM_FILES && freeInos[n]
    requires forall j :: 0 <= j < |Listed(ino)| ==> 0 <= Listed(ino)[j] < |freeBlocks| && freeBlocks[Listed(ino)[j]]
    ensures BlocksConsistent(dir[e := DirectoryEntry(name, true, n)], inos[n := ino], Claim(freeBlocks, Listed(ino)))
  {
    var dir', inos', L := dir[e := DirectoryEntry(name, true, n)], inos[n := ino], Listed(ino);
    assert FileBlocks(dir', inos', e) == L;
    forall i | 0 <= i < NUM_FILES && Live(dir', inos', i) && i != e
      ensures Live(dir, inos, i) && FileBlocks(dir', inos', i) == FileBlocks(dir, inos, i)
      ensures forall x :: x in FileBlocks(dir, inos, i) ==> 0 <= x < |freeBlocks| && !freeBlocks[x] && x !in L
    {
      assert dir'[i] == dir[i] && Recorded(dir, i);
      assert dir[i].inode != n;
      assert Live(dir, inos, i);
      forall x | x in FileBlocks(dir, inos, i)
        ensures 0 <= x < |freeBlocks| && !freeBlocks[x] && x !in L
      {
        assert Allocated(FileBlocks(dir, inos, i), freeBlocks);
        forall j | 0 <= j < |L| ensures L[j] != x {
          assert freeBlocks[L[j]];
        }
      }
    }
  }

  /** The tables after `Delete` (v false) or `Undelete` (v true) of entry i: both in-use flags set to v. */
  function SetLive(dir: seq<DirectoryEntry>, inos: seq<Inode>, i: int, v: bool): (r: (seq<DirectoryEntry>, seq<Inode>))
    requires 0 <= i < |dir| && 0 <= dir[i].inode < |inos|
    ensures |r.0| == |dir| && |r.1| == |inos|
    ensures r.0[i].inUse == v && r.1[dir[i].inode].inUse == v
    ensures forall i' :: 0 <= i' < |dir| ==> r.0[i'] == (if i' == i then dir[i].(inUse := v) else dir[i'])
    ensures forall n :: 0 <= n < |inos| ==> r.1[n] == (if n == dir[i].inode then inos[n].(inUse := v) else inos[n])
  {
    (dir[i := dir[i].(inUse := v)], inos[dir[i].inode := inos[dir[i].inode].(inUse := v)])
  }

  /** Clearing and then setting the in-use flags of a live entry restores both tables. */
  lemma SetLiveRoundTrip(dir: seq<DirectoryEntry>, inos: seq<Inode>, i: int)
    requires 0 <= i < |dir| && 0 <= dir[i].inode < |inos| && dir[i].inUse && inos[dir[i].inode].inUse
    ensures var (dir', inos') := SetLive(dir, inos, i, false);
            SetLive(dir', inos', i, true) == (dir, inos)
  {
    var (dir', inos') := SetLive(dir, inos, i, false);
    assert SetLive(dir', inos', i, true).0 == dir;
    assert SetLive(dir', inos', i, true).1 == inos;
  }

  /** Flipping both in-use flags of a recorded entry together keeps the tables valid. */
  lemma SetLiveKeepsValid(dir: seq<DirectoryEntry>, inos: seq<Inode>, freeInos: seq<bool>, i: int, v: bool)
    requires TablesValid(dir, inos, freeInos) && 0 <= i < NUM_FILES && Recorded(dir, i)
    ensures TablesValid(SetLive(dir, inos, i, v).0, SetLive(dir, inos, i, v).1, freeInos)
  {
    var n := dir[i].inode;
    var (dir', inos') := SetLive(dir, inos, i, v);
    forall i' | 0 <= i' < NUM_FILES && Recorded(dir', i')
      ensures 0 <= dir'[i'].inode < NUM_FILES && !freeInos[dir'[i'].inode] &&
              dir'[i'].inUse == inos'[dir'[i'].inode].inUse
    {
      assert Recorded(dir, i');
      if i' < i {
        assert dir[i'].inode != n;
      } else if i < i' {
        assert dir[i'].inode != n;
      }
    }
    forall i1, i2 | 0 <= i1 < i2 < NUM_FILES && Recorded(dir', i1) && Recorded(dir', i2)
      ensures dir'[i1].inode != dir'[i2].inode
    {
      assert Recorded(dir, i1) && Recorded(dir, i2);
    }
  }

  /**
   * `Delete` of a live entry releases exactly its blocks, which no other live file holds: the
   * block invariant survives.
   */
  lemma DeleteKeepsConsistent(dir: seq<DirectoryEntry>, inos: seq<Inode>, freeInos: seq<bool>,
                              freeBlocks: seq<bool>, i: int)
    requires TablesValid(dir, inos, freeInos) && BlocksConsistent(dir, inos, freeBlocks)
    requires 0 <= i < NUM_FILES && dir[i].inUse
    ensures var (dir', inos') := SetLive(dir, inos, i, false);
            BlocksConsistent(dir', inos', Release(freeBlocks, FileBlocks(dir, inos, i)))
  {
    var (dir', inos') := SetLive(dir, inos, i, false);
    var L := FileBlocks(dir, inos, i);
    forall i' | 0 <= i' < NUM_FILES && Live(dir', inos', i')
      ensures i' != i && Live(dir, inos, i') && FileBlocks(dir', inos', i') == FileBlocks(dir, inos, i')
      ensures Disjoint(FileBlocks(dir, inos, i'), L)
    {
      assert Recorded(dir, i') && Live(dir, inos, i);
      if i' < i {
        assert dir[i'].inode != dir[i].inode;
      } else {
        assert dir[i'].inode != dir[i].inode && Live(dir, inos, i');
        assert Disjoint(L, FileBlocks(dir, inos, i'));
        DisjointSymmetric(L, FileBlocks(dir, inos, i'));
      }
    }
  }

  /**
   * `Undelete` of an entry whose blocks are all still free claims them back: the block
   * invariant survives, as no live file can hold a free block.
   */
  lemma UndeleteKeepsConsistent(dir: seq<DirectoryEntry>, inos: seq<Inode>, freeInos: seq<bool>,
                                freeBlocks: seq<bool>, i: int)
    requires TablesValid(dir, inos, freeInos) && BlocksConsistent(dir, inos, freeBlocks)
    requires 0 <= i < NUM_FILES && Recorded(dir, i)
    requires forall b :: b in FileBlocks(dir, inos, i) ==> 0 <= b < |freeBlocks| && freeBlocks[b]
    ensures var (dir', inos') := SetLive(dir, inos, i, true);
            BlocksConsistent(dir', inos', Claim(freeBlocks, FileBlocks(dir, inos, i)))
  {
    var (dir', inos') := SetLive(dir, inos, i, true);
    var L := FileBlocks(dir, inos, i);
    assert FileBlocks(dir', inos', i) == L;
    forall i' | 0 <= i' < NUM_FILES && Live(dir', inos', i') && i' != i
      ensures Live(dir, inos, i') && FileBlocks(dir', inos', i') == FileBlocks(dir, inos, i')
      ensures forall x :: x in FileBlocks(dir, inos, i') ==> 0 <= x < |freeBlocks| && !freeBlocks[x] && x !in L
    {
      assert dir'[i'] == dir[i'] && Recorded(dir, i');
      assert dir[i'].inode != dir[i].inode;
      assert Live(dir, inos, i');
      forall x | x in FileBlocks(dir, inos, i')
        ensures 0 <= x < |freeBlocks| && !freeBlocks[x] && x !in L
      {
        assert Allocated(FileBlocks(dir, inos, i'), freeBlocks);
      }
    }
  }

  /**
   * Inodes that differ only in metadata `attrib` and `list` write (the attribute and the
   * hour), and only where allocated, keep both invariants.
   */
  lemma SameLayoutKeeps(dir: seq<DirectoryEntry>, inos: seq<Inode>, inos': seq<Inode>,
                        freeInos: seq<bool>, freeBlocks: seq<bool>)
    requires TablesValid(dir, inos, freeInos) && |inos'| == NUM_FILES
    requires forall n :: 0 <= n < NUM_FILES ==>
               inos'[n].blocks == inos[n].blocks && inos'[n].fileSize == inos[n].fileSize &&
               inos'[n].inUse == inos[n].inUse && (freeInos[n] ==> inos'[n] == inos[n])
    ensures TablesValid(dir, inos', freeInos)
    ensures BlocksConsistent(dir, inos, freeBlocks) ==> BlocksConsistent(dir, inos', freeBlocks)
  {
    if BlocksConsistent(dir, inos, freeBlocks) {
      forall i | 0 <= i < |dir| && Live(dir, inos', i)
        ensures Live(dir, inos, i) && FileBlocks(dir, inos', i) == FileBlocks(dir, inos, i)
      {
      }
      assert BlocksConsistent(dir, inos', freeBlocks);
    }
  }

  /** `attrib` with a name that is not empty touches only inodes of recorded entries, so both invariants survive it. */
  lemma AttributedKeeps(dir: seq<DirectoryEntry>, inos: seq<Inode>, freeInos: seq<bool>, freeBlocks: seq<bool>,
                        name: string, v: bv8)
    requires TablesValid(dir, inos, freeInos) && name != ""
    ensures TablesValid(dir, Attributed(dir, inos, name, v, NUM_FILES), freeInos)
    ensures BlocksConsistent(dir, inos, freeBlocks) ==>
              BlocksConsistent(dir, Attributed(dir, inos, name, v, NUM_FILES), freeBlocks)
  {
    forall m | 0 <= m < NUM_FILES && Named(dir, name, m, NUM_FILES)
      ensures !freeInos[m]
    {
      var i :| 0 <= i < NUM_FILES && dir[i].filename == name && dir[i].inode == m;
      assert Recorded(dir, i);
    }
    SameLayoutKeeps(dir, inos, Attributed(dir, inos, name, v, NUM_FILES), freeInos, freeBlocks);
  }

  /** The hour adjustment of `list` touches only inodes of entries in use, so both invariants survive it. */
  lemma DisplayedKeeps(dir: seq<DirectoryEntry>, inos: seq<Inode>, freeInos: seq<bool>, freeBlocks: seq<bool>)
    requires TablesValid(dir, inos, freeInos)
    ensures TablesValid(dir, Displayed(dir, inos, NUM_FILES), freeInos)
    ensures BlocksConsistent(dir, inos, freeBlocks) ==> BlocksConsistent(dir, Displayed(dir, inos, NUM_FILES), freeBlocks)
  {
    forall m | 0 <= m < NUM_FILES && Stamped(dir, m, NUM_FILES)
      ensures !freeInos[m]
    {
      var i :| 0 <= i < NUM_FILES && dir[i].inUse && dir[i].inode == m;
      assert Recorded(dir, i);
    }
    SameLayoutKeeps(dir, inos, Displayed(dir, inos, NUM_FILES), freeInos, freeBlocks);
  }
}
