/**
 * Sequences of shell commands and what they promise together: a file inserted is retrieved
 * byte for byte, a delete is undone by undel, insert and delete leave the free space as it
 * was, decrypt undoes encrypt, and a file made read-only cannot be deleted.
 */
module Scenarios {
  import opened FsTypes
  import opened FileLayout
  import opened DirectoryView
  import opened InsertCopy
  import opened Tables
  import opened FileSystem

  /** `insert` of a new name followed by `retrieve` of it gives back the host file's bytes. */
  method InsertThenRetrieve(fs: FileSystem, name: string, src: seq<bv8>, hour: int, minute: int, second: int)
    returns (r: Option<Retrieved>)
    requires fs.Valid() && name != "" && fs.InsertRefusal(Some(src)).None?
    requires forall i :: 0 <= i < NUM_FILES ==> fs.directory[i].filename != name
    modifies fs.data, fs.freeBlocks, fs.freeInodes, fs.directory, fs.inodes
    ensures r == Some(Retrieved(name, src))
  {
    ghost var dir0 := fs.directory[..];
    var done, entry, ino, L := fs.Insert(name, Some(src), hour, minute, second);
    NamedOnlyAt(dir0, name, entry, DirectoryEntry(name, true, ino));
    r := fs.Retrieve(name);
  }

  /** `delete` followed by `undel` of a live file that is not read-only restores every table. */
  method DeleteThenUndelete(fs: FileSystem, name: string)
    requires fs.Valid() && fs.Consistent() && name != ""
    requires var i := FirstNamed(fs.directory[..], name, 0);
             i != -1 && fs.directory[i].inUse && fs.inodes[fs.directory[i].inode].attribute != READ_ONLY
    modifies fs.directory, fs.inodes, fs.freeBlocks
    ensures fs.directory[..] == old(fs.directory[..]) && fs.inodes[..] == old(fs.inodes[..])
    ensures fs.freeBlocks[..] == old(fs.freeBlocks[..])
  {
    ghost var dir0, inos0, free0 := fs.directory[..], fs.inodes[..], fs.freeBlocks[..];
    var r, i := fs.Delete(name);
    ghost var L := FileBlocks(dir0, inos0, i);
    assert Live(dir0, inos0, i);
    forall b | b in L && 0 <= b < |free0|
      ensures !free0[b]
    {
    }
    var r', i' := fs.Undelete(name);
    SetLiveRoundTrip(dir0, inos0, i);
    ReleaseClaim(free0, L);
  }

  /** `insert` of a new name followed by `delete` of it gives back exactly the space taken. */
  method InsertThenDelete(fs: FileSystem, name: string, src: seq<bv8>, hour: int, minute: int, second: int)
    requires fs.Valid() && fs.Consistent() && name != "" && fs.InsertRefusal(Some(src)).None?
    requires forall i :: 0 <= i < NUM_FILES ==> fs.directory[i].filename != name
    modifies fs.data, fs.freeBlocks, fs.freeInodes, fs.directory, fs.inodes
    ensures fs.FreeSpace() == old(fs.FreeSpace())
  {
    ghost var dir0 := fs.directory[..];
    var done, entry, ino, L := fs.Insert(name, Some(src), hour, minute, second);
    NamedOnlyAt(dir0, name, entry, DirectoryEntry(name, true, ino));
    SlotsListed(fs.inodes[ino], L);
    var r, i := fs.Delete(name);
  }

  /** `decrypt` with the cipher byte of an `encrypt` restores every block of the disk. */
  method EncryptThenDecrypt(fs: FileSystem, name: string, cipher: bv8)
    requires fs.Valid() && name != ""
    modifies fs.data
    ensures fs.data[..] == old(fs.data[..])
  {
    fs.EncryptFile(name, cipher);
    fs.EncryptFile(name, cipher);
    EncryptTwice(old(fs.data[..]), fs.directory[..], fs.inodes[..], name, cipher, NUM_FILES);
  }

  /** After `attrib +r`, `delete` of the same name is refused and changes nothing. */
  method ReadOnlyThenDelete(fs: FileSystem, name: string) returns (r: Outcome)
    requires fs.Valid() && name != "" && FirstNamed(fs.directory[..], name, 0) != -1
    modifies fs.directory, fs.inodes, fs.freeBlocks
    ensures r == Failed(ReadOnlyViolation)
  {
    ghost var i := FirstNamed(fs.directory[..], name, 0);
    assert Recorded(fs.directory[..], i);
    fs.Attrib("+r", name);
    AttributedEffect(fs.directory[..], old(fs.inodes[..]), name, READ_ONLY);
    assert fs.inodes[fs.directory[i].inode].attribute == READ_ONLY;
    ghost var i';
    r, i' := fs.Delete(name);
  }

  /** After `attrib +h`, the entries a plain `list` shows leave the file out, and those of `list -h` keep it. */
  method HideThenList(fs: FileSystem, name: string)
    requires fs.Valid() && name != ""
    requires var i := FirstNamed(fs.directory[..], name, 0); i != -1 && fs.directory[i].inUse
    modifies fs.inodes
    ensures var i := FirstNamed(fs.directory[..], name, 0);
            i !in ShownIndices(fs.directory[..], fs.inodes[..], "", NUM_FILES) &&
            i in ShownIndices(fs.directory[..], fs.inodes[..], "-h", NUM_FILES)
  {
    ghost var i := FirstNamed(fs.directory[..], name, 0);
    assert Recorded(fs.directory[..], i);
    fs.Attrib("+h", name);
    assert fs.inodes[..] == Attributed(fs.directory[..], old(fs.inodes[..]), name, HIDDEN, |fs.directory[..]|);
    HiddenNotShown(fs.directory[..], old(fs.inodes[..]), name, i);
  }
}
