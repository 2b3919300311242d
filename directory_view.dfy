/**
 * Specifications of the operations that scan the directory: lookup by name, the entries
 * `list` prints, the attribute `attrib` writes, and the effect of `readFile` and `encryptFile`
 * over every entry carrying the name.
 */
module DirectoryView {
  import opened FsTypes
  import opened FileLayout

  /** The free flags of the directory: entry i is free when it is not in use. */
  function FreeEntries(dir: seq<DirectoryEntry>): (s: seq<bool>)
    ensures |s| == |dir|
    ensures forall i :: 0 <= i < |dir| ==> (s[i] <==> !dir[i].inUse)
  {
    seq(|dir|, i requires 0 <= i < |dir| => !dir[i].inUse)
  }

  /** The lowest index at or after `from` whose entry has `name`, or -1 (the lookup of Delete and Undelete). */
  function FirstNamed(dir: seq<DirectoryEntry>, name: string, from: nat): (r: int)
    decreases |dir| - from
    ensures r == -1 || (from <= r < |dir| && dir[r].filename == name)
    ensures r == -1 ==> forall i :: from <= i < |dir| ==> dir[i].filename != name
    ensures r != -1 ==> forall i :: from <= i < r ==> dir[i].filename != name
  {
    if from >= |dir| then -1
    else if dir[from].filename == name then from
    else FirstNamed(dir, name, from + 1)
  }

  /** The highest index below `n` whose entry has `name`, or -1 (the entry whose copy `retrieve` leaves). */
  function LastNamed(dir: seq<DirectoryEntry>, name: string, n: nat): (r: int)
    requires n <= |dir|
    ensures r == -1 || (0 <= r < n && dir[r].filename == name)
    ensures r == -1 ==> forall i :: 0 <= i < n ==> dir[i].filename != name
    ensures r != -1 ==> forall i :: r < i < n ==> dir[i].filename != name
  {
    if n == 0 then -1
    else if dir[n - 1].filename == name then n - 1
    else LastNamed(dir, name, n - 1)
  }

  /** Naming entry e `name` in a directory where no entry had it makes e the first and the last entry with it. */
  lemma NamedOnlyAt(dir: seq<DirectoryEntry>, name: string, e: int, x: DirectoryEntry)
    requires 0 <= e < |dir| && x.filename == name
    requires forall i :: 0 <= i < |dir| ==> dir[i].filename != name
    ensures FirstNamed(dir[e := x], name, 0) == e && LastNamed(dir[e := x], name, |dir|) == e
  {
    var d := dir[e := x];
    assert forall i :: 0 <= i < |d| && i != e ==> d[i].filename != name;
    var f, l := FirstNamed(d, name, 0), LastNamed(d, name, |d|);
    assert d[e].filename == name;
    assert f != -1 && l != -1;
    assert d[f].filename == name && d[l].filename == name;
  }

  /** Entry i has `name` and points at an inode of the table. */
  predicate Matches(dir: seq<DirectoryEntry>, inodes: seq<Inode>, name: string, i: int)
    requires 0 <= i < |dir|
  {
    dir[i].filename == name && 0 <= dir[i].inode < |inodes|
  }

  /** `encryptFile` over entries [0, n): each matching entry's file is transformed in turn. */
  ghost function EncryptUpTo(d: Disk, dir: seq<DirectoryEntry>, inodes: seq<Inode>,
                             name: string, c: bv8, n: nat): Disk
    requires n <= |dir|
  {
    if n == 0 then d
    else
      var e := EncryptUpTo(d, dir, inodes, name, c, n - 1);
      if Matches(dir, inodes, name, n - 1) then XorFile(e, inodes[dir[n - 1].inode], c) else e
  }

  /** A transform of any one file commutes with the whole pass. */
  lemma {:induction false} EncryptUpToCommute(d: Disk, dir: seq<DirectoryEntry>, inodes: seq<Inode>,
                                              name: string, c: bv8, n: nat, ino: Inode, c': bv8)
    requires n <= |dir|
    ensures EncryptUpTo(XorFile(d, ino, c'), dir, inodes, name, c, n)
         == XorFile(EncryptUpTo(d, dir, inodes, name, c, n), ino, c')
  {
    if n > 0 {
      EncryptUpToCommute(d, dir, inodes, name, c, n - 1, ino, c');
      if Matches(dir, inodes, name, n - 1) {
        XorFileCommute(EncryptUpTo(d, dir, inodes, name, c, n - 1), ino, c', inodes[dir[n - 1].inode], c);
      }
    }
  }

  /** Encrypting twice with the same cipher byte restores every block: encrypt and decrypt are one operation. */
  lemma {:induction false} EncryptTwice(d: Disk, dir: seq<DirectoryEntry>, inodes: seq<Inode>,
                                        name: string, c: bv8, n: nat)
    requires n <= |dir|
    ensures EncryptUpTo(EncryptUpTo(d, dir, inodes, name, c, n), dir, inodes, name, c, n) == d
  {
    if n > 0 {
      var m := n - 1;
      var e := EncryptUpTo(d, dir, inodes, name, c, m);
      if Matches(dir, inodes, name, m) {
        var ino := inodes[dir[m].inode];
        calc {
          EncryptUpTo(EncryptUpTo(d, dir, inodes, name, c, n), dir, inodes, name, c, n);
          XorFile(EncryptUpTo(XorFile(e, ino, c), dir, inodes, name, c, m), ino, c);
          { EncryptUpToCommute(e, dir, inodes, name, c, m, ino, c); }
          XorFile(XorFile(EncryptUpTo(e, dir, inodes, name, c, m), ino, c), ino, c);
          { XorFileInvolution(EncryptUpTo(e, dir, inodes, name, c, m), ino, c); }
          EncryptUpTo(e, dir, inodes, name, c, m);
          { EncryptTwice(d, dir, inodes, name, c, m); }
          d;
        }
      } else {
        EncryptTwice(d, dir, inodes, name, c, m);
      }
    }
  }

  /** With a single entry carrying the name, the pass is the transform of that one file. */
  lemma {:induction false} EncryptUpToSingle(d: Disk, dir: seq<DirectoryEntry>, inodes: seq<Inode>,
                                             name: string, c: bv8, n: nat, i: nat)
    requires i < n <= |dir| && Matches(dir, inodes, name, i)
    requires forall i' :: 0 <= i' < n && i' != i ==> dir[i'].filename != name
    ensures EncryptUpTo(d, dir, inodes, name, c, n) == XorFile(d, inodes[dir[i].inode], c)
    decreases n
  {
    if n - 1 == i {
      EncryptUpToNone(d, dir, inodes, name, c, i);
    } else {
      EncryptUpToSingle(d, dir, inodes, name, c, n - 1, i);
    }
  }

  /** With no entry carrying the name, the pass changes nothing. */
  lemma {:induction false} EncryptUpToNone(d: Disk, dir: seq<DirectoryEntry>, inodes: seq<Inode>,
                                           name: string, c: bv8, n: nat)
    requires n <= |dir|
    requires forall i :: 0 <= i < n ==> dir[i].filename != name
    ensures EncryptUpTo(d, dir, inodes, name, c, n) == d
  {
    if n > 0 {
      EncryptUpToNone(d, dir, inodes, name, c, n - 1);
    }
  }

  /** What `readFile` emits over entries [0, n): the range of every matching entry's file, in entry order. */
  ghost function ReadUpTo(d: Disk, dir: seq<DirectoryEntry>, inodes: seq<Inode>,
                          name: string, start: int, num: int, n: nat): seq<bv8>
    requires n <= |dir|
  {
    if n == 0 then []
    else
      ReadUpTo(d, dir, inodes, name, start, num, n - 1)
      + (if Matches(dir, inodes, name, n - 1) then RangeOf(d, inodes[dir[n - 1].inode], start, num) else [])
  }

  /** With a single entry carrying the name, `readFile` emits that file's requested bytes. */
  lemma {:induction false} ReadUpToSingle(d: Disk, dir: seq<DirectoryEntry>, inodes: seq<Inode>,
                                          name: string, start: int, num: int, n: nat, i: nat)
    requires i < n <= |dir| && Matches(dir, inodes, name, i)
    requires forall i' :: 0 <= i' < n && i' != i ==> dir[i'].filename != name
    ensures ReadUpTo(d, dir, inodes, name, start, num, n) == RangeOf(d, inodes[dir[i].inode], start, num)
    decreases n
  {
    if n - 1 == i {
      ReadUpToNone(d, dir, inodes, name, start, num, i);
    } else {
      ReadUpToSingle(d, dir, inodes, name, start, num, n - 1, i);
    }
  }

  /** With a single entry carrying the name, `readFile` inside the file emits exactly that slice of its content. */
  lemma ReadNamedSlice(d: Disk, dir: seq<DirectoryEntry>, inodes: seq<Inode>,
                       name: string, start: nat, num: nat, i: nat)
    requires i < |dir| && Matches(dir, inodes, name, i)
    requires forall i' :: 0 <= i' < |dir| && i' != i ==> dir[i'].filename != name
    requires Readable(d, inodes[dir[i].inode]) && start + num <= inodes[dir[i].inode].fileSize
    ensures ReadUpTo(d, dir, inodes, name, start, num, |dir|) == Content(d, inodes[dir[i].inode])[start..start + num]
  {
    ReadUpToSingle(d, dir, inodes, name, start, num, |dir|, i);
    ReadWithinFile(d, inodes[dir[i].inode], start, num);
  }

  /** With no entry carrying the name, `readFile` emits nothing. */
  lemma {:induction false} ReadUpToNone(d: Disk, dir: seq<DirectoryEntry>, inodes: seq<Inode>,
                                        name: string, start: int, num: int, n: nat)
    requires n <= |dir|
    requires forall i :: 0 <= i < n ==> dir[i].filename != name
    ensures ReadUpTo(d, dir, inodes, name, start, num, n) == []
  {
    if n > 0 {
      ReadUpToNone(d, dir, inodes, name, start, num, n - 1);
    }
  }

  /** `list` prints entry i: it is in use and either the flag shows everything or the file is not hidden. */
  predicate Shown(dir: seq<DirectoryEntry>, inodes: seq<Inode>, flag: string, i: int)
    requires 0 <= i < |dir|
  {
    dir[i].inUse && 0 <= dir[i].inode < |inodes| &&
    (flag == "-h" || flag == "-a" || inodes[dir[i].inode].attribute != HIDDEN)
  }

  /** The entries below `n` that `list` prints, in directory order. */
  function ShownIndices(dir: seq<DirectoryEntry>, inodes: seq<Inode>, flag: string, n: nat): (r: seq<nat>)
    requires n <= |dir|
    ensures forall k :: 0 <= k < |r| ==> r[k] < n && Shown(dir, inodes, flag, r[k])
    ensures forall i :: 0 <= i < n && Shown(dir, inodes, flag, i) ==> i in r
    ensures forall k, k' :: 0 <= k < k' < |r| ==> r[k] < r[k']
  {
    if n == 0 then []
    else ShownIndices(dir, inodes, flag, n - 1) + (if Shown(dir, inodes, flag, n - 1) then [n - 1] else [])
  }

  /** The line `list` prints for entry i; `-a` adds the attribute byte. */
  function RowOf(dir: seq<DirectoryEntry>, inodes: seq<Inode>, flag: string, i: int): ListRow
    requires 0 <= i < |dir| && 0 <= dir[i].inode < |inodes|
  {
    var ino := inodes[dir[i].inode];
    ListRow(dir[i].filename, ino.fileSize, ino.hr, ino.min, ino.sec,
            if flag == "-a" then Some(ino.attribute) else None)
  }

  /** `list -h` and `list -a` print every entry in use; plain `list` omits exactly the hidden ones. */
  lemma ListingFilter(dir: seq<DirectoryEntry>, inodes: seq<Inode>, flag: string, i: nat)
    requires i < |dir| && 0 <= dir[i].inode < |inodes|
    ensures (flag == "-h" || flag == "-a") ==>
              (i in ShownIndices(dir, inodes, flag, |dir|) <==> dir[i].inUse)
    ensures (flag != "-h" && flag != "-a") ==>
              (i in ShownIndices(dir, inodes, flag, |dir|)
               <==> dir[i].inUse && inodes[dir[i].inode].attribute != HIDDEN)
  {
    var r := ShownIndices(dir, inodes, flag, |dir|);
    if i in r {
      var k :| 0 <= k < |r| && r[k] == i;
    }
  }

  /**
   * The attribute `attrib` writes for a flag, or None when it writes nothing: "+r" gives
   * READ_ONLY and "+h" HIDDEN (only the first two characters are read), "-h" and "-r" give 0.
   */
  function AttribValue(flag: string): (r: Option<bv8>)
    ensures flag == "+r" ==> r == Some(READ_ONLY)
    ensures flag == "+h" ==> r == Some(HIDDEN)
    ensures flag == "-r" || flag == "-h" ==> r == Some(0)
    ensures r.Some? ==> r.value in {0, HIDDEN, READ_ONLY}
  {
    if |flag| >= 1 && flag[0] == '+' then
      if |flag| >= 2 && flag[1] == 'r' then Some(READ_ONLY)
      else if |flag| >= 2 && flag[1] == 'h' then Some(HIDDEN)
      else None
    else if flag == "-h" || flag == "-r" then Some(0)
    else None
  }

  /** Some entry below n has `name` and points at inode m. */
  ghost predicate Named(dir: seq<DirectoryEntry>, name: string, m: int, n: nat)
    requires n <= |dir|
  {
    exists i :: 0 <= i < n && dir[i].filename == name && dir[i].inode == m
  }

  /** The inode table once `attrib` has visited entries [0, n): every inode a visited entry named `name` points at carries v. */
  ghost function Attributed(dir: seq<DirectoryEntry>, inodes: seq<Inode>, name: string, v: bv8, n: nat): (r: seq<Inode>)
    requires n <= |dir|
    ensures |r| == |inodes|
  {
    seq(|inodes|, m requires 0 <= m < |inodes| =>
      if Named(dir, name, m, n) then inodes[m].(attribute := v) else inodes[m])
  }

  /** Visiting entry n sets the attribute of its inode when the entry has the name, and changes nothing otherwise. */
  lemma AttributedStep(dir: seq<DirectoryEntry>, inodes: seq<Inode>, name: string, v: bv8, n: nat)
    requires n < |dir|
    ensures var a := Attributed(dir, inodes, name, v, n);
            Attributed(dir, inodes, name, v, n + 1) ==
              if Matches(dir, inodes, name, n) then a[dir[n].inode := a[dir[n].inode].(attribute := v)] else a
  {
    var a := Attributed(dir, inodes, name, v, n);
    var a' := Attributed(dir, inodes, name, v, n + 1);
    forall m | 0 <= m < |inodes|
      ensures Named(dir, name, m, n + 1) <==>
                Named(dir, name, m, n) || (dir[n].filename == name && dir[n].inode == m)
    {
      if Named(dir, name, m, n + 1) {
        var i :| 0 <= i < n + 1 && dir[i].filename == name && dir[i].inode == m;
      }
      if dir[n].filename == name && dir[n].inode == m {
        assert 0 <= n < n + 1 && dir[n].filename == name && dir[n].inode == m;
      }
    }
  }

  /**
   * After the whole pass, every inode an entry named `name` points at carries v, only
   * attributes differ from before, and an attribute that changed belongs to such an inode.
   */
  lemma AttributedEffect(dir: seq<DirectoryEntry>, inodes: seq<Inode>, name: string, v: bv8)
    ensures var a := Attributed(dir, inodes, name, v, |dir|);
            (forall m :: 0 <= m < |inodes| ==> a[m] == inodes[m].(attribute := a[m].attribute)) &&
            (forall i :: 0 <= i < |dir| && Matches(dir, inodes, name, i) ==> a[dir[i].inode].attribute == v) &&
            (forall m :: 0 <= m < |inodes| && a[m].attribute != inodes[m].attribute ==>
               exists i :: 0 <= i < |dir| && dir[i].filename == name && dir[i].inode == m)
  {
    forall i | 0 <= i < |dir| && Matches(dir, inodes, name, i)
      ensures Named(dir, name, dir[i].inode, |dir|)
    {
    }
  }

  /** Once `attrib +h` has run, a plain `list` omits every entry with the name and `list -h` still shows those in use. */
  lemma HiddenNotShown(dir: seq<DirectoryEntry>, inodes: seq<Inode>, name: string, i: nat)
    requires i < |dir| && Matches(dir, inodes, name, i)
    ensures var a := Attributed(dir, inodes, name, HIDDEN, |dir|);
            i !in ShownIndices(dir, a, "", |dir|) &&
            (dir[i].inUse ==> i in ShownIndices(dir, a, "-h", |dir|))
  {
    var a := Attributed(dir, inodes, name, HIDDEN, |dir|);
    assert Named(dir, name, dir[i].inode, |dir|);
    ListingFilter(dir, a, "", i);
    ListingFilter(dir, a, "-h", i);
  }

  /**
   * The hour `list` shows for a stored hour h (filesystem.c:277-284): a negative hour is moved
   * forward a day, and one past 12 is reduced modulo 12.
   */
  function DisplayHour(h: int): int {
    var h' := if h < 0 then h + 24 else h;
    if h' > 12 then h' % 12 else h'
  }

  /**
   * The shown hour reads the same on a 12-hour clock as the stored one; from a day behind,
   * it lies in [0, 12] and showing it again changes nothing.
   */
  lemma DisplayHourClock(h: int)
    ensures DisplayHour(h) % 12 == h % 12
    ensures -24 <= h ==> 0 <= DisplayHour(h) <= 12 && DisplayHour(DisplayHour(h)) == DisplayHour(h)
    ensures 0 <= h <= 12 ==> DisplayHour(h) == h
  {
  }

  /** Some entry below n is in use and points at inode m. */
  ghost predicate Stamped(dir: seq<DirectoryEntry>, m: int, n: nat)
    requires n <= |dir|
  {
    exists i :: 0 <= i < n && dir[i].inUse && dir[i].inode == m
  }

  /** The inode table once `list` has visited entries [0, n): the inode of every entry in use shows its display hour. */
  ghost function Displayed(dir: seq<DirectoryEntry>, inodes: seq<Inode>, n: nat): (r: seq<Inode>)
    requires n <= |dir|
    ensures |r| == |inodes|
  {
    seq(|inodes|, m requires 0 <= m < |inodes| =>
      if Stamped(dir, m, n) then inodes[m].(hr := DisplayHour(inodes[m].hr)) else inodes[m])
  }

  /**
   * Visiting entry n adjusts the hour of its inode once, when the entry is in use and no
   * earlier entry in use shares the inode.
   */
  lemma DisplayedStep(dir: seq<DirectoryEntry>, inodes: seq<Inode>, n: nat)
    requires n < |dir|
    requires dir[n].inUse ==> 0 <= dir[n].inode < |inodes|
    requires forall j :: 0 <= j < n && dir[j].inUse && dir[n].inUse ==> dir[j].inode != dir[n].inode
    ensures var a := Displayed(dir, inodes, n);
            Displayed(dir, inodes, n + 1) ==
              if dir[n].inUse then a[dir[n].inode := a[dir[n].inode].(hr := DisplayHour(a[dir[n].inode].hr))] else a
    ensures dir[n].inUse ==> Displayed(dir, inodes, n)[dir[n].inode] == inodes[dir[n].inode]
  {
    forall m | 0 <= m < |inodes|
      ensures Stamped(dir, m, n + 1) <==> Stamped(dir, m, n) || (dir[n].inUse && dir[n].inode == m)
    {
      if Stamped(dir, m, n + 1) {
        var i :| 0 <= i < n + 1 && dir[i].inUse && dir[i].inode == m;
      }
      if dir[n].inUse && dir[n].inode == m {
        assert 0 <= n < n + 1 && dir[n].inUse && dir[n].inode == m;
      }
    }
  }

  /** Once visited, an entry in use keeps the adjusted inode to the end of the pass. */
  lemma DisplayedFinal(dir: seq<DirectoryEntry>, inodes: seq<Inode>, n: nat, i: nat)
    requires i < n <= |dir| && dir[i].inUse && 0 <= dir[i].inode < |inodes|
    ensures Displayed(dir, inodes, n)[dir[i].inode] == Displayed(dir, inodes, i + 1)[dir[i].inode]
  {
    assert Stamped(dir, dir[i].inode, n);
    assert Stamped(dir, dir[i].inode, i + 1);
  }

  /** The lines `list` prints for entries [0, n), in directory order. */
  function Rows(dir: seq<DirectoryEntry>, inodes: seq<Inode>, flag: string, n: nat): (r: seq<ListRow>)
    requires n <= |dir|
  {
    if n == 0 then []
    else Rows(dir, inodes, flag, n - 1) + (if Shown(dir, inodes, flag, n - 1) then [RowOf(dir, inodes, flag, n - 1)] else [])
  }

  /** The k-th line printed is the row of the k-th entry shown. */
  lemma {:induction false} RowsAreShown(dir: seq<DirectoryEntry>, inodes: seq<Inode>, flag: string, n: nat)
    requires n <= |dir|
    ensures |Rows(dir, inodes, flag, n)| == |ShownIndices(dir, inodes, flag, n)|
    ensures forall k :: 0 <= k < |Rows(dir, inodes, flag, n)| ==>
              Rows(dir, inodes, flag, n)[k] == RowOf(dir, inodes, flag, ShownIndices(dir, inodes, flag, n)[k])
  {
    if n > 0 {
      RowsAreShown(dir, inodes, flag, n - 1);
    }
  }
}
