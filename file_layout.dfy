/**
 * How a file lies in the block store: the used prefix of an inode's block slots, the byte at
 * each file offset, and the single-byte XOR transform over a file's bytes.
 */
module FileLayout {
  import opened FsTypes

  /** The first UNUSED slot at or after `from`, or |s| when every slot is used. */
  function FirstUnused(s: seq<int>, from: nat): (n: nat)
    requires from <= |s|
    decreases |s| - from
    ensures from <= n <= |s|
    ensures forall k :: from <= k < n ==> s[k] != UNUSED
    ensures n < |s| ==> s[n] == UNUSED
  {
    if from == |s| then from
    else if s[from] == UNUSED then from
    else FirstUnused(s, from + 1)
  }

  /** The blocks of a file in order: the slots before the first UNUSED one. */
  function Listed(ino: Inode): seq<int> {
    ino.blocks[..FirstUnused(ino.blocks, 0)]
  }

  /**
   * The shape every inode keeps: BLOCKS_PER_FILE slots, a used prefix of distinct data
   * blocks followed only by UNUSED slots, and one used slot per started BLOCK_SIZE chunk.
   */
  ghost predicate WellFormed(ino: Inode) {
    |ino.blocks| == BLOCKS_PER_FILE &&
    var n := FirstUnused(ino.blocks, 0);
    (forall k :: 0 <= k < n ==> DataBlock(ino.blocks[k])) &&
    (forall k :: n <= k < |ino.blocks| ==> ino.blocks[k] == UNUSED) &&
    (forall k, k' :: 0 <= k < k' < n ==> ino.blocks[k] != ino.blocks[k']) &&
    n == BlocksFor(ino.fileSize)
  }

  /** Every block of `d` holds BLOCK_SIZE bytes. */
  ghost predicate FullBlocks(d: Disk) {
    forall b :: 0 <= b < |d| ==> |d[b]| == BLOCK_SIZE
  }

  /** Every block in `L` is a block of `d` holding BLOCK_SIZE bytes. */
  ghost predicate BlocksIn(d: Disk, L: seq<int>) {
    forall j :: 0 <= j < |L| ==> 0 <= L[j] < |d| && |d[L[j]]| == BLOCK_SIZE
  }

  /** The byte at file offset `p` of a file whose blocks are `L`. */
  ghost function ByteAt(d: Disk, L: seq<int>, p: nat): bv8
    requires BlocksIn(d, L) && p < |L| * BLOCK_SIZE
  {
    d[L[p / BLOCK_SIZE]][p % BLOCK_SIZE]
  }

  /** The bytes at file offsets [from, to) of a file whose blocks are `L`. */
  ghost function Span(d: Disk, L: seq<int>, from: nat, to: nat): (r: seq<bv8>)
    requires BlocksIn(d, L) && from <= to <= |L| * BLOCK_SIZE
  {
    seq(to - from, q requires 0 <= q < to - from => ByteAt(d, L, from + q))
  }

  /** An inode whose blocks and size can be read from `d`. */
  ghost predicate Readable(d: Disk, ino: Inode) {
    BlocksIn(d, Listed(ino)) && ino.fileSize <= |Listed(ino)| * BLOCK_SIZE
  }

  /** The content of a file: its first fileSize bytes. */
  ghost function Content(d: Disk, ino: Inode): seq<bv8>
    requires Readable(d, ino)
  {
    Span(d, Listed(ino), 0, ino.fileSize)
  }

  /** Reference definition: the blocks of `L` laid end to end. */
  ghost function Concat(d: Disk, L: seq<int>): seq<bv8>
    requires forall j :: 0 <= j < |L| ==> 0 <= L[j] < |d|
  {
    if L == [] then [] else d[L[0]] + Concat(d, L[1..])
  }

  lemma DivMod(j: nat, k: nat)
    requires k < BLOCK_SIZE
    ensures (j * BLOCK_SIZE + k) / BLOCK_SIZE == j
    ensures (j * BLOCK_SIZE + k) % BLOCK_SIZE == k
  {
  }

  /** Block j of a file of `size` bytes, up to block size / BLOCK_SIZE, covers [j * BLOCK_SIZE, j * BLOCK_SIZE + hi). */
  lemma BlockExtent(size: nat, j: nat)
    requires j <= size / BLOCK_SIZE
    ensures var hi := if j == size / BLOCK_SIZE then size % BLOCK_SIZE else BLOCK_SIZE;
            hi <= BLOCK_SIZE && j * BLOCK_SIZE + hi == Min((j + 1) * BLOCK_SIZE, size) &&
            Min(j * BLOCK_SIZE, size) == j * BLOCK_SIZE
    ensures j == size / BLOCK_SIZE ==> Min((j + 1) * BLOCK_SIZE, size) == size
  {
  }

  /** A well-formed inode is readable from any disk of NUM_BLOCKS full blocks. */
  lemma WellFormedReadable(d: Disk, ino: Inode)
    requires WellFormed(ino)
    requires |d| == NUM_BLOCKS && forall b :: 0 <= b < |d| ==> |d[b]| == BLOCK_SIZE
    ensures Readable(d, ino)
    ensures |Listed(ino)| == BlocksFor(ino.fileSize)
    ensures forall j :: 0 <= j < |Listed(ino)| ==> DataBlock(Listed(ino)[j])
  {
  }

  /** Spanning the whole of every block is the reference concatenation. */
  lemma {:induction false} SpanIsConcat(d: Disk, L: seq<int>)
    requires BlocksIn(d, L)
    ensures Span(d, L, 0, |L| * BLOCK_SIZE) == Concat(d, L)
    decreases |L|
  {
    if L != [] {
      var R := L[1..];
      assert BlocksIn(d, R);
      SpanIsConcat(d, R);
      var s := Span(d, L, 0, |L| * BLOCK_SIZE);
      var t := d[L[0]] + Concat(d, R);
      forall p | 0 <= p < |L| * BLOCK_SIZE
        ensures s[p] == t[p]
      {
        if p < BLOCK_SIZE {
          DivMod(0, p);
        } else {
          var q := p - BLOCK_SIZE;
          DivMod(q / BLOCK_SIZE, q % BLOCK_SIZE);
          DivMod(q / BLOCK_SIZE + 1, q % BLOCK_SIZE);
          assert Span(d, R, 0, |R| * BLOCK_SIZE)[q] == ByteAt(d, R, q);
        }
      }
      assert |s| == |t|;
      assert s == t;
    }
  }

  /**
   * What `retrieve` writes: the first fileSize bytes of the file's blocks taken in list order,
   * all of them whole except a last one cut to what remains.
   */
  lemma ContentIsBlockPrefix(d: Disk, ino: Inode)
    requires Readable(d, ino)
    ensures |Content(d, ino)| == ino.fileSize
    ensures |Concat(d, Listed(ino))| == |Listed(ino)| * BLOCK_SIZE
    ensures Content(d, ino) == Concat(d, Listed(ino))[..ino.fileSize]
  {
    var L := Listed(ino);
    SpanIsConcat(d, L);
    assert Span(d, L, 0, ino.fileSize) == Span(d, L, 0, |L| * BLOCK_SIZE)[..ino.fileSize];
  }

  /** Appending one byte to a span. */
  lemma SpanSnoc(d: Disk, L: seq<int>, from: nat, to: nat)
    requires BlocksIn(d, L) && from <= to < |L| * BLOCK_SIZE
    ensures Span(d, L, from, to + 1) == Span(d, L, from, to) + [ByteAt(d, L, to)]
  {
    assert Span(d, L, from, to + 1)[..to - from] == Span(d, L, from, to);
  }

  /** Appending the first `n` bytes of block number `j` of the file. */
  lemma SpanExtendBlock(d: Disk, L: seq<int>, j: nat, n: nat)
    requires BlocksIn(d, L) && j < |L| && n <= BLOCK_SIZE
    ensures Span(d, L, 0, j * BLOCK_SIZE + n) == Span(d, L, 0, j * BLOCK_SIZE) + d[L[j]][..n]
  {
    var s := Span(d, L, 0, j * BLOCK_SIZE + n);
    var t := Span(d, L, 0, j * BLOCK_SIZE) + d[L[j]][..n];
    forall p | 0 <= p < j * BLOCK_SIZE + n
      ensures s[p] == t[p]
    {
      if p >= j * BLOCK_SIZE {
        DivMod(j, p - j * BLOCK_SIZE);
      }
    }
    assert s == t;
  }

  /** A span reads only the blocks it covers, so it survives edits elsewhere and a longer list. */
  lemma SpanFrame(d: Disk, L: seq<int>, d': Disk, L': seq<int>, to: nat)
    requires BlocksIn(d, L) && BlocksIn(d', L') && |L| <= |L'| && to <= |L| * BLOCK_SIZE
    requires forall j :: 0 <= j < |L| ==> L'[j] == L[j] && d'[L[j]] == d[L[j]]
    ensures Span(d', L', 0, to) == Span(d, L, 0, to)
  {
    var s := Span(d', L', 0, to);
    var t := Span(d, L, 0, to);
    forall p | 0 <= p < to
      ensures s[p] == t[p]
    {
      assert p / BLOCK_SIZE < |L|;
    }
  }

  /** Adjacent spans join. */
  lemma SpanAppend(d: Disk, L: seq<int>, a: nat, b: nat, c: nat)
    requires BlocksIn(d, L) && a <= b <= c <= |L| * BLOCK_SIZE
    ensures Span(d, L, a, b) + Span(d, L, b, c) == Span(d, L, a, c)
  {
    var s, t := Span(d, L, a, b) + Span(d, L, b, c), Span(d, L, a, c);
    forall q | 0 <= q < |t|
      ensures s[q] == t[q]
    {
      if q >= b - a {
        assert s[q] == Span(d, L, b, c)[q - (b - a)];
      }
    }
  }

  /** The bytes `readFile` emits for one file: offsets [start, start + num) of its listed blocks. */
  ghost function RangeOf(d: Disk, ino: Inode, start: int, num: int): seq<bv8> {
    if 0 <= start && 0 <= num && start + num <= |Listed(ino)| * BLOCK_SIZE
       && BlocksIn(d, Listed(ino))
    then Span(d, Listed(ino), start, start + num)
    else []
  }

  /** Inside the file, `readFile` emits exactly the requested slice of its content, in order. */
  lemma ReadWithinFile(d: Disk, ino: Inode, start: nat, num: nat)
    requires Readable(d, ino)
    requires start + num <= ino.fileSize
    ensures RangeOf(d, ino, start, num) == Content(d, ino)[start..start + num]
  {
  }

  /** Some file offset of `ino` below p lives at byte `k` of block `b`. */
  ghost predicate CoveredBelow(ino: Inode, b: int, k: int, p: int) {
    var L := Listed(ino);
    exists j :: 0 <= j < |L| && L[j] == b && j * BLOCK_SIZE + k < p
  }

  /** Some file offset of `ino` lives at byte `k` of block `b`. */
  ghost predicate Covered(ino: Inode, b: int, k: int) {
    CoveredBelow(ino, b, k, ino.fileSize)
  }

  /** `v`, XORed with `c` when `p` holds. */
  function XorIf(v: bv8, p: bool, c: bv8): bv8 {
    if p then v ^ c else v
  }

  /** The disk once the file offsets of `ino` below p are XORed with `c`. */
  ghost function XorBelow(d: Disk, ino: Inode, c: bv8, p: int): (r: Disk)
    ensures |r| == |d|
    ensures forall b :: 0 <= b < |d| ==> |r[b]| == |d[b]|
  {
    seq(|d|, b requires 0 <= b < |d| =>
      seq(|d[b]|, k requires 0 <= k < |d[b]| => XorIf(d[b][k], CoveredBelow(ino, b, k, p), c)))
  }

  /** `encryptFile` on one file: every byte holding a file offset below fileSize is XORed with `c`. */
  ghost function XorFile(d: Disk, ino: Inode, c: bv8): (r: Disk)
    ensures |r| == |d|
    ensures forall b :: 0 <= b < |d| ==> |r[b]| == |d[b]|
    ensures forall b, k :: 0 <= b < |d| && 0 <= k < |d[b]| ==> r[b][k] == XorIf(d[b][k], Covered(ino, b, k), c)
  {
    XorBelow(d, ino, c, ino.fileSize)
  }

  /** Before the first offset nothing is transformed. */
  lemma XorBelowZero(d: Disk, ino: Inode, c: bv8)
    ensures XorBelow(d, ino, c, 0) == d
  {
    var e := XorBelow(d, ino, c, 0);
    forall b | 0 <= b < |d|
      ensures e[b] == d[b]
    {
      forall k | 0 <= k < |d[b]|
        ensures e[b][k] == d[b][k]
      {
        assert !CoveredBelow(ino, b, k, 0);
      }
    }
  }

  /** Offset p = j * BLOCK_SIZE + k adds exactly byte k of block L[j] to the covered bytes. */
  lemma CoveredStep(ino: Inode, j: nat, k: nat, x: int, y: nat)
    requires j < |Listed(ino)| && k < BLOCK_SIZE && y < BLOCK_SIZE
    ensures CoveredBelow(ino, x, y, j * BLOCK_SIZE + k + 1) <==>
              CoveredBelow(ino, x, y, j * BLOCK_SIZE + k) || (x == Listed(ino)[j] && y == k)
  {
    var L := Listed(ino);
    var p := j * BLOCK_SIZE + k;
    if CoveredBelow(ino, x, y, p + 1) && !CoveredBelow(ino, x, y, p) {
      var j' :| 0 <= j' < |L| && L[j'] == x && j' * BLOCK_SIZE + y < p + 1;
      DivMod(j', y);
      DivMod(j, k);
    }
    if x == L[j] && y == k {
      assert 0 <= j < |L| && L[j] == x && j * BLOCK_SIZE + y < p + 1;
    }
  }

  /** The byte of offset p is not covered by any smaller offset when the file's blocks are distinct. */
  lemma CoveredFresh(ino: Inode, j: nat, k: nat)
    requires WellFormed(ino) && j < |Listed(ino)|
    ensures !CoveredBelow(ino, Listed(ino)[j], k, j * BLOCK_SIZE + k)
  {
    var L := Listed(ino);
    forall j' | 0 <= j' < |L| && j' * BLOCK_SIZE + k < j * BLOCK_SIZE + k
      ensures L[j'] != L[j]
    {
      assert j' != j;
    }
  }

  /** One block of the disk before and after offset p = j * BLOCK_SIZE + k is transformed. */
  lemma XorBelowStepAt(d: Disk, ino: Inode, c: bv8, j: nat, k: nat, x: nat)
    requires WellFormed(ino) && FullBlocks(d) && |d| == NUM_BLOCKS
    requires j < |Listed(ino)| && k < BLOCK_SIZE && x < |d|
    ensures var e := XorBelow(d, ino, c, j * BLOCK_SIZE + k);
            var e' := XorBelow(d, ino, c, j * BLOCK_SIZE + k + 1);
            e'[x] == if x == Listed(ino)[j] then e[x][k := e[x][k] ^ c] else e[x]
  {
    var p := j * BLOCK_SIZE + k;
    var e := XorBelow(d, ino, c, p);
    var e' := XorBelow(d, ino, c, p + 1);
    CoveredFresh(ino, j, k);
    forall y | 0 <= y < |d[x]|
      ensures CoveredBelow(ino, x, y, p + 1) <==> CoveredBelow(ino, x, y, p) || (x == Listed(ino)[j] && y == k)
    {
      CoveredStep(ino, j, k, x, y);
    }
  }

  /**
   * Transforming offset p = j * BLOCK_SIZE + k of a well-formed file XORs byte k of its j-th
   * block, which the offsets below p have not touched, and nothing else.
   */
  lemma XorBelowStep(d: Disk, ino: Inode, c: bv8, j: nat, k: nat)
    requires WellFormed(ino) && FullBlocks(d) && |d| == NUM_BLOCKS
    requires j < |Listed(ino)| && k < BLOCK_SIZE
    ensures var e := XorBelow(d, ino, c, j * BLOCK_SIZE + k);
            var b := Listed(ino)[j];
            0 <= b < |d| && k < |e[b]| &&
            XorBelow(d, ino, c, j * BLOCK_SIZE + k + 1) == e[b := e[b][k := e[b][k] ^ c]]
  {
    var e := XorBelow(d, ino, c, j * BLOCK_SIZE + k);
    var e' := XorBelow(d, ino, c, j * BLOCK_SIZE + k + 1);
    var b := Listed(ino)[j];
    forall x | 0 <= x < |d|
      ensures e'[x] == e[b := e[b][k := e[b][k] ^ c]][x]
    {
      XorBelowStepAt(d, ino, c, j, k, x);
    }
  }

  /** A byte string with every byte XORed with `c`. */
  function XorBytes(s: seq<bv8>, c: bv8): (r: seq<bv8>)
    ensures |r| == |s|
  {
    seq(|s|, i requires 0 <= i < |s| => s[i] ^ c)
  }

  lemma XorIfTwice(v: bv8, p: bool, c: bv8)
    ensures XorIf(XorIf(v, p, c), p, c) == v
  {
  }

  lemma XorIfCommute(v: bv8, p: bool, c: bv8, q: bool, e: bv8)
    ensures XorIf(XorIf(v, p, c), q, e) == XorIf(XorIf(v, q, e), p, c)
  {
  }

  /** Transforming twice with the same byte restores the disk. */
  lemma XorFileInvolution(d: Disk, ino: Inode, c: bv8)
    ensures XorFile(XorFile(d, ino, c), ino, c) == d
  {
    var e := XorFile(XorFile(d, ino, c), ino, c);
    forall b | 0 <= b < |d|
      ensures e[b] == d[b]
    {
      forall k | 0 <= k < |d[b]|
        ensures e[b][k] == d[b][k]
      {
        XorIfTwice(d[b][k], Covered(ino, b, k), c);
      }
    }
  }

  /** Transforms of two files commute, whatever their blocks share. */
  lemma XorFileCommute(d: Disk, a: Inode, ca: bv8, b: Inode, cb: bv8)
    ensures XorFile(XorFile(d, a, ca), b, cb) == XorFile(XorFile(d, b, cb), a, ca)
  {
    var e := XorFile(XorFile(d, a, ca), b, cb);
    var f := XorFile(XorFile(d, b, cb), a, ca);
    forall x | 0 <= x < |d|
      ensures e[x] == f[x]
    {
      forall k | 0 <= k < |d[x]|
        ensures e[x][k] == f[x][k]
      {
        XorIfCommute(d[x][k], Covered(a, x, k), ca, Covered(b, x, k), cb);
      }
    }
  }

  /** The file's own content comes out XORed byte by byte. */
  lemma XorFileContent(d: Disk, ino: Inode, c: bv8)
    requires Readable(d, ino)
    ensures Readable(XorFile(d, ino, c), ino)
    ensures Content(XorFile(d, ino, c), ino) == XorBytes(Content(d, ino), c)
  {
    var e := XorFile(d, ino, c);
    var L := Listed(ino);
    forall p | 0 <= p < ino.fileSize
      ensures Content(e, ino)[p] == Content(d, ino)[p] ^ c
    {
      var j, k := p / BLOCK_SIZE, p % BLOCK_SIZE;
      assert j * BLOCK_SIZE + k == p;
      assert Covered(ino, L[j], k);
    }
  }

  /** Blocks that are not the file's own keep every byte. */
  lemma XorFileOutside(d: Disk, ino: Inode, c: bv8, b: nat)
    requires b < |d| && forall j :: 0 <= j < |Listed(ino)| ==> Listed(ino)[j] != b
    ensures XorFile(d, ino, c)[b] == d[b]
  {
    assert XorFile(d, ino, c)[b] == d[b];
  }
}
