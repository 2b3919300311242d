/**
 * Facts behind the copy loop of `insert`: the block slots of the inode being filled, the
 * first-fit claim of free blocks, and the bytes written so far.
 */
module InsertCopy {
  import opened FsTypes
  import opened Bitmap
  import opened FileLayout

  /** The block slots of an inode whose first |L| slots hold L and the rest nothing. */
  function Slots(L: seq<int>): (s: seq<int>)
    requires |L| <= BLOCKS_PER_FILE
    ensures |s| == BLOCKS_PER_FILE
    ensures forall k :: 0 <= k < |L| ==> s[k] == L[k]
    ensures forall k :: |L| <= k < BLOCKS_PER_FILE ==> s[k] == UNUSED
  {
    L + PristineBlocks()[|L|..]
  }

  /** No slot is taken yet. */
  lemma SlotsEmpty()
    ensures Slots([]) == PristineBlocks()
  {
  }

  /** `findFreeInodeBlock` finds slot |L|; it is first marked 0, then given the block. */
  lemma SlotsStep(L: seq<int>, b: int)
    requires |L| < BLOCKS_PER_FILE
    requires forall j :: 0 <= j < |L| ==> L[j] != UNUSED
    ensures FirstUnused(Slots(L), 0) == |L|
    ensures Slots(L)[|L| := 0][|L| := b] == Slots(L + [b])
  {
    FirstUnusedIs(Slots(L), |L|);
    assert Slots(L)[|L| := 0][|L| := b] == Slots(L + [b]);
  }

  /** The first UNUSED slot is n when the slots before n are used and slot n, if any, is not. */
  lemma FirstUnusedIs(s: seq<int>, n: nat)
    requires n <= |s|
    requires forall k :: 0 <= k < n ==> s[k] != UNUSED
    requires n < |s| ==> s[n] == UNUSED
    ensures FirstUnused(s, 0) == n
  {
  }

  /** The blocks listed by an inode with slots Slots(L) are L. */
  lemma SlotsListed(ino: Inode, L: seq<int>)
    requires |L| <= BLOCKS_PER_FILE && ino.blocks == Slots(L)
    requires forall j :: 0 <= j < |L| ==> L[j] != UNUSED
    ensures Listed(ino) == L
  {
    FirstUnusedIs(ino.blocks, |L|);
  }

  /** The free flags once the blocks of L are claimed. */
  function Claim(flags: seq<bool>, L: seq<int>): (r: seq<bool>)
    ensures |r| == |flags|
    ensures forall b :: 0 <= b < |flags| ==> (r[b] <==> flags[b] && b !in L)
  {
    seq(|flags|, b requires 0 <= b < |flags| => flags[b] && b !in L)
  }

  /**
   * L is what successive first-fit searches hand out: block j is the lowest free data block
   * once the blocks before it are claimed.
   */
  ghost predicate FirstFit(flags: seq<bool>, L: seq<int>) {
    forall j :: 0 <= j < |L| ==> L[j] != -1 && L[j] == FirstFree(Claim(flags, L[..j]), FIRST_DATA_BLOCK)
  }

  /** A first-fit list holds distinct data blocks that were free. */
  lemma FirstFitBlocks(flags: seq<bool>, L: seq<int>)
    requires |flags| == NUM_BLOCKS && FirstFit(flags, L)
    ensures forall j :: 0 <= j < |L| ==> DataBlock(L[j]) && flags[L[j]] && L[j] !in L[..j]
    ensures forall j, j' :: 0 <= j < j' < |L| ==> L[j] != L[j']
  {
    forall j | 0 <= j < |L|
      ensures DataBlock(L[j]) && flags[L[j]] && L[j] !in L[..j]
    {
      assert Claim(flags, L[..j])[L[j]];
    }
    forall j, j' | 0 <= j < j' < |L|
      ensures L[j] != L[j']
    {
      assert L[j] in L[..j'];
    }
  }

  /** Claiming the next first-fit block extends a first-fit list, and lowers the free count by one. */
  lemma ClaimStep(flags: seq<bool>, L: seq<int>, b: int)
    requires |flags| == NUM_BLOCKS && FirstFit(flags, L)
    requires b == FirstFree(Claim(flags, L), FIRST_DATA_BLOCK) && b != -1
    ensures FirstFit(flags, L + [b])
    ensures Claim(flags, L)[b := false] == Claim(flags, L + [b])
    ensures CountFree(Claim(flags, L + [b]), FIRST_DATA_BLOCK, NUM_BLOCKS) + 1
         == CountFree(Claim(flags, L), FIRST_DATA_BLOCK, NUM_BLOCKS)
  {
    var L' := L + [b];
    forall j | 0 <= j < |L'|
      ensures L'[j] != -1 && L'[j] == FirstFree(Claim(flags, L'[..j]), FIRST_DATA_BLOCK)
    {
      if j < |L| {
        assert L'[..j] == L[..j];
      } else {
        assert L'[..j] == L;
      }
    }
    assert Claim(flags, L)[b := false] == Claim(flags, L');
    CountFreeUpdate(Claim(flags, L), FIRST_DATA_BLOCK, NUM_BLOCKS, b, false);
  }

  /** Each claimed block was free, so the count drops by exactly |L|. */
  lemma {:induction false} ClaimCount(flags: seq<bool>, L: seq<int>)
    requires |flags| == NUM_BLOCKS && FirstFit(flags, L)
    ensures CountFree(Claim(flags, L), FIRST_DATA_BLOCK, NUM_BLOCKS) + |L|
         == CountFree(flags, FIRST_DATA_BLOCK, NUM_BLOCKS)
    decreases |L|
  {
    if L == [] {
      assert Claim(flags, L) == flags;
    } else {
      var P := L[..|L| - 1];
      var b := L[|L| - 1];
      assert P + [b] == L;
      assert FirstFit(flags, P) by {
        forall j | 0 <= j < |P|
          ensures P[j] != -1 && P[j] == FirstFree(Claim(flags, P[..j]), FIRST_DATA_BLOCK)
        {
          assert L[..j] == P[..j];
        }
      }
      ClaimCount(flags, P);
      assert L[..|P|] == P;
      ClaimStep(flags, P, b);
    }
  }

  /**
   * The admission check of `insert` (size at most the free space) leaves a free block for
   * every chunk: while fewer than BlocksFor(size) blocks are claimed, one more is free.
   */
  lemma ClaimAvailable(flags: seq<bool>, L: seq<int>, size: nat)
    requires |flags| == NUM_BLOCKS && FirstFit(flags, L)
    requires size <= BLOCK_SIZE * CountFree(flags, FIRST_DATA_BLOCK, NUM_BLOCKS)
    requires |L| < BlocksFor(size)
    ensures FirstFree(Claim(flags, L), FIRST_DATA_BLOCK) != -1
  {
    ClaimCount(flags, L);
    CountFreePositive(Claim(flags, L), FIRST_DATA_BLOCK, NUM_BLOCKS);
  }

  /** On an image with every block free, chunk j of a file goes to block FIRST_DATA_BLOCK + j. */
  lemma {:induction false} FreshFirstFit(flags: seq<bool>, L: seq<int>)
    requires |flags| == NUM_BLOCKS && forall b :: 0 <= b < NUM_BLOCKS ==> flags[b]
    requires FirstFit(flags, L)
    ensures forall j :: 0 <= j < |L| ==> L[j] == FIRST_DATA_BLOCK + j
    decreases |L|
  {
    if L != [] {
      var n := |L| - 1;
      var P := L[..n];
      assert FirstFit(flags, P) by {
        forall j | 0 <= j < |P|
          ensures P[j] != -1 && P[j] == FirstFree(Claim(flags, P[..j]), FIRST_DATA_BLOCK)
        {
          assert L[..j] == P[..j];
        }
      }
      FreshFirstFit(flags, P);
      var c := Claim(flags, P);
      var r := L[n];
      assert r == FirstFree(c, FIRST_DATA_BLOCK) && r != -1;
      assert r !in P && FIRST_DATA_BLOCK <= r < NUM_BLOCKS && c[r];
      forall x | FIRST_DATA_BLOCK <= x < FIRST_DATA_BLOCK + n && x < NUM_BLOCKS
        ensures !c[x]
      {
        assert P[x - FIRST_DATA_BLOCK] == x;
      }
      var x := FIRST_DATA_BLOCK + n;
      assert x <= r;
      assert x !in P by {
        forall j | 0 <= j < |P| ensures P[j] != x { }
      }
      assert c[x];
    }
  }

  /** The first w bytes of src lie in the blocks L of d, chunk j at the start of block L[j]. */
  ghost predicate Holds(d: Disk, L: seq<int>, src: seq<bv8>, w: nat) {
    BlocksIn(d, L) && w <= |src| && w <= |L| * BLOCK_SIZE &&
    forall j, k :: 0 <= j < |L| && 0 <= k < BLOCK_SIZE && j * BLOCK_SIZE + k < w ==>
      d[L[j]][k] == src[j * BLOCK_SIZE + k]
  }

  /** Writing the next chunk into a block outside L extends what is held. */
  lemma HoldsStep(d: Disk, L: seq<int>, b: int, src: seq<bv8>, offset: nat, chunk: nat)
    requires Holds(d, L, src, offset) && 0 <= b < |d| && |d[b]| == BLOCK_SIZE && b !in L
    requires offset == |L| * BLOCK_SIZE && chunk <= BLOCK_SIZE && offset + chunk <= |src|
    ensures Holds(d[b := src[offset..offset + chunk] + d[b][chunk..]], L + [b], src, offset + chunk)
  {
    var d' := d[b := src[offset..offset + chunk] + d[b][chunk..]];
    var L' := L + [b];
    forall j, k | 0 <= j < |L'| && 0 <= k < BLOCK_SIZE && j * BLOCK_SIZE + k < offset + chunk
      ensures d'[L'[j]][k] == src[j * BLOCK_SIZE + k]
    {
      if j < |L| {
        assert L'[j] == L[j] != b;
        assert j * BLOCK_SIZE + k < offset by {
          assert (j + 1) * BLOCK_SIZE <= |L| * BLOCK_SIZE;
        }
      } else {
        assert k < chunk;
      }
    }
  }

  /** What is held, read back by file offset, is the held prefix of src. */
  lemma HoldsSpan(d: Disk, L: seq<int>, src: seq<bv8>, w: nat)
    requires Holds(d, L, src, w)
    ensures Span(d, L, 0, w) == src[..w]
  {
    forall p | 0 <= p < w
      ensures Span(d, L, 0, w)[p] == src[p]
    {
      var j, k := p / BLOCK_SIZE, p % BLOCK_SIZE;
      assert j * BLOCK_SIZE + k == p;
    }
  }

  /** The copy state: what is held of src is in the blocks L, and every other block is as in d0. */
  ghost predicate Copied(d: Disk, d0: Disk, L: seq<int>, src: seq<bv8>, w: nat) {
    |d| == |d0| && Holds(d, L, src, w) && forall b :: 0 <= b < |d| && b !in L ==> d[b] == d0[b]
  }

  /** One pass of the copy loop: the chunk goes to block b, which joins L; no other block changes. */
  lemma ChunkStep(d: Disk, d0: Disk, L: seq<int>, b: int, src: seq<bv8>, offset: nat, chunk: nat)
    requires Copied(d, d0, L, src, offset) && FullBlocks(d) && 0 <= b < |d| && b !in L
    requires offset == |L| * BLOCK_SIZE && chunk <= BLOCK_SIZE && offset + chunk <= |src|
    ensures var d' := d[b := src[offset..offset + chunk] + d[b][chunk..]];
            FullBlocks(d') && Copied(d', d0, L + [b], src, offset + chunk)
  {
    HoldsStep(d, L, b, src, offset, chunk);
  }

  /** The inode `insert` leaves: its slots list the first-fit blocks L, one per started chunk. */
  lemma InsertedFacts(ino: Inode, L: seq<int>, src: seq<bv8>, flags: seq<bool>)
    requires |flags| == NUM_BLOCKS && FirstFit(flags, L)
    requires |src| <= MAX_FILE_SIZE && |L| == BlocksFor(|src|) && ino.fileSize == |src|
    requires |L| <= BLOCKS_PER_FILE && ino.blocks == Slots(L)
    ensures Listed(ino) == L && WellFormed(ino)
    ensures forall j :: 0 <= j < |L| ==> 0 <= L[j] < |flags| && flags[L[j]]
  {
    FirstFitBlocks(flags, L);
    SlotsListed(ino, L);
  }

  /** Claiming one block per started chunk stays within the inode's slots. */
  lemma ChunksFit(size: nat)
    requires size <= MAX_FILE_SIZE
    ensures BlocksFor(size) <= BLOCKS_PER_FILE
  {
  }
}
