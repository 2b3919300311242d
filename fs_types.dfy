/** Sizes, records and result values of the in-memory block file system. */
module FsTypes {

  /** Bytes per block. */
  const BLOCK_SIZE: nat := 1024
  /** Blocks in the image. */
  const NUM_BLOCKS: nat := 65536
  /** Block slots in one inode. */
  const BLOCKS_PER_FILE: nat := 1024
  /** Directory entries, and also inodes. */
  const NUM_FILES: nat := 256
  /** Blocks below this index hold metadata and are never handed out for file content. */
  const FIRST_DATA_BLOCK: nat := 1001
  /** Largest file `insert` admits, in bytes. */
  const MAX_FILE_SIZE: nat := 1048576

  /** The value of an inode block slot that holds no block. */
  const UNUSED: int := -1

  /** Attribute values written by `attrib`. */
  const HIDDEN: bv8 := 1
  const READ_ONLY: bv8 := 2

  /** One block of the image, and the whole block store. */
  type Block = seq<bv8>
  type Disk = seq<Block>

  /** `struct directoryEntry`: the name is kept without its terminating zero byte. */
  datatype DirectoryEntry = DirectoryEntry(filename: string, inUse: bool, inode: int)

  /** `struct inode`: `blocks` holds BLOCKS_PER_FILE slots, the used ones first, then UNUSED. */
  datatype Inode = Inode(blocks: seq<int>, inUse: bool, attribute: bv8, fileSize: nat,
                         hr: int, min: int, sec: int)

  datatype Option<T> = None | Some(value: T)

  datatype FsError =
    | NoImageOpen
    | FileNotFound
    | FileTooLarge
    | InsufficientSpace
    | DirectoryFull
    | InodeExhausted
    | ReadOnlyViolation

  datatype Outcome = Done | Failed(error: FsError)

  /** One line printed by `list`; `attribute` is present only for `list -a`. */
  datatype ListRow = ListRow(filename: string, fileSize: nat, hr: int, min: int, sec: int,
                             attribute: Option<bv8>)

  /** The file `retrieve` writes: its path and its bytes. */
  datatype Retrieved = Retrieved(path: string, bytes: seq<bv8>)

  /** A block index that may carry file content. */
  predicate DataBlock(b: int) {
    FIRST_DATA_BLOCK <= b < NUM_BLOCKS
  }

  function Min(a: int, b: int): int {
    if a < b then a else b
  }

  /** Number of BLOCK_SIZE chunks `insert` copies for `size` bytes: ceil(size / BLOCK_SIZE). */
  function BlocksFor(size: nat): (n: nat)
    ensures n * BLOCK_SIZE >= size
    ensures size > 0 ==> (n - 1) * BLOCK_SIZE < size
    ensures size == 0 ==> n == 0
  {
    (size + BLOCK_SIZE - 1) / BLOCK_SIZE
  }

  /** An inode as `init` and `createfs` leave it. */
  function PristineBlocks(): (s: seq<int>)
    ensures |s| == BLOCKS_PER_FILE
    ensures forall k :: 0 <= k < |s| ==> s[k] == UNUSED
  {
    seq(BLOCKS_PER_FILE, _ => UNUSED)
  }

  predicate Pristine(ino: Inode) {
    ino.blocks == PristineBlocks() && !ino.inUse && ino.attribute == 0 && ino.fileSize == 0
  }
}
