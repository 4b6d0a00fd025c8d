/** The inode store over a disk image: which block and slot hold inode
    `n`, the bounds test of inode_load and inode_save, and the disk image
    that a save produces. The class methods FileSystem.InodeLoad and
    FileSystem.InodeSave are proved against these functions. */
module InodeStore {
  import opened Layout
  import opened Disk

  datatype Option<T> = None | Some(value: T)

  /** `(unsigned)n` for a 32-bit `int n`. */
  function Unsigned(n: int32): (u: int)
    ensures 0 <= u < 0x1_0000_0000
    ensures n >= 0 ==> u == n
    ensures n < 0 ==> u >= 0x8000_0000
  {
    if n < 0 then n + 0x1_0000_0000 else n
  }

  /** The test both operations start with:
      `(unsigned)ino_number > rootSB.inode_cnt * INODES_PER_BLOCK`. */
  predicate Rejected(sb: Superblock, n: int32)
  {
    Unsigned(n) > sb.inodeCnt * InodesPerBlock
  }

  /** The rejected numbers are exactly the negative ones and those above
      inode_cnt * 64 (the bound itself is accepted). */
  lemma RejectedExactly(sb: Superblock, n: int32)
    ensures Rejected(sb, n) <==> n < 0 || n > sb.inodeCnt * InodesPerBlock
  {
  }

  /** The block holding inode `n`: `first_inodeblk + n / INODES_PER_BLOCK`. */
  function InodeBlockNo(sb: Superblock, n: nat): int
  {
    sb.firstInodeBlk + n / InodesPerBlock
  }

  /** inode_load: None for a rejected number, otherwise the inode in slot
      `n % 64` of its block (possibly typed Free). */
  function LoadInode(sb: Superblock, d: seq<Block>, n: int32): (r: Option<Inode>)
    ensures r.None? <==> Rejected(sb, n)
  {
    if Rejected(sb, n) then None
    else Some(InodeAt(ReadBlock(d, InodeBlockNo(sb, n)), n % InodesPerBlock))
  }

  /** inode_save: the disk image after the read-modify-write of the block
      holding inode `n`; a rejected number leaves the image as it was. */
  function SaveInode(sb: Superblock, d: seq<Block>, n: int32, x: Inode): (d': seq<Block>)
    ensures |d'| == |d|
    ensures Rejected(sb, n) ==> d' == d
  {
    if Rejected(sb, n) then d
    else
      var blk := InodeBlockNo(sb, n);
      WriteBlock(d, blk, WithInode(ReadBlock(d, blk), n % InodesPerBlock, x))
  }

  /** Saving inode `n` and loading it back gives the saved inode, provided
      its block lies on the disk. */
  lemma SaveThenLoad(sb: Superblock, d: seq<Block>, n: int32, x: Inode)
    requires !Rejected(sb, n) && InodeBlockNo(sb, n) < |d|
    ensures LoadInode(sb, SaveInode(sb, d, n, x), n) == Some(x)
  {
    var blk := InodeBlockNo(sb, n);
    WithInodeSlots(ReadBlock(d, blk), n % InodesPerBlock, x, 0);
  }

  /** A save changes no other inode: every other number loads as before. */
  lemma SaveKeepsOtherInodes(sb: Superblock, d: seq<Block>, n: int32, m: int32, x: Inode)
    requires m != n
    ensures LoadInode(sb, SaveInode(sb, d, n, x), m) == LoadInode(sb, d, m)
  {
    if !Rejected(sb, n) && !Rejected(sb, m) {
      var blk := InodeBlockNo(sb, n);
      var d' := SaveInode(sb, d, n, x);
      if InodeBlockNo(sb, m) == blk {
        assert m % InodesPerBlock != n % InodesPerBlock;
        WithInodeSlots(ReadBlock(d, blk), n % InodesPerBlock, x, m % InodesPerBlock);
      } else {
        assert ReadBlock(d', InodeBlockNo(sb, m)) == ReadBlock(d, InodeBlockNo(sb, m));
      }
    }
  }

  /** A save writes at most one block: the block holding inode `n`. */
  lemma SaveKeepsOtherBlocks(sb: Superblock, d: seq<Block>, n: int32, x: Inode, b: nat)
    requires b < |d| && (Rejected(sb, n) || b != InodeBlockNo(sb, n))
    ensures SaveInode(sb, d, n, x)[b] == d[b]
  {
  }
}
