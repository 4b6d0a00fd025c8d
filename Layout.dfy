/** On-disk layout of the file system: the sizes and constants of the C
    structures, and the byte-level views of a 2048-byte block as a
    superblock, as 64 inodes, as 32 directory entries or as 1024 block
    numbers. Multi-byte fields are little-endian, as on the x86 machines the
    code targets; `struct fs_inode` (32 bytes) and `struct fs_dirent`
    (64 bytes) have no padding. */
module Layout {

  const BlockSize: nat := 2048
  const InodeSize: nat := 32
  const DirentSize: nat := 64
  const InodesPerBlock: nat := 64    // BlockSize / InodeSize
  const DirentsPerBlock: nat := 32   // BlockSize / DirentSize
  const DirectBlocks: nat := 11      // DIRBLOCK_PER_INODE
  const IndirectEntries: nat := 1024 // BlockSize / 2 entries of 16 bits
  const MaxFileName: nat := 62

  const FsMagic: int := 0xf50f5024
  const SuperBlockNo: int := 0
  const RootIno: int := 0

  // inode types
  const Free: int := 0
  const IfDir: int := 4
  const IfReg: int := 8

  type byte = x: int | 0 <= x < 0x100
  type u16 = x: int | 0 <= x < 0x1_0000
  type u32 = x: int | 0 <= x < 0x1_0000_0000
  type int32 = x: int | -0x8000_0000 <= x < 0x8000_0000

  /** The contents of one disk block. */
  type Block = b: seq<byte> | |b| == BlockSize witness seq(2048, _ => 0)

  /** A C string as `strlen` and `strcmp` see it: no NUL inside. */
  type CString = s: seq<byte> | 0 !in s

  function ZeroBlock(): Block { seq(BlockSize, _ => 0) }

  // ---------------------------------------------------------------------
  // Little-endian fields

  function U16At(b: seq<byte>, i: nat): u16
    requires i + 2 <= |b|
  {
    b[i] as int + 0x100 * (b[i + 1] as int)
  }

  function U32At(b: seq<byte>, i: nat): u32
    requires i + 4 <= |b|
  {
    U16At(b, i) as int + 0x1_0000 * (U16At(b, i + 2) as int)
  }

  function EncodeU16(v: u16): (e: seq<byte>)
    ensures |e| == 2
  {
    [v % 0x100, v / 0x100]
  }

  function EncodeU32(v: u32): (e: seq<byte>)
    ensures |e| == 4
  {
    EncodeU16(v % 0x1_0000) + EncodeU16(v / 0x1_0000)
  }

  lemma U16RoundTrip(v: u16, b: seq<byte>, i: nat)
    requires i + 2 <= |b| && b[i..i + 2] == EncodeU16(v)
    ensures U16At(b, i) == v
  {
    assert b[i] == v % 0x100 && b[i + 1] == v / 0x100 by {
      assert b[i] == b[i..i + 2][0] && b[i + 1] == b[i..i + 2][1];
    }
  }

  lemma U32RoundTrip(v: u32, b: seq<byte>, i: nat)
    requires i + 4 <= |b| && b[i..i + 4] == EncodeU32(v)
    ensures U32At(b, i) == v
  {
    assert b[i..i + 2] == b[i..i + 4][..2];
    assert b[i + 2..i + 4] == b[i..i + 4][2..];
    U16RoundTrip(v % 0x1_0000, b, i);
    U16RoundTrip(v / 0x1_0000, b, i + 2);
  }

  // ---------------------------------------------------------------------
  // Superblock view (struct fs_sblock at the start of block 0)

  datatype Superblock = Superblock(
    magic: u32,
    blockCnt: u32,
    bmapSize: u16,
    firstInodeBlk: u16,
    inodeCnt: u16,
    inodeBlocks: u16,
    firstDataBlk: u16)

  /** The zero-initialised global superblock before any mount. */
  const UnmountedSB := Superblock(0, 0, 0, 0, 0, 0, 0)

  function DecodeSuperblock(b: Block): Superblock
  {
    Superblock(U32At(b, 0), U32At(b, 4), U16At(b, 8), U16At(b, 10),
               U16At(b, 12), U16At(b, 14), U16At(b, 16))
  }

  // ---------------------------------------------------------------------
  // Inode view (struct fs_inode, 64 per block)

  type DirectList = s: seq<u16> | |s| == DirectBlocks witness seq(11, _ => 0)

  datatype Inode = Inode(
    itype: u16,
    nlinks: u16,
    size: u32,
    dirBlock: DirectList,
    indirBlock: u16)

  /** Decodes the 32-byte inode record that starts at byte `at` of `b`:
      type at 0, nlinks at 2, size at 4, the 11 direct block numbers at
      8..29, the indirect block number at 30. */
  function DecodeInode(b: seq<byte>, at: nat): Inode
    requires at + InodeSize <= |b|
  {
    Inode(U16At(b, at), U16At(b, at + 2), U32At(b, at + 4),
          seq(DirectBlocks, k requires 0 <= k < DirectBlocks => U16At(b, at + 8 + 2 * k)),
          U16At(b, at + 30))
  }

  /** An inode record decodes the same wherever its 32 bytes lie. */
  lemma DecodeInodeFrame(b1: seq<byte>, at1: nat, b2: seq<byte>, at2: nat)
    requires at1 + InodeSize <= |b1| && at2 + InodeSize <= |b2|
    requires forall i :: at1 <= i < at1 + InodeSize ==> b1[i] == b2[i - at1 + at2]
    ensures DecodeInode(b1, at1) == DecodeInode(b2, at2)
  {
    var x, y := DecodeInode(b1, at1), DecodeInode(b2, at2);
    forall k | 0 <= k < DirectBlocks
      ensures x.dirBlock[k] == y.dirBlock[k]
    {
      assert b1[at1 + 8 + 2 * k] == b2[at2 + 8 + 2 * k];
      assert b1[at1 + 8 + 2 * k + 1] == b2[at2 + 8 + 2 * k + 1];
    }
    assert b1[at1] == b2[at2] && b1[at1 + 1] == b2[at2 + 1];
    assert b1[at1 + 2] == b2[at2 + 2] && b1[at1 + 3] == b2[at2 + 3];
    assert b1[at1 + 4] == b2[at2 + 4] && b1[at1 + 5] == b2[at2 + 5];
    assert b1[at1 + 6] == b2[at2 + 6] && b1[at1 + 7] == b2[at2 + 7];
    assert b1[at1 + 30] == b2[at2 + 30] && b1[at1 + 31] == b2[at2 + 31];
    assert x.dirBlock == y.dirBlock;
  }

  function EncodeU16s(s: seq<u16>): (e: seq<byte>)
    ensures |e| == 2 * |s|
  {
    if s == [] then [] else EncodeU16(s[0]) + EncodeU16s(s[1..])
  }

  function EncodeInode(x: Inode): (e: seq<byte>)
    ensures |e| == InodeSize
  {
    EncodeU16(x.itype) + EncodeU16(x.nlinks) + EncodeU32(x.size)
      + EncodeU16s(x.dirBlock) + EncodeU16(x.indirBlock)
  }

  lemma {:induction false} EncodeU16sAt(s: seq<u16>, k: nat)
    requires k < |s|
    ensures EncodeU16s(s)[2 * k..2 * k + 2] == EncodeU16(s[k])
  {
    if k > 0 {
      EncodeU16sAt(s[1..], k - 1);
      assert EncodeU16s(s) == EncodeU16(s[0]) + EncodeU16s(s[1..]);
      assert EncodeU16s(s)[2 * k..2 * k + 2] == EncodeU16s(s[1..])[2 * (k - 1)..2 * (k - 1) + 2];
    }
  }

  /** Decoding an encoded inode gives back every field. */
  lemma InodeRoundTrip(x: Inode)
    ensures DecodeInode(EncodeInode(x), 0) == x
  {
    var e := EncodeInode(x);
    var tail := EncodeU16s(x.dirBlock);
    assert e[0..2] == EncodeU16(x.itype);
    assert e[2..4] == EncodeU16(x.nlinks);
    assert e[4..8] == EncodeU32(x.size);
    assert e[30..32] == EncodeU16(x.indirBlock);
    U16RoundTrip(x.itype, e, 0);
    U16RoundTrip(x.nlinks, e, 2);
    U32RoundTrip(x.size, e, 4);
    U16RoundTrip(x.indirBlock, e, 30);
    var y := DecodeInode(e, 0);
    forall k | 0 <= k < DirectBlocks
      ensures y.dirBlock[k] == x.dirBlock[k]
    {
      EncodeU16sAt(x.dirBlock, k);
      assert e[8 + 2 * k..8 + 2 * k + 2] == tail[2 * k..2 * k + 2];
      U16RoundTrip(x.dirBlock[k], e, 8 + 2 * k);
    }
    assert y.dirBlock == x.dirBlock;
  }

  /** Slot `slot` of a block of inodes. */
  function InodeAt(b: Block, slot: nat): Inode
    requires slot < InodesPerBlock
  {
    DecodeInode(b, InodeSize * slot)
  }

  /** The block with inode slot `slot` overwritten by `x`, as the
      `block.inode[n] = *ino` assignment of the read-modify-write does. */
  function WithInode(b: Block, slot: nat, x: Inode): Block
    requires slot < InodesPerBlock
  {
    b[..InodeSize * slot] + EncodeInode(x) + b[InodeSize * slot + InodeSize..]
  }

  /** The written slot reads back as `x`; every other slot keeps its value. */
  lemma WithInodeSlots(b: Block, slot: nat, x: Inode, other: nat)
    requires slot < InodesPerBlock && other < InodesPerBlock
    ensures InodeAt(WithInode(b, slot, x), slot) == x
    ensures other != slot ==> InodeAt(WithInode(b, slot, x), other) == InodeAt(b, other)
  {
    var w := WithInode(b, slot, x);
    var e := EncodeInode(x);
    assert forall i :: InodeSize * slot <= i < InodeSize * slot + InodeSize ==> w[i] == e[i - InodeSize * slot];
    DecodeInodeFrame(w, InodeSize * slot, e, 0);
    InodeRoundTrip(x);
    if other != slot {
      assert forall i :: InodeSize * other <= i < InodeSize * other + InodeSize ==> w[i] == b[i];
      DecodeInodeFrame(w, InodeSize * other, b, InodeSize * other);
    }
  }

  // ---------------------------------------------------------------------
  // Directory-entry view (struct fs_dirent, 32 per block)

  datatype Dirent = Dirent(ino: u16, name: CString)

  /** The C string that starts at byte `i` of `b`: every byte up to the
      first NUL, or up to the end of the block when none follows. */
  function CStringAt(b: seq<byte>, i: nat): CString
    requires i <= |b|
    decreases |b| - i
  {
    if i == |b| || b[i] == 0 then [] else [b[i]] + CStringAt(b, i + 1)
  }

  /** The string at `i` is the run of bytes up to the first NUL, or up to
      the end of the buffer when there is none. */
  lemma {:induction false} CStringAtSpan(b: seq<byte>, i: nat)
    requires i <= |b|
    ensures var s := CStringAt(b, i);
      && i + |s| <= |b| && s == b[i..i + |s|]
      && (i + |s| == |b| || b[i + |s|] == 0)
    decreases |b| - i
  {
    if i < |b| && b[i] != 0 {
      CStringAtSpan(b, i + 1);
    }
  }

  /** Entry `j` of a block of directory entries: the inode number in its
      first two bytes, the name (`d_name`) from byte 2 on. */
  function DirentAt(b: Block, j: nat): Dirent
    requires j < DirentsPerBlock
  {
    Dirent(U16At(b, DirentSize * j), CStringAt(b, DirentSize * j + 2))
  }

  /** Entry `i` of an indirect block: a 16-bit block number. */
  function IndirectEntry(b: Block, i: nat): u16
    requires i < IndirectEntries
  {
    U16At(b, 2 * i)
  }
}
