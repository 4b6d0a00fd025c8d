/** The block address translator (offset2block): from a byte offset in a
    file to the disk block holding it, through 11 direct slots and one
    indirect block of 1024 16-bit entries. */
module AddressMap {
  import opened Layout
  import opened Disk

  /** Largest number of logical blocks a file can address. */
  const MaxFileBlocks: nat := DirectBlocks + IndirectEntries

  /** offset2block: the block number for byte `offset` of the file, or -1
      beyond the indirect range. Only the indirect range reads the disk,
      and then only block `indirBlock`. */
  function OffsetToBlock(ino: Inode, offset: nat, d: seq<Block>): (r: int)
    ensures -1 <= r < 0x1_0000
  {
    var block := offset / BlockSize;
    if block < DirectBlocks then ino.dirBlock[block]
    else if block < DirectBlocks + BlockSize / 2 then
      IndirectEntry(ReadBlock(d, ino.indirBlock), block - DirectBlocks)
    else -1
  }

  /** The file's logical block list: the direct slots followed by the
      entries of its indirect block. */
  function BlockMap(ino: Inode, d: seq<Block>): (m: seq<u16>)
    ensures |m| == MaxFileBlocks
    ensures m[..DirectBlocks] == ino.dirBlock
  {
    var ib := ReadBlock(d, ino.indirBlock);
    ino.dirBlock + seq(IndirectEntries, i requires 0 <= i < IndirectEntries => IndirectEntry(ib, i))
  }

  /** offset2block looks the offset's logical block up in the block list,
      and fails exactly past its end. */
  lemma OffsetToBlockIsLookup(ino: Inode, offset: nat, d: seq<Block>)
    ensures var m := BlockMap(ino, d);
      OffsetToBlock(ino, offset, d)
        == if offset / BlockSize < |m| then m[offset / BlockSize] as int else -1
  {
  }

  /** The three ranges: a direct offset needs no disk at all, an indirect
      one depends on the indirect block only, and anything further fails. */
  lemma OffsetToBlockRanges(ino: Inode, offset: nat, d1: seq<Block>, d2: seq<Block>)
    ensures offset / BlockSize < DirectBlocks ==>
      OffsetToBlock(ino, offset, d1) == ino.dirBlock[offset / BlockSize]
      && OffsetToBlock(ino, offset, d2) == OffsetToBlock(ino, offset, d1)
    ensures (DirectBlocks <= offset / BlockSize < MaxFileBlocks
             && ReadBlock(d1, ino.indirBlock) == ReadBlock(d2, ino.indirBlock)) ==>
      OffsetToBlock(ino, offset, d1)
        == IndirectEntry(ReadBlock(d1, ino.indirBlock), offset / BlockSize - DirectBlocks)
      && OffsetToBlock(ino, offset, d2) == OffsetToBlock(ino, offset, d1)
    ensures OffsetToBlock(ino, offset, d1) == -1 <==> offset / BlockSize >= MaxFileBlocks
  {
  }

  /** Every byte of one block-aligned chunk maps to the same block as the
      chunk's first byte: offsets `offset .. offset + t` with
      `offset % 2048 + t < 2048` share their logical block. */
  lemma SameBlock(ino: Inode, offset: nat, t: nat, d: seq<Block>)
    requires offset % BlockSize + t < BlockSize
    ensures (offset + t) / BlockSize == offset / BlockSize
    ensures (offset + t) % BlockSize == offset % BlockSize + t
    ensures OffsetToBlock(ino, offset + t, d) == OffsetToBlock(ino, offset, d)
  {
    var q := offset / BlockSize;
    assert offset == q * BlockSize + offset % BlockSize;
    assert offset + t == q * BlockSize + (offset % BlockSize + t);
  }
}
