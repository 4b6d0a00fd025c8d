/** The virtual disk the file system sits on: a fixed number of 2048-byte
    blocks. The real device (disk_init, disk_read, disk_write, disk_size)
    is not part of this model; it is an in-memory array of blocks. A block
    number outside the disk reads as zeros, and a write to one is dropped. */
module Disk {
  import opened Layout

  /** Block `n` of the disk image `d`, as disk_read fills its buffer. */
  function ReadBlock(d: seq<Block>, n: int): Block
  {
    if 0 <= n < |d| then d[n] else ZeroBlock()
  }

  /** The disk image after disk_write of `b` to block `n`. */
  function WriteBlock(d: seq<Block>, n: int, b: Block): (d': seq<Block>)
    ensures |d'| == |d|
    ensures forall m :: 0 <= m < |d| && m != n ==> d'[m] == d[m]
    ensures 0 <= n < |d| ==> d'[n] == b
  {
    if 0 <= n < |d| then d[n := b] else d
  }

  class BlockDevice {
    const blocks: array<Block>

    constructor (image: seq<Block>)
      ensures fresh(blocks) && blocks[..] == image
    {
      blocks := new Block[|image|](i requires 0 <= i < |image| => image[i]);
    }

    /** disk_size(): the number of blocks. */
    function Size(): nat
    {
      blocks.Length
    }

    /** disk_read(n, buf). */
    method Read(n: int) returns (b: Block)
      ensures b == ReadBlock(blocks[..], n)
    {
      if 0 <= n < blocks.Length {
        b := blocks[n];
      } else {
        b := ZeroBlock();
      }
    }

    /** disk_write(n, buf). */
    method Write(n: int, b: Block)
      modifies blocks
      ensures blocks[..] == WriteBlock(old(blocks[..]), n, b)
    {
      if 0 <= n < blocks.Length {
        blocks[n] := b;
      }
    }
  }
}
