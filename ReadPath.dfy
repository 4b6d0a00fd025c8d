/** The copy loop of fs_read as a function of the disk image: it visits
    the 11 direct slots in order and copies from a slot only when the
    block the current offset maps to (offset2block) is that slot's block
    number and lies on the disk. Each copy stops at the end of the block,
    at `length` bytes and at the file size. */
module ReadPath {
  import opened Layout
  import opened Disk
  import opened AddressMap

  function Min(a: int, b: int): int
  {
    if a < b then a else b
  }

  /** The loop state: the bytes copied so far (`bytes_read` of them), the
      file offset, and the block offset2block gave for that offset. */
  datatype Cursor = Cursor(out: seq<byte>, offset: nat, cur: int)

  /** One iteration for direct slot `k`. */
  function CopyStep(ino: Inode, d: seq<Block>, length: int, k: nat, c: Cursor): (c': Cursor)
    requires k < DirectBlocks && c.offset <= ino.size && |c.out| < length
    ensures c.offset <= c'.offset <= ino.size && |c.out| <= |c'.out| <= length
    ensures c'.offset - c.offset == |c'.out| - |c.out|
  {
    var blk := ino.dirBlock[k];
    if c.cur == blk && blk < |d| then
      var bo := c.offset % BlockSize;
      var n := Min(Min(BlockSize - bo, length - |c.out|), ino.size - c.offset);
      Cursor(c.out + d[blk][bo..bo + n], c.offset + n, OffsetToBlock(ino, c.offset + n, d))
    else c
  }

  /** The loop from direct slot `k` on: it ends after slot 10 or as soon
      as `length` bytes are copied. */
  function ReadLoop(ino: Inode, d: seq<Block>, length: int, k: nat, c: Cursor): Cursor
    requires k <= DirectBlocks && c.offset <= ino.size
    decreases DirectBlocks - k
  {
    if k == DirectBlocks || |c.out| >= length then c
    else ReadLoop(ino, d, length, k + 1, CopyStep(ino, d, length, k, c))
  }

  /** The loop, one slot further. */
  lemma ReadLoopUnfold(ino: Inode, d: seq<Block>, length: int, k: nat, c: Cursor)
    requires k < DirectBlocks && c.offset <= ino.size && |c.out| < length
    ensures ReadLoop(ino, d, length, k, c) == ReadLoop(ino, d, length, k + 1, CopyStep(ino, d, length, k, c))
  {
  }

  /** The cursor the loop starts with at file offset `offset`. */
  function StartCursor(ino: Inode, d: seq<Block>, offset: nat): Cursor
  {
    Cursor([], offset, OffsetToBlock(ino, offset, d))
  }

  /** fs_read past its guards: the bytes copied and the final offset. */
  function ReadSpec(ino: Inode, d: seq<Block>, offset: nat, length: int): (c: Cursor)
    requires offset <= ino.size
    ensures offset <= c.offset <= ino.size && c.offset - offset == |c.out|
  {
    ReadLoopBounds(ino, d, length, 0, StartCursor(ino, d, offset));
    ReadLoop(ino, d, length, 0, StartCursor(ino, d, offset))
  }

  // ---------------------------------------------------------------------
  // Bounds

  /** The loop keeps the bounds of each step: the offset stays within the
      file and grows by the bytes copied, which stay within `length`. */
  lemma {:induction false} ReadLoopBounds(ino: Inode, d: seq<Block>, length: int, k: nat, c: Cursor)
    requires k <= DirectBlocks && c.offset <= ino.size
    ensures var c' := ReadLoop(ino, d, length, k, c);
      && c.offset <= c'.offset <= ino.size
      && c'.offset - c.offset == |c'.out| - |c.out|
      && (|c'.out| <= length || c'.out == c.out)
    decreases DirectBlocks - k
  {
    if k < DirectBlocks && |c.out| < length {
      ReadLoopBounds(ino, d, length, k + 1, CopyStep(ino, d, length, k, c));
    }
  }

  /** fs_read returns between 0 and `length` bytes (none for a length of
      0 or less), moves the offset by exactly that many and never past the
      file size. */
  lemma ReadBounds(ino: Inode, d: seq<Block>, offset: nat, length: int)
    requires offset <= ino.size
    ensures var c := ReadSpec(ino, d, offset, length);
      && (length <= 0 ==> c.out == [] && c.offset == offset)
      && (length > 0 ==> |c.out| <= length)
      && c.offset == offset + |c.out|
      && c.offset <= ino.size
  {
    ReadLoopBounds(ino, d, length, 0, StartCursor(ino, d, offset));
  }

  // ---------------------------------------------------------------------
  // Contents

  /** Byte `q` of what was read from `offset` is the file's byte at
      `offset + q`: the byte at the same position within the block that
      offset2block names for it, a block that is one of the direct slots
      and lies on the disk. */
  ghost predicate ByteFromFile(ino: Inode, d: seq<Block>, offset: nat, out: seq<byte>, q: nat)
    requires q < |out|
  {
    var b := OffsetToBlock(ino, offset + q, d);
    && 0 <= b < |d| && b in ino.dirBlock
    && out[q] == d[b][(offset + q) % BlockSize]
  }

  /** Every byte of `out` is the file's byte at its offset. */
  ghost predicate AllFromFile(ino: Inode, d: seq<Block>, offset: nat, out: seq<byte>)
  {
    forall q :: 0 <= q < |out| ==> ByteFromFile(ino, d, offset, out, q)
  }

  /** The loop invariant of fs_read: `cur` is offset2block of the offset,
      which is `offset0` plus the bytes copied. */
  predicate InStep(ino: Inode, d: seq<Block>, offset0: nat, c: Cursor)
  {
    c.cur == OffsetToBlock(ino, c.offset, d) && c.offset == offset0 + |c.out|
  }

  lemma CopyStepFromFile(ino: Inode, d: seq<Block>, length: int, k: nat, offset0: nat, c: Cursor)
    requires k < DirectBlocks && c.offset <= ino.size && |c.out| < length
    requires InStep(ino, d, offset0, c) && AllFromFile(ino, d, offset0, c.out)
    ensures InStep(ino, d, offset0, CopyStep(ino, d, length, k, c))
    ensures AllFromFile(ino, d, offset0, CopyStep(ino, d, length, k, c).out)
  {
    var c' := CopyStep(ino, d, length, k, c);
    var blk := ino.dirBlock[k];
    if c.cur == blk && blk < |d| {
      var bo := c.offset % BlockSize;
      forall q | 0 <= q < |c'.out|
        ensures ByteFromFile(ino, d, offset0, c'.out, q)
      {
        if q < |c.out| {
          assert c'.out[q] == c.out[q];
          assert ByteFromFile(ino, d, offset0, c.out, q);
        } else {
          var t := q - |c.out|;
          SameBlock(ino, c.offset, t, d);
          assert c'.out[q] == d[blk][bo + t];
          assert blk == ino.dirBlock[k];
        }
      }
    }
  }

  lemma {:induction false} ReadLoopFromFile(ino: Inode, d: seq<Block>, length: int, k: nat, offset0: nat, c: Cursor)
    requires k <= DirectBlocks && c.offset <= ino.size
    requires InStep(ino, d, offset0, c) && AllFromFile(ino, d, offset0, c.out)
    ensures AllFromFile(ino, d, offset0, ReadLoop(ino, d, length, k, c).out)
    decreases DirectBlocks - k
  {
    if k < DirectBlocks && |c.out| < length {
      CopyStepFromFile(ino, d, length, k, offset0, c);
      ReadLoopFromFile(ino, d, length, k + 1, offset0, CopyStep(ino, d, length, k, c));
    }
  }

  /** Every byte fs_read returns is the file's byte at its offset, taken
      from a direct block on the disk. */
  lemma ReadFromFile(ino: Inode, d: seq<Block>, offset: nat, length: int)
    requires offset <= ino.size
    ensures AllFromFile(ino, d, offset, ReadSpec(ino, d, offset, length).out)
  {
    ReadLoopFromFile(ino, d, length, 0, offset, StartCursor(ino, d, offset));
  }

  // ---------------------------------------------------------------------
  // End of file and whole-file reads

  lemma {:induction false} ReadLoopAtEnd(ino: Inode, d: seq<Block>, length: int, k: nat, c: Cursor)
    requires k <= DirectBlocks && c.offset == ino.size
    requires c.cur == OffsetToBlock(ino, c.offset, d)
    ensures ReadLoop(ino, d, length, k, c) == c
    decreases DirectBlocks - k
  {
    if k < DirectBlocks && |c.out| < length {
      assert CopyStep(ino, d, length, k, c) == c by {
        var blk := ino.dirBlock[k];
        if c.cur == blk && blk < |d| {
          var bo := c.offset % BlockSize;
          assert d[blk][bo..bo + 0] == [];
          assert c.out + [] == c.out;
        }
      }
      ReadLoopAtEnd(ino, d, length, k + 1, c);
    }
  }

  /** At the end of the file fs_read returns 0 bytes and keeps the offset. */
  lemma ReadAtEnd(ino: Inode, d: seq<Block>, length: int)
    ensures ReadSpec(ino, d, ino.size, length) == StartCursor(ino, d, ino.size)
  {
    ReadLoopAtEnd(ino, d, length, 0, StartCursor(ino, d, ino.size));
  }

  /** The bytes a read from offset 0 can reach: the file size, the request
      and the 11 direct blocks. */
  function Reach(ino: Inode, length: int, k: nat): int
  {
    Min(Min(length, ino.size), BlockSize * k)
  }

  lemma BlockStart(k: nat)
    ensures (BlockSize * k) % BlockSize == 0 && (BlockSize * k) / BlockSize == k
  {
  }

  lemma {:induction false} ReadLoopWhole(ino: Inode, d: seq<Block>, length: int, k: nat, c: Cursor)
    requires k <= DirectBlocks && length >= 0
    requires forall j :: 0 <= j < DirectBlocks ==> ino.dirBlock[j] < |d|
    requires c.offset == |c.out| == Reach(ino, length, k)
    requires c.cur == OffsetToBlock(ino, c.offset, d)
    ensures |ReadLoop(ino, d, length, k, c).out| == Reach(ino, length, DirectBlocks)
    decreases DirectBlocks - k
  {
    if k == DirectBlocks {
    } else if |c.out| >= length {
      assert Reach(ino, length, DirectBlocks) == length;
    } else {
      var c' := CopyStep(ino, d, length, k, c);
      if c.offset == BlockSize * k {
        BlockStart(k);
        assert c.cur == ino.dirBlock[k];
        assert |c'.out| == Reach(ino, length, k + 1);
      } else {
        assert c.offset == ino.size;
        assert c' == c by {
          var blk := ino.dirBlock[k];
          if c.cur == blk && blk < |d| {
            var bo := c.offset % BlockSize;
            assert d[blk][bo..bo + 0] == [];
            assert c.out + [] == c.out;
          }
        }
      }
      ReadLoopWhole(ino, d, length, k + 1, c');
    }
  }

  /** When every direct slot names a block on the disk, a read from offset
      0 returns as many bytes as the request, the file size and the 11
      direct blocks (22528 bytes) all allow: nothing beyond the direct
      blocks is ever read from the start of a file. */
  lemma ReadFromStart(ino: Inode, d: seq<Block>, length: int)
    requires length >= 0
    requires forall j :: 0 <= j < DirectBlocks ==> ino.dirBlock[j] < |d|
    ensures |ReadSpec(ino, d, 0, length).out| == Min(Min(length, ino.size), BlockSize * DirectBlocks)
  {
    ReadLoopWhole(ino, d, length, 0, StartCursor(ino, d, 0));
  }

  // ---------------------------------------------------------------------
  // Reads from any offset

  /** The offset after a full chunk of the block holding `x` is the start
      of the next block. */
  lemma NextBlock(x: nat)
    ensures (x + (BlockSize - x % BlockSize)) / BlockSize == x / BlockSize + 1
  {
    var q := x / BlockSize;
    assert x == q * BlockSize + x % BlockSize;
    assert x + (BlockSize - x % BlockSize) == (q + 1) * BlockSize;
  }

  /** The loop from direct slot `k`, for a read that started at offset
      `o`: the offset has either reached where the read must stop, or lies
      in slot `k` or later, so the slots still ahead can carry the read on. */
  lemma {:induction false} ReadLoopFrom(ino: Inode, d: seq<Block>, length: int, o: nat, k: nat, c: Cursor)
    requires k <= DirectBlocks && length >= 0
    requires ino.size <= BlockSize * DirectBlocks
    requires forall j :: 0 <= j < DirectBlocks ==> ino.dirBlock[j] < |d|
    requires c.offset == o + |c.out| && c.offset <= ino.size && |c.out| <= length
    requires c.cur == OffsetToBlock(ino, c.offset, d)
    requires c.offset == Min(o + length, ino.size) || c.offset / BlockSize >= k
    ensures |ReadLoop(ino, d, length, k, c).out| == Min(length, ino.size - o)
    decreases DirectBlocks - k
  {
    if k < DirectBlocks && |c.out| < length {
      var c' := CopyStep(ino, d, length, k, c);
      if c.offset / BlockSize == k && c.offset < Min(o + length, ino.size) {
        assert c.cur == ino.dirBlock[k];
        var bo := c.offset % BlockSize;
        var n := Min(Min(BlockSize - bo, length - |c.out|), ino.size - c.offset);
        assert c'.offset == c.offset + n;
        if n == BlockSize - bo {
          NextBlock(c.offset);
        }
      }
      ReadLoopFrom(ino, d, length, o, k + 1, c');
    }
  }

  /** When the file fits in its direct blocks and every direct slot names a
      block on the disk, a read from any offset within the file returns as
      many bytes as the request and the rest of the file allow: repeated
      reads give back the whole file and then 0. */
  lemma ReadFromOffset(ino: Inode, d: seq<Block>, o: nat, length: int)
    requires length >= 0 && o <= ino.size <= BlockSize * DirectBlocks
    requires forall j :: 0 <= j < DirectBlocks ==> ino.dirBlock[j] < |d|
    ensures |ReadSpec(ino, d, o, length).out| == Min(length, ino.size - o)
  {
    ReadLoopFrom(ino, d, length, o, 0, StartCursor(ino, d, o));
  }
}
