/** The directory resolver over a disk image. find_inode does not walk the
    path: it takes the last component and scans every directory inode of
    the inode region, in the order inode block, inode slot, direct block,
    entry, for the first acceptable entry of that name. print_ls lists the
    acceptable entries of one inode's direct blocks. */
module Directory {
  import opened Layout
  import opened Disk
  import opened Names
  import opened InodeStore

  /** The defensive filter on a directory entry: a nonzero inode number
      below inode_cnt and a valid name. */
  predicate Acceptable(sb: Superblock, e: Dirent)
  {
    e.ino != 0 && e.ino < sb.inodeCnt && NameValidity(e.name) == 0
  }

  /** A direct slot the scans read: `0 < blk < disk_size()`. */
  predicate Scanned(blk: int, d: seq<Block>)
  {
    0 < blk < |d|
  }

  // ---------------------------------------------------------------------
  // find_inode

  /** Entry `l` of block `b` is the one find_inode looks for. */
  predicate EntryHit(sb: Superblock, b: Block, target: CString, l: nat)
    requires l < DirentsPerBlock
  {
    Acceptable(sb, DirentAt(b, l)) && DirentAt(b, l).name == target
  }

  /** Entry `l` of direct block `k` of directory inode `x` is a hit. */
  predicate DirHit(sb: Superblock, d: seq<Block>, x: Inode, target: CString, k: nat, l: nat)
    requires k < DirectBlocks && l < DirentsPerBlock
  {
    Scanned(x.dirBlock[k], d) && EntryHit(sb, d[x.dirBlock[k]], target, l)
  }

  /** The same, for the inode in slot `j` of inode block `ib`, which must be
      a directory. */
  predicate SlotHit(sb: Superblock, d: seq<Block>, ib: Block, target: CString, j: nat, k: nat, l: nat)
    requires j < InodesPerBlock && k < DirectBlocks && l < DirentsPerBlock
  {
    InodeAt(ib, j).itype == IfDir && DirHit(sb, d, InodeAt(ib, j), target, k, l)
  }

  /** The inode number of the entry at a position. */
  function HitIno(sb: Superblock, d: seq<Block>, i: nat, j: nat, k: nat, l: nat): int
    requires j < InodesPerBlock && k < DirectBlocks && l < DirentsPerBlock
  {
    var x := InodeAt(RegionBlock(sb, d, i), j);
    if 0 <= x.dirBlock[k] < |d| then DirentAt(d[x.dirBlock[k]], l).ino else -1
  }

  /** The entry loop: the first hit from entry `l` on, or -1. */
  function SearchEntries(sb: Superblock, b: Block, target: CString, l: nat): (r: int)
    requires l <= DirentsPerBlock
    ensures r == -1 || 0 < r < sb.inodeCnt
    decreases DirentsPerBlock - l
  {
    if l == DirentsPerBlock then -1
    else if EntryHit(sb, b, target, l) then DirentAt(b, l).ino
    else SearchEntries(sb, b, target, l + 1)
  }

  /** The direct-block loop over directory inode `x`, from slot `k` on. */
  function SearchDirectory(sb: Superblock, d: seq<Block>, x: Inode, target: CString, k: nat): (r: int)
    requires k <= DirectBlocks
    ensures r == -1 || 0 < r < sb.inodeCnt
    decreases DirectBlocks - k
  {
    if k == DirectBlocks then -1
    else
      var r := if Scanned(x.dirBlock[k], d) then SearchEntries(sb, d[x.dirBlock[k]], target, 0) else -1;
      if r != -1 then r else SearchDirectory(sb, d, x, target, k + 1)
  }

  /** The slot loop over inode block `ib`, from slot `j` on. */
  function SearchSlots(sb: Superblock, d: seq<Block>, ib: Block, target: CString, j: nat): (r: int)
    requires j <= InodesPerBlock
    ensures r == -1 || 0 < r < sb.inodeCnt
    decreases InodesPerBlock - j
  {
    if j == InodesPerBlock then -1
    else
      var r := SearchSlot(sb, d, ib, target, j);
      if r != -1 then r else SearchSlots(sb, d, ib, target, j + 1)
  }

  /** The body of the slot loop: slot `j` is searched when it holds a
      directory. */
  function SearchSlot(sb: Superblock, d: seq<Block>, ib: Block, target: CString, j: nat): (r: int)
    requires j < InodesPerBlock
    ensures r == -1 || 0 < r < sb.inodeCnt
  {
    var x := InodeAt(ib, j);
    if x.itype == IfDir then SearchDirectory(sb, d, x, target, 0) else -1
  }

  /** The outer loop over the inode region, from inode block `i` on. */
  function SearchRegion(sb: Superblock, d: seq<Block>, target: CString, i: nat): (r: int)
    requires i <= sb.inodeBlocks
    ensures r == -1 || 0 < r < sb.inodeCnt
    decreases sb.inodeBlocks - i
  {
    if i == sb.inodeBlocks then -1
    else
      var r := SearchSlots(sb, d, RegionBlock(sb, d, i), target, 0);
      if r != -1 then r else SearchRegion(sb, d, target, i + 1)
  }

  /** The superblock find_inode reloads from block 0 before scanning. */
  function ScanSB(d: seq<Block>): Superblock
  {
    DecodeSuperblock(ReadBlock(d, SuperBlockNo))
  }

  /** find_inode: the root inode for exactly "/", otherwise the first hit
      for the last path component, or -1. */
  function FindInodeSpec(d: seq<Block>, path: CString): (r: int)
    ensures path == [Slash] ==> r == RootIno
    ensures path != [Slash] ==> r == -1 || 0 < r < ScanSB(d).inodeCnt
  {
    if path == [Slash] then RootIno
    else SearchRegion(ScanSB(d), d, NameExtractor(path), 0)
  }

  // First-hit characterisation, level by level. At each level `No..Hit`
  // says that no position from `s` on is a hit, and `First..Hit` that the
  // given position is a hit with no hit before it (from `s` on).

  ghost predicate NoEntryHit(sb: Superblock, b: Block, target: CString, s: nat)
  {
    forall l :: s <= l < DirentsPerBlock ==> !EntryHit(sb, b, target, l)
  }

  ghost predicate FirstEntryHit(sb: Superblock, b: Block, target: CString, s: nat, l: nat)
  {
    && s <= l < DirentsPerBlock
    && EntryHit(sb, b, target, l)
    && forall l' :: s <= l' < l ==> !EntryHit(sb, b, target, l')
  }

  lemma {:induction false} SearchEntriesFirst(sb: Superblock, b: Block, target: CString, s: nat)
    requires s <= DirentsPerBlock
    ensures SearchEntries(sb, b, target, s) == -1 <==> NoEntryHit(sb, b, target, s)
    ensures SearchEntries(sb, b, target, s) != -1 ==>
      exists l: nat :: FirstEntryHit(sb, b, target, s, l) && DirentAt(b, l).ino == SearchEntries(sb, b, target, s)
    decreases DirentsPerBlock - s
  {
    if s < DirentsPerBlock {
      if EntryHit(sb, b, target, s) {
        assert FirstEntryHit(sb, b, target, s, s);
      } else {
        SearchEntriesFirst(sb, b, target, s + 1);
        if SearchEntries(sb, b, target, s) != -1 {
          var l: nat :| FirstEntryHit(sb, b, target, s + 1, l) && DirentAt(b, l).ino == SearchEntries(sb, b, target, s);
          assert FirstEntryHit(sb, b, target, s, l);
        }
      }
    }
  }

  /** Direct slot `k` of directory inode `x` holds no hit: it is not
      scanned, or its block has no hit. */
  ghost predicate BlockClear(sb: Superblock, d: seq<Block>, x: Inode, target: CString, k: nat)
    requires k < DirectBlocks
  {
    !Scanned(x.dirBlock[k], d) || NoEntryHit(sb, d[x.dirBlock[k]], target, 0)
  }

  ghost predicate NoDirHit(sb: Superblock, d: seq<Block>, x: Inode, target: CString, s: nat)
  {
    forall k :: s <= k < DirectBlocks ==> BlockClear(sb, d, x, target, k)
  }

  ghost predicate FirstDirHit(sb: Superblock, d: seq<Block>, x: Inode, target: CString, s: nat, k: nat, l: nat)
  {
    && s <= k < DirectBlocks
    && Scanned(x.dirBlock[k], d)
    && FirstEntryHit(sb, d[x.dirBlock[k]], target, 0, l)
    && forall k' :: s <= k' < k ==> BlockClear(sb, d, x, target, k')
  }

  /** What the direct-block loop from slot `s` returns: -1 exactly when
      no slot from `s` on holds a hit, otherwise the inode number of the
      first. */
  ghost predicate DirResult(sb: Superblock, d: seq<Block>, x: Inode, target: CString, s: nat, r: int)
  {
    && (r == -1 <==> NoDirHit(sb, d, x, target, s))
    && (r != -1 ==>
         exists k: nat, l: nat :: FirstDirHit(sb, d, x, target, s, k, l)
           && DirentAt(d[x.dirBlock[k]], l).ino == r)
  }

  /** A scanned block with a first hit gives the first hit of the inode. */
  lemma BlockFound(sb: Superblock, d: seq<Block>, x: Inode, target: CString, s: nat, l: nat)
    requires s < DirectBlocks && Scanned(x.dirBlock[s], d)
    requires FirstEntryHit(sb, d[x.dirBlock[s]], target, 0, l)
    ensures DirResult(sb, d, x, target, s, DirentAt(d[x.dirBlock[s]], l).ino)
  {
    assert FirstDirHit(sb, d, x, target, s, s, l);
    assert !NoEntryHit(sb, d[x.dirBlock[s]], target, 0);
    assert !BlockClear(sb, d, x, target, s);
  }

  /** A direct slot without hits can be skipped. */
  lemma BlockSkipped(sb: Superblock, d: seq<Block>, x: Inode, target: CString, s: nat, r: int)
    requires s < DirectBlocks && BlockClear(sb, d, x, target, s)
    requires DirResult(sb, d, x, target, s + 1, r)
    ensures DirResult(sb, d, x, target, s, r)
  {
    if r != -1 {
      var k: nat, l: nat :| FirstDirHit(sb, d, x, target, s + 1, k, l) && DirentAt(d[x.dirBlock[k]], l).ino == r;
      assert FirstDirHit(sb, d, x, target, s, k, l);
    }
  }

  lemma {:induction false} SearchDirectoryFirst(sb: Superblock, d: seq<Block>, x: Inode, target: CString, s: nat)
    requires s <= DirectBlocks
    ensures DirResult(sb, d, x, target, s, SearchDirectory(sb, d, x, target, s))
    decreases DirectBlocks - s
  {
    if s < DirectBlocks {
      var blk := x.dirBlock[s];
      if Scanned(blk, d) {
        SearchEntriesFirst(sb, d[blk], target, 0);
      }
      if Scanned(blk, d) && SearchEntries(sb, d[blk], target, 0) != -1 {
        var l: nat :| FirstEntryHit(sb, d[blk], target, 0, l) && DirentAt(d[blk], l).ino == SearchEntries(sb, d[blk], target, 0);
        BlockFound(sb, d, x, target, s, l);
      } else {
        assert BlockClear(sb, d, x, target, s);
        SearchDirectoryFirst(sb, d, x, target, s + 1);
        BlockSkipped(sb, d, x, target, s, SearchDirectory(sb, d, x, target, s + 1));
      }
    }
  }

  /** Slot `j` of inode block `ib` holds no hit: it is not a directory, or
      its direct blocks hold none. */
  ghost predicate SlotClear(sb: Superblock, d: seq<Block>, ib: Block, target: CString, j: nat)
    requires j < InodesPerBlock
  {
    InodeAt(ib, j).itype != IfDir || NoDirHit(sb, d, InodeAt(ib, j), target, 0)
  }

  ghost predicate NoSlotHit(sb: Superblock, d: seq<Block>, ib: Block, target: CString, s: nat)
  {
    forall j :: s <= j < InodesPerBlock ==> SlotClear(sb, d, ib, target, j)
  }

  ghost predicate FirstSlotHit(sb: Superblock, d: seq<Block>, ib: Block, target: CString, s: nat, j: nat, k: nat, l: nat)
  {
    && s <= j < InodesPerBlock
    && InodeAt(ib, j).itype == IfDir
    && FirstDirHit(sb, d, InodeAt(ib, j), target, 0, k, l)
    && forall j' :: s <= j' < j ==> SlotClear(sb, d, ib, target, j')
  }

  /** What the slot loop from slot `s` returns: -1 exactly when no slot
      from `s` on holds a hit, otherwise the inode number of the first. */
  ghost predicate SlotsResult(sb: Superblock, d: seq<Block>, ib: Block, target: CString, s: nat, r: int)
  {
    && (r == -1 <==> NoSlotHit(sb, d, ib, target, s))
    && (r != -1 ==>
         exists j: nat, k: nat, l: nat :: FirstSlotHit(sb, d, ib, target, s, j, k, l)
           && DirentAt(d[InodeAt(ib, j).dirBlock[k]], l).ino == r)
  }

  /** A directory in slot `s` whose own scan finds `r` gives the first
      slot hit. */
  lemma SlotFound(sb: Superblock, d: seq<Block>, ib: Block, target: CString, s: nat, r: int)
    requires s < InodesPerBlock && InodeAt(ib, s).itype == IfDir && r != -1
    requires DirResult(sb, d, InodeAt(ib, s), target, 0, r)
    ensures SlotsResult(sb, d, ib, target, s, r)
  {
    var x := InodeAt(ib, s);
    var k: nat, l: nat :| FirstDirHit(sb, d, x, target, 0, k, l) && DirentAt(d[x.dirBlock[k]], l).ino == r;
    assert EntryHit(sb, d[x.dirBlock[k]], target, l);
    assert !NoEntryHit(sb, d[x.dirBlock[k]], target, 0);
    assert !BlockClear(sb, d, x, target, k);
    assert !SlotClear(sb, d, ib, target, s);
    assert FirstSlotHit(sb, d, ib, target, s, s, k, l);
  }

  /** A slot without hits can be skipped. */
  lemma SlotSkipped(sb: Superblock, d: seq<Block>, ib: Block, target: CString, s: nat, r: int)
    requires s < InodesPerBlock && SlotClear(sb, d, ib, target, s)
    requires SlotsResult(sb, d, ib, target, s + 1, r)
    ensures SlotsResult(sb, d, ib, target, s, r)
  {
    if r != -1 {
      var j: nat, k: nat, l: nat :| FirstSlotHit(sb, d, ib, target, s + 1, j, k, l)
        && DirentAt(d[InodeAt(ib, j).dirBlock[k]], l).ino == r;
      assert FirstSlotHit(sb, d, ib, target, s, j, k, l);
    }
  }

  /** The slot loop from slot `s` on: each slot is found or skipped. */
  lemma {:induction false} SearchSlotsFirst(sb: Superblock, d: seq<Block>, ib: Block, target: CString, s: nat)
    requires s <= InodesPerBlock
    ensures SlotsResult(sb, d, ib, target, s, SearchSlots(sb, d, ib, target, s))
    decreases InodesPerBlock - s
  {
    if s < InodesPerBlock {
      var x := InodeAt(ib, s);
      var r0 := SearchSlot(sb, d, ib, target, s);
      if x.itype == IfDir {
        SearchDirectoryFirst(sb, d, x, target, 0);
      }
      if r0 != -1 {
        SlotFound(sb, d, ib, target, s, r0);
      } else {
        assert SlotClear(sb, d, ib, target, s);
        SearchSlotsFirst(sb, d, ib, target, s + 1);
        SlotSkipped(sb, d, ib, target, s, SearchSlots(sb, d, ib, target, s + 1));
      }
    }
  }

  /** Inode block `i` of the inode region. */
  function RegionBlock(sb: Superblock, d: seq<Block>, i: nat): Block
  {
    ReadBlock(d, sb.firstInodeBlk + i)
  }

  ghost predicate NoHit(sb: Superblock, d: seq<Block>, target: CString, s: nat)
  {
    forall i :: s <= i < sb.inodeBlocks ==> NoSlotHit(sb, d, RegionBlock(sb, d, i), target, 0)
  }

  /** Entry `l` of direct slot `k` of inode `j` of inode block `i` is the
      first hit from inode block `s` on, in scan order. */
  ghost predicate FirstHit(sb: Superblock, d: seq<Block>, target: CString, s: nat, i: nat, j: nat, k: nat, l: nat)
  {
    && s <= i < sb.inodeBlocks
    && FirstSlotHit(sb, d, RegionBlock(sb, d, i), target, 0, j, k, l)
    && forall i' :: s <= i' < i ==> NoSlotHit(sb, d, RegionBlock(sb, d, i'), target, 0)
  }

  /** What the region loop from inode block `s` returns. */
  ghost predicate RegionResult(sb: Superblock, d: seq<Block>, target: CString, s: nat, r: int)
  {
    && (r == -1 <==> NoHit(sb, d, target, s))
    && (r != -1 ==>
         exists i: nat, j: nat, k: nat, l: nat :: FirstHit(sb, d, target, s, i, j, k, l)
           && HitIno(sb, d, i, j, k, l) == r)
  }

  /** An inode block with a hit gives the first hit of the region. */
  lemma RegionFound(sb: Superblock, d: seq<Block>, target: CString, s: nat)
    requires s < sb.inodeBlocks
    requires SlotsResult(sb, d, RegionBlock(sb, d, s), target, 0, SearchSlots(sb, d, RegionBlock(sb, d, s), target, 0))
    requires SearchSlots(sb, d, RegionBlock(sb, d, s), target, 0) != -1
    ensures RegionResult(sb, d, target, s, SearchSlots(sb, d, RegionBlock(sb, d, s), target, 0))
  {
    var ib := RegionBlock(sb, d, s);
    var r0 := SearchSlots(sb, d, ib, target, 0);
    var j: nat, k: nat, l: nat :| FirstSlotHit(sb, d, ib, target, 0, j, k, l)
      && DirentAt(d[InodeAt(ib, j).dirBlock[k]], l).ino == r0;
    assert FirstHit(sb, d, target, s, s, j, k, l);
    assert HitIno(sb, d, s, j, k, l) == r0;
  }

  /** An inode block without hits can be skipped. */
  lemma RegionSkipped(sb: Superblock, d: seq<Block>, target: CString, s: nat, r: int)
    requires s < sb.inodeBlocks && NoSlotHit(sb, d, RegionBlock(sb, d, s), target, 0)
    requires RegionResult(sb, d, target, s + 1, r)
    ensures RegionResult(sb, d, target, s, r)
  {
    if r != -1 {
      var i: nat, j: nat, k: nat, l: nat :| FirstHit(sb, d, target, s + 1, i, j, k, l) && HitIno(sb, d, i, j, k, l) == r;
      assert FirstHit(sb, d, target, s, i, j, k, l);
    }
  }

  /** The region loop from inode block `s` on: each block is found or
      skipped. */
  lemma {:induction false} SearchRegionFirst(sb: Superblock, d: seq<Block>, target: CString, s: nat)
    requires s <= sb.inodeBlocks
    ensures RegionResult(sb, d, target, s, SearchRegion(sb, d, target, s))
    decreases sb.inodeBlocks - s
  {
    if s < sb.inodeBlocks {
      var ib := RegionBlock(sb, d, s);
      SearchSlotsFirst(sb, d, ib, target, 0);
      if SearchSlots(sb, d, ib, target, 0) != -1 {
        RegionFound(sb, d, target, s);
      } else {
        SearchRegionFirst(sb, d, target, s + 1);
        RegionSkipped(sb, d, target, s, SearchRegion(sb, d, target, s + 1));
      }
    }
  }

  /** The first hit is a hit: entry `l` of a scanned direct block of a
      directory inode of the region, acceptable and named `target`. */
  lemma FirstHitIsHit(sb: Superblock, d: seq<Block>, target: CString, s: nat, i: nat, j: nat, k: nat, l: nat)
    requires FirstHit(sb, d, target, s, i, j, k, l)
    ensures j < InodesPerBlock && k < DirectBlocks && l < DirentsPerBlock
    ensures i < sb.inodeBlocks && SlotHit(sb, d, RegionBlock(sb, d, i), target, j, k, l)
    ensures 0 < HitIno(sb, d, i, j, k, l) < sb.inodeCnt
  {
  }

  /** find_inode on any path but "/" returns -1 exactly when no directory
      entry in the directories of the inode region is an acceptable entry
      named like the last path component; otherwise it returns the inode
      number of the first such entry in scan order. */
  lemma FindInodeFirstHit(d: seq<Block>, path: CString)
    requires path != [Slash]
    ensures FindInodeSpec(d, path) == -1 <==> NoHit(ScanSB(d), d, NameExtractor(path), 0)
    ensures FindInodeSpec(d, path) != -1 ==>
      exists i: nat, j: nat, k: nat, l: nat :: FirstHit(ScanSB(d), d, NameExtractor(path), 0, i, j, k, l)
        && HitIno(ScanSB(d), d, i, j, k, l) == FindInodeSpec(d, path)
  {
    SearchRegionFirst(ScanSB(d), d, NameExtractor(path), 0);
  }

  // ---------------------------------------------------------------------
  // print_ls

  /** One listing row: inode number, 'F' or 'D', size in bytes, name. */
  datatype Row = Row(ino: u16, kind: char, size: u32, name: CString)

  /** The type letter of the listing. */
  function TypeChar(t: int): char
  {
    if t == IfReg then 'F' else if t == IfDir then 'D' else '?'
  }

  /** The row print_ls prints for entry `e`, if any: the entry must be
      acceptable and its inode load as a directory or a regular file. */
  function EntryRow(sb: Superblock, d: seq<Block>, e: Dirent): (r: Option<Row>)
    ensures r.Some? ==> Acceptable(sb, e) && r.value.ino == e.ino && r.value.name == e.name
    ensures r.Some? ==> r.value.kind == 'D' || r.value.kind == 'F'
  {
    if !Acceptable(sb, e) then None
    else match LoadInode(sb, d, e.ino)
      case None => None
      case Some(c) =>
        if c.itype == IfDir || c.itype == IfReg then Some(Row(e.ino, TypeChar(c.itype), c.size, e.name))
        else None
  }

  /** The row of one position, if any. */
  function OptRows(o: Option<Row>): seq<Row>
  {
    match o
    case Some(row) => [row]
    case None => []
  }

  /** The rows of a sequence of optional rows, in order. */
  function Present(os: seq<Option<Row>>): (rows: seq<Row>)
    ensures forall row :: row in rows <==> Some(row) in os
  {
    if os == [] then []
    else
      assert os == [os[0]] + os[1..];
      OptRows(os[0]) + Present(os[1..])
  }

  /** Extending the visited prefix by one position appends its row. */
  lemma PresentSnoc(os: seq<Option<Row>>, l: nat)
    requires l < |os|
    ensures Present(os[..l + 1]) == Present(os[..l]) + OptRows(os[l])
  {
    assert os[..l + 1] == os[..l] + [os[l]];
    PresentAppend(os[..l], [os[l]]);
  }

  /** The number of entry positions print_ls visits: 11 direct slots of 32
      entries each. */
  const ListPositions: nat := DirectBlocks * DirentsPerBlock

  /** What print_ls prints at position `p` of its scan of inode `x`, entry
      `p % 32` of direct slot `p / 32`: nothing when the slot is not
      scanned, otherwise the row of that entry, if any. */
  function ScanRow(sb: Superblock, d: seq<Block>, x: Inode, p: nat): Option<Row>
    requires p < ListPositions
  {
    var blk := x.dirBlock[p / DirentsPerBlock];
    if Scanned(blk, d) then EntryRow(sb, d, DirentAt(d[blk], p % DirentsPerBlock)) else None
  }

  /** Everything print_ls's two loops visit for inode `x`, in order. */
  function ListScan(sb: Superblock, d: seq<Block>, x: Inode): (scan: seq<Option<Row>>)
    ensures |scan| == ListPositions
  {
    seq(ListPositions, p requires 0 <= p < ListPositions => ScanRow(sb, d, x, p))
  }

  /** print_ls as rows: None (-1) when inode `n` does not load, otherwise
      the rows in the order they are printed. The inode's own type is not
      checked. */
  function ListSpec(sb: Superblock, d: seq<Block>, n: int32): (r: Option<seq<Row>>)
    ensures r.None? <==> Rejected(sb, n)
  {
    match LoadInode(sb, d, n)
    case None => None
    case Some(x) => Some(Present(ListScan(sb, d, x)))
  }

  /** The rows print_ls's entry loop yields for one directory block. */
  function BlockScan(sb: Superblock, d: seq<Block>, b: Block): (scan: seq<Option<Row>>)
    ensures |scan| == DirentsPerBlock
  {
    seq(DirentsPerBlock, l requires 0 <= l < DirentsPerBlock => EntryRow(sb, d, DirentAt(b, l)))
  }

  /** Position `32 * k + l` of the scan is entry `l` of direct slot `k`. */
  lemma ScanPosition(k: nat, l: nat)
    requires l < DirentsPerBlock
    ensures (DirentsPerBlock * k + l) / DirentsPerBlock == k
    ensures (DirentsPerBlock * k + l) % DirentsPerBlock == l
  {
  }

  lemma BlockScanAt(sb: Superblock, d: seq<Block>, b: Block, l: nat)
    requires l < DirentsPerBlock
    ensures BlockScan(sb, d, b)[l] == EntryRow(sb, d, DirentAt(b, l))
  {
  }

  /** The part of the scan for direct slot `k`: the entries of its block
      when the slot is scanned, nothing otherwise. */
  lemma SlotScan(sb: Superblock, d: seq<Block>, x: Inode, k: nat)
    requires k < DirectBlocks
    ensures ListScan(sb, d, x)[DirentsPerBlock * k..DirentsPerBlock * k + DirentsPerBlock]
      == if Scanned(x.dirBlock[k], d) then BlockScan(sb, d, d[x.dirBlock[k]])
         else seq(DirentsPerBlock, _ => None)
  {
    var part := ListScan(sb, d, x)[DirentsPerBlock * k..DirentsPerBlock * k + DirentsPerBlock];
    if Scanned(x.dirBlock[k], d) {
      var want := BlockScan(sb, d, d[x.dirBlock[k]]);
      forall l | 0 <= l < DirentsPerBlock
        ensures part[l] == want[l]
      {
        ScanPosition(k, l);
        assert part[l] == ScanRow(sb, d, x, DirentsPerBlock * k + l);
      }
      assert part == want;
    } else {
      var want: seq<Option<Row>> := seq(DirentsPerBlock, _ => None);
      forall l | 0 <= l < DirentsPerBlock
        ensures part[l] == want[l]
      {
        ScanPosition(k, l);
        assert part[l] == ScanRow(sb, d, x, DirentsPerBlock * k + l);
      }
      assert part == want;
    }
  }

  /** print_ls's slot loop, one slot further: the rows of slot `k` follow
      the rows of the slots before it. */
  lemma ListPrefixStep(sb: Superblock, d: seq<Block>, x: Inode, k: nat)
    requires k < DirectBlocks
    ensures Present(ListScan(sb, d, x)[..DirentsPerBlock * (k + 1)])
      == Present(ListScan(sb, d, x)[..DirentsPerBlock * k])
         + if Scanned(x.dirBlock[k], d) then Present(BlockScan(sb, d, d[x.dirBlock[k]])) else []
  {
    var scan := ListScan(sb, d, x);
    var lo := DirentsPerBlock * k;
    assert scan[..lo + DirentsPerBlock] == scan[..lo] + scan[lo..lo + DirentsPerBlock];
    PresentAppend(scan[..lo], scan[lo..lo + DirentsPerBlock]);
    SlotScan(sb, d, x, k);
    if !Scanned(x.dirBlock[k], d) {
      PresentNone(scan[lo..lo + DirentsPerBlock]);
    }
  }

  /** After the last slot the visited prefix is the whole scan. */
  lemma ListPrefixFull(sb: Superblock, d: seq<Block>, x: Inode)
    ensures Present(ListScan(sb, d, x)[..DirentsPerBlock * DirectBlocks]) == Present(ListScan(sb, d, x))
  {
    assert ListScan(sb, d, x)[..DirentsPerBlock * DirectBlocks] == ListScan(sb, d, x);
  }

  lemma {:induction false} PresentNone(os: seq<Option<Row>>)
    requires forall i :: 0 <= i < |os| ==> os[i] == None
    ensures Present(os) == []
  {
    if os != [] {
      PresentNone(os[1..]);
    }
  }

  lemma {:induction false} PresentAppend(a: seq<Option<Row>>, b: seq<Option<Row>>)
    ensures Present(a + b) == Present(a) + Present(b)
  {
    if a != [] {
      assert (a + b)[0] == a[0];
      assert (a + b)[1..] == a[1..] + b;
      PresentAppend(a[1..], b);
    } else {
      assert a + b == b;
    }
  }

  /** What a row promises about the entry and the inode it names. */
  predicate RowFor(sb: Superblock, d: seq<Block>, e: Dirent, row: Row)
  {
    && row.ino == e.ino && row.name == e.name
    && 0 < row.ino < sb.inodeCnt && NameValidity(row.name) == 0
    && LoadInode(sb, d, row.ino).Some?
    && var c := LoadInode(sb, d, row.ino).value;
       && (c.itype == IfDir || c.itype == IfReg)
       && row.kind == (if c.itype == IfReg then 'F' else 'D')
       && row.size == c.size
  }

  lemma EntryRowIsRowFor(sb: Superblock, d: seq<Block>, e: Dirent)
    ensures EntryRow(sb, d, e).Some? ==> RowFor(sb, d, e, EntryRow(sb, d, e).value)
    ensures (Acceptable(sb, e) && LoadInode(sb, d, e.ino).Some?
             && LoadInode(sb, d, e.ino).value.itype in {IfDir, IfReg}) ==> EntryRow(sb, d, e).Some?
  {
  }

  /** A listed row comes from an entry of a scanned direct block. */
  lemma ListedRowFromEntry(sb: Superblock, d: seq<Block>, x: Inode, row: Row)
    requires row in Present(ListScan(sb, d, x))
    ensures exists k, l ::
      (0 <= k < DirectBlocks && 0 <= l < DirentsPerBlock && Scanned(x.dirBlock[k], d)
       && RowFor(sb, d, DirentAt(d[x.dirBlock[k]], l), row))
  {
    var scan := ListScan(sb, d, x);
    var p :| 0 <= p < ListPositions && scan[p] == Some(row);
    var k, l := p / DirentsPerBlock, p % DirentsPerBlock;
    EntryRowIsRowFor(sb, d, DirentAt(d[x.dirBlock[k]], l));
  }

  /** An entry that passes print_ls's tests is listed. */
  lemma EntryListed(sb: Superblock, d: seq<Block>, x: Inode, k: nat, l: nat)
    requires k < DirectBlocks && l < DirentsPerBlock && Scanned(x.dirBlock[k], d)
    requires Acceptable(sb, DirentAt(d[x.dirBlock[k]], l))
    requires LoadInode(sb, d, DirentAt(d[x.dirBlock[k]], l).ino).value.itype in {IfDir, IfReg}
    ensures exists row :: row in Present(ListScan(sb, d, x)) && RowFor(sb, d, DirentAt(d[x.dirBlock[k]], l), row)
  {
    var scan := ListScan(sb, d, x);
    var e := DirentAt(d[x.dirBlock[k]], l);
    EntryRowIsRowFor(sb, d, e);
    var p := DirentsPerBlock * k + l;
    ScanPosition(k, l);
    assert scan[p] == EntryRow(sb, d, e);
    assert EntryRow(sb, d, e).value in Present(scan);
  }

  /** print_ls lists exactly the acceptable entries of the inode's direct
      blocks `0 < blk < disk_size()` whose own inode is a directory or a
      regular file, each with that inode's type letter and size. */
  lemma ListRowsExact(sb: Superblock, d: seq<Block>, n: int32)
    requires LoadInode(sb, d, n).Some?
    ensures forall row :: row in ListSpec(sb, d, n).value ==>
      exists k, l ::
        (0 <= k < DirectBlocks && 0 <= l < DirentsPerBlock
         && Scanned(LoadInode(sb, d, n).value.dirBlock[k], d)
         && RowFor(sb, d, DirentAt(d[LoadInode(sb, d, n).value.dirBlock[k]], l), row))
    ensures forall k, l ::
      (0 <= k < DirectBlocks && 0 <= l < DirentsPerBlock
       && Scanned(LoadInode(sb, d, n).value.dirBlock[k], d)
       && Acceptable(sb, DirentAt(d[LoadInode(sb, d, n).value.dirBlock[k]], l))
       && LoadInode(sb, d, DirentAt(d[LoadInode(sb, d, n).value.dirBlock[k]], l).ino).value.itype in {IfDir, IfReg})
      ==> exists row :: row in ListSpec(sb, d, n).value
            && RowFor(sb, d, DirentAt(d[LoadInode(sb, d, n).value.dirBlock[k]], l), row)
  {
    var x := LoadInode(sb, d, n).value;
    forall row | row in ListSpec(sb, d, n).value
      ensures exists k, l ::
        (0 <= k < DirectBlocks && 0 <= l < DirentsPerBlock && Scanned(x.dirBlock[k], d)
         && RowFor(sb, d, DirentAt(d[x.dirBlock[k]], l), row))
    {
      ListedRowFromEntry(sb, d, x, row);
    }
    forall k, l | 0 <= k < DirectBlocks && 0 <= l < DirentsPerBlock && Scanned(x.dirBlock[k], d)
        && Acceptable(sb, DirentAt(d[x.dirBlock[k]], l))
        && LoadInode(sb, d, DirentAt(d[x.dirBlock[k]], l).ino).value.itype in {IfDir, IfReg}
      ensures exists row :: row in ListSpec(sb, d, n).value && RowFor(sb, d, DirentAt(d[x.dirBlock[k]], l), row)
    {
      EntryListed(sb, d, x, k, l);
    }
  }
}
