/** The mounted file system: the global superblock `rootSB` and the table
    of 512 open files, over a block device. The operations fs_mount,
    fs_ls, fs_open, fs_close and fs_read, and the helpers they call, are
    methods of one object, each proved against the functions of the other
    modules. */
module FileSystem {
  import opened Layout
  import opened Disk
  import opened Names
  import opened InodeStore
  import opened AddressMap
  import opened Directory
  import opened ReadPath

  const MaxOpenFiles: nat := 512
  const ORd: int := 1  // O_RD
  const OWr: int := 2  // O_WR

  /** One entry of the open-file table: a copy of the file's inode taken at
      fs_open, whether the slot is in use, the open mode and the offset. */
  datatype OpenFile = OpenFile(inode: Inode, inUse: bool, openMode: int, offset: int)

  const ZeroInode := Inode(0, 0, 0, seq(DirectBlocks, _ => 0), 0)

  /** A slot of the zero-initialised static table. */
  const ClosedSlot := OpenFile(ZeroInode, false, 0, 0)

  const ORdWr: int := 3  // O_RD|O_WR

  /** The open modes fs_open accepts: O_RD, O_WR and O_RD|O_WR. */
  predicate ValidMode(m: int)
  {
    m == ORd || m == OWr || m == ORdWr
  }

  /** `openmode & O_RD` is nonzero: bit 0 of the mode in two's complement
      (the Euclidean remainder gives 1 for odd negative numbers as well). */
  predicate Readable(m: int)
  {
    m % 2 == 1
  }

  // ---------------------------------------------------------------------
  // fs_mount

  /** fs_mount's return value and the superblock in force afterwards, given
      whether disk_init succeeds and block 0 of the disk. */
  function MountSpec(sb: Superblock, initOk: bool, b0: Block): (r: (Superblock, int))
    ensures r.1 == 0 || r.1 == -1
    ensures r.1 == -1 ==> r.0 == sb
    ensures r.0 != sb ==> r.0 == DecodeSuperblock(b0) && r.0.magic == FsMagic
  {
    if sb.magic == FsMagic then (sb, -1)
    else if !initOk then (sb, -1)
    else if DecodeSuperblock(b0).magic != FsMagic then (sb, 0)
    else (DecodeSuperblock(b0), 0)
  }

  /** fs_mount fails exactly when a disk is already mounted or the device
      does not open; it mounts exactly a formatted block 0, and an
      unformatted one leaves nothing mounted although it returns 0. */
  lemma MountOutcome(sb: Superblock, initOk: bool, b0: Block)
    ensures var (sb', r) := MountSpec(sb, initOk, b0);
      && (r == -1 <==> sb.magic == FsMagic || !initOk)
      && (r == -1 ==> sb' == sb)
      && (sb'.magic == FsMagic <==> sb.magic == FsMagic || (initOk && DecodeSuperblock(b0).magic == FsMagic))
      && (sb.magic != FsMagic && sb'.magic == FsMagic ==> sb' == DecodeSuperblock(b0))
  {
  }

  /** Once a mount has succeeded, every later mount fails and changes
      nothing. */
  lemma MountOnce(sb: Superblock, initOk: bool, b0: Block, initOk': bool, b0': Block)
    requires MountSpec(sb, initOk, b0).0.magic == FsMagic
    ensures var sb' := MountSpec(sb, initOk, b0).0;
      MountSpec(sb', initOk', b0') == (sb', -1)
  {
  }

  // ---------------------------------------------------------------------
  // The free-slot search of fs_open

  /** The lowest slot from `i` on that is not in use, or -1. */
  function FirstFreeFrom(slots: seq<OpenFile>, i: nat): (fd: int)
    requires i <= |slots|
    ensures fd == -1 || i <= fd < |slots|
    ensures fd == -1 <==> forall j :: i <= j < |slots| ==> slots[j].inUse
    ensures fd != -1 ==> !slots[fd].inUse && forall j :: i <= j < fd ==> slots[j].inUse
    decreases |slots| - i
  {
    if i == |slots| then -1
    else if !slots[i].inUse then i
    else FirstFreeFrom(slots, i + 1)
  }

  function FirstFree(slots: seq<OpenFile>): int
  {
    FirstFreeFrom(slots, 0)
  }

  /** The table after fs_close of `fd`. */
  function Closed(slots: seq<OpenFile>, fd: nat): (slots': seq<OpenFile>)
    requires fd < |slots|
    ensures |slots'| == |slots| && !slots'[fd].inUse && slots'[fd].offset == 0
    ensures slots'[fd].inode == slots[fd].inode && slots'[fd].openMode == slots[fd].openMode
    ensures forall j :: 0 <= j < |slots| && j != fd ==> slots'[j] == slots[j]
  {
    slots[fd := slots[fd].(inUse := false, offset := 0)]
  }

  /** Closing a descriptor in use frees a slot no higher than it, and
      closing the descriptor that fs_open just handed out makes the next
      fs_open hand out the same one again. */
  lemma CloseFrees(slots: seq<OpenFile>, fd: nat, x: Inode, mode: int)
    requires fd < |slots|
    ensures FirstFree(Closed(slots, fd)) != -1 && FirstFree(Closed(slots, fd)) <= fd
    ensures FirstFree(slots) == fd ==>
      FirstFree(Closed(slots[fd := OpenFile(x, true, mode, 0)], fd)) == fd
  {
    var c := Closed(slots, fd);
    assert !c[fd].inUse;
    if FirstFree(slots) == fd {
      var c' := Closed(slots[fd := OpenFile(x, true, mode, 0)], fd);
      assert !c'[fd].inUse;
      assert forall j :: 0 <= j < fd ==> c'[j] == slots[j];
    }
  }

  // ---------------------------------------------------------------------
  // fs_open and fs_read, as functions of the state

  /** The inode fs_open opens, given the superblock in force after
      find_inode: the named inode when it is found, loads and is a regular
      file; None otherwise. */
  function OpenTarget(sb: Superblock, d: seq<Block>, name: CString): (t: Option<Inode>)
    ensures t.Some? ==> t.value.itype == IfReg && FindInodeSpec(d, name) != -1
  {
    var n := FindInodeSpec(d, name);
    if n == -1 then None
    else match LoadInode(sb, d, n as int32)
      case None => None
      case Some(x) => if x.itype == IfReg then Some(x) else None
  }

  /** An opened inode is a regular file whose number find_inode returns
      and which loads from the inode store. */
  lemma OpenTargetIsFile(sb: Superblock, d: seq<Block>, name: CString)
    requires OpenTarget(sb, d, name).Some?
    ensures FindInodeSpec(d, name) != -1
    ensures OpenTarget(sb, d, name).value.itype == IfReg
    ensures LoadInode(sb, d, FindInodeSpec(d, name) as int32) == OpenTarget(sb, d, name)
  {
  }

  /** The guards of fs_read, in their order: an unmounted disk, a
      descriptor out of range, a free slot, a mode without O_RD, an inode
      that is not a regular file. */
  predicate ReadRefused(sb: Superblock, slots: seq<OpenFile>, fd: int)
    ensures 0 <= fd < |slots| && slots[fd].openMode == OWr ==> ReadRefused(sb, slots, fd)
    ensures (sb.magic == FsMagic && 0 <= fd < |slots| && slots[fd].inUse
             && (slots[fd].openMode == ORd || slots[fd].openMode == ORdWr) && slots[fd].inode.itype == IfReg)
            ==> !ReadRefused(sb, slots, fd)
  {
    || sb.magic != FsMagic
    || fd < 0 || fd >= |slots|
    || !slots[fd].inUse
    || !Readable(slots[fd].openMode)
    || slots[fd].inode.itype != IfReg
  }

  // ---------------------------------------------------------------------
  // The object

  class FileSystem {
    const disk: BlockDevice
    var rootSB: Superblock
    const openFiles: array<OpenFile>

    /** Every slot's offset lies within its file. */
    ghost predicate Valid()
      reads this, openFiles
    {
      && openFiles.Length == MaxOpenFiles
      && forall i :: 0 <= i < openFiles.Length ==> 0 <= openFiles[i].offset <= openFiles[i].inode.size
    }

    /** The disk image. */
    function Image(): seq<Block>
      reads disk.blocks
    {
      disk.blocks[..]
    }

    /** The state before any mount: a zero superblock and a free table. */
    constructor (dev: BlockDevice)
      ensures disk == dev && rootSB == UnmountedSB && Valid()
      ensures fresh(openFiles) && openFiles[..] == seq(MaxOpenFiles, _ => ClosedSlot)
    {
      disk := dev;
      rootSB := UnmountedSB;
      openFiles := new OpenFile[MaxOpenFiles](_ => ClosedSlot);
    }

    /** check_rootSB: 0 exactly when the mounted superblock carries
        FS_MAGIC, -1 otherwise. */
    function CheckRootSB(): (r: int)
      reads this
      ensures r == 0 || r == -1
      ensures r == 0 <==> rootSB.magic == FsMagic
    {
      if rootSB.magic != FsMagic then -1 else 0
    }

    /** fs_mount, with the outcome of disk_init as `initOk`. */
    method Mount(initOk: bool) returns (r: int)
      modifies this`rootSB
      ensures (rootSB, r) == MountSpec(old(rootSB), initOk, ReadBlock(Image(), SuperBlockNo))
    {
      if rootSB.magic == FsMagic {
        return -1;
      }
      if !initOk {
        return -1;
      }
      var b := disk.Read(SuperBlockNo);
      if DecodeSuperblock(b).magic != FsMagic {
        return 0;
      }
      rootSB := DecodeSuperblock(b);
      return 0;
    }

    /** fs_debug, without its printing: when a file system is mounted it
        reloads rootSB from block 0, and otherwise changes nothing. */
    method Debug()
      modifies this`rootSB
      ensures rootSB == if old(rootSB).magic == FsMagic then ScanSB(Image()) else old(rootSB)
    {
      if CheckRootSB() == -1 {
        return;
      }
      var b := disk.Read(SuperBlockNo);
      rootSB := DecodeSuperblock(b);
    }

    // -------------------------------------------------------------------
    // The inode store

    /** inode_load: on a rejected number -1 and the caller's inode with its
        type set to FREE; otherwise 0 and the stored inode. */
    method InodeLoad(n: int32, prior: Inode) returns (r: int, ino: Inode)
      ensures LoadInode(rootSB, Image(), n).None? ==> r == -1 && ino == prior.(itype := Free)
      ensures LoadInode(rootSB, Image(), n).Some? ==> r == 0 && ino == LoadInode(rootSB, Image(), n).value
    {
      if Unsigned(n) > rootSB.inodeCnt * InodesPerBlock {
        return -1, prior.(itype := Free);
      }
      var b := disk.Read(rootSB.firstInodeBlk + n / InodesPerBlock);
      return 0, InodeAt(b, n % InodesPerBlock);
    }

    /** inode_save: the read-modify-write of the block holding inode `n`. */
    method InodeSave(n: int32, x: Inode) returns (r: int)
      modifies disk.blocks
      ensures Image() == SaveInode(rootSB, old(Image()), n, x)
      ensures r == (if Rejected(rootSB, n) then -1 else 0)
    {
      if Unsigned(n) > rootSB.inodeCnt * InodesPerBlock {
        return -1;
      }
      var blk := rootSB.firstInodeBlk + n / InodesPerBlock;
      var b := disk.Read(blk);
      disk.Write(blk, WithInode(b, n % InodesPerBlock, x));
      return 0;
    }

    // -------------------------------------------------------------------
    // find_inode: the four nested loops, one method each

    method ScanEntries(b: Block, target: CString) returns (r: int)
      ensures r == SearchEntries(rootSB, b, target, 0)
    {
      var l := 0;
      while l < DirentsPerBlock
        invariant 0 <= l <= DirentsPerBlock
        invariant SearchEntries(rootSB, b, target, l) == SearchEntries(rootSB, b, target, 0)
      {
        var e := DirentAt(b, l);
        if e.ino != 0 && e.ino < rootSB.inodeCnt && NameValidity(e.name) == 0 {
          if target == e.name {
            return e.ino;
          }
        }
        l := l + 1;
      }
      return -1;
    }

    method ScanDirectory(x: Inode, target: CString) returns (r: int)
      ensures r == SearchDirectory(rootSB, Image(), x, target, 0)
    {
      var k := 0;
      while k < DirectBlocks
        invariant 0 <= k <= DirectBlocks
        invariant SearchDirectory(rootSB, Image(), x, target, k) == SearchDirectory(rootSB, Image(), x, target, 0)
      {
        var r0 := ScanDirBlock(x, target, k);
        if r0 != -1 {
          return r0;
        }
        k := k + 1;
      }
      return -1;
    }

    /** The direct-slot loop's body: the entries of slot `k`'s block, when
        it lies on the disk and is not block 0. */
    method ScanDirBlock(x: Inode, target: CString, k: nat) returns (r: int)
      requires k < DirectBlocks
      ensures r == if Scanned(x.dirBlock[k], Image()) then SearchEntries(rootSB, Image()[x.dirBlock[k]], target, 0) else -1
    {
      r := -1;
      var blk := x.dirBlock[k];
      if blk < disk.Size() && blk > 0 {
        var b := disk.Read(blk);
        r := ScanEntries(b, target);
      }
    }

    method ScanSlots(ib: Block, target: CString) returns (r: int)
      ensures r == SearchSlots(rootSB, Image(), ib, target, 0)
    {
      var j := 0;
      while j < InodesPerBlock
        invariant 0 <= j <= InodesPerBlock
        invariant SearchSlots(rootSB, Image(), ib, target, j) == SearchSlots(rootSB, Image(), ib, target, 0)
      {
        var r0 := ScanSlot(ib, target, j);
        if r0 != -1 {
          return r0;
        }
        j := j + 1;
      }
      return -1;
    }

    /** The slot loop's body: the directory scan of slot `j`, when it holds
        a directory. */
    method ScanSlot(ib: Block, target: CString, j: nat) returns (r: int)
      requires j < InodesPerBlock
      ensures r == SearchSlot(rootSB, Image(), ib, target, j)
    {
      r := -1;
      var x := InodeAt(ib, j);
      if x.itype == IfDir {
        r := ScanDirectory(x, target);
      }
    }

    method ScanRegion(target: CString) returns (r: int)
      ensures r == SearchRegion(rootSB, Image(), target, 0)
    {
      var i := 0;
      while i < rootSB.inodeBlocks
        invariant 0 <= i <= rootSB.inodeBlocks
        invariant SearchRegion(rootSB, Image(), target, i) == SearchRegion(rootSB, Image(), target, 0)
      {
        var r0 := ScanInodeBlock(target, i);
        if r0 != -1 {
          return r0;
        }
        i := i + 1;
      }
      return -1;
    }

    /** The region loop's body: the slots of inode block `i`. */
    method ScanInodeBlock(target: CString, i: nat) returns (r: int)
      ensures r == SearchSlots(rootSB, Image(), RegionBlock(rootSB, Image(), i), target, 0)
    {
      var ib := disk.Read(rootSB.firstInodeBlk + i);
      r := ScanSlots(ib, target);
    }

    /** find_inode: reloads the superblock from block 0 unless the path is
        "/", then scans the inode region. */
    method FindInode(path: CString) returns (r: int)
      modifies this`rootSB
      ensures rootSB == if path == [Slash] then old(rootSB) else ScanSB(Image())
      ensures r == FindInodeSpec(Image(), path)
    {
      if path == [Slash] {
        return RootIno;
      }
      var b := disk.Read(SuperBlockNo);
      rootSB := DecodeSuperblock(b);
      assert rootSB == ScanSB(Image());
      var target := NameExtractor(path);
      assert FindInodeSpec(Image(), path) == SearchRegion(rootSB, Image(), target, 0);
      r := ScanRegion(target);
    }

    // -------------------------------------------------------------------
    // print_ls and fs_ls

    /** The body of print_ls's entry loop: the row for entry `e`, if the
        entry passes the filter and its inode loads as a directory or a
        regular file. */
    method EntryRowOf(e: Dirent) returns (row: Option<Row>)
      ensures row == EntryRow(rootSB, Image(), e)
    {
      row := None;
      if e.ino != 0 && e.ino < rootSB.inodeCnt && NameValidity(e.name) == 0 {
        var _, c := InodeLoad(e.ino, ZeroInode);
        if c.itype == IfDir || c.itype == IfReg {
          row := Some(Row(e.ino, TypeChar(c.itype), c.size, e.name));
        }
      }
    }

    /** print_ls's entry loop over one directory block. */
    method ListEntries(b: Block) returns (part: seq<Row>)
      ensures part == Present(BlockScan(rootSB, Image(), b))
    {
      ghost var scan := BlockScan(rootSB, Image(), b);
      part := [];
      var l := 0;
      while l < DirentsPerBlock
        invariant 0 <= l <= DirentsPerBlock
        invariant part == Present(scan[..l])
      {
        var row := EntryRowOf(DirentAt(b, l));
        BlockScanAt(rootSB, Image(), b, l);
        PresentSnoc(scan, l);
        if row.Some? {
          part := part + [row.value];
        }
        l := l + 1;
      }
      assert scan[..DirentsPerBlock] == scan;
    }

    /** print_ls: -1 when inode `n` does not load, otherwise 0 and the
        listed rows. */
    method PrintLs(n: int32) returns (r: int, rows: seq<Row>)
      ensures ListSpec(rootSB, Image(), n).None? ==> r == -1 && rows == []
      ensures ListSpec(rootSB, Image(), n).Some? ==> r == 0 && rows == ListSpec(rootSB, Image(), n).value
    {
      var r0, x := InodeLoad(n, ZeroInode);
      if r0 == -1 {
        return -1, [];
      }
      rows := [];
      var k := 0;
      while k < DirectBlocks
        invariant 0 <= k <= DirectBlocks
        invariant rows == Present(ListScan(rootSB, Image(), x)[..DirentsPerBlock * k])
      {
        ListPrefixStep(rootSB, Image(), x, k);
        var part := ListSlot(x, k);
        rows := rows + part;
        k := k + 1;
      }
      ListPrefixFull(rootSB, Image(), x);
      r := 0;
    }

    /** print_ls's slot loop body: the rows of slot `k`'s block, when it
        lies on the disk and is not block 0. */
    method ListSlot(x: Inode, k: nat) returns (part: seq<Row>)
      requires k < DirectBlocks
      ensures part == if Scanned(x.dirBlock[k], Image()) then Present(BlockScan(rootSB, Image(), Image()[x.dirBlock[k]])) else []
    {
      part := [];
      var blk := x.dirBlock[k];
      if blk < disk.Size() && blk > 0 {
        var b := disk.Read(blk);
        part := ListEntries(b);
      }
    }

    /** fs_ls: -1 when no disk is mounted or the name is not found,
        otherwise print_ls of the inode find_inode returns, under the
        superblock find_inode leaves in force. */
    method Ls(path: CString) returns (r: int, rows: seq<Row>)
      modifies this`rootSB
      ensures old(rootSB).magic != FsMagic ==> r == -1 && rows == [] && rootSB == old(rootSB)
      ensures old(rootSB).magic == FsMagic ==>
        && rootSB == (if path == [Slash] then old(rootSB) else ScanSB(Image()))
        && (FindInodeSpec(Image(), path) == -1 ==> r == -1 && rows == [])
        && (FindInodeSpec(Image(), path) != -1 ==>
              var listed := ListSpec(rootSB, Image(), FindInodeSpec(Image(), path) as int32);
              (listed.None? ==> r == -1 && rows == []) && (listed.Some? ==> r == 0 && rows == listed.value))
    {
      if CheckRootSB() == -1 {
        return -1, [];
      }
      var n := FindInode(path);
      if n == -1 {
        return -1, [];
      }
      r, rows := PrintLs(n as int32);
    }

    // -------------------------------------------------------------------
    // The open-file table

    /** fs_open's scan of the open-file table for the lowest free slot. */
    method FreeSlot() returns (fd: int)
      requires Valid()
      ensures fd == FirstFree(openFiles[..])
    {
      fd := -1;
      var i := 0;
      while i < MaxOpenFiles
        invariant 0 <= i <= MaxOpenFiles
        invariant forall j :: 0 <= j < i ==> openFiles[j].inUse
      {
        if !openFiles[i].inUse {
          fd := i;
          break;
        }
        i := i + 1;
      }
    }

    /** fs_open: the first failing guard gives -1 and leaves the table as
        it was; otherwise the lowest free slot receives the inode, in use,
        the mode and offset 0, and its index is returned. */
    method Open(name: CString, mode: int) returns (fd: int)
      requires Valid()
      modifies this`rootSB, openFiles
      ensures Valid()
      ensures var guards := old(rootSB).magic == FsMagic && ValidMode(mode) && FirstFree(old(openFiles[..])) != -1;
        && rootSB == (if guards && name != [Slash] then ScanSB(Image()) else old(rootSB))
        && (fd == -1 <==> !guards || OpenTarget(rootSB, Image(), name).None?)
        && (fd == -1 ==> openFiles[..] == old(openFiles[..]))
        && (fd != -1 ==>
              && fd == FirstFree(old(openFiles[..]))
              && openFiles[..] == old(openFiles[..])[fd := OpenFile(OpenTarget(rootSB, Image(), name).value, true, mode, 0)])
    {
      if CheckRootSB() == -1 {
        return -1;
      }
      if !ValidMode(mode) {
        return -1;
      }
      fd := FreeSlot();
      if fd == -1 {
        return -1;
      }
      fd := OpenSlot(fd, name, mode);
    }

    /** The rest of fs_open once slot `fd` is chosen: find the name, load
        its inode and, for a regular file, fill the slot. */
    method OpenSlot(fd: nat, name: CString, mode: int) returns (r: int)
      requires Valid() && fd < MaxOpenFiles
      modifies this`rootSB, openFiles
      ensures Valid()
      ensures rootSB == (if name != [Slash] then ScanSB(Image()) else old(rootSB))
      ensures r == -1 <==> OpenTarget(rootSB, Image(), name).None?
      ensures r == -1 ==> openFiles[..] == old(openFiles[..])
      ensures r != -1 ==>
        r == fd && openFiles[..] == old(openFiles[..])[fd := OpenFile(OpenTarget(rootSB, Image(), name).value, true, mode, 0)]
    {
      var n := FindInode(name);
      ghost var target := OpenTarget(rootSB, Image(), name);
      if n == -1 {
        return -1;
      }
      var loaded, x := InodeLoad(n as int32, ZeroInode);
      assert target == (if loaded < 0 || x.itype != IfReg then None else Some(x));
      if loaded < 0 {
        return -1;
      }
      if x.itype != IfReg {
        return -1;
      }
      openFiles[fd] := OpenFile(x, true, mode, 0);
      r := fd;
    }

    /** fs_close: -1 for a descriptor out of range or not in use, with the
        table unchanged; otherwise 0, and the slot is freed and its offset
        reset (inode and mode stay). */
    method Close(fd: int) returns (r: int)
      requires Valid()
      modifies openFiles
      ensures Valid()
      ensures r == -1 || r == 0
      ensures r == -1 <==> fd < 0 || fd >= MaxOpenFiles || !old(openFiles[fd]).inUse
      ensures r == -1 ==> openFiles[..] == old(openFiles[..])
      ensures r == 0 ==> openFiles[..] == Closed(old(openFiles[..]), fd)
    {
      if fd < 0 || fd >= MaxOpenFiles {
        return -1;
      }
      if !openFiles[fd].inUse {
        return -1;
      }
      openFiles[fd] := openFiles[fd].(inUse := false, offset := 0);
      return 0;
    }

    /** fs_read: -1 and nothing changed when a guard fails; otherwise the
        bytes of ReadSpec land at the front of `data`, the rest of `data`
        is untouched, and the slot's offset moves to where the copy ended. */
    method Read(fd: int, data: array<byte>, length: int32) returns (r: int)
      requires Valid()
      requires length <= data.Length
      modifies openFiles, data
      ensures Valid()
      ensures ReadRefused(rootSB, old(openFiles[..]), fd) ==>
        r == -1 && openFiles[..] == old(openFiles[..]) && data[..] == old(data[..])
      ensures !ReadRefused(rootSB, old(openFiles[..]), fd) ==>
        var slot := old(openFiles[fd]);
        var c := ReadSpec(slot.inode, Image(), slot.offset, length);
        && r == |c.out| && r <= data.Length && data[..r] == c.out && data[r..] == old(data[r..])
        && openFiles[..] == old(openFiles[..])[fd := slot.(offset := c.offset)]
    {
      if CheckRootSB() == -1 {
        return -1;
      }
      if fd < 0 || fd >= MaxOpenFiles {
        return -1;
      }
      var slot := openFiles[fd];
      if !slot.inUse {
        return -1;
      }
      if !Readable(slot.openMode) {
        return -1;
      }
      if slot.inode.itype != IfReg {
        return -1;
      }
      var bytesRead, offset := ReadFile(slot.inode, slot.offset, data, length);
      openFiles[fd] := slot.(offset := offset);
      return bytesRead;
    }

    /** The copy loop of fs_read for an open file with inode `ino` at
        offset `start`: the bytes land at the front of `data`. */
    method ReadFile(ino: Inode, start: nat, data: array<byte>, length: int32) returns (bytesRead: nat, offset: nat)
      requires start <= ino.size && length <= data.Length
      modifies data
      ensures offset <= ino.size && bytesRead <= data.Length
      ensures var c := ReadSpec(ino, Image(), start, length);
        && bytesRead == |c.out| && offset == c.offset
        && data[..bytesRead] == c.out && data[bytesRead..] == old(data[bytesRead..])
    {
      ghost var d := Image();
      bytesRead := 0;
      offset := start;
      var cur := OffsetToBlock(ino, offset, Image());
      var k := 0;
      ghost var c := StartCursor(ino, d, start);
      ghost var goal := ReadSpec(ino, d, start, length);
      while k < DirectBlocks && bytesRead < length
        invariant 0 <= k <= DirectBlocks
        invariant offset <= ino.size && bytesRead <= data.Length
        invariant c == Cursor(data[..bytesRead], offset, cur)
        invariant ReadLoop(ino, d, length, k, c) == goal
        invariant data[bytesRead..] == old(data[bytesRead..])
        invariant Image() == d
      {
        ReadLoopUnfold(ino, d, length, k, c);
        bytesRead, offset, cur := ReadStep(ino, k, data, length, bytesRead, offset, cur);
        c := CopyStep(ino, d, length, k, c);
        k := k + 1;
      }
    }

    /** One iteration of fs_read's loop: direct slot `k`. */
    method ReadStep(ino: Inode, k: nat, data: array<byte>, length: int32, bytesRead: nat, offset: nat, cur: int)
      returns (bytesRead': nat, offset': nat, cur': int)
      requires k < DirectBlocks && offset <= ino.size && bytesRead < length <= data.Length
      modifies data
      ensures bytesRead' <= data.Length && data[bytesRead'..] == old(data[bytesRead'..])
      ensures Cursor(data[..bytesRead'], offset', cur')
        == CopyStep(ino, Image(), length, k, Cursor(old(data[..bytesRead]), offset, cur))
    {
      ghost var c := Cursor(data[..bytesRead], offset, cur);
      bytesRead', offset', cur' := bytesRead, offset, cur;
      var blk := ino.dirBlock[k];
      if cur == blk && blk < disk.Size() {
        bytesRead', offset' := CopyBlock(ino, blk, data, length, bytesRead, offset);
        cur' := OffsetToBlock(ino, offset', Image());
        CopyStepTaken(ino, Image(), length, k, c);
      } else {
        assert CopyStep(ino, Image(), length, k, c) == c;
      }
    }

    /** The copy of one iteration: from byte `offset % 2048` of block
        `blk`, as many bytes as the block, the request and the file
        leave, to `data + bytesRead`. */
    method CopyBlock(ino: Inode, blk: nat, data: array<byte>, length: int32, bytesRead: nat, offset: nat)
      returns (bytesRead': nat, offset': nat)
      requires blk < |Image()| && offset <= ino.size && bytesRead < length <= data.Length
      modifies data
      ensures var bo := offset % BlockSize;
        var n := Min(Min(BlockSize - bo, length - bytesRead), ino.size - offset);
        && bytesRead' == bytesRead + n && offset' == offset + n && bytesRead' <= data.Length
        && data[..bytesRead'] == old(data[..bytesRead]) + Image()[blk][bo..bo + n]
        && data[bytesRead'..] == old(data[bytesRead'..])
    {
      var b := disk.Read(blk);
      var bo := offset % BlockSize;
      var n := Min(BlockSize - bo, length - bytesRead);
      n := Min(n, ino.size - offset);
      Memcpy(data, bytesRead, b[bo..bo + n]);
      assert data[..bytesRead + n] == data[..bytesRead] + data[bytesRead..bytesRead + n];
      bytesRead' := bytesRead + n;
      offset' := offset + n;
    }
  }

  /** The step of fs_read's loop that copies from direct slot `k`. */
  lemma CopyStepTaken(ino: Inode, d: seq<Block>, length: int, k: nat, c: Cursor)
    requires k < DirectBlocks && c.offset <= ino.size && |c.out| < length
    requires c.cur == ino.dirBlock[k] && ino.dirBlock[k] < |d|
    ensures var bo := c.offset % BlockSize;
      var n := Min(Min(BlockSize - bo, length - |c.out|), ino.size - c.offset);
      CopyStep(ino, d, length, k, c)
        == Cursor(c.out + d[ino.dirBlock[k]][bo..bo + n], c.offset + n, OffsetToBlock(ino, c.offset + n, d))
  {
  }

  /** memcpy(dst + at, src, |src|). */
  method Memcpy(dst: array<byte>, at: nat, src: seq<byte>)
    requires at + |src| <= dst.Length
    modifies dst
    ensures dst[..at] == old(dst[..at])
    ensures dst[at..at + |src|] == src
    ensures dst[at + |src|..] == old(dst[at + |src|..])
  {
    forall t | 0 <= t < |src| {
      dst[at + t] := src[t];
    }
  }
}
