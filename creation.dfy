/**
 * The persistent state of a mounted volume as a value, and the effect of
 * creating a file or a directory on it (assoofs_create / assoofs_mkdir).
 */
module Creation {
  import opened Layout
  import opened Allocator
  import opened InodeStore
  import opened Directory
  import opened Superblock

  /**
   * The in-memory superblock (s_fs_info), block 0, block 1 read as inode
   * records, and the allocatable blocks read as directory-entry tables.
   */
  datatype FsState = FsState(
    info: SuperBlockInfo,
    block0: SuperBlockInfo,
    store: seq<InodeInfo>,
    dirs: map<nat, seq<DirRecordEntry>>)

  /** The shape every operation keeps: a mounted superblock persisted to block 0, whole blocks. */
  predicate WellFormed(s: FsState) {
    && FillSuper(s.info).Ok?
    && s.block0 == s.info
    && |s.store| == INODE_SLOTS
    && s.info.inodesCount as nat <= INODE_SLOTS
    && (forall b: nat | LAST_RESERVED_BLOCK <= b < BITMAP_BITS :: b in s.dirs)
    && (forall b | b in s.dirs :: |s.dirs[b]| == DIR_SLOTS)
  }

  /** The live inode records. */
  function Inodes(s: FsState): seq<InodeInfo>
    requires WellFormed(s)
  {
    s.store[..s.info.inodesCount]
  }

  /** Inode numbers are handed out in creation order: slot i holds inode i + 1 (slot 0 the root). */
  predicate Numbered(s: FsState)
    requires WellFormed(s)
  {
    forall i | 0 <= i < s.info.inodesCount as nat :: s.store[i].inodeNo == i + 1
  }

  /** Every live record's data block lies in the bitmap and is marked in use. */
  predicate BlocksInUse(s: FsState)
    requires WellFormed(s)
  {
    forall i | 0 <= i < s.info.inodesCount as nat ::
      s.store[i].dataBlockNumber < BITMAP_BITS as u64 && !IsFree(s.info.freeBlocks, s.store[i].dataBlockNumber)
  }

  /**
   * With numbering in creation order, inode ino is found exactly when it is
   * one of the first inodes_count numbers, at slot ino - 1; the root, inode
   * 1, sits at slot 0 of any volume that holds at least one inode.
   */
  lemma {:induction false} NumberedFind(s: FsState, ino: u64)
    requires WellFormed(s) && Numbered(s)
    ensures 1 <= ino as nat <= s.info.inodesCount as nat ==> FindSlot(s.store, s.info.inodesCount as nat, ino) == Some(ino as nat - 1)
    ensures !(1 <= ino as nat <= s.info.inodesCount as nat) ==> FindSlot(s.store, s.info.inodesCount as nat, ino).None?
  {
    var n := s.info.inodesCount as nat;
    if 1 <= ino as nat <= n {
      var r := FindSlot(s.store, n, ino);
      FindSlotIsFirst(s.store, n, ino, ino as nat - 1);
      assert s.store[r.value].inodeNo == r.value + 1;
    } else {
      forall k | 0 <= k < n ensures s.store[k].inodeNo != ino {
        assert s.store[k].inodeNo == k + 1;
      }
    }
  }

  /**
   * On a mounted volume numbered in creation order, with the slot after the
   * live records still zero-filled, the source's search for inode 0 reports
   * that dead slot; the bounded search reports nothing.
   */
  lemma DeadSlotFoundAsWritten(s: FsState)
    requires WellFormed(s) && Numbered(s)
    requires 1 <= s.info.inodesCount as nat < INODE_SLOTS
    requires s.store[s.info.inodesCount].inodeNo == 0
    ensures var n := s.info.inodesCount as nat;
      SearchAsWritten(s.store, n, 0) == Some(n) && FindSlot(s.store, n, 0) == None
  {
    SearchAsWrittenFindsDeadSlot(s.store, s.info.inodesCount as nat);
  }

  /** What create and mkdir report: the new inode number and the caller's updated parent copy. */
  datatype Created = Created(inodeNo: u64, parent: InodeInfo)

  /**
   * The record create (a file: mode as given, size 0) or mkdir (mode
   * S_IFDIR | mode, no children) fills in; kmalloc leaves state_flag
   * uninitialised, so its value is a parameter.
   */
  function NewRecord(ino: u64, block: nat, mode: bv32, isDir: bool, flag: u64): InodeInfo
    requires block < BITMAP_BITS
  {
    if isDir then InodeInfo(S_IFDIR | mode, ino, block, Dir(0), flag)
    else InodeInfo(mode, ino, block, File(0), flag)
  }

  /** Where a creation under parent stops before writing anything, if it does. */
  function CreateError(s: FsState, parent: InodeInfo, name: Name): Option<Error>
    requires WellFormed(s) && parent.content.Dir?
  {
    if s.info.inodesCount as nat >= MAX_FILESYSTEM_OBJECTS_SUPPORTED then Some(NoSpace)
    else if parent.content.childrenCount as nat >= DIR_SLOTS then Some(NoSpace)
    else if |name| >= FILENAME_MAXLEN then Some(NameTooLong)
    else if FindSlot(s.store, s.info.inodesCount, parent.inodeNo).None? then Some(NotFound)
    else if FirstFree(s.info.freeBlocks).None? then Some(NoSpace)
    else None
  }

  /**
   * Creating an object named name under the directory whose in-memory record
   * is parent: inode number inodes_count + 1, the first free block, the
   * record appended to the store, the entry written at slot
   * dir_children_count of the parent's block, and the parent's record, with
   * one more child, saved over its slot in the store.
   */
  function CreateSpec(s: FsState, parent: InodeInfo, name: Name, mode: bv32, isDir: bool, flag: u64): (FsState, Result<Created>)
    requires WellFormed(s) && parent.content.Dir? && parent.dataBlockNumber in s.dirs
  {
    match CreateError(s, parent, name)
    case Some(e) => (s, Err(e))
    case None =>
      var b := FirstFree(s.info.freeBlocks).value;
      var slot := FindSlot(s.store, s.info.inodesCount, parent.inodeNo).value;
      Commit(s, parent, name, mode, isDir, flag, b, slot)
  }

  /** The writes of a creation that passed every check, with block b and the parent at slot. */
  function Commit(s: FsState, parent: InodeInfo, name: Name, mode: bv32, isDir: bool, flag: u64,
                  b: nat, slot: nat): (FsState, Result<Created>)
    requires b < BITMAP_BITS && slot < s.info.inodesCount as nat < |s.store| && s.info.inodesCount as nat < MAX_FILESYSTEM_OBJECTS_SUPPORTED
    requires parent.content.Dir? && parent.dataBlockNumber in s.dirs
    requires parent.content.childrenCount as nat < |s.dirs[parent.dataBlockNumber]| <= DIR_SLOTS
  {
    var n := s.info.inodesCount;
    var k := parent.content.childrenCount;
    var ino: u64 := n + 1;
    var info := s.info.(inodesCount := n + 1, freeBlocks := ClearBit(s.info.freeBlocks, b));
    var parent' := parent.(content := Dir(k + 1));
    var store := s.store[n := NewRecord(ino, b, mode, isDir, flag)][slot := parent'];
    var dir := s.dirs[parent.dataBlockNumber];
    var dirs := s.dirs[parent.dataBlockNumber := WriteEntry(dir, k, name, ino)];
    (FsState(info, info, store, dirs), Ok(Created(ino, parent')))
  }

  /** The block the creation takes: first fit on the bitmap before it. */
  function AllocatedBlock(s: FsState): nat
    requires FirstFree(s.info.freeBlocks).Some?
  {
    FirstFree(s.info.freeBlocks).value
  }

  /** A creation that fails changes nothing, and it fails exactly when CreateError names an error. */
  lemma CreateFailsCleanly(s: FsState, parent: InodeInfo, name: Name, mode: bv32, isDir: bool, flag: u64)
    requires WellFormed(s) && parent.content.Dir? && parent.dataBlockNumber in s.dirs
    ensures var (s', r) := CreateSpec(s, parent, name, mode, isDir, flag);
      && (r.Err? <==> CreateError(s, parent, name).Some?)
      && (r.Err? ==> s' == s && r.error == CreateError(s, parent, name).value)
  {
  }

  /** A successful creation is the commit of the first free block with the parent's slot. */
  lemma CreateUnfold(s: FsState, parent: InodeInfo, name: Name, mode: bv32, isDir: bool, flag: u64)
    requires WellFormed(s) && parent.content.Dir? && parent.dataBlockNumber in s.dirs
    requires CreateSpec(s, parent, name, mode, isDir, flag).1.Ok?
    ensures CreateError(s, parent, name).None?
    ensures FirstFree(s.info.freeBlocks).Some?
    ensures FindSlot(s.store, s.info.inodesCount, parent.inodeNo).Some?
    ensures var b := FirstFree(s.info.freeBlocks).value;
      var slot := FindSlot(s.store, s.info.inodesCount, parent.inodeNo).value;
      && b < BITMAP_BITS && slot < s.info.inodesCount as nat < |s.store|
      && s.info.inodesCount as nat < MAX_FILESYSTEM_OBJECTS_SUPPORTED
      && parent.content.childrenCount as nat < |s.dirs[parent.dataBlockNumber]| == DIR_SLOTS
      && CreateSpec(s, parent, name, mode, isDir, flag) == Commit(s, parent, name, mode, isDir, flag, b, slot)
  {
  }

  lemma CommitWellFormed(s: FsState, parent: InodeInfo, name: Name, mode: bv32, isDir: bool, flag: u64, b: nat, slot: nat)
    requires WellFormed(s)
    requires b < BITMAP_BITS && slot < s.info.inodesCount as nat < |s.store| && s.info.inodesCount as nat < MAX_FILESYSTEM_OBJECTS_SUPPORTED
    requires parent.content.Dir? && parent.dataBlockNumber in s.dirs
    requires parent.content.childrenCount as nat < |s.dirs[parent.dataBlockNumber]| <= DIR_SLOTS
    ensures WellFormed(Commit(s, parent, name, mode, isDir, flag, b, slot).0)
  {
    var s' := Commit(s, parent, name, mode, isDir, flag, b, slot).0;
    var pdb := parent.dataBlockNumber as nat;
    MountableAfterUpdate(s.info, s'.info.inodesCount, s'.info.freeBlocks);
    assert |s'.dirs[pdb]| == DIR_SLOTS;
    assert forall b | b in s'.dirs :: |s'.dirs[b]| == DIR_SLOTS;
  }

  /** Creation keeps the volume well formed, so it still mounts. */
  lemma CreatePreservesWellFormed(s: FsState, parent: InodeInfo, name: Name, mode: bv32, isDir: bool, flag: u64)
    requires WellFormed(s) && parent.content.Dir? && parent.dataBlockNumber in s.dirs
    ensures WellFormed(CreateSpec(s, parent, name, mode, isDir, flag).0)
    ensures FillSuper(CreateSpec(s, parent, name, mode, isDir, flag).0.block0).Ok?
  {
    if CreateSpec(s, parent, name, mode, isDir, flag).1.Ok? {
      CreateUnfold(s, parent, name, mode, isDir, flag);
      var b := FirstFree(s.info.freeBlocks).value;
      var slot := FindSlot(s.store, s.info.inodesCount, parent.inodeNo).value;
      CommitWellFormed(s, parent, name, mode, isDir, flag, b, slot);
    }
  }

  /**
   * The superblock side of a successful creation: one more inode, exactly
   * the first free block taken out of the bitmap, and the result persisted
   * to block 0.
   */
  lemma CreateSuperblockEffect(s: FsState, parent: InodeInfo, name: Name, mode: bv32, isDir: bool, flag: u64)
    requires WellFormed(s) && parent.content.Dir? && parent.dataBlockNumber in s.dirs
    requires CreateSpec(s, parent, name, mode, isDir, flag).1.Ok?
    ensures var (s', r) := CreateSpec(s, parent, name, mode, isDir, flag);
      var b := AllocatedBlock(s);
      && r.value.inodeNo == s.info.inodesCount + 1
      && s'.info.inodesCount == s.info.inodesCount + 1
      && IsFree(s.info.freeBlocks, b) && LAST_RESERVED_BLOCK <= b
      && (forall j: nat | FIRST_SCANNED_BLOCK <= j < b :: !IsFree(s.info.freeBlocks, j))
      && (forall j: nat | j < BITMAP_BITS :: IsFree(s'.info.freeBlocks, j) <==> j != b && IsFree(s.info.freeBlocks, j))
      && s'.block0 == s'.info
      && s'.info.magic == s.info.magic && s'.info.blockSize == s.info.blockSize && s'.info.version == s.info.version
  {
    CreateUnfold(s, parent, name, mode, isDir, flag);
    FirstFreeFromSpec(s.info.freeBlocks, FIRST_SCANNED_BLOCK);
    ClearBitSpec(s.info.freeBlocks, AllocatedBlock(s));
  }

  /**
   * The inode-store side of a successful creation: the new record sits at
   * slot inodes_count, the parent's slot holds the parent with one more
   * child, and no other slot changes.
   */
  lemma CreateStoreEffect(s: FsState, parent: InodeInfo, name: Name, mode: bv32, isDir: bool, flag: u64)
    requires WellFormed(s) && parent.content.Dir? && parent.dataBlockNumber in s.dirs
    requires CreateSpec(s, parent, name, mode, isDir, flag).1.Ok?
    ensures var (s', r) := CreateSpec(s, parent, name, mode, isDir, flag);
      var n := s.info.inodesCount as nat;
      var slot := FindSlot(s.store, n, parent.inodeNo).value;
      && slot < n
      && s'.store[n] == NewRecord(n + 1, AllocatedBlock(s), mode, isDir, flag)
      && s'.store[slot] == r.value.parent
      && r.value.parent == parent.(content := Dir(parent.content.childrenCount + 1))
      && (forall i | 0 <= i < |s.store| && i != n && i != slot :: s'.store[i] == s.store[i])
  {
    CreateUnfold(s, parent, name, mode, isDir, flag);
  }

  /**
   * A file starts with size 0 and keeps the mode it was given; a directory
   * gets S_IFDIR | mode and no children.
   */
  lemma NewRecordKind(ino: u64, block: nat, mode: bv32, isDir: bool, flag: u64)
    requires block < BITMAP_BITS
    ensures var r := NewRecord(ino, block, mode, isDir, flag);
      && r.inodeNo == ino && r.dataBlockNumber == block as u64 && r.stateFlag == flag
      && (isDir ==> r.mode == S_IFDIR | mode && r.content == Dir(0))
      && (!isDir ==> r.mode == mode && r.content == File(0))
      && (isDir && mode & S_IFMT == 0 ==> WellKinded(r))
  {
    if isDir && mode & S_IFMT == 0 {
      DirModeIsDir(mode);
    }
  }

  /**
   * The directory side: slot dir_children_count of the parent's block
   * receives (name, new inode number), so a name no child had resolves to
   * the new object, and every other name and every other block is as before.
   */
  lemma {:induction false} CreateThenLookup(s: FsState, parent: InodeInfo, name: Name, mode: bv32, isDir: bool, flag: u64, other: Name)
    requires WellFormed(s) && parent.content.Dir? && parent.dataBlockNumber in s.dirs
    requires CreateSpec(s, parent, name, mode, isDir, flag).1.Ok?
    requires LookupEntry(s.dirs[parent.dataBlockNumber], parent.content.childrenCount as nat, name).None?
    ensures var (s', r) := CreateSpec(s, parent, name, mode, isDir, flag);
      var p' := r.value.parent;
      && p'.dataBlockNumber in s'.dirs
      && LookupEntry(s'.dirs[p'.dataBlockNumber], p'.content.childrenCount as nat, name) == Some(r.value.inodeNo)
      && (other != name ==>
            LookupEntry(s'.dirs[p'.dataBlockNumber], p'.content.childrenCount as nat, other)
            == LookupEntry(s.dirs[parent.dataBlockNumber], parent.content.childrenCount as nat, other))
      && (forall b | b in s.dirs && b != parent.dataBlockNumber as nat :: b in s'.dirs && s'.dirs[b] == s.dirs[b])
  {
    var (s', r) := CreateSpec(s, parent, name, mode, isDir, flag);
    var dir := s.dirs[parent.dataBlockNumber];
    var k := parent.content.childrenCount as nat;
    assert FindEntry(dir, k, name).None?;
    LookupAfterAppend(dir, k, name, r.value.inodeNo, other);
  }

  /**
   * With numbering in creation order, creation keeps that numbering; the new
   * inode is found in the store at slot inodes_count, the parent at its old
   * slot, and every other inode number at the slot it had.
   */
  lemma CreateThenGet(s: FsState, parent: InodeInfo, name: Name, mode: bv32, isDir: bool, flag: u64, ino: u64)
    requires WellFormed(s) && parent.content.Dir? && parent.dataBlockNumber in s.dirs
    requires Numbered(s)
    requires CreateSpec(s, parent, name, mode, isDir, flag).1.Ok?
    ensures var (s', r) := CreateSpec(s, parent, name, mode, isDir, flag);
      var n := s.info.inodesCount as nat;
      && WellFormed(s') && Numbered(s')
      && FindInode(s'.store, n + 1, r.value.inodeNo) == Some(s'.store[n])
      && FindInode(s'.store, n + 1, parent.inodeNo) == Some(r.value.parent)
      && (ino != r.value.inodeNo ==> FindSlot(s'.store, n + 1, ino) == FindSlot(s.store, n, ino))
  {
    CreateUnfold(s, parent, name, mode, isDir, flag);
    var b := FirstFree(s.info.freeBlocks).value;
    var slot := FindSlot(s.store, s.info.inodesCount, parent.inodeNo).value;
    CommitWellFormed(s, parent, name, mode, isDir, flag, b, slot);
    CommitThenGet(s, parent, name, mode, isDir, flag, b, slot, ino);
  }

  lemma {:induction false} CommitThenGet(s: FsState, parent: InodeInfo, name: Name, mode: bv32, isDir: bool, flag: u64,
                                         b: nat, slot: nat, ino: u64)
    requires WellFormed(s) && Numbered(s)
    requires b < BITMAP_BITS && slot < s.info.inodesCount as nat < |s.store| && s.info.inodesCount as nat < MAX_FILESYSTEM_OBJECTS_SUPPORTED
    requires parent.content.Dir? && parent.dataBlockNumber in s.dirs
    requires parent.content.childrenCount as nat < |s.dirs[parent.dataBlockNumber]| <= DIR_SLOTS
    requires FindSlot(s.store, s.info.inodesCount, parent.inodeNo) == Some(slot)
    requires WellFormed(Commit(s, parent, name, mode, isDir, flag, b, slot).0)
    ensures var (s', r) := Commit(s, parent, name, mode, isDir, flag, b, slot);
      var n := s.info.inodesCount as nat;
      && Numbered(s')
      && FindInode(s'.store, n + 1, r.value.inodeNo) == Some(s'.store[n])
      && FindInode(s'.store, n + 1, parent.inodeNo) == Some(r.value.parent)
      && (ino != r.value.inodeNo ==> FindSlot(s'.store, n + 1, ino) == FindSlot(s.store, n, ino))
  {
    var (s', r) := Commit(s, parent, name, mode, isDir, flag, b, slot);
    var n := s.info.inodesCount as nat;
    forall i | 0 <= i < n + 1 ensures s'.store[i].inodeNo == i + 1 {
      if i == slot {
        assert s'.store[i].inodeNo == s.store[slot].inodeNo;
      } else if i == n {
        assert s'.store[i].inodeNo == n + 1;
      } else {
        assert s'.store[i] == s.store[i];
      }
    }
    assert Numbered(s');
    NumberedFind(s, parent.inodeNo);
    NumberedFind(s', r.value.inodeNo);
    NumberedFind(s', parent.inodeNo);
    NumberedFind(s, ino);
    NumberedFind(s', ino);
  }

  /**
   * When the caller's parent copy is the stored parent record, creation
   * keeps every live block marked used, and the new object's block is one
   * no live object was using.
   */
  lemma CreateKeepsBlocksInUse(s: FsState, parent: InodeInfo, name: Name, mode: bv32, isDir: bool, flag: u64)
    requires WellFormed(s) && parent.content.Dir? && parent.dataBlockNumber in s.dirs
    requires BlocksInUse(s)
    requires CreateSpec(s, parent, name, mode, isDir, flag).1.Ok?
    requires parent == s.store[FindSlot(s.store, s.info.inodesCount, parent.inodeNo).value]
    ensures var s' := CreateSpec(s, parent, name, mode, isDir, flag).0;
      && WellFormed(s') && BlocksInUse(s')
      && (forall i | 0 <= i < s.info.inodesCount as nat :: s.store[i].dataBlockNumber != AllocatedBlock(s) as u64)
  {
    CreateUnfold(s, parent, name, mode, isDir, flag);
    var b := FirstFree(s.info.freeBlocks).value;
    var slot := FindSlot(s.store, s.info.inodesCount, parent.inodeNo).value;
    FirstFreeFromSpec(s.info.freeBlocks, FIRST_SCANNED_BLOCK);
    CommitWellFormed(s, parent, name, mode, isDir, flag, b, slot);
    CommitKeepsBlocksInUse(s, parent, name, mode, isDir, flag, b, slot);
  }

  lemma {:induction false} CommitKeepsBlocksInUse(s: FsState, parent: InodeInfo, name: Name, mode: bv32, isDir: bool, flag: u64,
                                                  b: nat, slot: nat)
    requires WellFormed(s) && BlocksInUse(s)
    requires b < BITMAP_BITS && slot < s.info.inodesCount as nat < |s.store| && s.info.inodesCount as nat < MAX_FILESYSTEM_OBJECTS_SUPPORTED
    requires parent.content.Dir? && parent.dataBlockNumber in s.dirs
    requires parent.content.childrenCount as nat < |s.dirs[parent.dataBlockNumber]| <= DIR_SLOTS
    requires parent.dataBlockNumber == s.store[slot].dataBlockNumber
    requires IsFree(s.info.freeBlocks, b)
    requires WellFormed(Commit(s, parent, name, mode, isDir, flag, b, slot).0)
    ensures var s' := Commit(s, parent, name, mode, isDir, flag, b, slot).0;
      && BlocksInUse(s')
      && (forall i | 0 <= i < s.info.inodesCount as nat :: s.store[i].dataBlockNumber != b as u64)
  {
    var s' := Commit(s, parent, name, mode, isDir, flag, b, slot).0;
    var n := s.info.inodesCount as nat;
    var free := s.info.freeBlocks;
    var free' := s'.info.freeBlocks;
    assert free' == ClearBit(free, b);
    ClearBitSpec(free, b);
    forall i | 0 <= i < n ensures s.store[i].dataBlockNumber != b as u64 {
      assert !IsFree(free, s.store[i].dataBlockNumber);
    }
    forall i | 0 <= i < n + 1
      ensures s'.store[i].dataBlockNumber < BITMAP_BITS as u64 && !IsFree(free', s'.store[i].dataBlockNumber)
    {
      if i == slot {
        assert s'.store[i].dataBlockNumber == s.store[slot].dataBlockNumber;
        assert s.store[slot].dataBlockNumber != b as u64;
      } else if i == n {
        assert s'.store[i].dataBlockNumber == b as u64;
      } else {
        assert s'.store[i] == s.store[i];
        assert s.store[i].dataBlockNumber != b as u64;
      }
    }
  }

  /**
   * Two creations in a row under the same parent (the second given the
   * parent the first returned) get consecutive inode numbers and
   * different blocks, the second above the first, and the parent ends with
   * two more children.
   */
  lemma {:induction false} CreateTwiceDistinct(s: FsState, parent: InodeInfo, name1: Name, name2: Name,
                                               mode1: bv32, mode2: bv32, isDir1: bool, isDir2: bool, flag1: u64, flag2: u64)
    requires WellFormed(s) && parent.content.Dir? && parent.dataBlockNumber in s.dirs
    requires CreateSpec(s, parent, name1, mode1, isDir1, flag1).1.Ok?
    ensures var (s1, r1) := CreateSpec(s, parent, name1, mode1, isDir1, flag1);
      var p1 := r1.value.parent;
      && WellFormed(s1) && p1.content.Dir? && p1.dataBlockNumber in s1.dirs
      && var (s2, r2) := CreateSpec(s1, p1, name2, mode2, isDir2, flag2);
         r2.Ok? ==>
           && r2.value.inodeNo == r1.value.inodeNo + 1
           && AllocatedBlock(s) < AllocatedBlock(s1)
           && r2.value.parent.content == Dir(parent.content.childrenCount + 2)
  {
    CreatePreservesWellFormed(s, parent, name1, mode1, isDir1, flag1);
    CreateReturns(s, parent, name1, mode1, isDir1, flag1);
    var (s1, r1) := CreateSpec(s, parent, name1, mode1, isDir1, flag1);
    var p1 := r1.value.parent;
    if CreateSpec(s1, p1, name2, mode2, isDir2, flag2).1.Ok? {
      CreateReturns(s1, p1, name2, mode2, isDir2, flag2);
      AllocateTwiceDistinct(s.info.freeBlocks);
    }
  }

  /** The new superblock and what a successful creation returns. */
  lemma CreateReturns(s: FsState, parent: InodeInfo, name: Name, mode: bv32, isDir: bool, flag: u64)
    requires WellFormed(s) && parent.content.Dir? && parent.dataBlockNumber in s.dirs
    requires CreateSpec(s, parent, name, mode, isDir, flag).1.Ok?
    ensures FirstFree(s.info.freeBlocks).Some?
    ensures var (s', r) := CreateSpec(s, parent, name, mode, isDir, flag);
      && s'.info == s.info.(inodesCount := s.info.inodesCount + 1,
                            freeBlocks := ClearBit(s.info.freeBlocks, AllocatedBlock(s)))
      && r.value == Created(s.info.inodesCount + 1, parent.(content := Dir(parent.content.childrenCount + 1)))
  {
    CreateUnfold(s, parent, name, mode, isDir, flag);
  }
}
