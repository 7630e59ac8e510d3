/**
 * A mounted assoofs volume: the in-memory superblock and the device blocks
 * the engine reads and writes, with the operations of assoofs.c that
 * update them in place.
 */
module Volume {
  import opened Layout
  import opened Allocator
  import opened InodeStore
  import opened Directory
  import opened Superblock
  import opened Creation

  class Volume {
    /** sb->s_fs_info: the superblock record the operations update. */
    var info: SuperBlockInfo
    /** Block 0 on the device. */
    var block0: SuperBlockInfo
    /** Block 1 on the device: the inode store, one record per slot. */
    const store: array<InodeInfo>
    /** The allocatable blocks, each read as a table of directory entries. */
    var dirBlocks: map<nat, seq<DirRecordEntry>>

    ghost function Abs(): FsState
      reads this, store
    {
      FsState(info, block0, store[..], dirBlocks)
    }

    ghost predicate Valid()
      reads this, store
    {
      WellFormed(Abs())
    }

    /** Valid except that the in-memory superblock may not have been written back yet. */
    ghost predicate Unsaved()
      reads this, store
    {
      WellFormed(Abs().(block0 := info))
    }

    /**
     * A successful assoofs_fill_super: the superblock read from block 0
     * passed the magic and block-size test and becomes the in-memory one;
     * the records of block 1 are read with their union decoded.
     */
    constructor Mount(image0: SuperBlockInfo, storeImage: seq<RawInodeInfo>, dirImage: map<nat, seq<DirRecordEntry>>)
      requires WellFormed(FsState(image0, image0, DecodeStore(storeImage), dirImage))
      ensures Valid() && fresh(store)
      ensures Abs() == FsState(FillSuper(image0).value, image0, DecodeStore(storeImage), dirImage)
      ensures forall i | 0 <= i < store.Length :: WellKinded(store[i]) && Encode(store[i]) == storeImage[i]
    {
      var decoded := DecodeStore(storeImage);
      info := image0;
      block0 := image0;
      store := new InodeInfo[INODE_SLOTS](i requires 0 <= i < INODE_SLOTS => decoded[i]);
      dirBlocks := dirImage;
      new;
      assert store[..] == decoded;
    }

    /** assoofs_save_sb_info: block 0 is overwritten with the whole in-memory record. */
    method SaveSbInfo()
      requires Unsaved()
      modifies this`block0
      ensures Valid()
      ensures block0 == info
    {
      block0 := info;
    }

    /**
     * assoofs_sb_get_a_freeblock with its scan bounded to the bitmap: the
     * first free block from 2 up is marked used and the superblock saved;
     * with none free, NoSpace and nothing changes.
     */
    method GetAFreeBlock() returns (r: Result<nat>)
      requires Valid()
      modifies this`info, this`block0
      ensures Valid()
      ensures match FirstFree(old(info.freeBlocks))
        case None => r == Err(NoSpace) && info == old(info) && block0 == old(block0)
        case Some(b) => r == Ok(b) && info == old(info).(freeBlocks := ClearBit(old(info.freeBlocks), b))
    {
      var found := FindFreeBlock(info.freeBlocks);
      match found
      case None =>
        r := Err(NoSpace);
      case Some(b) =>
        info := info.(freeBlocks := ClearBit(info.freeBlocks, b));
        SaveSbInfo();
        r := Ok(b);
    }

    /**
     * assoofs_add_inode_info: the record is copied into slot inodes_count of
     * the store, the counter goes up by one and the superblock is saved.
     */
    method AddInodeInfo(rec: InodeInfo)
      requires Valid() && info.inodesCount as nat < INODE_SLOTS
      modifies store, this`info, this`block0
      ensures Valid()
      ensures store[..] == old(store[..])[old(info.inodesCount) := rec]
      ensures info == old(info).(inodesCount := old(info.inodesCount) + 1)
    {
      store[info.inodesCount] := rec;
      info := info.(inodesCount := info.inodesCount + 1);
      SaveSbInfo();
    }

    /**
     * assoofs_search_inode_info, stopping at inodes_count: the first live
     * slot whose record carries target's inode number.
     */
    method SearchInodeInfo(target: InodeInfo) returns (r: Option<nat>)
      requires Valid()
      ensures r == FindSlot(store[..], info.inodesCount as nat, target.inodeNo)
    {
      var n := info.inodesCount as nat;
      var count := 0;
      while count < n && store[count].inodeNo != target.inodeNo
        invariant 0 <= count <= n
        invariant FindSlotFrom(store[..], n, target.inodeNo, count) == FindSlot(store[..], n, target.inodeNo)
      {
        count := count + 1;
      }
      r := if count < n then Some(count) else None;
    }

    /**
     * assoofs_save_inode_info: the record overwrites the first live slot
     * with its inode number, and no other slot changes; with no such slot,
     * NotFound and the store is left as it was.
     */
    method SaveInodeInfo(rec: InodeInfo) returns (r: Result<nat>)
      requires Valid()
      modifies store
      ensures Valid()
      ensures match FindSlot(old(store[..]), info.inodesCount as nat, rec.inodeNo)
        case None => r == Err(NotFound) && store[..] == old(store[..])
        case Some(k) => r == Ok(k) && store[..] == old(store[..])[k := rec]
    {
      var pos := SearchInodeInfo(rec);
      match pos
      case None =>
        r := Err(NotFound);
      case Some(k) =>
        store[k] := rec;
        r := Ok(k);
    }

    /**
     * assoofs_get_inode_info: a copy of the first live record numbered ino,
     * or None when no live record has that number.
     */
    method GetInodeInfo(ino: u64) returns (r: Option<InodeInfo>)
      requires Valid()
      ensures r == FindInode(store[..], info.inodesCount as nat, ino)
      ensures r.Some? ==> r.value.inodeNo == ino
      ensures r.None? <==> forall i | 0 <= i < info.inodesCount as nat :: store[i].inodeNo != ino
    {
      var n := info.inodesCount as nat;
      r := None;
      for i := 0 to n
        invariant FindSlotFrom(store[..], n, ino, i) == FindSlot(store[..], n, ino)
      {
        if store[i].inodeNo == ino {
          r := Some(store[i]);
          break;
        }
      }
    }

    /**
     * The entry scan of assoofs_lookup: the inode number of the first of the
     * parent's dir_children_count entries whose name equals name.
     */
    method Lookup(parent: InodeInfo, name: Name) returns (r: Option<u64>)
      requires Valid() && parent.content.Dir? && parent.dataBlockNumber in dirBlocks
      requires parent.content.childrenCount as nat <= DIR_SLOTS
      ensures r == LookupEntry(dirBlocks[parent.dataBlockNumber], parent.content.childrenCount as nat, name)
    {
      var record := dirBlocks[parent.dataBlockNumber];
      var n := parent.content.childrenCount as nat;
      r := None;
      for i := 0 to n
        invariant FindEntryFrom(record, n, name, i) == FindEntry(record, n, name)
      {
        if record[i].filename == name {
          r := Some(record[i].inodeNo);
          break;
        }
      }
    }

    /** assoofs_create: a regular file named name under parent. */
    method Create(parent: InodeInfo, name: Name, mode: bv32, flag: u64) returns (r: Result<Created>)
      requires Valid() && parent.content.Dir? && parent.dataBlockNumber in dirBlocks
      modifies this, store
      ensures Valid()
      ensures (Abs(), r) == CreateSpec(old(Abs()), parent, name, mode, false, flag)
    {
      r := CreateObject(parent, name, mode, false, flag);
    }

    /** assoofs_mkdir: a directory named name under parent. */
    method Mkdir(parent: InodeInfo, name: Name, mode: bv32, flag: u64) returns (r: Result<Created>)
      requires Valid() && parent.content.Dir? && parent.dataBlockNumber in dirBlocks
      modifies this, store
      ensures Valid()
      ensures (Abs(), r) == CreateSpec(old(Abs()), parent, name, mode, true, flag)
    {
      r := CreateObject(parent, name, mode, true, flag);
    }

    /**
     * The steps create and mkdir share: the checks, then the block for the
     * new inode, then the writes of FinishCreate.
     */
    method CreateObject(parent: InodeInfo, name: Name, mode: bv32, isDir: bool, flag: u64) returns (r: Result<Created>)
      requires Valid() && parent.content.Dir? && parent.dataBlockNumber in dirBlocks
      modifies this, store
      ensures Valid()
      ensures (Abs(), r) == CreateSpec(old(Abs()), parent, name, mode, isDir, flag)
    {
      ghost var s := Abs();
      var n := info.inodesCount;
      var k := parent.content.childrenCount;
      if n as nat >= MAX_FILESYSTEM_OBJECTS_SUPPORTED || k as nat >= DIR_SLOTS {
        return Err(NoSpace);
      }
      if |name| >= FILENAME_MAXLEN {
        return Err(NameTooLong);
      }
      var at := SearchInodeInfo(parent);
      if at.None? {
        return Err(NotFound);
      }
      var block := GetAFreeBlock();
      if block.Err? {
        return Err(NoSpace);
      }
      assert CreateError(s, parent, name).None?;
      CreateUnfold(s, parent, name, mode, isDir, flag);
      var rec := NewRecord(n + 1, block.value, mode, isDir, flag);
      FinishCreate(parent, name, rec, at.value);
      r := Ok(Created(n + 1, parent.(content := Dir(k + 1))));
    }

    /**
     * The writes of a creation that passed its checks: the record appended at
     * slot inodes_count (assoofs_add_inode_info), the entry written at slot
     * dir_children_count of the parent's block, and the parent's record,
     * with one more child, saved over its slot (assoofs_save_inode_info).
     */
    method FinishCreate(parent: InodeInfo, name: Name, rec: InodeInfo, slot: nat)
      requires Valid() && info.inodesCount as nat < MAX_FILESYSTEM_OBJECTS_SUPPORTED
      requires parent.content.Dir? && parent.dataBlockNumber in dirBlocks
      requires parent.content.childrenCount as nat < DIR_SLOTS
      requires FindSlot(store[..], info.inodesCount as nat, parent.inodeNo) == Some(slot)
      modifies this, store
      ensures Valid()
      ensures info == old(info).(inodesCount := old(info.inodesCount) + 1)
      ensures store[..] == old(store[..])[old(info.inodesCount) := rec][slot := parent.(content := Dir(parent.content.childrenCount + 1))]
      ensures dirBlocks == old(dirBlocks)[parent.dataBlockNumber as nat :=
        WriteEntry(old(dirBlocks)[parent.dataBlockNumber], parent.content.childrenCount as nat, name, old(info.inodesCount) + 1)]
    {
      ghost var before := store[..];
      var n := info.inodesCount;
      var k := parent.content.childrenCount;
      AddInodeInfo(rec);
      WriteDirEntry(parent.dataBlockNumber as nat, k as nat, name, n + 1);
      FindAfterAppend(before, n as nat, rec, parent.inodeNo);
      var saved := SaveInodeInfo(parent.(content := Dir(k + 1)));
    }

    /**
     * The directory step of create and mkdir: slot k of block pdb receives
     * the name and the inode number, and the block is written back.
     */
    method WriteDirEntry(pdb: nat, k: nat, name: Name, ino: u64)
      requires Valid() && pdb in dirBlocks && k < DIR_SLOTS
      modifies this`dirBlocks
      ensures Valid()
      ensures dirBlocks == old(dirBlocks)[pdb := WriteEntry(old(dirBlocks)[pdb], k, name, ino)]
    {
      dirBlocks := dirBlocks[pdb := WriteEntry(dirBlocks[pdb], k, name, ino)];
    }
  }
}
