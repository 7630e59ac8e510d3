/**
 * On-disk layout of an assoofs volume: the constants of assoofs.h and the
 * three persistent records (superblock, inode record, directory entry),
 * together with the small result types the operations return.
 */
module Layout {

  /** A C `uint64_t`. */
  type u64 = x: int | 0 <= x < 0x1_0000_0000_0000_0000

  const MAGIC: u64 := 0x20200406
  const DEFAULT_BLOCK_SIZE: u64 := 4096
  const FILENAME_MAXLEN: nat := 255

  const SUPERBLOCK_BLOCK_NUMBER: nat := 0
  const INODESTORE_BLOCK_NUMBER: nat := 1
  const ROOTDIR_BLOCK_NUMBER: nat := 2
  const ROOTDIR_INODE_NUMBER: u64 := 1
  const LAST_RESERVED_BLOCK: nat := ROOTDIR_BLOCK_NUMBER
  const LAST_RESERVED_INODE: u64 := ROOTDIR_INODE_NUMBER
  const MAX_FILESYSTEM_OBJECTS_SUPPORTED: nat := 64

  const FLAG_FREE: u64 := 0
  const FLAG_USED: u64 := 1

  /** Width of the superblock's free-block bitmap: one uint64_t, one bit per block. */
  const BITMAP_BITS: nat := 64

  /** File-type bits of a mode word, as the kernel's stat.h defines them. */
  const S_IFMT: bv32 := 0xF000
  const S_IFDIR: bv32 := 0x4000

  /** Bytes of the superblock record: five uint64_t fields and the padding array. */
  const SUPERBLOCK_PADDING: nat := 4056
  const SUPERBLOCK_RECORD_SIZE: nat := 5 * 8 + SUPERBLOCK_PADDING

  /** sizeof(struct assoofs_inode_info): a 4-byte mode_t, 4 alignment bytes, four uint64_t. */
  const INODE_RECORD_SIZE: nat := 4 + 4 + 4 * 8
  /** sizeof(struct assoofs_dir_record_entry): the 255-byte name, 1 alignment byte, two uint64_t. */
  const DIR_RECORD_SIZE: nat := FILENAME_MAXLEN + 1 + 2 * 8

  /** How many records of each kind one block holds. */
  const INODE_SLOTS: nat := DEFAULT_BLOCK_SIZE as nat / INODE_RECORD_SIZE
  const DIR_SLOTS: nat := DEFAULT_BLOCK_SIZE as nat / DIR_RECORD_SIZE

  /** struct assoofs_super_block_info, without its padding. */
  datatype SuperBlockInfo = SuperBlockInfo(
    version: u64,
    magic: u64,
    blockSize: u64,
    inodesCount: u64,
    freeBlocks: bv64)

  /** The union of file_size and dir_children_count, tagged by the kind of object. */
  datatype Content = File(size: u64) | Dir(childrenCount: u64)

  /** struct assoofs_inode_info, with the union decoded. */
  datatype InodeInfo = InodeInfo(
    mode: bv32,
    inodeNo: u64,
    dataBlockNumber: u64,
    content: Content,
    stateFlag: u64)

  /** struct assoofs_inode_info as it sits in the block: one slot for the union. */
  datatype RawInodeInfo = RawInodeInfo(
    mode: bv32,
    inodeNo: u64,
    dataBlockNumber: u64,
    sizeOrCount: u64,
    stateFlag: u64)

  /**
   * A file name as C sees it: the bytes before its terminating NUL. Lengths
   * are counted in bytes, as strcpy and the char array of the entry count them.
   */
  type Name = seq<bv8>

  /** struct assoofs_dir_record_entry; the filename is the bytes up to its NUL. */
  datatype DirRecordEntry = DirRecordEntry(filename: Name, inodeNo: u64, stateFlag: u64)

  datatype Option<T> = None | Some(value: T)

  datatype Error = InvalidSuperblock | NoSpace | NotFound | NameTooLong

  datatype Result<T> = Ok(value: T) | Err(error: Error)

  predicate IsDirMode(mode: bv32) {
    mode & S_IFMT == S_IFDIR
  }

  /** A record whose union tag agrees with the type bits of its mode. */
  predicate WellKinded(r: InodeInfo) {
    r.content.Dir? <==> IsDirMode(r.mode)
  }

  function Encode(r: InodeInfo): RawInodeInfo {
    var slot := match r.content
      case File(size) => size
      case Dir(count) => count;
    RawInodeInfo(r.mode, r.inodeNo, r.dataBlockNumber, slot, r.stateFlag)
  }

  /** Reads the union the way the kernel side does: by S_ISDIR of the mode. */
  function Decode(raw: RawInodeInfo): InodeInfo {
    var content := if IsDirMode(raw.mode) then Dir(raw.sizeOrCount) else File(raw.sizeOrCount);
    InodeInfo(raw.mode, raw.inodeNo, raw.dataBlockNumber, content, raw.stateFlag)
  }

  /** Block 1 read slot by slot: every record decoded by the S_ISDIR bits of its mode. */
  function DecodeStore(raw: seq<RawInodeInfo>): (r: seq<InodeInfo>)
    ensures |r| == |raw|
    ensures forall i | 0 <= i < |r| :: WellKinded(r[i]) && Encode(r[i]) == raw[i]
  {
    if raw == [] then []
    else
      EncodeDecode(raw[0]);
      [Decode(raw[0])] + DecodeStore(raw[1..])
  }

  /** Every decoded record is well kinded, and decoding loses nothing of the raw slot. */
  lemma EncodeDecode(raw: RawInodeInfo)
    ensures WellKinded(Decode(raw))
    ensures Encode(Decode(raw)) == raw
  {
  }

  /** A well-kinded record survives the trip through the shared slot. */
  lemma DecodeEncode(r: InodeInfo)
    requires WellKinded(r)
    ensures Decode(Encode(r)) == r
  {
  }

  /** A record whose kind disagrees with its mode is read back as the other kind. */
  lemma DecodeEncodeIllKinded(r: InodeInfo)
    requires !WellKinded(r)
    ensures Decode(Encode(r)) != r
    ensures Decode(Encode(r)).content.Dir? != r.content.Dir?
  {
  }

  /** The directory created by mkdir is well kinded whatever permission bits it is given. */
  lemma DirModeIsDir(mode: bv32)
    requires mode & S_IFMT == 0
    ensures IsDirMode(S_IFDIR | mode)
  {
  }

  /** Fixed facts of the layout. */
  lemma LayoutFacts()
    ensures SUPERBLOCK_RECORD_SIZE == DEFAULT_BLOCK_SIZE as nat
    ensures INODE_SLOTS == 102 && DIR_SLOTS == 15
    ensures MAX_FILESYSTEM_OBJECTS_SUPPORTED <= INODE_SLOTS
    ensures MAX_FILESYSTEM_OBJECTS_SUPPORTED == BITMAP_BITS
    ensures SUPERBLOCK_BLOCK_NUMBER < INODESTORE_BLOCK_NUMBER < ROOTDIR_BLOCK_NUMBER == LAST_RESERVED_BLOCK
    ensures LAST_RESERVED_INODE == ROOTDIR_INODE_NUMBER == 1
    ensures FLAG_FREE != FLAG_USED
  {
  }
}
