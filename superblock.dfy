/**
 * The superblock check done when a volume is mounted.
 */
module Superblock {
  import opened Layout

  /**
   * assoofs_fill_super's test of block 0: the volume mounts, with the
   * record read from block 0 as its in-memory superblock, exactly when the
   * magic number and the block size are the expected ones.
   */
  function FillSuper(block0: SuperBlockInfo): (r: Result<SuperBlockInfo>)
    ensures r.Ok? <==> block0.magic == MAGIC && block0.blockSize == DEFAULT_BLOCK_SIZE
    ensures r.Ok? ==> r.value == block0
    ensures r.Err? ==> r.error == InvalidSuperblock
  {
    if block0.magic != MAGIC || block0.blockSize != DEFAULT_BLOCK_SIZE then Err(InvalidSuperblock)
    else Ok(block0)
  }

  /**
   * Allocation and inode creation change only the counter and the bitmap,
   * so a superblock that mounted still mounts once they are written back.
   */
  lemma MountableAfterUpdate(sb: SuperBlockInfo, count: u64, free: bv64)
    requires FillSuper(sb).Ok?
    ensures FillSuper(sb.(inodesCount := count, freeBlocks := free)).Ok?
  {
  }

  /** The version field plays no part in the check. */
  lemma VersionIgnored(sb: SuperBlockInfo, v: u64)
    ensures FillSuper(sb.(version := v)).Ok? == FillSuper(sb).Ok?
  {
  }
}
