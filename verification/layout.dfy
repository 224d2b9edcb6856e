/** The block layout of the disk image, as the header's macros fix it:
    the superblock in block 0, the inode bitmap in block 1, one inode-table
    block per inode from block 2, and the data area after the table. */
module Layout {
  import opened CTypes

  const SUPERBLOCK_BLOCK: nat := 0
  const INODE_BITMAP_BLOCK: nat := 1
  const INODE_TABLE_START: nat := 2
  const BLOCK_SIZE: nat := 256
  const MAX_BLOCKS: nat := 8192
  const TOTAL_INODES: nat := 512
  /** The header's formula subtracts the superblock and the inode table,
      but not the inode-bitmap block. */
  const MAX_DATA_BLOCKS: int := MAX_BLOCKS - 1 - TOTAL_INODES
  const DISK_SIZE: nat := BLOCK_SIZE * MAX_BLOCKS
  const DIRECT_POINTERS: nat := 12
  const MAX_FILE_NAME: nat := 12
  const POINTERS_PER_INDEX_BLOCK: nat := BLOCK_SIZE / INT_SIZE
  const DATA_BLOCK_START: nat := INODE_TABLE_START + TOTAL_INODES

  /** The number of blocks that actually lie after DATA_BLOCK_START. */
  const DATA_AREA_BLOCKS: nat := MAX_BLOCKS - DATA_BLOCK_START

  /** The values the macros expand to, with a 4-byte `int`. */
  lemma MacroValues()
    ensures DISK_SIZE == 2097152
    ensures DATA_BLOCK_START == 514
    ensures MAX_DATA_BLOCKS == 7679
    ensures DATA_AREA_BLOCKS == 7678
    ensures POINTERS_PER_INDEX_BLOCK == 64
  {
  }

  /** What a block of the image is for. */
  datatype Region =
    | SuperBlockRegion
    | InodeBitmapRegion
    | InodeTableSlot(inode: nat)
    | DataSlot(index: nat)

  ghost predicate ValidRegion(r: Region) {
    match r
    case InodeTableSlot(i) => i < TOTAL_INODES
    case DataSlot(k) => k < DATA_AREA_BLOCKS
    case _ => true
  }

  /** The block a region occupies. */
  function BlockOf(r: Region): (b: nat)
    requires ValidRegion(r)
    ensures b < MAX_BLOCKS
  {
    match r
    case SuperBlockRegion => SUPERBLOCK_BLOCK
    case InodeBitmapRegion => INODE_BITMAP_BLOCK
    case InodeTableSlot(i) => INODE_TABLE_START + i
    case DataSlot(k) => DATA_BLOCK_START + k
  }

  /** The region a block of the image belongs to. */
  function RegionOf(b: nat): (r: Region)
    requires b < MAX_BLOCKS
    ensures ValidRegion(r)
  {
    if b == SUPERBLOCK_BLOCK then SuperBlockRegion
    else if b == INODE_BITMAP_BLOCK then InodeBitmapRegion
    else if b < DATA_BLOCK_START then InodeTableSlot(b - INODE_TABLE_START)
    else DataSlot(b - DATA_BLOCK_START)
  }

  /** The regions tile the image: every block belongs to exactly one
      region, and every region occupies exactly one block, so no two
      regions overlap. */
  lemma RegionsPartitionImage(b: nat, r: Region)
    requires b < MAX_BLOCKS
    requires ValidRegion(r)
    ensures BlockOf(RegionOf(b)) == b
    ensures RegionOf(BlockOf(r)) == r
    ensures BlockOf(r) == b <==> RegionOf(b) == r
  {
  }

  /** The set of block numbers lo..hi-1. */
  function Range(lo: nat, hi: nat): (s: set<nat>)
    ensures forall b :: b in s <==> lo <= b < hi
    decreases hi - lo
  {
    if hi <= lo then {} else {lo} + Range(lo + 1, hi)
  }

  lemma {:induction false} RangeSize(lo: nat, hi: nat)
    requires lo <= hi
    ensures |Range(lo, hi)| == hi - lo
    decreases hi - lo
  {
    if lo < hi {
      RangeSize(lo + 1, hi);
      assert lo !in Range(lo + 1, hi);
    }
  }

  /** The blocks of the image that belong to the data area. */
  function DataArea(): (s: set<nat>)
    ensures forall b: nat :: b in s <==> b < MAX_BLOCKS && RegionOf(b).DataSlot?
  {
    set b: nat | b < MAX_BLOCKS && RegionOf(b).DataSlot?
  }

  /** The blocks of the image that belong to the inode table. */
  function InodeTable(): (s: set<nat>)
    ensures forall b: nat :: b in s <==> b < MAX_BLOCKS && RegionOf(b).InodeTableSlot?
  {
    set b: nat | b < MAX_BLOCKS && RegionOf(b).InodeTableSlot?
  }

  /** The inode table is blocks 2..513, one per inode; the data area is
      the 7678 blocks from DATA_BLOCK_START to the end of the image, one
      fewer than MAX_DATA_BLOCKS. */
  lemma RegionSizes()
    ensures InodeTable() == Range(INODE_TABLE_START, DATA_BLOCK_START)
    ensures |InodeTable()| == TOTAL_INODES
    ensures DataArea() == Range(DATA_BLOCK_START, MAX_BLOCKS)
    ensures |DataArea()| == DATA_AREA_BLOCKS == MAX_DATA_BLOCKS - 1
  {
    assert InodeTable() == Range(INODE_TABLE_START, DATA_BLOCK_START);
    RangeSize(INODE_TABLE_START, DATA_BLOCK_START);
    assert DataArea() == Range(DATA_BLOCK_START, MAX_BLOCKS);
    RangeSize(DATA_BLOCK_START, MAX_BLOCKS);
  }

  /** As written, MAX_DATA_BLOCKS admits one data index too many: the
      last index below it names block MAX_BLOCKS, which is past the end of
      the image. */
  lemma MaxDataBlocksOverrunsDisk()
    ensures MAX_DATA_BLOCKS - 1 >= DATA_AREA_BLOCKS
    ensures DATA_BLOCK_START + (MAX_DATA_BLOCKS - 1) == MAX_BLOCKS
  {
  }

  /** The corrected bound: a data index below DATA_AREA_BLOCKS always
      names a block of the data area inside the image. */
  function DataBlockAddress(k: nat): (b: nat)
    requires k < DATA_AREA_BLOCKS
    ensures DATA_BLOCK_START <= b < MAX_BLOCKS
    ensures RegionOf(b) == DataSlot(k)
  {
    DATA_BLOCK_START + k
  }

  /** Blocks one inode can address: its direct pointers, one index block
      of pointers, and an index block of index blocks. */
  const MAX_FILE_BLOCKS: nat :=
    DIRECT_POINTERS + POINTERS_PER_INDEX_BLOCK + POINTERS_PER_INDEX_BLOCK * POINTERS_PER_INDEX_BLOCK

  /** The addressing tiers give 12 + 64 + 64*64 blocks per inode; the
      largest such file in bytes still fits the signed 32-bit size field,
      and every block number of the image fits a 32-bit block pointer. */
  lemma AddressingCapacity()
    ensures MAX_FILE_BLOCKS == 4172
    ensures MAX_FILE_BLOCKS * BLOCK_SIZE == 1068032 < 0x8000_0000
    ensures MAX_BLOCKS <= 0x8000_0000
  {
  }

  /** Bytes needed to store one bit per inode. */
  const INODE_BITMAP_BYTES: nat := (TOTAL_INODES + 7) / 8

  /** The 512-bit inode bitmap takes 64 bytes, which fit its single block. */
  lemma InodeBitmapFitsBlock()
    ensures INODE_BITMAP_BYTES == 64
    ensures INODE_BITMAP_BYTES * 8 >= TOTAL_INODES
    ensures INODE_BITMAP_BYTES <= BLOCK_SIZE
  {
  }
}
