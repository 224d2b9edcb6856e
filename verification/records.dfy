/** The on-disk record types of the header: the superblock, a directory
    entry, a data block and the packed inode, with the values their
    constructors establish. */
module Records {
  import opened CTypes
  import opened Layout

  /** Volume control block, kept at block 0. */
  datatype SuperBlock = SuperBlock(magicNumber: int32, totalBlocks: int32, rootInode: int32)

  /** `SuperBlock s = {}`: value-initialisation zeroes every field. */
  function ZeroSuperBlock(): (sb: SuperBlock)
    ensures sb.magicNumber == 0 && sb.totalBlocks == 0 && sb.rootInode == 0
  {
    SuperBlock(0, 0, 0)
  }

  // ---------------------------------------------------------------------
  // Directory entries

  /** A fixed-width name buffer and the inode it names (-1: free slot). */
  datatype DirEntry = DirEntry(name: seq<byte>, inode: int32)

  /** The name a reader of the entry sees: its bytes up to the first NUL. */
  function EntryName(e: DirEntry): seq<byte> {
    e.name[..CStrLen(e.name)]
  }

  /** The name buffer holds a NUL, so a reader stops inside it. */
  predicate Terminated(e: DirEntry) {
    CStrLen(e.name) < |e.name|
  }

  /** `dirEntry()`: the name zeroed, the slot free. */
  function DefaultDirEntry(): (e: DirEntry)
    ensures |e.name| == MAX_FILE_NAME
    ensures forall k :: 0 <= k < MAX_FILE_NAME ==> e.name[k] == 0
    ensures e.inode == -1
    ensures Terminated(e) && EntryName(e) == []
  {
    DirEntry(Memset(MAX_FILE_NAME, 0), -1)
  }

  /** `dirEntry(name, inode)` as written: strncpy of at most
      MAX_FILE_NAME - 1 characters into the name buffer. The buffer is not
      cleared first, so its last byte keeps whatever `storage` held. */
  function NamedDirEntry(src: seq<byte>, inode: int32, storage: seq<byte>): (e: DirEntry)
    requires |storage| == MAX_FILE_NAME
    ensures |e.name| == MAX_FILE_NAME
    ensures forall k :: 0 <= k < MAX_FILE_NAME - 1 ==>
              e.name[k] == if k < CStrLen(src) then src[k] else 0
    ensures e.name[MAX_FILE_NAME - 1] == storage[MAX_FILE_NAME - 1]
    ensures e.inode == inode
  {
    DirEntry(Strncpy(storage, src, MAX_FILE_NAME - 1), inode)
  }

  /** A name shorter than MAX_FILE_NAME - 1 characters is stored whole and
      terminated, whatever the buffer held before. */
  lemma NamedDirEntryShortName(src: seq<byte>, inode: int32, storage: seq<byte>)
    requires |storage| == MAX_FILE_NAME
    requires CStrLen(src) < MAX_FILE_NAME - 1
    ensures Terminated(NamedDirEntry(src, inode, storage))
    ensures EntryName(NamedDirEntry(src, inode, storage)) == src[..CStrLen(src)]
  {
    var e := NamedDirEntry(src, inode, storage);
    CStrLenUnique(e.name, CStrLen(src));
  }

  /** A name of MAX_FILE_NAME - 1 or more characters fills bytes 0..10 with
      non-NUL characters; when the untouched byte 11 was not zero, the
      stored name has no terminator at all. */
  lemma NamedDirEntryUnterminated(src: seq<byte>, inode: int32, storage: seq<byte>)
    requires |storage| == MAX_FILE_NAME
    requires CStrLen(src) >= MAX_FILE_NAME - 1
    requires storage[MAX_FILE_NAME - 1] != 0
    ensures !Terminated(NamedDirEntry(src, inode, storage))
    ensures forall k :: 0 <= k < MAX_FILE_NAME ==> NamedDirEntry(src, inode, storage).name[k] != 0
  {
    var e := NamedDirEntry(src, inode, storage);
    CStrLenUnique(e.name, MAX_FILE_NAME);
  }

  /** The corrected constructor: strncpy as before, then byte
      MAX_FILE_NAME - 1 set to NUL, so every stored name is terminated and
      reads back as the first (at most) eleven characters of the source. */
  function TerminatedDirEntry(src: seq<byte>, inode: int32): (e: DirEntry)
    ensures |e.name| == MAX_FILE_NAME
    ensures e.inode == inode
    ensures Terminated(e)
    ensures CStrLen(src) < MAX_FILE_NAME ==> EntryName(e) == src[..CStrLen(src)]
    ensures CStrLen(src) >= MAX_FILE_NAME - 1 ==> EntryName(e) == src[..MAX_FILE_NAME - 1]
  {
    var e := NamedDirEntry(src, inode, Memset(MAX_FILE_NAME, 0));
    var r := e.(name := e.name[MAX_FILE_NAME - 1 := 0]);
    var m := if CStrLen(src) < MAX_FILE_NAME - 1 then CStrLen(src) else MAX_FILE_NAME - 1;
    CStrLenUnique(r.name, m);
    r
  }

  // ---------------------------------------------------------------------
  // Data blocks

  /** The raw content of one block. */
  datatype DataBlock = DataBlock(data: seq<byte>)

  /** `DataBlock()`: BLOCK_SIZE zero bytes. */
  function DefaultDataBlock(): (d: DataBlock)
    ensures |d.data| == BLOCK_SIZE
    ensures forall k :: 0 <= k < BLOCK_SIZE ==> d.data[k] == 0
  {
    DataBlock(Memset(BLOCK_SIZE, 0))
  }

  // ---------------------------------------------------------------------
  // Inodes

  const FILE_TYPE: int32 := 0
  const DIRECTORY_TYPE: int32 := 1
  const PERMISSION_BYTES: nat := 4

  /** File control block. */
  datatype Inode = Inode(
    id: int32,
    fileType: int32,
    fileSize: int32,
    permissions: seq<byte>,
    directPointers: seq<int32>,
    indirectPointer: int32,
    doubleIndirectPointer: int32,
    isFree: bool)

  /** The arrays have the widths the struct declares. */
  predicate WellFormed(n: Inode) {
    |n.permissions| == PERMISSION_BYTES && |n.directPointers| == DIRECT_POINTERS
  }

  /** `Inode()`. The direct pointers are set by memset with -1, which
      fills every byte with 0xFF; each pointer then reads as -1. */
  function DefaultInode(): (n: Inode)
    ensures WellFormed(n)
    ensures n.id == -1 && n.fileType == FILE_TYPE && n.fileSize == 0
    ensures forall k :: 0 <= k < PERMISSION_BYTES ==> n.permissions[k] == 0
    ensures forall k :: 0 <= k < DIRECT_POINTERS ==> n.directPointers[k] == -1
    ensures n.indirectPointer == -1 && n.doubleIndirectPointer == -1
    ensures n.isFree
  {
    DecodeAllOnes(DIRECT_POINTERS);
    Inode(-1, 0, 0, Memset(PERMISSION_BYTES, 0), DecodeInt32s(Memset(INT_SIZE * DIRECT_POINTERS, -1)), -1, -1, true)
  }

  // Byte offsets of the fields in the packed (`#pragma pack(1)`) record:
  // three ints, the permission bytes, fourteen pointer ints, the bool.
  const PERMISSIONS_AT: nat := 3 * INT_SIZE
  const POINTERS_AT: nat := PERMISSIONS_AT + PERMISSION_BYTES
  const IS_FREE_AT: nat := POINTERS_AT + (DIRECT_POINTERS + 2) * INT_SIZE
  /** sizeof(Inode): no padding, a one-byte bool at the end. */
  const INODE_RECORD_SIZE: nat := IS_FREE_AT + 1

  /** The pointer fields in declaration order: the direct pointers, then
      the indirect and double-indirect pointers. */
  function Pointers(n: Inode): seq<int32> {
    n.directPointers + [n.indirectPointer, n.doubleIndirectPointer]
  }

  /** `bs` holds the fields of `n` at their offsets in the packed record:
      id, fileType and fileSize at bytes 0, 4 and 8, the permissions at
      12..16, direct pointer k at 16 + 4k, the indirect and
      double-indirect pointers at 64 and 68, and the bool at 72. */
  predicate PackedFields(bs: seq<byte>, n: Inode)
    requires |bs| == INODE_RECORD_SIZE && WellFormed(n)
  {
    && IntAt(bs, 0) == n.id
    && IntAt(bs, INT_SIZE) == n.fileType
    && IntAt(bs, 2 * INT_SIZE) == n.fileSize
    && bs[PERMISSIONS_AT..POINTERS_AT] == n.permissions
    && (forall k :: 0 <= k < DIRECT_POINTERS ==> IntAt(bs, POINTERS_AT + INT_SIZE * k) == n.directPointers[k])
    && IntAt(bs, POINTERS_AT + INT_SIZE * DIRECT_POINTERS) == n.indirectPointer
    && IntAt(bs, POINTERS_AT + INT_SIZE * (DIRECT_POINTERS + 1)) == n.doubleIndirectPointer
    && (bs[IS_FREE_AT] != 0 <==> n.isFree)
  }

  /** The packed in-memory representation of an inode: every field at its
      declared offset, with no padding, 73 bytes in all, so one record
      fits the one-block slot the inode table gives it. */
  function EncodeInode(n: Inode): (bs: seq<byte>)
    requires WellFormed(n)
    ensures PERMISSIONS_AT == 12 && POINTERS_AT == 16 && IS_FREE_AT == 72
    ensures |bs| == INODE_RECORD_SIZE == 73
    ensures INODE_RECORD_SIZE <= BLOCK_SIZE
    ensures PackedFields(bs, n)
    ensures bs[IS_FREE_AT] == if n.isFree then 1 else 0
  {
    var ints := [n.id, n.fileType, n.fileSize];
    var bs := EncodeInt32s(ints) + n.permissions + EncodeInt32s(Pointers(n)) + [if n.isFree then 1 else 0];
    assert bs[..PERMISSIONS_AT] == EncodeInt32s(ints);
    assert bs[POINTERS_AT..IS_FREE_AT] == EncodeInt32s(Pointers(n));
    DecodeEncodeInt32s(ints);
    DecodeEncodeInt32s(Pointers(n));
    DecodedIntAt(bs, 0, 3, 0);
    DecodedIntAt(bs, 0, 3, 1);
    DecodedIntAt(bs, 0, 3, 2);
    DecodedIntsAt(bs, POINTERS_AT, DIRECT_POINTERS + 2);
    bs
  }

  /** The inode a packed record represents: every field read from its
      declared offset; any non-zero flag byte reads as true. */
  function DecodeInode(bs: seq<byte>): (n: Inode)
    requires |bs| == INODE_RECORD_SIZE
    ensures WellFormed(n)
    ensures PackedFields(bs, n)
  {
    var ints := DecodeInt32s(bs[0..PERMISSIONS_AT]);
    var pointers := DecodeInt32s(bs[POINTERS_AT..IS_FREE_AT]);
    DecodedIntAt(bs, 0, 3, 0);
    DecodedIntAt(bs, 0, 3, 1);
    DecodedIntAt(bs, 0, 3, 2);
    DecodedIntsAt(bs, POINTERS_AT, DIRECT_POINTERS + 2);
    Inode(ints[0], ints[1], ints[2], bs[PERMISSIONS_AT..POINTERS_AT],
          pointers[..DIRECT_POINTERS], pointers[DIRECT_POINTERS], pointers[DIRECT_POINTERS + 1],
          bs[IS_FREE_AT] != 0)
  }

  /** Reading back a stored inode gives the same inode. */
  lemma {:induction false} DecodeEncodeInode(n: Inode)
    requires WellFormed(n)
    ensures DecodeInode(EncodeInode(n)) == n
  {
    var bs := EncodeInode(n);
    var ints := [n.id, n.fileType, n.fileSize];
    assert bs[..PERMISSIONS_AT] == EncodeInt32s(ints);
    assert bs[PERMISSIONS_AT..POINTERS_AT] == n.permissions;
    assert bs[POINTERS_AT..IS_FREE_AT] == EncodeInt32s(Pointers(n));
    DecodeEncodeInt32s(ints);
    DecodeEncodeInt32s(Pointers(n));
    assert Pointers(n)[..DIRECT_POINTERS] == n.directPointers;
  }

  /** Every record whose flag byte is a valid bool (0 or 1) is the
      representation of the inode it decodes to. */
  lemma {:induction false} EncodeDecodeInode(bs: seq<byte>)
    requires |bs| == INODE_RECORD_SIZE
    requires bs[IS_FREE_AT] == 0 || bs[IS_FREE_AT] == 1
    ensures EncodeInode(DecodeInode(bs)) == bs
  {
    var intBytes, permissions, pointerBytes :=
      bs[..PERMISSIONS_AT], bs[PERMISSIONS_AT..POINTERS_AT], bs[POINTERS_AT..IS_FREE_AT];
    var n := DecodeInode(bs);
    assert EncodeInt32s([n.id, n.fileType, n.fileSize]) == intBytes by {
      assert [n.id, n.fileType, n.fileSize] == DecodeInt32s(intBytes);
      EncodeDecodeInt32s(intBytes);
    }
    assert EncodeInt32s(Pointers(n)) == pointerBytes by {
      assert Pointers(n) == DecodeInt32s(pointerBytes);
      EncodeDecodeInt32s(pointerBytes);
    }
    assert bs == intBytes + permissions + pointerBytes + [bs[IS_FREE_AT]];
  }

  /** An inode whose pointers are all -1 is stored with every byte of its
      pointer fields 0xFF. */
  lemma UnsetPointersRecord(n: Inode)
    requires WellFormed(n)
    requires forall k :: 0 <= k < DIRECT_POINTERS ==> n.directPointers[k] == -1
    requires n.indirectPointer == -1 && n.doubleIndirectPointer == -1
    ensures EncodeInode(n)[POINTERS_AT..IS_FREE_AT] == Memset(IS_FREE_AT - POINTERS_AT, -1)
  {
    assert Pointers(n) == seq(DIRECT_POINTERS + 2, _ => -1);
    EncodeAllOnes(DIRECT_POINTERS + 2);
  }

  /** The stored default inode: every byte of its pointer fields is
      0xFF, the pattern memset(-1) leaves. */
  lemma DefaultInodeRecord()
    ensures EncodeInode(DefaultInode())[POINTERS_AT..IS_FREE_AT] == Memset(IS_FREE_AT - POINTERS_AT, -1)
  {
    UnsetPointersRecord(DefaultInode());
  }
}
