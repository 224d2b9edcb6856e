/** The FileSystem object: its in-memory state, the constructor's two
    branches (open an existing image, or create and format a new one),
    setMetaData, the first-fit inode allocation of createFile, the
    operations whose bodies are empty, and the destructor.

    Stream operations are abstracted: whether opening the existing image
    succeeds and whether creating a new one succeeds are parameters, and
    the image the constructor writes is returned as a value. */
module Fs {
  import opened Wrappers
  import opened CTypes
  import opened Layout
  import opened Records

  /** The literal setMetaData assigns to the magic number. It exceeds
      INT_MAX, so the literal is an unsigned int. */
  const MAGIC_LITERAL: nat := 0xACBD0005

  /** What the signed `int` field magicNumber holds after the
      assignment: the literal reduced modulo 2^32. */
  const MAGIC_NUMBER: int32 := ToInt32(MAGIC_LITERAL)

  /** The stored magic number is negative as an `int`, but its bit
      pattern is still 0xACBD0005. */
  lemma StoredMagic()
    ensures MAGIC_NUMBER == -1396899835
    ensures Bits(MAGIC_NUMBER) == 0xACBD0005
  {
  }

  /** A block of the disk image: raw bytes, or the superblock record
      written over the start of block 0. */
  datatype StoredBlock = Blank(block: DataBlock) | SuperBlockRecord(sb: SuperBlock)

  type Image = seq<StoredBlock>

  /** The members of a FileSystem object that the shown code reads or
      writes. `superBlock` is None while the member has never been
      assigned (its value is then indeterminate). */
  datatype FileSystem = FileSystem(
    diskName: string,
    diskOpen: bool,
    superBlock: Option<SuperBlock>,
    inodeBitmap: seq<bool>,
    blockBitmap: seq<bool>)

  /** A FileSystem object together with the image its constructor wrote
      to the disk file (None when it wrote nothing). */
  datatype Session = Session(fs: FileSystem, image: Option<Image>)

  /** The image initializeDisk writes before setMetaData: MAX_BLOCKS
      zeroed blocks, DISK_SIZE bytes in all. */
  function BlankImage(): (img: Image)
    ensures |img| == MAX_BLOCKS && |img| * BLOCK_SIZE == DISK_SIZE
    ensures forall b :: 0 <= b < |img| ==> img[b] == Blank(DefaultDataBlock())
  {
    seq(MAX_BLOCKS, _ => Blank(DefaultDataBlock()))
  }

  /** saveMetaData: reopen the disk file and write the superblock at
      offset 0. */
  function SaveMetaData(fs: FileSystem, img: Image): (s: Session)
    requires fs.superBlock.Some?
    requires |img| > 0
    ensures s.fs == fs.(diskOpen := true)
    ensures s.image.Some? && |s.image.value| == |img|
    ensures s.image.value[SUPERBLOCK_BLOCK] == SuperBlockRecord(fs.superBlock.value)
    ensures forall b :: SUPERBLOCK_BLOCK < b < |img| ==> s.image.value[b] == img[b]
  {
    Session(fs.(diskOpen := true), Some(img[SUPERBLOCK_BLOCK := SuperBlockRecord(fs.superBlock.value)]))
  }

  /** setMetaData, applied to the image just written. */
  function SetMetaData(fs: FileSystem, img: Image): (s: Session)
    requires |img| > 0
    ensures s.fs.superBlock == Some(SuperBlock(MAGIC_NUMBER, MAX_BLOCKS, 0))
    ensures |s.fs.blockBitmap| == MAX_BLOCKS
    ensures forall b :: 0 <= b < MAX_BLOCKS ==> !s.fs.blockBitmap[b]
    ensures |s.fs.inodeBitmap| == TOTAL_INODES
    ensures forall i :: 0 <= i < TOTAL_INODES ==> !s.fs.inodeBitmap[i]
    ensures s.fs.diskOpen && s.fs.diskName == fs.diskName
    ensures s.image.Some? && |s.image.value| == |img|
    ensures s.image.value[SUPERBLOCK_BLOCK] == SuperBlockRecord(s.fs.superBlock.value)
    ensures forall b :: SUPERBLOCK_BLOCK < b < |img| ==> s.image.value[b] == img[b]
  {
    var sb := ZeroSuperBlock().(magicNumber := MAGIC_NUMBER, totalBlocks := MAX_BLOCKS, rootInode := 0);
    var fs' := fs.(superBlock := Some(sb),
                   blockBitmap := seq(MAX_BLOCKS, _ => false),
                   inodeBitmap := seq(TOTAL_INODES, _ => false));
    SaveMetaData(fs', img)
  }

  /** initializeDisk: when the new image can be created, write it blank
      and run setMetaData; either way close the disk handle at the end. */
  function InitializeDisk(fs: FileSystem, imageCreated: bool): (s: Session)
    ensures !s.fs.diskOpen && s.fs.diskName == fs.diskName
    ensures !imageCreated ==> s == Session(fs.(diskOpen := false), None)
    ensures imageCreated ==>
              && s.image.Some? && |s.image.value| == MAX_BLOCKS
              && s.image.value[SUPERBLOCK_BLOCK] == SuperBlockRecord(SuperBlock(MAGIC_NUMBER, MAX_BLOCKS, 0))
              && (forall b :: SUPERBLOCK_BLOCK < b < MAX_BLOCKS ==> s.image.value[b] == Blank(DefaultDataBlock()))
              && s.fs.superBlock == Some(SuperBlock(MAGIC_NUMBER, MAX_BLOCKS, 0))
              && s.fs.blockBitmap == seq(MAX_BLOCKS, _ => false)
              && s.fs.inodeBitmap == seq(TOTAL_INODES, _ => false)
  {
    if !imageCreated then Session(fs.(diskOpen := false), None)
    else
      var s := SetMetaData(fs, BlankImage());
      Session(s.fs.(diskOpen := false), s.image)
  }

  /** The constructor: `imageOpens` says whether opening the image for
      reading and writing succeeded; only when it did not is a new image
      made, and `imageCreated` says whether making it succeeded. */
  function Construct(diskName: string, imageOpens: bool, imageCreated: bool): (s: Session)
    ensures s.fs.diskName == diskName
    ensures s.fs.diskOpen == imageOpens
    ensures s.image.Some? <==> !imageOpens && imageCreated
    ensures s.fs.superBlock.Some? <==> !imageOpens && imageCreated
    ensures imageOpens ==> s == Session(FileSystem(diskName, true, None, [], []), None)
  {
    var fs := FileSystem(diskName, imageOpens, None, [], []);
    if imageOpens then Session(fs, None) else InitializeDisk(fs, imageCreated)
  }

  /** A fresh image: the superblock record in block 0 agrees with the
      in-memory superblock, every other block (the inode bitmap block and
      the inode table included) is zero, both bitmaps are clear with
      MAX_BLOCKS and TOTAL_INODES bits, and the disk handle is left
      closed. */
  lemma ConstructFormats(diskName: string)
    ensures var s := Construct(diskName, false, true);
      && s.fs.superBlock == Some(SuperBlock(MAGIC_NUMBER, MAX_BLOCKS, 0))
      && |s.fs.blockBitmap| == MAX_BLOCKS != MAX_DATA_BLOCKS
      && (forall b :: 0 <= b < MAX_BLOCKS ==> !s.fs.blockBitmap[b])
      && |s.fs.inodeBitmap| == TOTAL_INODES
      && (forall i :: 0 <= i < TOTAL_INODES ==> !s.fs.inodeBitmap[i])
      && !s.fs.diskOpen
      && s.image.Some? && |s.image.value| * BLOCK_SIZE == DISK_SIZE
      && s.image.value[SUPERBLOCK_BLOCK] == SuperBlockRecord(s.fs.superBlock.value)
      && (forall b :: SUPERBLOCK_BLOCK < b < MAX_BLOCKS ==> s.image.value[b] == Blank(DefaultDataBlock()))
  {
  }

  /** When the image already opens, or when a new one cannot be created,
      setMetaData never runs: no superblock is assigned, nothing is
      written and both bitmaps stay empty. */
  lemma ConstructWithoutFormat(diskName: string, imageOpens: bool, imageCreated: bool)
    requires imageOpens || !imageCreated
    ensures var s := Construct(diskName, imageOpens, imageCreated);
      && s.fs.superBlock.None?
      && s.fs.inodeBitmap == [] && s.fs.blockBitmap == []
      && s.image.None?
      && s.fs.diskOpen == imageOpens
  {
  }

  // ---------------------------------------------------------------------
  // createFile

  /** The largest value of an `int`. */
  const INT_MAX: nat := 0x7FFF_FFFF

  /** The lowest clear bit of a bitmap, if any. */
  function FirstFree(bm: seq<bool>): (r: Option<nat>)
    ensures r.None? <==> forall i :: 0 <= i < |bm| ==> bm[i]
    ensures r.Some? ==> r.value < |bm| && !bm[r.value]
    ensures r.Some? ==> forall j :: 0 <= j < r.value ==> bm[j]
  {
    if |bm| == 0 then None
    else if !bm[0] then Some(0)
    else match FirstFree(bm[1..])
      case None => None
      case Some(i) => Some(i + 1)
  }

  /** The inode createFile builds for a newly taken id: `Inode()` with
      id, size 0 and fileType 1. Type 1 is the directory type of the
      header, although the code's comment calls it a file. */
  function NewInode(id: int32): (n: Inode)
    ensures WellFormed(n)
    ensures n.id == id && n.fileSize == 0 && n.fileType == DIRECTORY_TYPE
    ensures forall k :: 0 <= k < DIRECT_POINTERS ==> n.directPointers[k] == -1
    ensures n.indirectPointer == -1 && n.doubleIndirectPointer == -1
    ensures n.permissions == DefaultInode().permissions
    ensures n.isFree
  {
    DefaultInode().(id := id, fileSize := 0, fileType := 1)
  }

  /** The outcome of one createFile call: whether it succeeded, the
      object afterwards, and the inode it built (never written to disk). */
  datatype Created = Created(ok: bool, fs: FileSystem, node: Option<Inode>)

  /** The reference definition of createFile, in terms of FirstFree. */
  function CreateFileOutcome(fs: FileSystem, fileName: string): (c: Created)
    requires |fs.inodeBitmap| <= INT_MAX
    ensures |c.fs.inodeBitmap| == |fs.inodeBitmap|
    ensures c.fs.(inodeBitmap := fs.inodeBitmap) == fs
    ensures c.ok <==> c.node.Some?
  {
    match FirstFree(fs.inodeBitmap)
    case None => Created(false, fs, None)
    case Some(i) => Created(true, fs.(inodeBitmap := fs.inodeBitmap[i := true]), Some(NewInode(i)))
  }

  /** createFile: a first-fit scan of the inode bitmap. It takes the
      lowest clear bit, sets it and succeeds; it fails, changing nothing,
      when no bit is clear (an empty bitmap included). The file name is
      not looked at. */
  method CreateFile(fs: FileSystem, fileName: string) returns (ok: bool, fs': FileSystem, node: Option<Inode>)
    requires |fs.inodeBitmap| <= INT_MAX
    ensures ok <==> exists i :: 0 <= i < |fs.inodeBitmap| && !fs.inodeBitmap[i]
    ensures !ok ==> fs' == fs && node.None?
    ensures ok ==>
              && node.Some?
              && 0 <= node.value.id < |fs.inodeBitmap|
              && !fs.inodeBitmap[node.value.id]
              && (forall j :: 0 <= j < node.value.id ==> fs.inodeBitmap[j])
              && fs' == fs.(inodeBitmap := fs.inodeBitmap[node.value.id := true])
              && node.value == NewInode(node.value.id)
    ensures Created(ok, fs', node) == CreateFileOutcome(fs, fileName)
  {
    var bitmap := fs.inodeBitmap;
    var freeInode: int := -1;
    var i := 0;
    while i < |bitmap|
      invariant 0 <= i <= |bitmap|
      invariant freeInode == -1
      invariant forall j :: 0 <= j < i ==> bitmap[j]
    {
      if !bitmap[i] {
        freeInode := i;
        bitmap := bitmap[i := true];
        break;
      }
      i := i + 1;
    }
    if freeInode == -1 {
      return false, fs, None;
    }
    var n := DefaultInode();
    n := n.(id := freeInode);
    n := n.(fileSize := 0);
    n := n.(fileType := 1);
    return true, fs.(inodeBitmap := bitmap), Some(n);
  }

  // ---------------------------------------------------------------------
  // Operations with empty bodies, and the destructor

  /** deleteFile has an empty body: nothing is looked up or freed. */
  function DeleteFile(fs: FileSystem, fileName: string): (fs': FileSystem)
    ensures fs' == fs
  {
    fs
  }

  /** writeFile has an empty body: nothing is stored. */
  function WriteFile(fs: FileSystem, fileName: string, content: string): (fs': FileSystem)
    ensures fs' == fs
  {
    fs
  }

  /** readFile has an empty body: it produces no output and changes
      nothing. */
  function ReadFile(fs: FileSystem, fileName: string): (r: (FileSystem, string))
    ensures r.0 == fs && r.1 == []
  {
    (fs, [])
  }

  /** Because deleteFile frees nothing, an inode taken by createFile is
      never handed out again: a later createFile either fails or returns
      a different id. */
  lemma DeleteDoesNotReclaim(fs: FileSystem, fileName: string)
    requires |fs.inodeBitmap| <= INT_MAX
    requires CreateFileOutcome(fs, fileName).ok
    ensures var c := CreateFileOutcome(fs, fileName);
            var again := CreateFileOutcome(DeleteFile(c.fs, fileName), fileName);
            again.ok ==> again.node.value.id != c.node.value.id
  {
    var c := CreateFileOutcome(fs, fileName);
    var id := c.node.value.id;
    assert c.fs.inodeBitmap[id];
  }

  /** The destructor closes the disk handle if it is open. */
  function Destroy(fs: FileSystem): (fs': FileSystem)
    ensures !fs'.diskOpen
    ensures fs'.(diskOpen := fs.diskOpen) == fs
  {
    if fs.diskOpen then fs.(diskOpen := false) else fs
  }
}
