# Inode file system core: layout, records, format and inode allocation

This project models the start of an inode-based virtual file system. The
file system keeps its files in one disk image of `MAX_BLOCKS` blocks of
`BLOCK_SIZE` bytes:

- block 0 holds the superblock;
- block 1 holds the inode bitmap;
- blocks 2..513 are the inode table, one inode record per block;
- the data area runs from block 514 (`DATA_BLOCK_START`) to the end.

The model covers three things:

- **The layout macros and the record types.** These are `SuperBlock`, the
  directory entry `dirEntry`, `DataBlock` and the packed `Inode`, with the
  values their constructors establish.
- **The `FileSystem` object's shown behaviour.** The constructor either
  opens an existing image or creates and formats a new one. `setMetaData`
  resets the superblock and both bitmaps. `createFile` does a first-fit
  scan of the inode bitmap. `deleteFile`, `readFile` and `writeFile` have
  empty bodies. The destructor closes the handle.
- **C++ representation details the code depends on.** A 32-bit `int`
  receives an out-of-range literal. `memset` with -1 fills bytes with 0xFF.
  `strncpy` writes a fixed number of bytes. `#pragma pack(1)` gives a
  packed inode record.

Modules, leaves first:

| module | file | contents |
|---|---|---|
| `Wrappers` | wrappers.dfy | `Option` |
| `CTypes` | ctypes.dfy | `byte`, `int32`, conversion to `int`, four-byte little-endian `int` codec, `memset`, `strncpy`, C string length |
| `Layout` | layout.dfy | the header macros, the block regions, capacity facts |
| `Records` | records.dfy | `SuperBlock`, `DirEntry`, `DataBlock`, `Inode` and the packed inode codec |
| `Fs` | fs.dfy | the `FileSystem` object, `setMetaData`, the constructor branches, `createFile`, the empty operations, the destructor |
| `Scenarios` | scenarios.dfy | sequences of `createFile` calls after each constructor outcome |

Stream I/O is abstracted. Whether opening the existing image succeeds
(`imageOpens`) and whether creating a new one succeeds (`imageCreated`)
are parameters of `Fs.Construct`. The image the constructor writes is
returned as a value. That value is a sequence of blocks, where block 0
holds an abstract superblock record.

Points where the model follows the code and not the intended design of
the system:

- Formatting does not reserve a root inode and writes no root directory
  entry. `rootInode` is 0, yet the first `createFile` also receives inode
  0 (`Scenarios.FirstIdIsRootInode`).
- `createFile` does not check the name's length, does not look for
  duplicates and does not insert a directory entry. Its outcome does not
  depend on the name at all (`Scenarios.CreateAllIgnoresNames`).
- The block bitmap has `MAX_BLOCKS` bits, not `MAX_DATA_BLOCKS` bits.
- When the image already exists, nothing is loaded. The superblock is
  never assigned and both bitmaps stay empty, so every `createFile` fails
  (`Scenarios.UnformattedCreatesFail`).
- After a fresh format the disk handle is left closed. `initializeDisk`
  closes the stream that `saveMetaData` reopened.
- The magic number is stored in a signed `int`. The literal 0xACBD0005
  exceeds `INT_MAX`, so the field holds -1396899835, whose bit pattern is
  still 0xACBD0005 (`Fs.StoredMagic`).
- The inode `createFile` builds gets `fileType = 1`, which the header
  documents as "directory", although the line's own comment says "file".
  It also keeps `isFree == true` and is never written to disk. The model
  keeps all of this as written (`Fs.NewInode`).

## Model

| member | source | states |
|---|---|---|
| Layout.MacroValues | include/filesystem.h:11-22 | The macros expand to `DISK_SIZE` = 2097152, `DATA_BLOCK_START` = 514, `MAX_DATA_BLOCKS` = 7679 and `POINTERS_PER_INDEX_BLOCK` = 64 (4-byte `int`). The data area really has 7678 blocks. |
| Layout.RegionsPartitionImage | include/filesystem.h:11-22 | Each block below `MAX_BLOCKS` is exactly one of: the superblock, the inode bitmap, an inode-table slot or a data slot. Each valid region maps back to its block, so no two regions overlap. |
| Layout.RegionSizes | include/filesystem.h:11-22 | The inode table is the set of blocks 2..513, which has `TOTAL_INODES` members. The data area is blocks 514..8191: 7678 blocks, one fewer than `MAX_DATA_BLOCKS`. |
| Layout.MaxDataBlocksOverrunsDisk | include/filesystem.h:16 | With the header's formula, the last data index below `MAX_DATA_BLOCKS` names block `MAX_BLOCKS`, past the end of the image. |
| Layout.DataBlockAddress | include/filesystem.h:15-22 | Corrected bound: any data index below `MAX_BLOCKS - DATA_BLOCK_START` names a block inside the image, and that block is the index's data slot. |
| Layout.AddressingCapacity | include/filesystem.h:19-21 | 12 direct pointers plus one 64-pointer index block plus a double-indirect tier reach 4172 blocks per inode. The largest such file (1068032 bytes) fits the signed 32-bit size field, and every block number fits a 32-bit pointer. |
| Layout.InodeBitmapFitsBlock | include/filesystem.h:12-18 | The 512-bit inode bitmap packs into 64 bytes, which fit in its one block. |
| CTypes.Strncpy | include/filesystem.h:46 | `strncpy(dest, src, n)` sets byte k < n to `src[k]` before the first NUL of `src` and to 0 after it. Bytes from n on keep their previous value. |
| CTypes.DecodeAllOnes | include/filesystem.h:88 | An `int` array filled by `memset(..., -1, ...)` holds -1 in every element. |
| Records.DefaultDirEntry | include/filesystem.h:39-43 | `dirEntry()` has 12 zero name bytes and `inode == -1`. Its name reads back empty. |
| Records.NamedDirEntry | include/filesystem.h:44-48 | `dirEntry(name, id)` copies the source up to its first NUL, at most 11 characters. It NUL-pads bytes up to index 10 and sets `inode = id`. Byte 11 keeps the storage's prior value. |
| Records.NamedDirEntryShortName | include/filesystem.h:44-48 | A name shorter than 11 characters is stored terminated, whatever byte 11 held, and reads back exactly. |
| Records.NamedDirEntryUnterminated | include/filesystem.h:44-48 | A name of 11 or more characters, over storage whose byte 11 is non-zero, leaves all 12 bytes non-NUL, so the stored name has no terminator. |
| Records.TerminatedDirEntry | include/filesystem.h:44-48 | Corrected constructor: the stored name is always terminated. It reads back as the source's first `min(length, 11)` characters, and the entry names `inode`. |
| Records.ZeroSuperBlock | src/filesystem.cpp:50 | `superBlock = {}` value-initialises the record: every field is 0. |
| Records.DefaultDataBlock | include/filesystem.h:60-66 | `DataBlock()` is `BLOCK_SIZE` (256) zero bytes. |
| Records.DefaultInode | include/filesystem.h:83-92 | `Inode()` has `id` -1, `fileType` 0 (file) and `fileSize` 0. Its four permission bytes are 0. All 12 direct pointers are -1 because `memset` fills each byte with 0xFF. The indirect and double-indirect pointers are -1, and `isFree` is true. |
| Records.EncodeInode | include/filesystem.h:71-82 | The packed record is 73 bytes, at most `BLOCK_SIZE`, so one record fits its one-block table slot. Each field sits at its declared offset with no padding (`PackedFields`): `id`, `fileType` and `fileSize` at bytes 0, 4 and 8, and the permissions at 12..16. Direct pointer k is at 16 + 4k, the indirect and double-indirect pointers at 64 and 68, and the bool at 72, written as 1 or 0. |
| Records.DecodeInode | include/filesystem.h:71-82 | Reading a 73-byte record takes every field from the same offsets (`PackedFields`). A non-zero flag byte reads as `isFree == true`. |
| Records.DecodeEncodeInode | include/filesystem.h:71-82 | Reading back a stored inode gives the same inode. |
| Records.EncodeDecodeInode | include/filesystem.h:71-82 | Every 73-byte record whose flag byte is 0 or 1 is the representation of the inode it decodes to. |
| Records.UnsetPointersRecord | include/filesystem.h:78-80 | An inode whose 14 pointers are all -1 is stored with all 56 pointer bytes equal to 0xFF. |
| Records.DefaultInodeRecord | include/filesystem.h:83-92 | The stored default inode has every pointer byte 0xFF, the pattern the `memset` leaves. |
| Fs.StoredMagic | src/filesystem.cpp:52 | The `int` field holds -1396899835 after the assignment, and its 32-bit pattern is 0xACBD0005. |
| Fs.BlankImage | src/filesystem.cpp:33-36 | The new image is `MAX_BLOCKS` zero blocks, `DISK_SIZE` bytes in all. |
| Fs.SaveMetaData | src/filesystem.cpp:65-73 | Reopens the handle and writes the in-memory superblock over block 0. The image keeps its length, every other block and every other member of the object are unchanged. |
| Fs.SetMetaData | src/filesystem.cpp:48-63 | Afterwards the superblock is (magic, `MAX_BLOCKS`, root 0). The block bitmap is `MAX_BLOCKS` clear bits and the inode bitmap `TOTAL_INODES` clear bits. The handle is open, block 0 of the image holds that superblock, and every other block is unchanged. |
| Fs.InitializeDisk | src/filesystem.cpp:24-46 | The handle always ends closed. When the new image cannot be created, nothing else changes and nothing is written. When it can, the image is `MAX_BLOCKS` blocks, block 0 holds the superblock (magic, `MAX_BLOCKS`, root 0), every other block is zero, and both bitmaps are clear at full size. |
| Fs.Construct | src/filesystem.cpp:5-15 | The handle is open exactly when the existing image opened. An image is written, and a superblock assigned, exactly when the image did not open and a new one could be created. When the image opens, the object has no superblock and empty bitmaps. `Fs.ConstructFormats` and `Fs.ConstructWithoutFormat` give the two outcomes in full. |
| Fs.ConstructFormats | src/filesystem.cpp:5-46 | When the image does not open and can be created, the result is a formatted image. Block 0 matches the in-memory superblock and every other block is zero. Both bitmaps are clear at their full sizes, and the handle ends closed. |
| Fs.ConstructWithoutFormat | src/filesystem.cpp:8-40 | When the image opens, or cannot be created, `setMetaData` never runs. No superblock is assigned, nothing is written and both bitmaps are empty. |
| Fs.FirstFree | src/filesystem.cpp:78-86 | Returns the lowest clear bit of the bitmap, or nothing exactly when every bit is set (the empty bitmap included). |
| Fs.NewInode | src/filesystem.cpp:90-93 | The built inode has the chosen `id`, `fileSize` 0 and `fileType` 1 (the header's directory type). Every other field keeps its `Inode()` default, `isFree` included. |
| Fs.CreateFileOutcome | src/filesystem.cpp:75-98 | `createFile` changes only the inode bitmap and keeps its length. It reports success exactly when it built an inode. |
| Fs.CreateFile | src/filesystem.cpp:75-98 | The first-fit loop returns false exactly when no bit is clear, and then changes nothing. Otherwise it takes the smallest clear index, sets only that bit and builds `NewInode` of it. It agrees with `CreateFileOutcome` for every input. |
| Fs.DeleteFile | src/filesystem.cpp:100-103 | The body is empty: the object is unchanged. |
| Fs.ReadFile | src/filesystem.cpp:105-108 | The body is empty: no output, object unchanged. |
| Fs.WriteFile | src/filesystem.cpp:110-113 | The body is empty: the object is unchanged. |
| Fs.DeleteDoesNotReclaim | src/filesystem.cpp:75-103 | Because `deleteFile` frees nothing, a later `createFile` never hands out the inode an earlier one took. |
| Fs.Destroy | src/filesystem.cpp:17-22 | The destructor leaves the handle closed and changes nothing else. |
| Scenarios.CreatesFromClear | src/filesystem.cpp:78-87 | From a clear inode bitmap, n ≤ 512 successive calls all succeed, taking ids 0..n-1 in order, and exactly those bits end up set. |
| Scenarios.FreshImageCreatesInOrder | src/filesystem.cpp:48-87 | After a fresh format, n ≤ 512 calls take ids 0..n-1. Nothing but the inode bitmap changes. |
| Scenarios.FreshImageExhausted | src/filesystem.cpp:78-87 | After a fresh format, call 513 fails and every inode bit is set. |
| Scenarios.FirstIdIsRootInode | src/filesystem.cpp:54-87 | The first file created after formatting takes id 0, which equals the superblock's `rootInode`: the root is never reserved. |
| Scenarios.CreateAllIgnoresNames | src/filesystem.cpp:75-98 | Any two name sequences of equal length give the same ids and the same final object. |
| Scenarios.UnformattedCreatesFail | src/filesystem.cpp:5-15 | When the image existed or could not be created, every `createFile` fails and leaves the object unchanged. |
| Scenarios.DriverScenario | src/mainTests.cpp:6-26 | In the driver, `createFile("test.txt")` succeeds, with inode 0, exactly when a new image was formatted. The following `readFile` produces nothing, and `deleteFile` leaves the object as the create left it. |

## Left out

- GUI and Qt entry point: widget wiring only, no file-system logic.
- The repository-root `filesystem.cpp`: a superseded draft whose non-void bodies are empty and whose signatures disagree with the header.
- Header methods with no body anywhere: block allocation, indirect and double-indirect addressing, freeing, bitmap reconstruction at mount, reading and writing inodes and blocks, and the directory operations. Modelling them would invent behaviour.
- `loadMetaData` and the persisted inode bitmap: declared but never defined or called. An existing image is therefore never read.
- Console output of the constructor and `initializeDisk`: it is not state.
- Byte layout of the superblock write: the `reinterpret_cast` bytes depend on the host. The superblock is an abstract record in block 0.
- The reopen inside `saveMetaData` is assumed to succeed: the image was created just before it.
- Members `rootDirectory`, `directories` and `currentDirectoryInode` are never assigned in the shown code, so they are not modelled.
- The constructor as written is ill-formed C++ and the file does not compile. `Directory` declares only `Directory(int)` (include/filesystem.h:56), so it has no default constructor. The `FileSystem` constructor (src/filesystem.cpp:5) gives the `rootDirectory` member (include/filesystem.h:103) no initializer. The model describes what the constructor body would do if that member were initialised.
- Fs.CreateFile: requires the bitmap to have at most `INT_MAX` bits, since the source's `int` loop counter would overflow beyond that. The bitmaps the code builds have 0 or 512 bits.
- Records.EncodeInode: the byte order of each `int` is taken as little-endian (the x86 host order). The record size and field order do not depend on it.
- Records.EncodeInode: assumes `sizeof(int) == 4` and `sizeof(bool) == 1`. The language leaves both sizes to the implementation; they hold on the usual GCC, Clang and MSVC targets. A bool is stored as byte 1 or 0.
- Fs.StoredMagic: before C++20, converting 0xACBD0005 to a signed `int` is implementation-defined. The model takes the modulo-2^32 result, which GCC, Clang and MSVC give and which C++20 requires.
- `char` values are modelled as bytes 0..255. Only NUL versus non-NUL matters to the code shown.

## Findings

| source | as written | input that shows it | evidently intended | confidence | as-written member | corrected member |
|---|---|---|---|---|---|---|
| include/filesystem.h:44-48 | `strncpy(name, src, MAX_FILE_NAME - 1)` on a buffer the constructor never clears, so byte 11 is never written | the name "abcdefghijk" (11 characters) stored where byte 11 held a non-zero byte: no byte of the entry's name is NUL | byte 11 set to NUL so every stored name is terminated | medium; not executed | Records.NamedDirEntryUnterminated | Records.TerminatedDirEntry |
| include/filesystem.h:16 | `MAX_DATA_BLOCKS` = `MAX_BLOCKS - 1 - TOTAL_INODES` = 7679, which omits the inode-bitmap block | data index 7678, below `MAX_DATA_BLOCKS`, names block 514 + 7678 = 8192, but the last block of the image is 8191 | `MAX_BLOCKS - DATA_BLOCK_START` = 7678 data blocks | medium; not executed | Layout.MaxDataBlocksOverrunsDisk | Layout.DataBlockAddress |
