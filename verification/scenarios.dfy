/** What a sequence of createFile calls does, starting from each of the
    states the constructor can leave behind. */
module Scenarios {
  import opened Wrappers
  import opened CTypes
  import opened Layout
  import opened Records
  import opened Fs

  /** Successive createFile calls, one per name: the object afterwards and,
      per call, the id it took (None when the call failed). */
  function CreateAll(fs: FileSystem, names: seq<string>): (r: (FileSystem, seq<Option<int32>>))
    requires |fs.inodeBitmap| <= INT_MAX
    ensures |r.0.inodeBitmap| == |fs.inodeBitmap|
    ensures r.0.(inodeBitmap := fs.inodeBitmap) == fs
    ensures |r.1| == |names|
    decreases |names|
  {
    if |names| == 0 then (fs, [])
    else
      var (prior, ids) := CreateAll(fs, names[..|names| - 1]);
      var c := CreateFileOutcome(prior, names[|names| - 1]);
      (c.fs, ids + [if c.ok then Some(c.node.value.id) else None])
  }

  /** An inode bitmap whose first k bits are set and the rest clear. */
  function Taken(k: nat): seq<bool> {
    seq(TOTAL_INODES, i => i < k)
  }

  lemma FirstFreeOfTaken(k: nat)
    requires k <= TOTAL_INODES
    ensures k < TOTAL_INODES ==> FirstFree(Taken(k)) == Some(k)
    ensures k == TOTAL_INODES ==> FirstFree(Taken(k)).None?
  {
    if k < TOTAL_INODES {
      assert !Taken(k)[k];
    }
  }

  /** With the first k < TOTAL_INODES bits set, createFile takes id k. */
  lemma CreateOnTaken(fs: FileSystem, name: string, k: nat)
    requires k < TOTAL_INODES
    requires fs.inodeBitmap == Taken(k)
    ensures CreateFileOutcome(fs, name) == Created(true, fs.(inodeBitmap := Taken(k + 1)), Some(NewInode(k)))
  {
    FirstFreeOfTaken(k);
    assert Taken(k)[k := true] == Taken(k + 1);
  }

  /** From a clear inode bitmap, n <= TOTAL_INODES calls all succeed and
      take ids 0, 1, ..., n - 1 in order, leaving exactly those bits set. */
  lemma {:induction false} CreatesFromClear(fs: FileSystem, names: seq<string>)
    requires fs.inodeBitmap == Taken(0)
    requires |names| <= TOTAL_INODES
    ensures forall i :: 0 <= i < |names| ==> CreateAll(fs, names).1[i] == Some(i)
    ensures CreateAll(fs, names).0 == fs.(inodeBitmap := Taken(|names|))
  {
    if |names| > 0 {
      var k := |names| - 1;
      CreatesFromClear(fs, names[..k]);
      CreateOnTaken(CreateAll(fs, names[..k]).0, names[k], k);
    }
  }

  /** A freshly formatted image has a clear bitmap of TOTAL_INODES bits. */
  lemma FreshBitmapIsClear(diskName: string)
    ensures Construct(diskName, false, true).fs.inodeBitmap == Taken(0)
  {
    ConstructFormats(diskName);
    assert Construct(diskName, false, true).fs.inodeBitmap == Taken(0);
  }

  /** After formatting a new image, n <= TOTAL_INODES successive
      createFile calls succeed with ids 0..n-1 in order, and nothing but
      the inode bitmap changes. */
  lemma FreshImageCreatesInOrder(diskName: string, names: seq<string>)
    requires |names| <= TOTAL_INODES
    ensures var fs := Construct(diskName, false, true).fs;
            var r := CreateAll(fs, names);
            && (forall i :: 0 <= i < |names| ==> r.1[i] == Some(i))
            && r.0 == fs.(inodeBitmap := Taken(|names|))
  {
    FreshBitmapIsClear(diskName);
    CreatesFromClear(Construct(diskName, false, true).fs, names);
  }

  /** Call TOTAL_INODES + 1 after formatting fails: every inode is taken. */
  lemma FreshImageExhausted(diskName: string, names: seq<string>)
    requires |names| == TOTAL_INODES + 1
    ensures var r := CreateAll(Construct(diskName, false, true).fs, names);
            && (forall i :: 0 <= i < TOTAL_INODES ==> r.1[i] == Some(i))
            && r.1[TOTAL_INODES] == None
            && (forall i :: 0 <= i < TOTAL_INODES ==> r.0.inodeBitmap[i])
  {
    FreshImageCreatesInOrder(diskName, names[..TOTAL_INODES]);
    FirstFreeOfTaken(TOTAL_INODES);
  }

  /** The root inode is not reserved at format time: the first file
      created takes id 0, the id the superblock names as the root. */
  lemma FirstIdIsRootInode(diskName: string, name: string)
    ensures var fs := Construct(diskName, false, true).fs;
            var c := CreateFileOutcome(fs, name);
            c.ok && c.node.value.id == fs.superBlock.value.rootInode
  {
    FreshBitmapIsClear(diskName);
    FirstFreeOfTaken(0);
  }

  /** createFile never looks at the name: any two name sequences of the
      same length give the same ids and the same final state. */
  lemma {:induction false} CreateAllIgnoresNames(fs: FileSystem, names: seq<string>, others: seq<string>)
    requires |fs.inodeBitmap| <= INT_MAX
    requires |names| == |others|
    ensures CreateAll(fs, names) == CreateAll(fs, others)
    decreases |names|
  {
    if |names| > 0 {
      CreateAllIgnoresNames(fs, names[..|names| - 1], others[..|others| - 1]);
    }
  }

  /** When the image already existed or could not be created, the
      bitmaps stay empty, so every createFile fails and changes nothing. */
  lemma {:induction false} UnformattedCreatesFail(diskName: string, imageOpens: bool, imageCreated: bool, names: seq<string>)
    requires imageOpens || !imageCreated
    ensures var fs := Construct(diskName, imageOpens, imageCreated).fs;
            var r := CreateAll(fs, names);
            r.0 == fs && forall i :: 0 <= i < |names| ==> r.1[i] == None
    decreases |names|
  {
    ConstructWithoutFormat(diskName, imageOpens, imageCreated);
    if |names| > 0 {
      UnformattedCreatesFail(diskName, imageOpens, imageCreated, names[..|names| - 1]);
    }
  }

  /** The driver program: construct on "disk.bin", create "test.txt",
      read a missing file, delete "test.txt". The create succeeds, taking
      inode 0, exactly when a new image was formatted; the read and the
      delete change nothing. */
  lemma DriverScenario(imageOpens: bool, imageCreated: bool)
    ensures var fs := Construct("disk.bin", imageOpens, imageCreated).fs;
            var c := CreateFileOutcome(fs, "test.txt");
            var (afterRead, output) := ReadFile(c.fs, "nonexistent.txt");
            && (c.ok <==> !imageOpens && imageCreated)
            && (c.ok ==> c.node.value.id == 0)
            && output == []
            && DeleteFile(afterRead, "test.txt") == c.fs
  {
    if !imageOpens && imageCreated {
      FreshBitmapIsClear("disk.bin");
      FirstFreeOfTaken(0);
    } else {
      ConstructWithoutFormat("disk.bin", imageOpens, imageCreated);
    }
  }
}
