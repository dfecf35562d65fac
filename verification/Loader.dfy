/** fs-loader: build an image from a set of files, flush it, and what the kernel then finds on it. */
module Loader {
  import opened Common
  import opened Bytes
  import opened FsTypes
  import opened FsImage
  import opened FsRefine
  import opened FsRuns
  import opened DiskCodec
  import opened PhysFsClass
  import M = FsModel

  const INIT_SUPERBLOCK: Superblock := Superblock(MAGIC_NUMBER, 8192 + 1024 + 1, 1024, 512, 1024, 8192)

  /** The filesystem fs-loader's init sets up. */
  function InitImage(): Image {
    Image(INIT_SUPERBLOCK, seq(1024, _ => EMPTY_INODE), seq(8192, _ => ZERO_BLOCK))
  }

  function InitStore(): M.Store {
    M.Store(map[], 8191, 1024, 1024, 1024)
  }

  lemma {:induction false} EmptyCountAll(s: seq<Inode>)
    requires forall i :: 0 <= i < |s| ==> s[i] == EMPTY_INODE
    ensures EmptyCount(s) == |s|
  {
    if s != [] {
      EmptyCountAll(s[1..]);
    }
  }

  lemma {:induction false} SizeOfRange(s: set<nat>, lo: nat, hi: nat)
    requires lo <= hi && forall b: nat :: b in s <==> lo <= b < hi
    ensures |s| == hi - lo
    decreases hi - lo
  {
    if lo < hi {
      SizeOfRange(s - {lo}, lo + 1, hi);
    } else {
      assert s == {};
    }
  }

  lemma InitImplements()
    ensures M.Implements(InitImage(), InitStore())
  {
    hide Pad, Run;
    var img := InitImage();
    EmptyCountAll(img.inodes);
    InitFree();
    InitInv();
    forall name: Name ensures Lookup(img, name) == None {
      assert Pad(name) != Zeros(384);
      assert forall i :: 0 <= i < 1024 ==> img.inodes[i].fileName == Zeros(384);
    }
  }

  lemma InitInv()
    ensures Inv(InitImage())
  {
    var img := InitImage();
    assert NoSharing(img.inodes) by {
      assert forall i, j :: 0 <= i < 1024 && 0 <= j < 12 ==> Ptr(img.inodes, i, j) == 0;
    }
  }

  lemma InitFree()
    ensures |FreeSet(InitImage())| == 8191
  {
    var img := InitImage();
    forall b: nat | 1 <= b < 8192 ensures Free(img, b) {
      assert forall i :: 0 <= i < |img.inodes| ==> b !in img.inodes[i].pointers;
    }
    SizeOfRange(FreeSet(img), 1, 8192);
  }

  /** What VirtFs::new sets up for a disk of the given size: always 1024 blocks in memory. */
  function FreshImage(diskSize: U64): Image
    requires diskSize / 512 >= 1025
  {
    Image(Superblock(MAGIC_NUMBER, diskSize, 1024, 512, 1024, diskSize / 512 - 1024 - 1),
          seq(1024, _ => EMPTY_INODE), seq(1024, _ => ZERO_BLOCK))
  }

  /**
   * So a fresh filesystem can be flushed exactly when its disk has at most 2049 sectors, and comes
   * back as it was exactly when it has 2049.
   */
  lemma FreshImageFlushes(diskSize: U64, disk: Disk)
    requires diskSize / 512 >= 1025
    ensures Flushable(FreshImage(diskSize)) <==> diskSize / 512 <= 2049
    ensures Flushable(FreshImage(diskSize)) ==>
              (Load(Written(disk, FreshImage(diskSize), Sectors(FreshImage(diskSize)))) == Ok(FreshImage(diskSize))
               <==> diskSize / 512 == 2049)
  {
    hide Load, Written;
    if Flushable(FreshImage(diskSize)) {
      RoundTripExactIff(disk, FreshImage(diskSize));
    }
  }

  // ----- the load loop

  datatype Entry = Entry(name: Name, contents: seq<Byte>)

  const PERMS: Perms := Perms(7, 7, 7)
  const EPOCH: Times := Times(0, 0, 0)

  /** Blocks an entry takes: its metadata block and the padded data blocks. */
  function Need(files: seq<Entry>): nat {
    if files == [] then 0 else 2 + |files[0].contents| / 512 + Need(files[1..])
  }

  ghost predicate Loadable(files: seq<Entry>) {
    && (forall i :: 0 <= i < |files| ==> |files[i].contents| < DIRECT_LIMIT)
    && (forall i, j :: 0 <= i < j < |files| ==> files[i].name != files[j].name)
  }

  function LoadedFile(contents: seq<Byte>): File {
    File(Padded(contents), [], Metadata(0, 0, 0, 0, PermsWord(PERMS)))
  }

  /** What such a file looks like: contents zero-padded, permissions 7,7,7, everything else 0. */
  lemma LoadedFileIs(contents: seq<Byte>)
    ensures var f := LoadedFile(contents);
            && f.bytes == contents + Zeros(512 - |contents| % 512) && f.spare == []
            && f.meta.owner == 0 && WordPerms(f.meta.permissions) == Perms(7, 7, 7)
            && f.meta.creationTime == 0 && f.meta.modificationTime == 0 && f.meta.accessTime == 0
  {
    PermsRoundTrip(PERMS);
  }

  /** The loop on stores; None where an unwrap panics. */
  function BuildStore(m: M.Store, files: seq<Entry>): Option<M.Store>
    decreases |files|
  {
    if files == [] then Some(m)
    else
      var (m1, r1) := M.CreateFile(m, files[0].name, PERMS, 0, EPOCH);
      if !r1.Ok? then None
      else
        var (m2, r2) := M.WriteFile(m1, files[0].name, files[0].contents, Some(PERMS), Some(0), 0);
        if !r2.Ok? then None else BuildStore(m2, files[1..])
  }

  lemma BuildOne(m: M.Store, e: Entry)
    ensures var (m1, r1) := M.CreateFile(m, e.name, PERMS, 0, EPOCH);
            var (m2, r2) := M.WriteFile(m1, e.name, e.contents, Some(PERMS), Some(0), 0);
            && (r1.Ok? && r2.Ok? <==> m.slots >= 1 && m.free >= 2 + |e.contents| / 512)
            && (r1.Ok? && r2.Ok? ==>
                  m2 == m.(files := m.files[e.name := LoadedFile(e.contents)],
                           free := m.free - 2 - |e.contents| / 512, slots := m.slots - 1))
  {
    hide Padded, MetaBlock, PermsWord;
    var (m1, r1) := M.CreateFile(m, e.name, PERMS, 0, EPOCH);
    var (m2, r2) := M.WriteFile(m1, e.name, e.contents, Some(PERMS), Some(0), 0);
    if r1.Ok? {
      assert m1.files[e.name] == File([], [], NewMeta(PERMS, 0, EPOCH));
      assert M.Retained(m1.files[e.name]) == [];
      assert m1.files[e.name := LoadedFile(e.contents)] == m.files[e.name := LoadedFile(e.contents)];
    }
  }

  /** The loop gets through exactly when the inodes and blocks suffice, and stores every file. */
  lemma {:induction false} BuildSucceedsIff(m: M.Store, files: seq<Entry>)
    requires Loadable(files)
    ensures BuildStore(m, files).Some? <==> |files| <= m.slots && Need(files) <= m.free
    ensures BuildStore(m, files).Some? ==>
              var m' := BuildStore(m, files).value;
              && m'.free == m.free - Need(files) && m'.slots == m.slots - |files|
              && m'.inodes == m.inodes && m'.capacity == m.capacity
              && (forall i :: 0 <= i < |files| ==>
                    M.Get(m', files[i].name) == Some(LoadedFile(files[i].contents)))
              && (forall n: Name :: (forall i :: 0 <= i < |files| ==> files[i].name != n)
                                    ==> M.Get(m', n) == M.Get(m, n))
    decreases |files|
  {
    hide M.CreateFile, M.WriteFile, LoadedFile;
    if files != [] {
      BuildOne(m, files[0]);
      var m1 := M.CreateFile(m, files[0].name, PERMS, 0, EPOCH).0;
      var m2 := M.WriteFile(m1, files[0].name, files[0].contents, Some(PERMS), Some(0), 0).0;
      BuildSucceedsIff(m2, files[1..]);
      if BuildStore(m, files).Some? {
        var m' := BuildStore(m, files).value;
        forall i | 0 <= i < |files| ensures M.Get(m', files[i].name) == Some(LoadedFile(files[i].contents)) {
          if i > 0 {
            assert files[1..][i - 1] == files[i];
          } else {
            assert forall j :: 0 <= j < |files[1..]| ==> files[1..][j].name != files[0].name;
          }
        }
        forall n: Name | forall i :: 0 <= i < |files| ==> files[i].name != n ensures M.Get(m', n) == M.Get(m, n) {
          assert n != files[0].name;
          assert forall i :: 0 <= i < |files[1..]| ==> files[1..][i].name != n;
        }
      }
    }
  }

  /** The same loop on images. */
  ghost predicate BuildImage(img: Image, files: seq<Entry>, img': Image)
    decreases |files|
  {
    if files == [] then img' == img
    else
      && Inv(img) && |files[0].contents| < DIRECT_LIMIT
      && var (img1, r1) := Create(img, files[0].name, PERMS, 0, EPOCH);
      && r1.Ok? && Inv(img1)
      && var (img2, r2) := Write(img1, files[0].name, files[0].contents, Some(PERMS), Some(0), 0);
      && r2.Ok? && BuildImage(img2, files[1..], img')
  }

  lemma {:induction false} BuildRefines(img: Image, m: M.Store, files: seq<Entry>) returns (img': Image)
    requires M.Implements(img, m) && Loadable(files)
    requires forall i :: 0 <= i < |files| ==> files[i].name !in m.files
    requires BuildStore(m, files).Some?
    ensures BuildImage(img, files, img') && img'.sb == img.sb
    ensures M.Implements(img', BuildStore(m, files).value)
    decreases |files|
  {
    hide Inv, Create, Write, M.CreateFile, M.WriteFile, Lookup;
    img' := img;
    if files != [] {
      var e := files[0];
      CreateRefines(img, m, e.name, PERMS, 0, EPOCH);
      var (img1, m1) := (Create(img, e.name, PERMS, 0, EPOCH).0, M.CreateFile(m, e.name, PERMS, 0, EPOCH).0);
      WriteRefines(img1, m1, e.name, e.contents, Some(PERMS), Some(0), 0);
      var img2 := Write(img1, e.name, e.contents, Some(PERMS), Some(0), 0).0;
      var m2 := M.WriteFile(m1, e.name, e.contents, Some(PERMS), Some(0), 0).0;
      BuildOne(m, e);
      forall i | 0 <= i < |files[1..]| ensures files[1..][i].name !in m2.files {
        assert files[1..][i] == files[i + 1];
      }
      SuperblockKept(img, e);
      img' := BuildRefines(img2, m2, files[1..]);
    }
  }

  lemma SuperblockKept(img: Image, e: Entry)
    requires Inv(img) && |e.contents| < DIRECT_LIMIT
    ensures var img1 := Create(img, e.name, PERMS, 0, EPOCH).0;
            && img1.sb == img.sb
            && (Inv(img1) ==> Write(img1, e.name, e.contents, Some(PERMS), Some(0), 0).0.sb == img.sb)
  {
    hide Inv, FsImage.Create, FsImage.Write, Padded;
    StepTables(img, CreateOp(e.name, PERMS, 0, EPOCH));
    var img1 := Create(img, e.name, PERMS, 0, EPOCH).0;
    if Inv(img1) {
      StepTables(img1, WriteOp(e.name, e.contents, Some(PERMS), Some(0), 0));
    }
  }

  /**
   * End to end: any set of distinctly named files that fits 1024 inodes and 8191 blocks is built,
   * flushed over whatever the disk held, loaded back by the kernel as the very same image, and every
   * name then reads as its contents zero-padded to whole blocks, and no other name exists.
   */
  lemma EndToEnd(files: seq<Entry>, disk: Disk) returns (img: Image)
    requires Loadable(files) && |files| <= 1024 && Need(files) <= 8191
    ensures BuildImage(InitImage(), files, img) && Inv(img) && Flushable(img)
    ensures Load(Written(disk, img, Sectors(img))) == Ok(img)
    ensures forall i :: 0 <= i < |files| ==>
              Lookup(img, files[i].name) == Some(LoadedFile(files[i].contents))
    ensures forall n: Name :: Lookup(img, n).Some? ==> exists i :: 0 <= i < |files| && files[i].name == n
  {
    hide Load, Written, BuildImage, Lookup, BuildStore, LoadedFile, FreeSet, EmptyCount, NoSharing;
    InitImplements();
    BuildSucceedsIff(InitStore(), files);
    img := BuildRefines(InitImage(), InitStore(), files);
    var m := BuildStore(InitStore(), files).value;
    RoundTripExactIff(disk, img);
    forall i | 0 <= i < |files| ensures Lookup(img, files[i].name) == Some(LoadedFile(files[i].contents)) {
      assert Lookup(img, files[i].name) == M.Get(m, files[i].name);
    }
    forall n: Name | Lookup(img, n).Some? ensures exists i :: 0 <= i < |files| && files[i].name == n {
      assert Lookup(img, n) == M.Get(m, n);
    }
  }

  /** The body of main's loop over the files. */
  method LoadFiles(fs: PhysFs, files: seq<Entry>) returns (ok: bool)
    requires fs.Valid() && Loadable(files)
    requires forall i :: 0 <= i < |files| ==> files[i].name !in fs.store.files
    modifies fs
    ensures ok <==> BuildStore(old(fs.store), files).Some?
    ensures ok ==> fs.Valid() && fs.store == BuildStore(old(fs.store), files).value
    ensures ok ==> fs.superblock == old(fs.superblock)
  {
    hide M.Implements, M.CreateFile, M.WriteFile, FsImage.Create, FsImage.Write, LoadedFile;
    ghost var m := fs.store;
    assert files[0..] == files;
    for i := 0 to |files|
      invariant fs.Valid() && fs.superblock == old(fs.superblock)
      invariant BuildStore(m, files) == BuildStore(fs.store, files[i..])
      invariant forall j :: i <= j < |files| ==> files[j].name !in fs.store.files
    {
      assert files[i..][0] == files[i] && files[i..][1..] == files[i + 1..];
      BuildOne(fs.store, files[i]);
      ghost var img := fs.Img();
      ImplementsSuperblock(img, fs.store, files[i]);
      var created := fs.CreateFile(files[i].name, PERMS, 0, EPOCH);
      if !created.Ok? {
        return false;
      }
      ImplementsInv(fs.Img(), fs.store);
      var written := fs.WriteFile(files[i].name, files[i].contents, Some(PERMS), Some(0), 0);
      if !written.Ok? {
        return false;
      }
    }
    return true;
  }

  lemma ImplementsSuperblock(img: Image, m: M.Store, e: Entry)
    requires M.Implements(img, m) && |e.contents| < DIRECT_LIMIT
    ensures Inv(img)
    ensures var img1 := Create(img, e.name, PERMS, 0, EPOCH).0;
            && img1.sb == img.sb
            && (Inv(img1) ==> Write(img1, e.name, e.contents, Some(PERMS), Some(0), 0).0.sb == img.sb)
  {
    SuperblockKept(img, e);
  }

  lemma TakesAll(refused: set<nat>, n: nat)
    requires n <= 0x1_0000_0000
    ensures FirstRefused(refused, 0, n) == n <==> forall s :: 0 <= s < n ==> s !in refused
  {
    forall s | 0 <= s < FirstRefused(refused, 0, n) ensures s !in refused {
      assert Sector(s) == s;
    }
  }

  /**
   * fs-loader's main: flush the empty image, load the files, flush again; None is a panic. The image
   * file may refuse some sectors.
   */
  method BuildDisk(files: seq<Entry>, disk: Disk, refused: set<nat>) returns (r: Option<Disk>)
    requires Loadable(files)
    ensures r.Some? <==> |files| <= 1024 && Need(files) <= 8191 && forall s :: 0 <= s < 9217 ==> s !in refused
    ensures r.Some? ==>
              && var l := Load(r.value);
              && l.Ok? && Inv(l.value)
              && (forall i :: 0 <= i < |files| ==>
                    Lookup(l.value, files[i].name) == Some(LoadedFile(files[i].contents)))
              && (forall n: Name :: Lookup(l.value, n).Some? ==> exists i :: 0 <= i < |files| && files[i].name == n)
  {
    hide BuildStore, LoadedFile, Load, Written, Lookup, NoSharing, FreeSet, EmptyCount, FreeFrom;
    InitImplements();
    BuildSucceedsIff(InitStore(), files);
    var fs := new PhysFs(InitImage());
    ImplementsUnique(InitImage(), InitStore(), fs.store);
    TakesAll(refused, 9217);
    var blank, flushed := WriteToDisk(InitImage(), disk, refused);
    if !flushed.Ok? {
      return None;
    }
    var ok := LoadFiles(fs, files);
    if !ok {
      return None;
    }
    ghost var img := fs.Img();
    var last, done := WriteToDisk(Image(fs.superblock, fs.inodeTable, fs.dataBlocks), blank, refused);
    if !done.Ok? {
      return None;
    }
    RoundTripExactIff(blank, img);
    forall n: Name ensures Lookup(img, n) == M.Get(fs.store, n) {
    }
    return Some(last);
  }

  /** The kernel side: load the disk and read one file of it. */
  method BootAndRead(files: seq<Entry>, disk: Disk, k: nat) returns (bytes: seq<Byte>)
    requires Loadable(files) && |files| <= 1024 && Need(files) <= 8191 && k < |files|
    ensures bytes == files[k].contents + Zeros(512 - |files[k].contents| % 512)
  {
    hide Load, Inv, FreeFrom, Written;
    var built := BuildDisk(files, disk, {});
    var loaded := ReadFromDisk(built.value);
    var fs := new PhysFs(loaded.value);
    assert Lookup(fs.Img(), files[k].name) == M.Get(fs.store, files[k].name);
    var contents := fs.ReadFile(files[k].name);
    return contents.value.0;
  }
}
