/** What the refinement gives in terms of images alone: reads after writes, space, deletion, names. */
module FsTheorems {
  import opened Common
  import opened Bytes
  import opened FsTypes
  import opened BlockTree
  import opened FsImage
  import opened FsFrames
  import opened FsRefine
  import opened FsDelete
  import opened FsRuns
  import opened Loader
  import DiskCodec
  import M = FsModel

  /** Data blocks a file holds on to, visible or not. */
  function HeldBlocks(f: File): nat {
    |f.bytes| / 512 + |f.spare|
  }

  lemma RetainedCount(f: File)
    ensures |M.Retained(f)| == HeldBlocks(f)
  {
  }

  /**
   * write_file then read_file: the data followed by zeros to a whole number of blocks, whether the
   * file grew, shrank or was overwritten; creation and access time and whatever was not given are
   * kept; a file that shrinks keeps its old tail blocks as they were; every other name reads as before.
   */
  lemma WriteThenRead(img: Image, name: Name, data: seq<Byte>, perms: Option<Perms>, owner: Option<U64>, now: U64)
    requires Inv(img) && |data| < DIRECT_LIMIT
    requires Write(img, name, data, perms, owner, now).1.Ok?
    ensures var img' := Write(img, name, data, perms, owner, now).0;
            && Inv(img') && Lookup(img, name).Some? && Lookup(img', name).Some?
            && var f, f' := Lookup(img, name).value, Lookup(img', name).value;
            && f'.bytes == data + Zeros(512 - |data| % 512) && |f'.bytes| == 512 * (|data| / 512 + 1)
            && f'.meta.creationTime == f.meta.creationTime && f'.meta.accessTime == f.meta.accessTime
            && f'.meta.modificationTime == now
            && f'.meta.owner == (if owner.Some? then owner.value else f.meta.owner)
            && (perms.None? ==> f'.meta.permissions == f.meta.permissions)
            && (perms.Some? ==> WordPerms(f'.meta.permissions) == perms.value)
            && HeldBlocks(f') == (if HeldBlocks(f) < |data| / 512 + 1 then |data| / 512 + 1 else HeldBlocks(f))
            && |M.Retained(f)| == HeldBlocks(f) && |M.Retained(f')| == HeldBlocks(f')
            && (forall j :: |data| / 512 + 1 <= j < HeldBlocks(f) ==> M.Retained(f')[j] == M.Retained(f)[j])
            && forall n: Name :: n != name ==> Lookup(img', n) == Lookup(img, n)
  {
    hide Inv, Lookup, Write, FreeSet, EmptyCount, M.WriteFile, M.Retained, WordPerms;
    var m := StoreExists(img);
    WriteRefines(img, m, name, data, perms, owner, now);
    StoreWritten(m, name, data, perms, owner, now);
    var img', m' := Write(img, name, data, perms, owner, now).0, M.WriteFile(m, name, data, perms, owner, now).0;
    assert Lookup(img, name) == M.Get(m, name) && Lookup(img', name) == M.Get(m', name);
    forall n: Name | n != name ensures Lookup(img', n) == Lookup(img, n) {
      assert Lookup(img', n) == M.Get(m', n) && Lookup(img, n) == M.Get(m, n);
    }
  }

  /** The same on the map. */
  lemma StoreWritten(m: M.Store, name: Name, data: seq<Byte>, perms: Option<Perms>, owner: Option<U64>, now: U64)
    requires M.WriteFile(m, name, data, perms, owner, now).1.Ok?
    ensures var m', n := M.WriteFile(m, name, data, perms, owner, now).0, |data| / 512 + 1;
            && name in m.files && m'.files == m.files[name := m'.files[name]]
            && var f, f' := m.files[name], m'.files[name];
            && f'.bytes == data + Zeros(512 - |data| % 512) && |f'.bytes| == 512 * n
            && f'.meta.creationTime == f.meta.creationTime && f'.meta.accessTime == f.meta.accessTime
            && f'.meta.modificationTime == now
            && f'.meta.owner == (if owner.Some? then owner.value else f.meta.owner)
            && (perms.None? ==> f'.meta.permissions == f.meta.permissions)
            && (perms.Some? ==> WordPerms(f'.meta.permissions) == perms.value)
            && HeldBlocks(f') == (if HeldBlocks(f) < n then n else HeldBlocks(f))
            && |M.Retained(f)| == HeldBlocks(f) && |M.Retained(f')| == HeldBlocks(f')
            && forall j :: n <= j < HeldBlocks(f) ==> M.Retained(f')[j] == M.Retained(f)[j]
  {
    hide PermsWord, WordPerms, M.Retained, Padded;
    var f, n := m.files[name], |data| / 512 + 1;
    var kept := M.Retained(f);
    var spare := if n <= |kept| then kept[n..] else [];
    var meta := WrittenMeta(f.meta, perms, owner, now);
    assert M.WriteFile(m, name, data, perms, owner, now).0.files[name] == File(Padded(data), spare, meta);
    PaddedIs(data);
    RetainedCount(f);
    RetainedTail(f, File(Padded(data), spare, meta), n);
    if perms.Some? {
      PermsRoundTrip(perms.value);
    }
  }

  lemma PaddedIs(data: seq<Byte>)
    ensures Padded(data) == data + Zeros(512 - |data| % 512) && |Padded(data)| == 512 * (|data| / 512 + 1)
  {
  }

  lemma RetainedTail(f: File, f': File, n: nat)
    requires |f'.bytes| == 512 * n
    requires f'.spare == if n <= |M.Retained(f)| then M.Retained(f)[n..] else []
    ensures |M.Retained(f')| == HeldBlocks(f') == if |M.Retained(f)| < n then n else |M.Retained(f)|
    ensures forall j :: n <= j < |M.Retained(f)| ==> M.Retained(f')[j] == M.Retained(f)[j]
  {
  }

  /** A write to an existing file succeeds exactly when the free blocks cover the extra ones it needs. */
  lemma WriteSucceedsIff(img: Image, name: Name, data: seq<Byte>, perms: Option<Perms>, owner: Option<U64>, now: U64)
    requires Inv(img) && |data| < DIRECT_LIMIT && Lookup(img, name).Some?
    ensures var (img', r) := Write(img, name, data, perms, owner, now);
            var extra := Extra(HeldBlocks(Lookup(img, name).value), |data| / 512 + 1);
            && (r.Ok? <==> extra <= |FreeSet(img)|)
            && (r.Ok? ==> |FreeSet(img')| == |FreeSet(img)| - extra)
            && (!r.Ok? ==> r == Err(DiskFull) && |FreeSet(img')| == |FreeSet(img)|)
  {
    hide Inv, Lookup, Write, FreeSet, EmptyCount;
    var m := StoreExists(img);
    assert Lookup(img, name) == M.Get(m, name);
    RetainedCount(m.files[name]);
    WriteRefines(img, m, name, data, perms, owner, now);
  }

  /**
   * Which blocks a write uses: the file's own stay where they are, new ones are the lowest free ones in
   * ascending order behind them, and no other inode changes.
   */
  lemma WriteTakesLowest(img: Image, name: Name, data: seq<Byte>, perms: Option<Perms>, owner: Option<U64>, now: U64)
    requires Inv(img) && |data| < DIRECT_LIMIT
    requires Write(img, name, data, perms, owner, now).1.Ok?
    ensures var img' := Write(img, name, data, perms, owner, now).0;
            && Position(img.inodes, Pad(name)).Some? && |img'.inodes| == |img.inodes|
            && var i := Position(img.inodes, Pad(name)).value;
            var ino, ino', n := img.inodes[i], img'.inodes[i], |data| / 512 + 1;
            && (forall x :: 0 <= x < |img.inodes| && x != i ==> img'.inodes[x] == img.inodes[x])
            && n <= 11 && ino' == ino.(numDataBlocks := n + 1, pointers := ino'.pointers)
            && (forall j :: 0 <= j < Held(ino) ==> ino'.pointers[j] == ino.pointers[j])
            && (forall j :: Held(ino) <= j <= n ==>
                  && ino'.pointers[j] in FreeSet(img)
                  && (j < n ==> ino'.pointers[j] < ino'.pointers[j + 1])
                  && forall c :: c in FreeSet(img) && c < ino'.pointers[j] ==> c in ino'.pointers)
            && forall j :: Held(ino) <= j < 12 && j > n ==> ino'.pointers[j] == 0
  {
    hide NoSharing, UniqueNames, Write, Free, FreeFrom, StoreAll, MetaBlock, Position, Pad, Chunks, Padded, Run;
    hide Repointed, WritePointers;
    WriteUnfolds(img, name, data, perms, owner, now);
    PaddedChunks(data);
    var i, free, n := Position(img.inodes, Pad(name)).value, FreeList(img), |data| / 512 + 1;
    RepointedLowest(img.inodes[i], free, n);
    assert Write(img, name, data, perms, owner, now).0.inodes[i]
        == Repointed(img.inodes[i], WritePointers(img.inodes[i], free, n), n);
    assert forall b :: b in free <==> b in FreeSet(img);
  }

  lemma RepointedLowest(ino: Inode, free: seq<U64>, n: nat)
    requires 1 <= Held(ino) && Extra(Held(ino) - 1, n) <= |free| && 1 <= n <= 11
    requires forall x, y :: 0 <= x < y < |free| ==> free[x] < free[y]
    ensures |WritePointers(ino, free, n)| <= 11
    ensures var ino' := Repointed(ino, WritePointers(ino, free, n), n);
            && ino' == ino.(numDataBlocks := n + 1, pointers := ino'.pointers)
            && (forall j :: 0 <= j < Held(ino) ==> ino'.pointers[j] == ino.pointers[j])
            && (forall j :: Held(ino) <= j <= n ==>
                  && ino'.pointers[j] in free
                  && (j < n ==> ino'.pointers[j] < ino'.pointers[j + 1])
                  && forall c :: c in free && c < ino'.pointers[j] ==> c in ino'.pointers)
            && forall j :: Held(ino) <= j < 12 && j > n ==> ino'.pointers[j] == 0
  {
    hide Run, Repointed;
    var h, ps := Held(ino) - 1, WritePointers(ino, free, n);
    RepointedAt(ino, ps, n);
    var ino' := Repointed(ino, ps, n);
    forall j | 0 <= j < Held(ino) ensures ino'.pointers[j] == ino.pointers[j] {
      assert j > 0 ==> ino'.pointers[j] == ps[j - 1] == ino.pointers[j];
    }
    forall j | Held(ino) <= j <= n ensures ino'.pointers[j] == free[j - 1 - h] {
      assert ino'.pointers[j] == ps[j - 1];
    }
    forall j, c | Held(ino) <= j <= n && c in free && c < ino'.pointers[j] ensures c in ino'.pointers {
      var x :| 0 <= x < |free| && free[x] == c;
      assert ino'.pointers[x + h + 1] == c;
    }
  }

  /** DiskFull changes one block, the target's metadata block, and no file's bytes. */
  lemma DiskFullKeepsContents(img: Image, name: Name, data: seq<Byte>, perms: Option<Perms>, owner: Option<U64>,
                              now: U64)
    requires Inv(img) && |data| < DIRECT_LIMIT
    requires Write(img, name, data, perms, owner, now).1 == Err(DiskFull)
    ensures var img' := Write(img, name, data, perms, owner, now).0;
            && Inv(img') && Position(img.inodes, Pad(name)).Some?
            && var p := img.inodes[Position(img.inodes, Pad(name)).value].pointers[0];
            && img'.inodes == img.inodes && |img'.blocks| == |img.blocks|
            && (forall b :: 0 <= b < |img.blocks| && b != p ==> img'.blocks[b] == img.blocks[b])
            && (forall n: Name :: Lookup(img, n).Some? ==>
                  Lookup(img', n).Some? && Lookup(img', n).value.bytes == Lookup(img, n).value.bytes)
            && Lookup(img, name).Some?
            && var a, b := Lookup(img, name).value.meta, Lookup(img', name).value.meta;
            && b.modificationTime == now && b.creationTime == a.creationTime && b.accessTime == a.accessTime
            && b.owner == (if owner.Some? then owner.value else a.owner)
            && (perms.None? ==> b.permissions == a.permissions)
            && (perms.Some? ==> WordPerms(b.permissions) == perms.value)
  {
    hide Inv, Lookup, Write, FreeSet, EmptyCount, Position;
    if perms.Some? {
      PermsRoundTrip(perms.value);
    }
    DiskFullChanges(img, name, data, perms, owner, now);
    var m := StoreExists(img);
    WriteRefines(img, m, name, data, perms, owner, now);
    var img', m' := Write(img, name, data, perms, owner, now).0, M.WriteFile(m, name, data, perms, owner, now).0;
    assert Lookup(img, name) == M.Get(m, name) && Lookup(img', name) == M.Get(m', name);
    forall n: Name | Lookup(img, n).Some?
      ensures Lookup(img', n).Some? && Lookup(img', n).value.bytes == Lookup(img, n).value.bytes
    {
      assert Lookup(img', n) == M.Get(m', n) && Lookup(img, n) == M.Get(m, n);
    }
  }

  /** The half of it about inodes and blocks. */
  lemma DiskFullChanges(img: Image, name: Name, data: seq<Byte>, perms: Option<Perms>, owner: Option<U64>, now: U64)
    requires Inv(img) && |data| < DIRECT_LIMIT
    requires Write(img, name, data, perms, owner, now).1 == Err(DiskFull)
    ensures var img' := Write(img, name, data, perms, owner, now).0;
            && Position(img.inodes, Pad(name)).Some?
            && var p := img.inodes[Position(img.inodes, Pad(name)).value].pointers[0];
            && img'.inodes == img.inodes && |img'.blocks| == |img.blocks|
            && (forall b :: 0 <= b < |img.blocks| && b != p ==> img'.blocks[b] == img.blocks[b])
  {
    hide NoSharing, UniqueNames, FreeFrom, MetaBlock, Padded, Chunks, StoreAll, Run, Position;
  }

  /**
   * Deletion: the name is gone, all others stay, each of the file's first num_data_blocks blocks is
   * acceptable to the allocator again, and the free count rises by exactly those and the zero spares.
   */
  lemma DeleteGivesBack(img: Image, name: Name)
    requires Inv(img) && Lookup(img, name).Some?
    ensures Delete(img, name).1.Ok?
    ensures var img' := Delete(img, name).0;
            && Inv(img') && Lookup(img', name) == None
            && (forall n: Name :: n != name ==> Lookup(img', n) == Lookup(img, n))
            && var f := Lookup(img, name).value;
            && |FreeSet(img')| == |FreeSet(img)| + 1 + |f.bytes| / 512 + M.ZeroCount(f.spare)
            && FreeSet(img) <= FreeSet(img')
            && var i := Position(img.inodes, Pad(name)).value;
            var ino := img.inodes[i];
            && img'.inodes == img.inodes[..i] + img.inodes[i + 1..]
            && ino.numDataBlocks <= 12
            && forall j :: 0 <= j < ino.numDataBlocks ==> Free(img', ino.pointers[j])
  {
    hide Inv, Lookup, EmptyCount, FreeSet, Free, Delete, Position;
    var m := StoreExists(img);
    assert Lookup(img, name) == M.Get(m, name);
    DeleteRefines(img, m, name);
    var img', m' := Delete(img, name).0, M.DeleteFile(m, name).0;
    assert Lookup(img', name) == M.Get(m', name);
    forall n: Name | n != name ensures Lookup(img', n) == Lookup(img, n) {
      assert Lookup(img, n) == M.Get(m, n) && Lookup(img', n) == M.Get(m', n);
    }
    BlocksFreeAgain(img, name);
  }

  /** The half of it about blocks. */
  lemma BlocksFreeAgain(img: Image, name: Name)
    requires Inv(img) && Lookup(img, name).Some?
    ensures Position(img.inodes, Pad(name)).Some?
    ensures var img', i := Delete(img, name).0, Position(img.inodes, Pad(name)).value;
            var ino := img.inodes[i];
            && img'.inodes == img.inodes[..i] + img.inodes[i + 1..]
            && FreeSet(img) <= FreeSet(img')
            && ino.numDataBlocks <= 12
            && forall j :: 0 <= j < ino.numDataBlocks ==> Free(img', ino.pointers[j])
  {
    hide NoSharing, UniqueNames, StoreAll, FileAt, Run, Pad;
    FoundIsLive(img, name);
    var i := Position(img.inodes, Pad(name)).value;
    DeleteIs(img, i, name);
    DeletedFree(img, i);
    var ino := img.inodes[i];
    forall j | 0 <= j < ino.numDataBlocks ensures Free(Delete(img, name).0, ino.pointers[j]) {
      assert ino.pointers[..ino.numDataBlocks][j] in Released(img.blocks, ino);
      assert ino.pointers[j] in FreeSet(Delete(img, name).0);
    }
  }

  // ----- create_file, chmod and chown

  /**
   * create_file of a new name then read_file: an empty file with the owner, permissions and times given;
   * every other name reads as before.
   */
  lemma CreateThenRead(img: Image, name: Name, perms: Perms, owner: U64, t: Times)
    requires Inv(img) && Lookup(img, name) == None && Create(img, name, perms, owner, t).1.Ok?
    ensures var img' := Create(img, name, perms, owner, t).0;
            && Inv(img') && Lookup(img', name).Some?
            && var f := Lookup(img', name).value;
            && f.bytes == [] && f.spare == []
            && f.meta.owner == owner && WordPerms(f.meta.permissions) == perms
            && f.meta.creationTime == t.created && f.meta.modificationTime == t.modified
            && f.meta.accessTime == t.accessed
            && forall n: Name :: n != name ==> Lookup(img', n) == Lookup(img, n)
  {
    hide Inv, Lookup, Create, FreeSet, EmptyCount, NewMeta, MetaBlock;
    var m := StoreExists(img);
    assert Lookup(img, name) == M.Get(m, name);
    CreateRefines(img, m, name, perms, owner, t);
    var img', m' := Create(img, name, perms, owner, t).0, M.CreateFile(m, name, perms, owner, t).0;
    assert Lookup(img', name) == M.Get(m', name);
    M.CreateSets(perms, owner, t);
    forall n: Name | n != name ensures Lookup(img', n) == Lookup(img, n) {
      assert Lookup(img', n) == M.Get(m', n) && Lookup(img, n) == M.Get(m, n);
    }
  }

  /**
   * create_file succeeds exactly when there are a free block and an unused inode; with no free block
   * nothing changes; with no unused inode the metadata is written to the first free block all the same,
   * and the result depends on whether deletions have shortened the table.
   */
  lemma CreateSucceedsIff(img: Image, name: Name, perms: Perms, owner: U64, t: Times)
    requires Inv(img)
    ensures var (img', r) := Create(img, name, perms, owner, t);
            var unused := exists i :: 0 <= i < |img.inodes| && img.inodes[i].numDataBlocks == 0;
            && (r.Ok? <==> FreeSet(img) != {} && unused)
            && (FreeSet(img) == {} ==> img' == img && r == Err(DiskFull))
            && (FreeSet(img) != {} && !unused ==>
                  && r == (if |img.inodes| == img.sb.numInodes then Err(OutOfInodes) else Panic)
                  && img'.sb == img.sb && img'.inodes == img.inodes && |img'.blocks| == |img.blocks|
                  && exists b: nat ::
                       && b in FreeSet(img) && (forall c :: c in FreeSet(img) ==> b <= c)
                       && M.MetaAsGiven(ReadMeta(img'.blocks[b]), perms, owner, t)
                       && forall c :: 0 <= c < |img.blocks| && c != b ==> img'.blocks[c] == img.blocks[c])
  {
    hide NoSharing, UniqueNames, Free, FreeFrom, NewMeta, MetaBlock, ReadMeta, NewInode;
    var (img', r) := Create(img, name, perms, owner, t);
    var free := FreeList(img);
    if free == [] {
      assert FreeSet(img) == {};
    } else {
      var b := free[0];
      assert b in free && b in FreeSet(img);
      MetaRoundTrip(NewMeta(perms, owner, t));
      M.CreateSets(perms, owner, t);
      forall c | c in FreeSet(img) ensures b <= c {
        assert c in free;
      }
    }
  }

  /** Where create_file puts a file: the first unused inode, and the lowest free block for its metadata. */
  lemma CreateTakesLowest(img: Image, name: Name, perms: Perms, owner: U64, t: Times)
    requires Inv(img) && Create(img, name, perms, owner, t).1.Ok?
    ensures var img' := Create(img, name, perms, owner, t).0;
            && |img'.inodes| == |img.inodes|
            && exists i, b: nat ::
                 && 0 <= i < |img.inodes| && img.inodes[i].numDataBlocks == 0
                 && (forall x :: 0 <= x < i ==> img.inodes[x].numDataBlocks != 0)
                 && b in FreeSet(img) && (forall c :: c in FreeSet(img) ==> b <= c)
                 && (forall x :: 0 <= x < |img.inodes| && x != i ==> img'.inodes[x] == img.inodes[x])
                 && img'.inodes[i].numDataBlocks == 1 && img'.inodes[i].pointers[0] == b
                 && (forall j :: 1 <= j < 12 ==> img'.inodes[i].pointers[j] == 0)
                 && img'.inodes[i].fileName == Pad(name)
                 && |img'.blocks| == |img.blocks|
                 && forall c :: 0 <= c < |img.blocks| && c != b ==> img'.blocks[c] == img.blocks[c]
  {
    hide NoSharing, UniqueNames, Free, FreeFrom, NewMeta, MetaBlock, Pad;
    var free := FreeList(img);
    var b, i := free[0], EmptyFrom(img.inodes, 0).value;
    assert b in free && b in FreeSet(img);
    forall c | c in FreeSet(img) ensures b <= c {
      assert c in free;
    }
    var img' := Create(img, name, perms, owner, t).0;
    assert img'.inodes[i] == NewInode(name, b);
  }

  /** chmod on images: the digits of one file, nothing else of it and nothing of any other file. */
  lemma ChmodThenRead(img: Image, name: Name, perms: Perms)
    requires Inv(img)
    ensures var (img', r) := ImageStep(img, ChmodOp(name, perms));
            && Inv(img') && img'.inodes == img.inodes
            && (Lookup(img, name).None? ==> r == Err(FileNotFound) && img' == img)
            && (Lookup(img, name).Some? ==>
                  && r == Ok(()) && Lookup(img', name).Some?
                  && var f, f' := Lookup(img, name).value, Lookup(img', name).value;
                  && WordPerms(f'.meta.permissions) == perms && f'.meta.owner == f.meta.owner
                  && M.SameTimes(f.meta, f'.meta) && f'.bytes == f.bytes && f'.spare == f.spare)
            && forall n: Name :: n != name ==> Lookup(img', n) == Lookup(img, n)
  {
    hide Inv, Lookup, SetMeta, FreeSet, EmptyCount, WithPerms, M.ChangeMeta;
    var m := StoreExists(img);
    SetMetaRefines(img, m, name, WithPerms(perms));
    M.ChmodSets(m, name, perms);
    SetMetaKeepsInodes(img, name, WithPerms(perms));
    MetaLookups(img, SetMeta(img, name, WithPerms(perms)).0, m, M.ChangeMeta(m, name, WithPerms(perms)).0, name);
  }

  /** chown likewise. */
  lemma ChownThenRead(img: Image, name: Name, owner: U64)
    requires Inv(img)
    ensures var (img', r) := ImageStep(img, ChownOp(name, owner));
            && Inv(img') && img'.inodes == img.inodes
            && (Lookup(img, name).None? ==> r == Err(FileNotFound) && img' == img)
            && (Lookup(img, name).Some? ==>
                  && r == Ok(()) && Lookup(img', name).Some?
                  && var f, f' := Lookup(img, name).value, Lookup(img', name).value;
                  && f'.meta.owner == owner && f'.meta.permissions == f.meta.permissions
                  && M.SameTimes(f.meta, f'.meta) && f'.bytes == f.bytes && f'.spare == f.spare)
            && forall n: Name :: n != name ==> Lookup(img', n) == Lookup(img, n)
  {
    hide Inv, Lookup, SetMeta, FreeSet, EmptyCount, WithOwner, M.ChangeMeta;
    var m := StoreExists(img);
    SetMetaRefines(img, m, name, WithOwner(owner));
    M.ChownSets(m, name, owner);
    SetMetaKeepsInodes(img, name, WithOwner(owner));
    MetaLookups(img, SetMeta(img, name, WithOwner(owner)).0, m, M.ChangeMeta(m, name, WithOwner(owner)).0, name);
  }

  lemma SetMetaKeepsInodes(img: Image, name: Name, change: Metadata -> Metadata)
    requires Inv(img)
    ensures var (img', r) := SetMeta(img, name, change);
            img'.inodes == img.inodes && (r == Err(FileNotFound) ==> img' == img)
  {
    hide NoSharing, UniqueNames, Run, MetaBlock, ReadMeta, Position, Pad;
  }

  lemma MetaLookups(img: Image, img': Image, m: M.Store, m': M.Store, name: Name)
    requires M.Implements(img, m) && M.Implements(img', m')
    requires if name in m.files then M.OnlyMeta(m, m', name) else m' == m
    ensures forall n: Name :: n != name ==> Lookup(img', n) == Lookup(img, n)
    ensures Lookup(img, name) == M.Get(m, name) && Lookup(img', name) == M.Get(m', name)
  {
    hide Inv, Lookup, FreeSet, EmptyCount;
    forall n: Name | n != name ensures Lookup(img', n) == Lookup(img, n) {
      assert Lookup(img', n) == M.Get(m', n) && Lookup(img, n) == M.Get(m, n);
    }
  }

  // ----- block 0

  /**
   * Block 0, which lookups follow null table pointers into, stays zero on every run from the loader's
   * image, and through a flush and a load of what the run leaves.
   */
  lemma HolesReadZero(ops: seq<Op>, img: Image, rs: seq<Result<()>>, disk: DiskCodec.Disk)
    requires Inv(InitImage()) && ImageRun(InitImage(), ops, img, rs)
    ensures NullReadsZero(img.blocks)
    ensures DiskCodec.Flushable(img) ==>
              var loaded := DiskCodec.Load(DiskCodec.Written(disk, img, DiskCodec.Sectors(img)));
              loaded.Ok? && NullReadsZero(loaded.value.blocks)
  {
    hide Inv, ImageRun, DiskCodec.Load, DiskCodec.Written;
    RunKeepsFirst(InitImage(), ops, img, rs);
    RunTables(InitImage(), ops, img, rs);
    if DiskCodec.Flushable(img) {
      DiskCodec.FlushThenLoad(disk, img);
    }
  }

  // ----- create_file does not look for the name first

  /** A successful create_file keeps names unique exactly when the name was not there. */
  lemma CreateKeepsUniqueIff(img: Image, name: Name, perms: Perms, owner: U64, t: Times)
    requires Inv(img) && Create(img, name, perms, owner, t).1.Ok?
    ensures UniqueNames(Create(img, name, perms, owner, t).0.inodes) <==> Position(img.inodes, Pad(name)).None?
  {
    hide NoSharing, MetaBlock, FreeFrom;
    var i := EmptyFrom(img.inodes, 0).value;
    var s' := Create(img, name, perms, owner, t).0.inodes;
    assert s'[i].fileName == Pad(name) && Live(s'[i]);
    var pos := Position(img.inodes, Pad(name));
    if pos.Some? {
      FoundIsLive(img, name);
      assert pos.value != i;
      assert s'[pos.value].fileName == Pad(name);
    } else {
      assert UniqueNames(s');
    }
  }

  /** For instance: creating the same name twice on a fresh image succeeds twice. */
  lemma CreateTwice(name: Name, perms: Perms, owner: U64, t: Times)
    ensures Inv(InitImage())
    ensures var (img1, r1) := Create(InitImage(), name, perms, owner, t);
            && r1.Ok? && Inv(img1)
            && var (img2, r2) := Create(img1, name, perms, owner, t);
            && r2.Ok? && !UniqueNames(img2.inodes)
  {
    hide Inv, Lookup, UniqueNames, MetaBlock, FreeSet, FreeFrom;
    InitImplements();
    var img, m := InitImage(), InitStore();
    CreateRefines(img, m, name, perms, owner, t);
    var img1, m1 := Create(img, name, perms, owner, t).0, M.CreateFile(m, name, perms, owner, t).0;
    assert Lookup(img1, name) == M.Get(m1, name);
    StoreFacts(img1, m1, name);
    EmptyCountZero(img1.inodes);
    CreateKeepsUniqueIff(img1, name, perms, owner, t);
  }

  // ----- deletion and flushing

  /**
   * After any run the image can be flushed exactly when what the table had to spare covers the
   * deletions that succeeded.
   */
  lemma FlushableAfterIff(img: Image, ops: seq<Op>, img': Image, rs: seq<Result<()>>)
    requires Inv(img) && ImageRun(img, ops, img', rs)
    ensures |rs| <= |ops| && img'.sb == img.sb
    ensures DiskCodec.Flushable(img') <==> img.sb.inodeTableSize + Deletions(ops, rs) <= |img.inodes|
  {
    hide ImageRun, NoSharing, UniqueNames;
    RunTables(img, ops, img', rs);
  }

  /**
   * So from an image whose table is as long as its superblock says, as the loader makes it, flushing
   * works exactly as long as nothing has been deleted; and then the kernel loads the same image back,
   * files and all.
   */
  lemma DeletionPreventsFlush(img: Image, ops: seq<Op>, img': Image, rs: seq<Result<()>>, disk: DiskCodec.Disk)
    requires Inv(img) && ImageRun(img, ops, img', rs)
    requires img.sb.inodeTableSize == img.sb.numInodes == |img.inodes|
    requires img.sb.magicNumber == MAGIC_NUMBER && DiskCodec.Sectors(img) <= 0x1_0000_0000
    ensures |rs| <= |ops|
    ensures DiskCodec.Flushable(img') <==> Deletions(ops, rs) == 0
    ensures Deletions(ops, rs) == 0 ==>
              DiskCodec.Load(DiskCodec.Written(disk, img', DiskCodec.Sectors(img'))) == Ok(img')
  {
    hide ImageRun, NoSharing, UniqueNames, DiskCodec.Load, DiskCodec.Written;
    RunTables(img, ops, img', rs);
    FlushableAfterIff(img, ops, img', rs);
    if Deletions(ops, rs) == 0 {
      DiskCodec.RoundTripExactIff(disk, img');
    }
  }

  lemma DeleteRun(m: M.Store, name: Name)
    requires name in m.files
    ensures ProperRun(m, [DeleteOp(name)]) && StoreRun(m, [DeleteOp(name)]).1 == [Ok(())]
  {
    hide M.ZeroCount;
    var op := DeleteOp(name);
    var m' := M.DeleteFile(m, name).0;
    assert StoreStep(m, op) == (m', Ok(()));
    assert [op][1..] == [];
    assert StoreRun(m', []) == (m', []) && ProperRun(m', []);
  }

  lemma CreateRuns(m: M.Store, name: Name, perms: Perms, owner: U64, t: Times)
    requires m.free > 0 && m.slots > 0 && name !in m.files
    ensures var create := CreateOp(name, perms, owner, t);
            && ProperRun(m, [create]) && StoreRun(m, [create]).1 == [Ok(())]
            && ProperRun(m, [create, DeleteOp(name)])
            && StoreRun(m, [create, DeleteOp(name)]).1 == [Ok(()), Ok(())]
  {
    hide MetaBlock;
    var create := CreateOp(name, perms, owner, t);
    var m' := M.CreateFile(m, name, perms, owner, t).0;
    assert StoreStep(m, create) == (m', Ok(()));
    assert [create][1..] == [] && [create, DeleteOp(name)][1..] == [DeleteOp(name)];
    assert StoreRun(m', []) == (m', []) && ProperRun(m', []);
    DeleteRun(m', name);
  }

  lemma DeletionsCounted(create: Op, name: Name)
    requires create.CreateOp?
    ensures Deletions([create], [Ok(())]) == 0 && Deletions([create, DeleteOp(name)], [Ok(()), Ok(())]) == 1
  {
    assert [Ok(())][1..] == [] && [Ok(()), Ok(())][1..] == [Ok(())];
    assert Deletions([DeleteOp(name)], [Ok(())]) == 1;
  }

  /** For instance: create a file on the fresh image, and it can be flushed; delete it, and it cannot. */
  lemma CreateDeleteFlush(name: Name, perms: Perms, owner: U64, t: Times) returns (created: Image, deleted: Image)
    ensures Inv(InitImage()) && DiskCodec.Flushable(InitImage())
    ensures ImageRun(InitImage(), [CreateOp(name, perms, owner, t)], created, [Ok(())])
    ensures ImageRun(InitImage(), [CreateOp(name, perms, owner, t), DeleteOp(name)], deleted, [Ok(()), Ok(())])
    ensures DiskCodec.Flushable(created) && !DiskCodec.Flushable(deleted)
  {
    hide Inv, ImageRun, StoreRun, ProperRun, Deletions, MetaBlock, Pad;
    var img, m, create := InitImage(), InitStore(), CreateOp(name, perms, owner, t);
    InitImplements();
    ImplementsInv(img, m);
    CreateRuns(m, name, perms, owner, t);
    DeletionsCounted(create, name);
    created := RunRefines(img, m, [create]);
    deleted := RunRefines(img, m, [create, DeleteOp(name)]);
    FlushableAfterIff(img, [create], created, [Ok(())]);
    FlushableAfterIff(img, [create, DeleteOp(name)], deleted, [Ok(()), Ok(())]);
  }
}
