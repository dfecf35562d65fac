/** The exposed filesystem: VirtFs operations, FileHandle streams, and any conversation with them. */
module VirtFsClass {
  import opened Common
  import opened Bytes
  import opened FsTypes
  import opened FsImage
  import opened FsRefine
  import opened FsDelete
  import opened PhysFsClass
  import S = Streams
  import FsSpill
  import M = FsModel

  class VirtFs {
    const physFs: PhysFs

    constructor (physFs: PhysFs)
      ensures this.physFs == physFs
    {
      this.physFs := physFs;
    }

    method Exists(name: Name) returns (found: bool)
      requires physFs.Valid()
      ensures found <==> name in physFs.store.files
    {
      StoreFacts(physFs.Img(), physFs.store, name);
      var pos := physFs.FindInodeByName(name);
      found := pos.Some?;
    }

    /** The metadata-rewriting body shared by chmod and chown. */
    method SetMetadata(name: Name, change: Metadata -> Metadata) returns (r: Result<()>)
      requires physFs.Valid()
      modifies physFs
      ensures physFs.Valid()
      ensures (physFs.store, r) == M.ChangeMeta(old(physFs.store), name, change)
    {
      ghost var img, m := physFs.Img(), physFs.store;
      SetMetaRefines(img, m, name, change);
      StoreFacts(img, m, name);
      physFs.store := M.ChangeMeta(m, name, change).0;
      var pos := physFs.FindInodeByName(name);
      if pos.None? {
        return Err(FileNotFound);
      }
      var inode := physFs.inodeTable[pos.value];
      var metadata := change(ReadMeta(physFs.dataBlocks[inode.pointers[0]]));
      var done := physFs.WriteToDataBlock(inode.pointers[0], MetaBlock(metadata));
      done := physFs.UpdateInode(inode);
      assert physFs.inodeTable == img.inodes;
      assert physFs.Img() == SetMeta(img, name, change).0;
      return Ok(());
    }

    method Chmod(name: Name, perms: Perms) returns (r: Result<()>)
      requires physFs.Valid()
      modifies physFs
      ensures physFs.Valid()
      ensures (physFs.store, r) == M.ChangeMeta(old(physFs.store), name, WithPerms(perms))
      ensures r.Ok? ==>
                && M.OnlyMeta(old(physFs.store), physFs.store, name)
                && var a, b := old(physFs.store).files[name].meta, physFs.store.files[name].meta;
                WordPerms(b.permissions) == perms && b.owner == a.owner && M.SameTimes(a, b)
    {
      M.ChmodSets(physFs.store, name, perms);
      r := SetMetadata(name, WithPerms(perms));
    }

    method Chown(name: Name, owner: U64) returns (r: Result<()>)
      requires physFs.Valid()
      modifies physFs
      ensures physFs.Valid()
      ensures (physFs.store, r) == M.ChangeMeta(old(physFs.store), name, WithOwner(owner))
      ensures r.Ok? ==>
                && M.OnlyMeta(old(physFs.store), physFs.store, name)
                && var a, b := old(physFs.store).files[name].meta, physFs.store.files[name].meta;
                b.owner == owner && b.permissions == a.permissions && M.SameTimes(a, b)
    {
      M.ChownSets(physFs.store, name, owner);
      r := SetMetadata(name, WithOwner(owner));
    }

    method GetMetadata(name: Name) returns (r: Result<Metadata>)
      requires physFs.Valid()
      ensures r == if name in physFs.store.files then Ok(physFs.store.files[name].meta) else Err(FileNotFound)
    {
      StoreFacts(physFs.Img(), physFs.store, name);
      var pos := physFs.FindInodeByName(name);
      if pos.None? {
        return Err(FileNotFound);
      }
      return Ok(ReadMeta(physFs.dataBlocks[physFs.inodeTable[pos.value].pointers[0]]));
    }

    /** Zero the file's blocks one by one, then retain the inodes with other names. */
    method Delete(name: Name) returns (r: Result<()>)
      requires physFs.Valid()
      modifies physFs
      ensures physFs.Valid()
      ensures (physFs.store, r) == M.DeleteFile(old(physFs.store), name)
    {
      hide M.Implements, FsImage.Position, FreeFrom, NoSharing, UniqueNames, M.DeleteFile;
      ghost var img, m := physFs.Img(), physFs.store;
      DeleteRefines(img, m, name);
      StoreFacts(img, m, name);
      physFs.store := M.DeleteFile(m, name).0;
      var pos := physFs.FindInodeByName(name);
      if pos.None? {
        return Err(FileNotFound);
      }
      var inode := physFs.inodeTable[pos.value];
      ZeroBlocks(inode.pointers[..inode.numDataBlocks]);
      RetainOthers(inode.fileName);
      return Ok(());
    }

    method ZeroBlocks(ps: seq<U64>)
      requires forall j :: 0 <= j < |ps| ==> ps[j] < |physFs.dataBlocks|
      modifies physFs`dataBlocks
      ensures physFs.dataBlocks == ZeroAll(old(physFs.dataBlocks), ps)
    {
      for i := 0 to |ps|
        invariant |physFs.dataBlocks| == |old(physFs.dataBlocks)|
        invariant physFs.dataBlocks == ZeroAll(old(physFs.dataBlocks), ps[..i])
      {
        assert ps[..i + 1][..i] == ps[..i];
        assert seq(i + 1, _ => ZERO_BLOCK)[..i] == seq(i, _ => ZERO_BLOCK);
        physFs.dataBlocks := physFs.dataBlocks[ps[i] := ZERO_BLOCK];
      }
      assert ps[..|ps|] == ps;
    }

    method RetainOthers(key: NameField)
      modifies physFs`inodeTable
      ensures physFs.inodeTable == Retain(old(physFs.inodeTable), key)
    {
      var kept: seq<Inode> := [];
      var table := physFs.inodeTable;
      for i := 0 to |table|
        invariant kept == Retain(table[..i], key)
      {
        assert table[..i + 1] == table[..i] + [table[i]];
        RetainConcat(table[..i], [table[i]], key);
        assert [table[i]][1..] == [];
        if table[i].fileName != key {
          kept := kept + [table[i]];
        }
      }
      assert table[..|table|] == table;
      physFs.inodeTable := kept;
    }

    method Open(name: Name, flags: bv8, t: Times) returns (r: S.Reply, handle: FileHandle?)
      requires physFs.Valid()
      modifies physFs
      ensures physFs.Valid()
      ensures var (m, h, reply) := S.OpenFile(old(physFs.store), name, flags, t);
              && physFs.store == m && r == reply
              && (handle == null <==> h.None?)
              && (handle != null ==> fresh(handle) && handle.View() == h.value)
    {
      hide M.Implements, FsImage.Create, NewMeta, MetaBlock;
      handle := null;
      var found := physFs.ReadFile(name);
      if !found.Ok? {
        if flags & S.CREATE == 0 {
          return S.Failed(FileNotFound), null;
        }
        var created := physFs.CreateFile(name, Perms(6, 6, 6), 0, t);
        if !created.Ok? {
          return S.FromResult(created), null;
        }
      }
      handle := new FileHandle(name, flags);
      if flags & S.APPEND != 0 {
        var contents := physFs.ReadFile(name);
        handle.filePos := |contents.value.0|;
      }
      return S.Done, handle;
    }
  }

  class FileHandle {
    const fileName: Name
    const flags: bv8
    var filePos: nat

    constructor (fileName: Name, flags: bv8)
      ensures View() == S.Handle(fileName, flags, 0)
    {
      this.fileName, this.flags, filePos := fileName, flags, 0;
    }

    function View(): S.Handle
      reads this
    {
      S.Handle(fileName, flags, filePos)
    }

    method Read(fs: PhysFs, len: nat) returns (r: S.Reply)
      requires fs.Valid()
      modifies this
      ensures (View(), r) == S.ReadHandle(fs.store, old(View()), len)
    {
      hide M.Implements, FsSpill.ReadResult;
      if flags & S.READ == 0 {
        return S.Denied;
      }
      var contents := fs.ReadFile(fileName);
      if !contents.Ok? {
        return S.Failed(FileNotFound);
      }
      var data := contents.value.0;
      if filePos > |data| {
        return S.Panicked;
      }
      var n := if len < |data| - filePos then len else |data| - filePos;
      r := S.Data(data[filePos..filePos + n]);
      filePos := filePos + n;
    }

    static method Overlaid(contents: seq<Byte>, pos: nat, buf: seq<Byte>) returns (data: seq<Byte>)
      ensures data == S.Overlay(contents, pos, buf)
    {
      data := contents;
      if pos > |data| {
        data := data + Zeros(pos - |data|);
      }
      if pos + |buf| > |data| {
        data := data + Zeros(pos + |buf| - |data|);
      }
      data := Splice(data, pos, buf);
      assert data == S.Overlay(contents, pos, buf);
    }

    /** Re-read the whole file, resize, lay the buffer over it, rewrite the whole file. */
    method Write(fs: PhysFs, buf: seq<Byte>, now: U64) returns (r: S.Reply)
      requires fs.Valid() && S.WriteExtent(fs.store, View(), buf) < DIRECT_LIMIT
      modifies this, fs
      ensures fs.Valid()
      ensures (fs.store, View(), r) == S.WriteHandle(old(fs.store), old(View()), buf, now)
    {
      hide M.Implements, M.WriteFile, FsImage.Write, FsSpill.ReadResult, FsSpill.WriteSingle;
      if flags & S.WRITE == 0 {
        return S.Denied;
      }
      var contents := fs.ReadFile(fileName);
      if !contents.Ok? {
        return S.Failed(FileNotFound);
      }
      var data := Overlaid(contents.value.0, filePos, buf);
      var written := fs.WriteFile(fileName, data, None, None, now);
      if !written.Ok? {
        return S.FromResult(written);
      }
      filePos := filePos + |buf|;
      return S.Count(|buf|);
    }

    method Seek(pos: nat) returns (r: S.Reply)
      modifies this
      ensures View() == old(View()).(pos := pos) && r == S.Count(pos)
    {
      filePos := pos;
      return S.Count(pos);
    }
  }

  /** A running system: one filesystem and every handle opened on it so far. */
  class Session {
    const fs: VirtFs
    var handles: seq<FileHandle>

    constructor (fs: VirtFs)
      ensures this.fs == fs && handles == []
    {
      this.fs, handles := fs, [];
    }

    ghost predicate Valid()
      reads this, fs.physFs
    {
      && fs.physFs.Valid()
      && forall i, j :: 0 <= i < j < |handles| ==> handles[i] != handles[j]
    }

    static ghost function Views(hs: seq<FileHandle>): (vs: seq<S.Handle>)
      reads hs
      ensures |vs| == |hs| && forall i :: 0 <= i < |hs| ==> vs[i] == hs[i].View()
    {
      seq(|hs|, i requires 0 <= i < |hs| reads hs => hs[i].View())
    }

    ghost function View(): S.World
      reads this, fs.physFs, handles
    {
      S.World(fs.physFs.store, Views(handles))
    }

    method ServeOpen(c: S.Call) returns (r: S.Reply)
      requires Valid() && c.Open?
      modifies this, fs.physFs
      ensures Valid() && fresh(set h | h in handles && h !in old(handles))
      ensures (View(), r) == S.Answer(old(View()), c)
    {
      hide M.Implements, M.CreateFile;
      ghost var w := View();
      var reply, handle := fs.Open(c.name, c.flags, c.times);
      if handle == null {
        assert Views(handles) == w.handles;
        return reply;
      }
      r := S.Opened(|handles|);
      handles := handles + [handle];
      assert Views(handles) == w.handles + [handle.View()];
      assert View() == S.World(fs.physFs.store, Views(handles));
      assert S.Answer(w, c).0.handles == Views(handles);
    }

    method ServeHandle(c: S.Call) returns (r: S.Reply)
      requires Valid() && (c.Read? || c.Write? || c.Seek?) && S.Proper(View(), c)
      modifies fs.physFs, handles
      ensures Valid()
      ensures (View(), r) == S.Answer(old(View()), c)
    {
      hide M.Implements, S.WriteExtent, M.WriteFile;
      ghost var w := View();
      match c
      case Read(h, len) =>
        r := handles[h].Read(fs.physFs, len);
        assert Views(handles) == w.handles[h := handles[h].View()];
      case Write(h, buf, now) =>
        r := handles[h].Write(fs.physFs, buf, now);
        assert Views(handles) == w.handles[h := handles[h].View()];
      case Seek(h, pos) =>
        r := handles[h].Seek(pos);
        assert Views(handles) == w.handles[h := handles[h].View()];
    }

    /** One call, answered as the reference model answers it. */
    method Serve(c: S.Call) returns (r: S.Reply)
      requires Valid() && S.Proper(View(), c)
      modifies this, fs.physFs, handles
      ensures Valid() && fresh(set h | h in handles && h !in old(handles))
      ensures (View(), r) == S.Answer(old(View()), c)
    {
      hide M.Implements, M.DeleteFile, M.ChangeMeta, S.OpenFile, S.ReadHandle, S.WriteHandle, S.WriteExtent;
      match c
      case Open(_, _, _) => r := ServeOpen(c);
      case Read(_, _) => r := ServeHandle(c);
      case Write(_, _, _) => r := ServeHandle(c);
      case Seek(_, _) => r := ServeHandle(c);
      case Delete(name) =>
        var done := fs.Delete(name);
        r := S.FromResult(done);
      case Chmod(name, perms) =>
        var done := fs.Chmod(name, perms);
        r := S.FromResult(done);
      case Chown(name, owner) =>
        var done := fs.Chown(name, owner);
        r := S.FromResult(done);
      case GetOwner(name) =>
        var meta := fs.GetMetadata(name);
        r := if meta.Ok? then S.OwnerIs(meta.value.owner) else S.Failed(FileNotFound);
      case GetPerms(name) =>
        var meta := fs.GetMetadata(name);
        r := if meta.Ok? then S.PermsAre(WordPerms(meta.value.permissions)) else S.Failed(FileNotFound);
      case Stat(name) =>
        var found := fs.Exists(name);
        r := S.Exists(found);
    }

    /** Any conversation by any number of handles is the reference model's, reply by reply. */
    method ServeAll(calls: seq<S.Call>) returns (replies: seq<S.Reply>)
      requires Valid() && S.ProperCalls(View(), calls)
      modifies this, fs.physFs, handles
      ensures Valid()
      ensures (View(), replies) == S.AnswerAll(old(View()), calls)
    {
      hide M.Implements, S.Answer, S.Proper, S.AnswerAll, S.ProperCalls, View;
      ghost var w := View();
      replies := [];
      var i := 0;
      assert calls[0..] == calls && [] + S.AnswerAll(w, calls).1 == S.AnswerAll(w, calls).1;
      while i < |calls|
        invariant 0 <= i <= |calls| && Valid() && fresh(set h | h in handles && h !in old(handles))
        invariant S.ProperCalls(View(), calls[i..])
        invariant var (w', rest) := S.AnswerAll(View(), calls[i..]);
                  S.AnswerAll(w, calls) == (w', replies + rest)
      {
        assert calls[i..][0] == calls[i] && calls[i..][1..] == calls[i + 1..];
        S.AnswerAllUnfolds(View(), calls[i..]);
        var r := Serve(calls[i]);
        replies := replies + [r];
        if r.Panicked? {
          return;
        }
        ghost var rest := S.AnswerAll(View(), calls[i + 1..]).1;
        assert replies[..|replies| - 1] + ([r] + rest) == replies + rest;
        i := i + 1;
      }
      S.AnswerAllUnfolds(View(), calls[i..]);
      assert replies + [] == replies;
    }
  }
}
