/** Every operation on images refines its counterpart on stores and keeps the invariant. */
module FsRefine {
  import opened Common
  import opened Bytes
  import opened FsTypes
  import opened FsImage
  import opened FsFrames
  import M = FsModel

  lemma ImplementsInv(img: Image, m: M.Store)
    requires M.Implements(img, m)
    ensures Inv(img)
  {
  }

  // ----- create_file

  lemma RunIs(ps: seq<U64>, k: nat)
    requires k <= |ps| && (forall j :: 0 <= j < k ==> ps[j] != 0) && (k < |ps| ==> ps[k] == 0)
    ensures Run(ps) == k
  {
    var r := Run(ps);
    assert r < |ps| ==> ps[r] == 0;
  }

  lemma NewInodeOk(name: Name, b: U64, numBlocks: nat)
    requires 0 < b < numBlocks
    ensures InodeInv(NewInode(name, b), numBlocks) && Held(NewInode(name, b)) == 1
    ensures forall j :: 1 <= j < 12 ==> NewInode(name, b).pointers[j] == 0
  {
    var ino := NewInode(name, b);
    assert ino.pointers[0] == b && forall j :: 1 <= j < 12 ==> ino.pointers[j] == 0;
    RunIs(ino.pointers, 1);
  }

  lemma NewInodeMembers(name: Name, b: U64, c: nat)
    requires c != 0
    ensures c in NewInode(name, b).pointers <==> c == b
  {
    assert NewInode(name, b).pointers[0] == b;
  }

  lemma NewInodeFacts(name: Name, b: U64)
    ensures Live(NewInode(name, b)) && NewInode(name, b).fileName == Pad(name)
  {
  }

  lemma CreateKeepsInv(img: Image, i: nat, b: U64, name: Name, meta: Block)
    requires Inv(img) && Position(img.inodes, Pad(name)).None?
    requires i < |img.inodes| && Free(img, b)
    ensures Inv(Image(img.sb, img.inodes[i := NewInode(name, b)], img.blocks[b := meta]))
  {
    hide NewInode, NoSharing;
    NewInodeFacts(name, b);
    NewInodeOk(name, b, |img.blocks|);
    CreateSharing(img, i, b, name);
  }

  lemma CreateSharing(img: Image, i: nat, b: nat, name: Name)
    requires Inv(img) && i < |img.inodes| && Free(img, b)
    ensures NoSharing(img.inodes[i := NewInode(name, b)])
  {
    hide NewInode;
    var ino := NewInode(name, b);
    forall x, j | 0 <= x < |img.inodes| && x != i && 0 <= j < 12 && Ptr(img.inodes, x, j) != 0
      ensures Ptr(img.inodes, x, j) !in ino.pointers
    {
      HeldIsReferenced(img.inodes, x, j);
      NewInodeMembers(name, b, Ptr(img.inodes, x, j));
    }
    assert forall j :: 1 <= j < 12 ==> ino.pointers[j] == 0 by {
      NewInodeOk(name, b, |img.blocks|);
    }
    SharingUpdate(img.inodes, i, ino);
  }

  lemma CreateFree(img: Image, i: nat, b: nat, name: Name, meta: Block)
    requires Inv(img) && i < |img.inodes| && !Live(img.inodes[i]) && Free(img, b)
    ensures FreeSet(Image(img.sb, img.inodes[i := NewInode(name, b)], img.blocks[b := meta])) == FreeSet(img) - {b}
  {
    hide NewInode, NoSharing, UniqueNames;
    var img' := Image(img.sb, img.inodes[i := NewInode(name, b)], img.blocks[b := meta]);
    assert InodeInv(img.inodes[i], |img.blocks|);
    forall c: nat | 1 <= c < |img.blocks| ensures Free(img', c) <==> Free(img, c) && c != b {
      NewInodeMembers(name, b, c);
      ReferencedUpdate(img.inodes, i, NewInode(name, b), c);
      ReferencedUpdate(img.inodes, i, img.inodes[i], c);
      assert c !in NO_POINTERS;
      assert img.inodes[i := img.inodes[i]] == img.inodes;
    }
  }

  lemma CreateRefines(img: Image, m: M.Store, name: Name, perms: Perms, owner: U64, t: Times)
    requires M.Implements(img, m) && name !in m.files
    ensures var (img', r) := Create(img, name, perms, owner, t);
            var (m', r') := M.CreateFile(m, name, perms, owner, t);
            r == r' && M.Implements(img', m')
  {
    hide NoSharing, UniqueNames, InodeInv, MetaBlock, NewInode, Lookup, FreeFrom, EmptyFrom;
    FreeListSize(img);
    EmptyCountZero(img.inodes);
    if m.free > 0 {
      var b, meta := FreeList(img)[0], NewMeta(perms, owner, t);
      assert b in FreeList(img) && b in FreeSet(img);
      if m.slots == 0 {
        LeakedBlock(img, b, MetaBlock(meta));
        var img' := img.(blocks := img.blocks[b := MetaBlock(meta)]);
        assert forall n: Name :: Lookup(img', n) == Lookup(img, n) == M.Get(m, n);
      } else {
        CreateSucceeds(img, m, EmptyFrom(img.inodes, 0).value, b, name, meta);
      }
    }
  }

  lemma CreateSucceeds(img: Image, m: M.Store, i: nat, b: U64, name: Name, meta: Metadata)
    requires M.Implements(img, m) && name !in m.files
    requires i < |img.inodes| && !Live(img.inodes[i]) && b in FreeSet(img)
    ensures m.slots > 0 && m.free > 0
    ensures M.Implements(Image(img.sb, img.inodes[i := NewInode(name, b)], img.blocks[b := MetaBlock(meta)]),
                         M.Put(m.(slots := m.slots - 1), name, File([], [], meta), 1))
  {
    hide NoSharing, InodeInv, MetaBlock, NewInode;
    assert Lookup(img, name) == M.Get(m, name);
    var img' := Image(img.sb, img.inodes[i := NewInode(name, b)], img.blocks[b := MetaBlock(meta)]);
    NewInodeFacts(name, b);
    CreateKeepsInv(img, i, b, name, MetaBlock(meta));
    CreateFree(img, i, b, name, MetaBlock(meta));
    EmptyCountUpdate(img.inodes, i, NewInode(name, b));
    CreatedFile(img, m, i, b, name, meta);
    assert forall n: Name | n != name :: Lookup(img', n) == Lookup(img, n) == M.Get(m, n);
  }

  /** A metadata block written for an inode that could not be had stays behind. */
  lemma LeakedBlock(img: Image, b: nat, meta: Block)
    requires Inv(img) && Free(img, b)
    ensures var img' := img.(blocks := img.blocks[b := meta]);
            && Inv(img')
            && FreeSet(img') == FreeSet(img) - (if meta == ZERO_BLOCK then {} else {b})
            && forall n: Name :: Lookup(img', n) == Lookup(img, n)
  {
    var img' := img.(blocks := img.blocks[b := meta]);
    forall n: Name ensures Lookup(img', n) == Lookup(img, n) {
      SameInodesKeepFiles(img, img', n, b);
    }
  }

  lemma SameInodesKeepFiles(img: Image, img': Image, name: Name, b: nat)
    requires Inv(img) && Inv(img') && img'.inodes == img.inodes
    requires b < |img.blocks| == |img'.blocks| && img'.blocks == img.blocks[b := img'.blocks[b]]
    requires !Referenced(img.inodes, b)
    ensures Lookup(img', name) == Lookup(img, name)
  {
    var r := Position(img.inodes, Pad(name));
    if r.Some? {
      FoundIsLive(img, name);
      var ino := img.inodes[r.value];
      assert InodeInv(ino, |img.blocks|);
      forall j | 0 <= j < Held(ino) ensures ino.pointers[j] != b {
        HeldIsReferenced(img.inodes, r.value, j);
      }
      FileFrame(img.blocks, img'.blocks, ino);
    }
  }

  lemma CreatedFile(img: Image, m: M.Store, i: nat, b: nat, name: Name, meta: Metadata)
    requires M.Implements(img, m) && name !in m.files
    requires i < |img.inodes| && !Live(img.inodes[i]) && Free(img, b)
    requires Inv(Image(img.sb, img.inodes[i := NewInode(name, b)], img.blocks[b := MetaBlock(meta)]))
    ensures var img' := Image(img.sb, img.inodes[i := NewInode(name, b)], img.blocks[b := MetaBlock(meta)]);
            forall n: Name :: Lookup(img', n) == if n == name then Some(File([], [], meta)) else Lookup(img, n)
  {
    var img' := Image(img.sb, img.inodes[i := NewInode(name, b)], img.blocks[b := MetaBlock(meta)]);
    var ino := NewInode(name, b);
    assert InodeInv(img.inodes[i], |img.blocks|);
    NewInodeOk(name, b, |img.blocks|);
    PositionUnique(img'.inodes, i);
    MetaRoundTrip(meta);
    assert ino.pointers[1..1] == [];
    assert FileAt(img'.blocks, ino) == File([], [], meta);
    assert Lookup(img', name) == Some(File([], [], meta));
    forall x, j | 0 <= x < |img.inodes| && 0 <= j < 12 && Ptr(img.inodes, x, j) != 0
      ensures Ptr(img.inodes, x, j) != b
    {
      HeldIsReferenced(img.inodes, x, j);
    }
    forall n: Name | n != name ensures Lookup(img', n) == Lookup(img, n) {
      PadInjective(n, name);
      OtherFilesKept(img, img', i, {b}, n);
    }
  }

  /** From "only this name changed" to the updated store. */
  lemma OnlyOneChanged(img: Image, img': Image, m: M.Store, name: Name, f: File, e: nat)
    requires M.Implements(img, m) && Inv(img')
    requires |FreeSet(img')| + e == |FreeSet(img)| && EmptyCount(img'.inodes) == EmptyCount(img.inodes)
    requires |img'.inodes| == |img.inodes| && img'.sb == img.sb
    requires Lookup(img', name) == Some(f)
    requires forall n: Name | Pad(n) != Pad(name) :: Lookup(img', n) == Lookup(img, n)
    ensures M.Implements(img', M.Put(m, name, f, e))
  {
    hide Inv, Lookup, FreeSet;
    forall n: Name ensures Lookup(img', n) == M.Get(M.Put(m, name, f, e), n) {
      if n != name {
        PadInjective(n, name);
        assert Lookup(img, n) == M.Get(m, n);
      }
    }
  }

  /** What an implemented store tells about one name. */
  lemma StoreFacts(img: Image, m: M.Store, name: Name)
    requires M.Implements(img, m)
    ensures Inv(img) && m.free == |FreeList(img)|
    ensures var pos := Position(img.inodes, Pad(name));
            && (pos.Some? <==> name in m.files)
            && (pos.Some? ==>
                  && Live(img.inodes[pos.value]) && InodeInv(img.inodes[pos.value], |img.blocks|)
                  && 1 <= Held(img.inodes[pos.value])
                  && m.files[name] == FileAt(img.blocks, img.inodes[pos.value]))
  {
    hide NoSharing, FreeSet;
    FreeListSize(img);
    assert Lookup(img, name) == M.Get(m, name);
    if Position(img.inodes, Pad(name)).Some? {
      LookupAt(img, Position(img.inodes, Pad(name)).value, name);
    }
  }

  // ----- chmod, chown and the metadata half of write_file

  lemma MetaConfined(img: Image, i: nat, blocks': seq<Block>)
    requires Inv(img) && i < |img.inodes| && Live(img.inodes[i]) && |blocks'| == |img.blocks|
    requires forall b :: 0 <= b < |img.blocks| && b != img.inodes[i].pointers[0] ==> blocks'[b] == img.blocks[b]
    ensures Confined(img, blocks', i, {img.inodes[i].pointers[0]})
  {
    assert Ptr(img.inodes, i, 0) == img.inodes[i].pointers[0];
  }

  lemma MetaWriteFile(img: Image, i: nat, meta: Metadata)
    requires Inv(img) && i < |img.inodes| && Live(img.inodes[i])
    ensures var ino := img.inodes[i];
            && InodeInv(ino, |img.blocks|)
            && FileAt(MetaWritten(img, ino.pointers[0], meta).blocks, ino) == FileAt(img.blocks, ino).(meta := meta)
  {
    var ino := img.inodes[i];
    assert InodeInv(ino, |img.blocks|);
    var p, n, k := ino.pointers[0], ino.numDataBlocks, Held(ino);
    var blocks' := MetaWritten(img, p, meta).blocks;
    assert Ptr(img.inodes, i, 0) == p;
    forall j | 0 < j < k ensures ino.pointers[j] != p {
      assert Ptr(img.inodes, i, j) == ino.pointers[j];
    }
    MetaRoundTrip(meta);
    assert BlocksAt(blocks', ino.pointers[1..n]) == BlocksAt(img.blocks, ino.pointers[1..n]);
    assert BlocksAt(blocks', ino.pointers[n..k]) == BlocksAt(img.blocks, ino.pointers[n..k]);
  }

  /** Rewriting the metadata block of inode i touches that file's metadata and nothing else. */
  lemma MetaWrite(img: Image, i: nat, meta: Metadata)
    requires Inv(img) && i < |img.inodes| && Live(img.inodes[i])
    ensures var ino := img.inodes[i];
            && InodeInv(ino, |img.blocks|)
            && var img' := MetaWritten(img, ino.pointers[0], meta);
            && Inv(img')
            && FreeSet(img') == FreeSet(img)
            && FileAt(img'.blocks, ino) == FileAt(img.blocks, ino).(meta := meta)
            && forall n: Name | Pad(n) != ino.fileName :: Lookup(img', n) == Lookup(img, n)
  {
    hide NoSharing, UniqueNames, FileAt, MetaBlock;
    MetaWriteFile(img, i, meta);
    var ino := img.inodes[i];
    var p := ino.pointers[0];
    var img' := MetaWritten(img, p, meta);
    assert Ptr(img.inodes, i, 0) == p;
    HeldIsReferenced(img.inodes, i, 0);
    assert FreeSet(img') == FreeSet(img);
    forall n: Name | Pad(n) != ino.fileName ensures Lookup(img', n) == Lookup(img, n) {
      assert img'.inodes == img.inodes[i := img'.inodes[i]];
      MetaConfined(img, i, img'.blocks);
      OtherFilesKept(img, img', i, {p}, n);
    }
  }

  lemma LookupAt(img: Image, i: nat, name: Name)
    requires Inv(img) && i < |img.inodes| && img.inodes[i].fileName == Pad(name)
    ensures Live(img.inodes[i]) && InodeInv(img.inodes[i], |img.blocks|)
    ensures Position(img.inodes, Pad(name)) == Some(i)
    ensures Lookup(img, name) == Some(FileAt(img.blocks, img.inodes[i]))
  {
    FoundIsLive(img, name);
    PositionUnique(img.inodes, i);
  }

  lemma SetMetaRefines(img: Image, m: M.Store, name: Name, change: Metadata -> Metadata)
    requires M.Implements(img, m)
    ensures var (img', r) := SetMeta(img, name, change);
            var (m', r') := M.ChangeMeta(m, name, change);
            r == r' && M.Implements(img', m')
  {
    assert Lookup(img, name) == M.Get(m, name);
    var pos := Position(img.inodes, Pad(name));
    if pos.Some? {
      var i := pos.value;
      var (img', r) := SetMeta(img, name, change);
      var (m', r') := M.ChangeMeta(m, name, change);
      LookupAt(img, i, name);
      MetaWriteRefines(img, m, i, name, change(m.files[name].meta));
    }
  }

  // ----- write_file

  /** Storing distinct blocks: pointer j then holds block j, everything else is as before. */
  lemma {:induction false} StoreAllEffect(blocks: seq<Block>, ps: seq<U64>, bs: seq<Block>)
    requires |ps| == |bs|
    requires forall j :: 0 <= j < |ps| ==> ps[j] < |blocks|
    requires forall j, j' :: 0 <= j < j' < |ps| ==> ps[j] != ps[j']
    ensures forall j :: 0 <= j < |ps| ==> StoreAll(blocks, ps, bs)[ps[j]] == bs[j]
    ensures forall b :: 0 <= b < |blocks| && b !in ps ==> StoreAll(blocks, ps, bs)[b] == blocks[b]
    decreases |ps|
  {
    if ps != [] {
      var n := |ps| - 1;
      StoreAllEffect(blocks, ps[..n], bs[..n]);
      forall b | 0 <= b < |blocks| && b !in ps ensures StoreAll(blocks, ps, bs)[b] == blocks[b] {
        assert ps[n] in ps;
        assert b !in ps[..n];
      }
    }
  }

  /** Pointers usable for the data of inode i: in range, distinct, and held by no other slot. */
  ghost predicate Usable(img: Image, i: nat, ps: seq<U64>)
    requires i < |img.inodes|
  {
    && |ps| <= 11
    && (forall j :: 0 <= j < |ps| ==> 1 <= ps[j] < |img.blocks| && ps[j] != img.inodes[i].pointers[0])
    && (forall j, j' :: 0 <= j < j' < |ps| ==> ps[j] != ps[j'])
    && (forall j, x :: 0 <= j < |ps| && 0 <= x < |img.inodes| && x != i ==> ps[j] !in img.inodes[x].pointers)
  }

  ghost predicate Writable(img: Image, i: nat, n: nat) {
    && Inv(img) && i < |img.inodes| && Live(img.inodes[i])
    && 1 <= n <= 11 && 1 <= Held(img.inodes[i]) && Extra(Held(img.inodes[i]) - 1, n) <= |FreeList(img)|
  }

  lemma FreeUnheld(img: Image, b: nat, x: nat, j: nat)
    requires Free(img, b) && x < |img.inodes| && j < 12
    ensures Ptr(img.inodes, x, j) != b
  {
    HeldIsReferenced(img.inodes, x, j);
  }

  /** Each pointer of a write is either the inode's own or free. */
  lemma WritePointerIs(img: Image, i: nat, n: nat, j: nat)
    requires Writable(img, i, n)
    requires j < |WritePointers(img.inodes[i], FreeList(img), n)|
    ensures var p, h := WritePointers(img.inodes[i], FreeList(img), n)[j], Held(img.inodes[i]) - 1;
            && (j < h ==> p == Ptr(img.inodes, i, j + 1) && p != 0)
            && (j >= h ==> j - h < |FreeList(img)| && p == FreeList(img)[j - h] && Free(img, p))
  {
    hide NoSharing, UniqueNames;
    var h, free := Held(img.inodes[i]) - 1, FreeList(img);
    if j >= h {
      assert free[j - h] in free;
    }
  }

  lemma WritePointersUsable(img: Image, i: nat, n: nat)
    requires Writable(img, i, n)
    ensures Usable(img, i, WritePointers(img.inodes[i], FreeList(img), n))
  {
    hide Free, Run, Position;
    var ps := WritePointers(img.inodes[i], FreeList(img), n);
    var h := Held(img.inodes[i]) - 1;
    WritePointersOk(img, i, n);
    forall j | 0 <= j < |ps|
      ensures ps[j] != img.inodes[i].pointers[0]
      ensures forall x :: 0 <= x < |img.inodes| && x != i ==> ps[j] !in img.inodes[x].pointers
    {
      WritePointerIs(img, i, n, j);
      forall x, j' | 0 <= x < |img.inodes| && 0 <= j' < 12 && (x != i || j' == 0)
        ensures ps[j] != Ptr(img.inodes, x, j')
      {
        if j >= h {
          FreeUnheld(img, ps[j], x, j');
        }
      }
      assert ps[j] != Ptr(img.inodes, i, 0);
      forall x | 0 <= x < |img.inodes| && x != i ensures ps[j] !in img.inodes[x].pointers {
        assert forall j' :: 0 <= j' < 12 ==> img.inodes[x].pointers[j'] == Ptr(img.inodes, x, j');
      }
    }
    forall j, j' | 0 <= j < j' < |ps| ensures ps[j] != ps[j'] {
      WritePointerIs(img, i, n, j);
      WritePointerIs(img, i, n, j');
      if j < h <= j' {
        FreeUnheld(img, ps[j'], i, j + 1);
      }
    }
  }

  lemma RepointedAt(ino: Inode, ps: seq<U64>, n: nat)
    requires n <= |ps| <= 11
    ensures var ino' := Repointed(ino, ps, n);
            && ino' == ino.(numDataBlocks := n + 1, pointers := ino'.pointers)
            && ino'.pointers[0] == ino.pointers[0]
            && (forall j :: 1 <= j <= |ps| ==> ino'.pointers[j] == ps[j - 1])
            && (forall j :: |ps| < j < 12 ==> ino'.pointers[j] == 0)
  {
  }

  lemma RepointedOk(img: Image, i: nat, ps: seq<U64>, n: nat)
    requires Inv(img) && i < |img.inodes| && Live(img.inodes[i])
    requires Usable(img, i, ps) && n <= |ps|
    ensures var ino' := Repointed(img.inodes[i], ps, n);
            && InodeInv(ino', |img.blocks|) && Held(ino') == |ps| + 1
            && (forall j :: 1 <= j <= |ps| ==> ino'.pointers[j] == ps[j - 1])
            && NoSharing(img.inodes[i := ino']) && UniqueNames(img.inodes[i := ino'])
  {
    hide Run;
    var ino := img.inodes[i];
    var ino' := Repointed(ino, ps, n);
    assert InodeInv(ino, |img.blocks|);
    RepointedAt(ino, ps, n);
    RunIs(ino'.pointers, |ps| + 1);
    forall x, j | 0 <= x < |img.inodes| && x != i && 0 <= j < 12 && Ptr(img.inodes, x, j) != 0
      ensures Ptr(img.inodes, x, j) !in ino'.pointers
    {
      RepointedIsNew(img, i, ps, n, x, j);
    }
    SharingUpdate(img.inodes, i, ino');
  }

  /** No pointer of the repointed inode is a pointer of another inode. */
  lemma RepointedIsNew(img: Image, i: nat, ps: seq<U64>, n: nat, x: nat, j: nat)
    requires Inv(img) && i < |img.inodes| && Live(img.inodes[i])
    requires Usable(img, i, ps) && n <= |ps|
    requires x < |img.inodes| && x != i && j < 12 && Ptr(img.inodes, x, j) != 0
    ensures Ptr(img.inodes, x, j) !in Repointed(img.inodes[i], ps, n).pointers
  {
    hide UniqueNames, Run, Repointed;
    RepointedAt(img.inodes[i], ps, n);
    var s, p, q := img.inodes, Ptr(img.inodes, x, j), Repointed(img.inodes[i], ps, n).pointers;
    assert p in s[x].pointers;
    assert q[0] == Ptr(s, i, 0);
    forall y | 0 <= y < 12 ensures q[y] != p {
      assert 1 <= y <= |ps| ==> q[y] == ps[y - 1] && ps[y - 1] !in s[x].pointers;
    }
  }

  /** The free blocks a write of n data blocks takes. */
  function Taken(img: Image, i: nat, n: nat): seq<U64>
    requires Addressable(img) && i < |img.inodes| && 1 <= Held(img.inodes[i])
    requires Extra(Held(img.inodes[i]) - 1, n) <= |FreeList(img)|
  {
    FreeList(img)[..Extra(Held(img.inodes[i]) - 1, n)]
  }

  lemma WriteFree(img: Image, i: nat, n: nat, blocks': seq<Block>)
    requires Inv(img) && i < |img.inodes| && Live(img.inodes[i])
    requires n <= 11 && Extra(Held(img.inodes[i]) - 1, n) <= |FreeList(img)|
    requires |blocks'| == |img.blocks|
    requires var ps := WritePointers(img.inodes[i], FreeList(img), n);
             Usable(img, i, ps) && n <= |ps|
             && forall b :: 0 <= b < |img.blocks| && b !in ps ==> blocks'[b] == img.blocks[b]
    ensures var ps := WritePointers(img.inodes[i], FreeList(img), n);
            var img' := Image(img.sb, img.inodes[i := Repointed(img.inodes[i], ps, n)], blocks');
            FreeSet(img') == FreeSet(img) - Elems(Taken(img, i, n))
  {
    var ino, free := img.inodes[i], FreeList(img);
    var ps := WritePointers(ino, free, n);
    var ino' := Repointed(ino, ps, n);
    var img' := Image(img.sb, img.inodes[i := ino'], blocks');
    assert InodeInv(ino, |img.blocks|);
    forall c: nat | 1 <= c < |img.blocks|
      ensures Free(img', c) <==> Free(img, c) && c !in Taken(img, i, n)
    {
      ReferencedUpdate(img.inodes, i, ino', c);
      ReferencedUpdate(img.inodes, i, ino, c);
      assert img.inodes[i := ino] == img.inodes;
      RepointedMembers(ino, free, n, c);
    }
  }

  lemma RepointedMembers(ino: Inode, free: seq<U64>, n: nat, c: nat)
    requires 1 <= Held(ino) && n <= 11 && c != 0
    requires forall j :: Held(ino) <= j < 12 ==> ino.pointers[j] == 0
    requires Extra(Held(ino) - 1, n) <= |free|
    ensures var ps := WritePointers(ino, free, n);
            && n <= |ps| <= 11
            && (c in Repointed(ino, ps, n).pointers <==> c in ino.pointers || c in free[..Extra(Held(ino) - 1, n)])
            && (c in ps ==> c in Repointed(ino, ps, n).pointers)
  {
    var h := Held(ino);
    var ps := WritePointers(ino, free, n);
    var e := Extra(h - 1, n);
    assert ino.pointers == [ino.pointers[0]] + ino.pointers[1..h] + ino.pointers[h..];
    assert c !in ino.pointers[h..];
    assert c !in NO_POINTERS[|ps| + 1..];
  }

  /** The file a write leaves behind. */
  lemma WrittenFile(img: Image, i: nat, ps: seq<U64>, n: nat, bs: seq<Block>)
    requires Inv(img) && i < |img.inodes| && Live(img.inodes[i])
    requires Usable(img, i, ps) && n <= |ps| && |bs| == n
    ensures var ino' := Repointed(img.inodes[i], ps, n);
            var blocks' := StoreAll(img.blocks, ps[..n], bs);
            && InodeInv(ino', |blocks'|)
            && FileAt(blocks', ino')
               == File(Flatten(bs), BlocksAt(img.blocks, ps[n..]), ReadMeta(img.blocks[img.inodes[i].pointers[0]]))
            && forall b :: 0 <= b < |img.blocks| && b !in ps[..n] ==> blocks'[b] == img.blocks[b]
  {
    hide Inv, Flatten, ReadMeta, StoreAll, Free, FreeFrom, Run, FileAt, InodeInv;
    var ino' := Repointed(img.inodes[i], ps, n);
    var blocks' := StoreAll(img.blocks, ps[..n], bs);
    RepointedOk(img, i, ps, n);
    RepointedAt(img.inodes[i], ps, n);
    StoreAllEffect(img.blocks, ps[..n], bs);
    assert img.inodes[i].pointers[0] !in ps[..n];
    RepointedPointer(img, i, ps, n);
    forall j | 0 <= j < n ensures blocks'[ps[j]] == bs[j] {
      assert ps[..n][j] == ps[j];
    }
    RepointedFile(blocks', ino', ps, n, bs);
    assert BlocksAt(blocks', ps[n..]) == BlocksAt(img.blocks, ps[n..]) by {
      forall j | 0 <= j < |ps| - n ensures ps[n..][j] !in ps[..n] {
        assert ps[n..][j] == ps[n + j];
      }
    }
  }

  lemma RepointedPointer(img: Image, i: nat, ps: seq<U64>, n: nat)
    requires Inv(img) && i < |img.inodes| && Live(img.inodes[i]) && n <= |ps| <= 11
    ensures Live(Repointed(img.inodes[i], ps, n)) && img.inodes[i].pointers[0] < |img.blocks|
  {
    hide NoSharing, UniqueNames;
    assert InodeInv(img.inodes[i], |img.blocks|);
  }

  /** The file an inode with data pointers ps shows. */
  lemma RepointedFile(blocks: seq<Block>, ino: Inode, ps: seq<U64>, n: nat, bs: seq<Block>)
    requires Live(ino) && InodeInv(ino, |blocks|) && ino.numDataBlocks == n + 1 && Held(ino) == |ps| + 1
    requires |bs| == n <= |ps| <= 11 && forall j :: 1 <= j <= |ps| ==> ino.pointers[j] == ps[j - 1]
    requires forall j :: 0 <= j < |ps| ==> ps[j] < |blocks|
    requires forall j :: 0 <= j < n ==> blocks[ps[j]] == bs[j]
    ensures ino.pointers[0] < |blocks|
    ensures FileAt(blocks, ino) == File(Flatten(bs), BlocksAt(blocks, ps[n..]), ReadMeta(blocks[ino.pointers[0]]))
  {
    hide Flatten, ReadMeta, Run;
    assert ino.pointers[1..n + 1] == ps[..n];
    assert ino.pointers[n + 1..|ps| + 1] == ps[n..];
    assert BlocksAt(blocks, ps[..n]) == bs;
  }

  lemma {:induction false} SameFreeList(img: Image, img': Image, lo: nat)
    requires |img.blocks| == |img'.blocks| && Addressable(img) && FreeSet(img) == FreeSet(img')
    ensures 1 <= lo ==> FreeFrom(img', lo) == FreeFrom(img, lo)
    decreases |img.blocks| - lo
  {
    if 1 <= lo < |img.blocks| {
      assert Free(img, lo) <==> lo in FreeSet(img);
      assert Free(img', lo) <==> lo in FreeSet(img');
      SameFreeList(img, img', lo + 1);
    }
  }

  lemma DataWriteFile(img: Image, i: nat, bs: seq<Block>)
    requires Writable(img, i, |bs|)
    ensures var ps := WritePointers(img.inodes[i], FreeList(img), |bs|);
            && Usable(img, i, ps) && |bs| <= |ps|
            && var img' := DataWritten(img, i, ps, bs);
            && Inv(img')
            && FileAt(img'.blocks, img'.inodes[i])
               == File(Flatten(bs), BlocksAt(img.blocks, ps[|bs|..]), ReadMeta(img.blocks[img.inodes[i].pointers[0]]))
            && forall b :: 0 <= b < |img.blocks| && b !in ps[..|bs|] ==> img'.blocks[b] == img.blocks[b]
  {
    hide NoSharing, UniqueNames, StoreAll, Run, FreeFrom, Free;
    var ps := WritePointers(img.inodes[i], FreeList(img), |bs|);
    WritePointersUsable(img, i, |bs|);
    WritePointersOk(img, i, |bs|);
    RepointedOk(img, i, ps, |bs|);
    WrittenFile(img, i, ps, |bs|, bs);
  }

  lemma DataWriteFree(img: Image, i: nat, bs: seq<Block>)
    requires Writable(img, i, |bs|)
    ensures var ps := WritePointers(img.inodes[i], FreeList(img), |bs|);
            && Usable(img, i, ps) && |bs| <= |ps|
            && |FreeSet(DataWritten(img, i, ps, bs))| == |FreeSet(img)| - Extra(Held(img.inodes[i]) - 1, |bs|)
  {
    hide NoSharing, UniqueNames, FileAt, Flatten;
    DataWriteFile(img, i, bs);
    var ps := WritePointers(img.inodes[i], FreeList(img), |bs|);
    var img' := DataWritten(img, i, ps, bs);
    WriteFree(img, i, |bs|, img'.blocks);
    var taken := Taken(img, i, |bs|);
    SizeOfDistinct(taken);
    assert Elems(taken) <= FreeSet(img) by {
      assert forall b :: b in taken ==> b in FreeList(img);
    }
  }

  lemma DataWriteOthers(img: Image, i: nat, bs: seq<Block>, name: Name)
    requires Writable(img, i, |bs|) && Pad(name) != img.inodes[i].fileName
    ensures var ps := WritePointers(img.inodes[i], FreeList(img), |bs|);
            && Usable(img, i, ps) && |bs| <= |ps|
            && Inv(DataWritten(img, i, ps, bs))
            && Lookup(DataWritten(img, i, ps, bs), name) == Lookup(img, name)
  {
    DataWriteFile(img, i, bs);
    var ps := WritePointers(img.inodes[i], FreeList(img), |bs|);
    var img' := DataWritten(img, i, ps, bs);
    forall x, j | 0 <= x < |img.inodes| && x != i && 0 <= j < 12 && Ptr(img.inodes, x, j) != 0
      ensures Ptr(img.inodes, x, j) !in Elems(ps[..|bs|])
    {
      assert Ptr(img.inodes, x, j) in img.inodes[x].pointers;
    }
    OtherFilesKept(img, img', i, Elems(ps[..|bs|]), name);
  }

  /** The data half of write_file: the target file changes, the blocks taken leave the free set. */
  lemma DataWrite(img: Image, m: M.Store, i: nat, name: Name, bs: seq<Block>)
    requires Writable(img, i, |bs|) && M.Implements(img, m) && img.inodes[i].fileName == Pad(name)
    ensures var ps, e := WritePointers(img.inodes[i], FreeList(img), |bs|), Extra(Held(img.inodes[i]) - 1, |bs|);
            && Usable(img, i, ps) && e <= m.free && name in m.files
            && var f := File(Flatten(bs), BlocksAt(img.blocks, ps[|bs|..]), m.files[name].meta);
            M.Implements(DataWritten(img, i, ps, bs), M.Put(m, name, f, e))
  {
    hide NoSharing, UniqueNames, FreeSet, Free, StoreAll, Run;
    var ps := WritePointers(img.inodes[i], FreeList(img), |bs|);
    DataWriteFile(img, i, bs);
    DataWriteFree(img, i, bs);
    FreeListSize(img);
    LookupAt(img, i, name);
    assert Lookup(img, name) == M.Get(m, name);
    var img' := DataWritten(img, i, ps, bs);
    LookupAt(img', i, name);
    EmptyCountUpdate(img.inodes, i, img'.inodes[i]);
    forall n: Name | Pad(n) != Pad(name) ensures Lookup(img', n) == Lookup(img, n) {
      DataWriteOthers(img, i, bs, n);
    }
    var f := File(Flatten(bs), BlocksAt(img.blocks, ps[|bs|..]), m.files[name].meta);
    assert FileAt(img'.blocks, img'.inodes[i]) == f;
    OnlyOneChanged(img, img', m, name, f, Extra(Held(img.inodes[i]) - 1, |bs|));
  }

  lemma RetainedBlocks(blocks: seq<Block>, ino: Inode)
    requires Live(ino) && InodeInv(ino, |blocks|)
    ensures M.Retained(FileAt(blocks, ino)) == BlocksAt(blocks, ino.pointers[1..Held(ino)])
  {
    hide Flatten, Chunks, Run;
    var n, k := ino.numDataBlocks, Held(ino);
    ChunksFlatten(BlocksAt(blocks, ino.pointers[1..n]));
    assert ino.pointers[1..k] == ino.pointers[1..n] + ino.pointers[n..k];
    assert BlocksAt(blocks, ino.pointers[1..k])
        == BlocksAt(blocks, ino.pointers[1..n]) + BlocksAt(blocks, ino.pointers[n..k]);
  }

  /** The metadata half, as a step of the store. */
  lemma MetaWriteRefines(img: Image, m: M.Store, i: nat, name: Name, meta: Metadata)
    requires M.Implements(img, m) && i < |img.inodes| && img.inodes[i].fileName == Pad(name)
    ensures InodeInv(img.inodes[i], |img.blocks|) && Live(img.inodes[i]) && name in m.files
    ensures var img' := MetaWritten(img, img.inodes[i].pointers[0], meta);
            && M.Implements(img', M.Put(m, name, m.files[name].(meta := meta), 0))
            && FreeList(img') == FreeList(img)
  {
    LookupAt(img, i, name);
    assert Lookup(img, name) == M.Get(m, name);
    MetaWrite(img, i, meta);
    var img' := MetaWritten(img, img.inodes[i].pointers[0], meta);
    LookupAt(img', i, name);
    OnlyOneChanged(img, img', m, name, m.files[name].(meta := meta), 0);
    SameFreeList(img, img', 1);
  }

  /** Blocks beyond the new length stay with the file. */
  lemma SpareBlocks(img: Image, i: nat, meta: Metadata, n: nat)
    requires Inv(img) && i < |img.inodes| && Live(img.inodes[i]) && InodeInv(img.inodes[i], |img.blocks|)
    requires Writable(img, i, n)
    ensures var ino := img.inodes[i];
            var ps, kept := WritePointers(ino, FreeList(img), n), BlocksAt(img.blocks, ino.pointers[1..Held(ino)]);
            && (forall j :: 0 <= j < |ps| ==> ps[j] < |img.blocks|)
            && BlocksAt(MetaWritten(img, ino.pointers[0], meta).blocks, ps[n..])
               == if n <= |kept| then kept[n..] else []
  {
    WritePointersUsable(img, i, n);
  }

  lemma WriteSucceeds(img: Image, m: M.Store, i: nat, name: Name, data: seq<Byte>, meta: Metadata)
    requires M.Implements(img, m) && |data| < DIRECT_LIMIT
    requires Writable(img, i, |data| / 512 + 1) && img.inodes[i].fileName == Pad(name)
    ensures var bs, ino := Chunks(Padded(data)), img.inodes[i];
            && name in m.files && Live(ino) && InodeInv(ino, |img.blocks|)
            && var ps, kept := WritePointers(ino, FreeList(img), |bs|), M.Retained(m.files[name]);
            && Usable(img, i, ps)
            && |kept| == Held(ino) - 1 && Extra(|kept|, |bs|) <= m.free
            && M.Implements(DataWritten(MetaWritten(img, ino.pointers[0], meta), i, ps, bs),
                            M.Put(m, name, File(Padded(data), if |bs| <= |kept| then kept[|bs|..] else [], meta),
                                  Extra(|kept|, |bs|)))
  {
    hide NoSharing, UniqueNames, FreeSet, Free, StoreAll, Run, Padded, Chunks, Flatten, InodeInv, MetaBlock;
    var ino := img.inodes[i];
    LookupAt(img, i, name);
    assert Lookup(img, name) == M.Get(m, name);
    var f := m.files[name];
    RetainedBlocks(img.blocks, ino);
    MetaWriteRefines(img, m, i, name, meta);
    var img1, m1 := MetaWritten(img, ino.pointers[0], meta), M.Put(m, name, f.(meta := meta), 0);
    PaddedChunks(data);
    var bs := Chunks(Padded(data));
    DataWrite(img1, m1, i, name, bs);
    SpareBlocks(img, i, meta, |bs|);
    WritePointersUsable(img, i, |bs|);
    var ps := WritePointers(ino, FreeList(img), |bs|);
    PutTwice(m, name, f.(meta := meta), File(Padded(data), BlocksAt(img1.blocks, ps[|bs|..]), meta),
             Extra(Held(ino) - 1, |bs|));
  }

  /** write_file: contents, metadata, free count, error and every other file, as the store says. */
  lemma WriteRefines(img: Image, m: M.Store, name: Name, data: seq<Byte>, perms: Option<Perms>, owner: Option<U64>,
                     now: U64)
    requires M.Implements(img, m) && |data| < DIRECT_LIMIT
    ensures var (img', r) := Write(img, name, data, perms, owner, now);
            var (m', r') := M.WriteFile(m, name, data, perms, owner, now);
            r == r' && M.Implements(img', m')
  {
    hide M.Implements, Inv, Write, StoreAll, Run, Padded, Chunks, Flatten, MetaBlock, FreeFrom, Position, InodeInv;
    StoreFacts(img, m, name);
    WriteUnfolds(img, name, data, perms, owner, now);
    if name in m.files {
      var i := Position(img.inodes, Pad(name)).value;
      RetainedBlocks(img.blocks, img.inodes[i]);
      PaddedChunks(data);
      var meta := WrittenMeta(m.files[name].meta, perms, owner, now);
      if m.free < Extra(Held(img.inodes[i]) - 1, |data| / 512 + 1) {
        MetaWriteRefines(img, m, i, name, meta);
      } else {
        assert Writable(img, i, |data| / 512 + 1);
        WriteSucceeds(img, m, i, name, data, meta);
      }
    }
  }

  /** write_file, case by case. */
  lemma WriteUnfolds(img: Image, name: Name, data: seq<Byte>, perms: Option<Perms>, owner: Option<U64>, now: U64)
    requires Inv(img) && |data| < DIRECT_LIMIT
    ensures var pos, out := Position(img.inodes, Pad(name)), Write(img, name, data, perms, owner, now);
            && (pos.None? ==> out == (img, Err(FileNotFound)))
            && (pos.Some? ==>
                  && Live(img.inodes[pos.value]) && InodeInv(img.inodes[pos.value], |img.blocks|)
                  && var ino, bs, free := img.inodes[pos.value], Chunks(Padded(data)), FreeList(img);
                  var meta := WrittenMeta(ReadMeta(img.blocks[ino.pointers[0]]), perms, owner, now);
                  var img1 := MetaWritten(img, ino.pointers[0], meta);
                  if |free| < Extra(Held(ino) - 1, |bs|) then out == (img1, Err(DiskFull))
                  else
                    var ps := WritePointers(ino, free, |bs|);
                    && |ps| <= 11 && |bs| <= |ps| && (forall j :: 0 <= j < |ps| ==> ps[j] < |img.blocks|)
                    && out == (DataWritten(img1, pos.value, ps, bs), Ok(())))
  {
    hide NoSharing, UniqueNames, StoreAll, Run, Padded, MetaBlock, FreeFrom, Position, Pad, ReadMeta, Repointed;
    FoundIsLive(img, name);
    var pos := Position(img.inodes, Pad(name));
    if pos.Some? {
      assert InodeInv(img.inodes[pos.value], |img.blocks|);
      PaddedChunks(data);
      var n := |Chunks(Padded(data))|;
      if Extra(Held(img.inodes[pos.value]) - 1, n) <= |FreeList(img)| {
        WritePointersOk(img, pos.value, n);
      }
    }
  }

  lemma PutTwice(m: M.Store, name: Name, f: File, g: File, e: nat)
    requires e <= m.free
    ensures M.Put(M.Put(m, name, f, 0), name, g, e) == M.Put(m, name, g, e)
  {
    assert m.files[name := f][name := g] == m.files[name := g];
  }

  // ----- every image satisfying the invariant implements some store

  ghost predicate FoundBelow(img: Image, files: map<Name, File>, i: nat, name: Name)
    requires Inv(img)
  {
    var pos := Position(img.inodes, Pad(name));
    && (name in files <==> pos.Some? && pos.value < i)
    && (name in files ==> Lookup(img, name) == Some(files[name]))
  }

  lemma FoundStep(img: Image, files: map<Name, File>, i: nat, name: Name)
    requires Inv(img) && i < |img.inodes| && FoundBelow(img, files, i, name)
    requires img.inodes[i].fileName != Pad(name)
    ensures FoundBelow(img, files, i + 1, name)
  {
  }

  lemma FoundAdded(img: Image, files: map<Name, File>, i: nat, own: Name, f: File, name: Name)
    requires Inv(img) && FoundBelow(img, files, i, name) && name != own
    ensures FoundBelow(img, files[own := f], i, name)
  {
  }

  lemma FoundOwn(img: Image, files: map<Name, File>, i: nat, own: Name)
    requires Inv(img) && i < |img.inodes| && img.inodes[i].fileName == Pad(own)
    ensures Lookup(img, own).Some?
    ensures FoundBelow(img, files, i, own) ==> own !in files
    ensures FoundBelow(img, files[own := Lookup(img, own).value], i + 1, own)
  {
    LookupAt(img, i, own);
  }

  /** Adding the ith inode's file, if it has one, moves the bound up for every name. */
  lemma FoundNext(img: Image, files: map<Name, File>, i: nat) returns (next: map<Name, File>)
    requires Inv(img) && i < |img.inodes| && forall n: Name :: FoundBelow(img, files, i, n)
    ensures var j := i + 1; forall n: Name :: FoundBelow(img, next, j, n)
    ensures |next| == |files| + if Live(img.inodes[i]) then 1 else 0
  {
    hide NoSharing, UniqueNames, FoundBelow, Lookup, Run;
    assert InodeInv(img.inodes[i], |img.blocks|);
    var j := i + 1;
    next := files;
    if Live(img.inodes[i]) {
      var own: Name :| img.inodes[i].fileName == Pad(own);
      FoundOwn(img, files, i, own);
      var f := Lookup(img, own).value;
      assert FoundBelow(img, files, i, own);
      next := files[own := f];
      assert next.Keys == files.Keys + {own};
      forall n: Name ensures FoundBelow(img, next, j, n) {
        if n != own {
          PadInjective(n, own);
          FoundStep(img, files, i, n);
          FoundAdded(img, files, j, own, f, n);
        }
      }
    } else {
      forall n: Name ensures FoundBelow(img, next, j, n) {
        assert Pad(n) != Zeros(384);
        FoundStep(img, files, i, n);
      }
    }
  }

  lemma FoundNone(img: Image)
    requires Inv(img)
    ensures forall n: Name :: FoundBelow(img, map[], 0, n)
  {
  }

  lemma FoundAll(img: Image, files: map<Name, File>, n: Name)
    requires Inv(img) && FoundBelow(img, files, |img.inodes|, n)
    ensures Lookup(img, n) == if n in files then Some(files[n]) else None
  {
  }

  lemma StoreExists(img: Image) returns (m: M.Store)
    requires Inv(img)
    ensures M.Implements(img, m) && |m.files| + m.slots == m.inodes
  {
    hide Inv, FoundBelow, FreeSet, EmptyCount, Lookup;
    EmptyCountNone();
    FoundNone(img);
    var files: map<Name, File> := map[];
    for i := 0 to |img.inodes|
      invariant forall n: Name :: FoundBelow(img, files, i, n)
      invariant |files| + EmptyCount(img.inodes[..i]) == i
    {
      EmptyCountNext(img.inodes, i);
      files := FoundNext(img, files, i);
    }
    assert img.inodes[..|img.inodes|] == img.inodes;
    m := M.Store(files, |FreeSet(img)|, EmptyCount(img.inodes), |img.inodes|, img.sb.numInodes);
    forall n: Name ensures Lookup(img, n) == M.Get(m, n) {
      FoundAll(img, files, n);
    }
  }

  lemma EmptyCountNone()
    ensures EmptyCount([]) == 0
  {
  }

  lemma EmptyCountNext(s: seq<Inode>, i: nat)
    requires i < |s|
    ensures EmptyCount(s[..i + 1]) == EmptyCount(s[..i]) + if Live(s[i]) then 0 else 1
  {
    EmptyCountConcat(s[..i], [s[i]]);
    assert s[..i + 1] == s[..i] + [s[i]] && [s[i]][1..] == [];
  }

  /** An image stands for one store. */
  lemma ImplementsUnique(img: Image, m: M.Store, m': M.Store)
    requires M.Implements(img, m) && M.Implements(img, m')
    ensures m == m'
  {
    hide Inv, Lookup, FreeSet, EmptyCount;
    forall n: Name ensures M.Get(m, n) == M.Get(m', n) {
      assert Lookup(img, n) == M.Get(m, n) && Lookup(img, n) == M.Get(m', n);
    }
    assert forall n: Name :: n in m.files <==> M.Get(m, n).Some?;
    assert forall n: Name :: n in m'.files <==> M.Get(m', n).Some?;
    assert m.files == m'.files;
  }

  /** Every table entry is a file of the store or an unused slot. */
  lemma TableAccounted(img: Image, m: M.Store)
    requires M.Implements(img, m)
    ensures |m.files| + m.slots == m.inodes
  {
    var m' := StoreExists(img);
    ImplementsUnique(img, m, m');
  }
}
