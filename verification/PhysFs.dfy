/**
 * PhysFs itself: the inode table and data blocks, updated in place by the loops of the source.
 * The ghost field `store` is the map the object stands for; Valid() ties it to the real fields, and
 * each operation's contract is the corresponding step of that map.
 */
module PhysFsClass {
  import opened Common
  import opened Bytes
  import opened FsTypes
  import opened FsImage
  import opened FsFrames
  import opened FsRefine
  import opened BlockTree
  import opened FsSpill
  import M = FsModel

  /** The allocator's answer: the lowest free block outside the ignore list, or DiskFull if there is none. */
  ghost predicate IsFirstFree(img: Image, ignore: seq<U64>, r: Result<U64>) {
    match r
    case Ok(b) => Free(img, b) && b !in ignore && forall c :: 1 <= c < b && Free(img, c) ==> c in ignore
    case Err(e) => e == DiskFull && forall c :: 1 <= c < |img.blocks| && Free(img, c) ==> c in ignore
    case Panic => false
  }

  /** With the first k free blocks already spoken for, the allocator yields the next one. */
  lemma FirstFreeIsNext(img: Image, ignore: seq<U64>, k: nat, r: Result<U64>)
    requires Addressable(img) && k <= |FreeList(img)|
    requires IsFirstFree(img, ignore, r)
    requires forall b :: b in ignore && Free(img, b) <==> b in FreeList(img)[..k]
    ensures r == if k < |FreeList(img)| then Ok(FreeList(img)[k]) else Err(DiskFull)
  {
    var free := FreeList(img);
    forall y | 0 <= y < k ensures free[y] in ignore {
      assert free[y] in free[..k];
    }
    if k < |free| {
      assert free[k] in free && free[k] !in free[..k];
      assert r.value in free;
      var x :| 0 <= x < |free| && free[x] == r.value;
    } else {
      assert free[..k] == free;
      assert forall c :: 1 <= c < |img.blocks| && Free(img, c) ==> c in free && c in ignore;
    }
  }

  /** The allocator on the free list. */
  lemma {:induction false} FirstFreeOutside(img: Image, ignore: seq<U64>, r: Result<U64>)
    requires Addressable(img) && IsFirstFree(img, ignore, r)
    ensures FirstOutside(FreeList(img), ignore) == if r.Ok? then Some(r.value) else None
  {
    hide Free, FreeFrom;
    var free := FreeList(img);
    assert forall x :: 0 <= x < |free| ==> free[x] in free;
    if r.Ok? {
      InFreeList(img, r.value);
      var x :| 0 <= x < |free| && free[x] == r.value;
      FirstOutsideIs(free, ignore, x);
    } else {
      FirstOutsideIs(free, ignore, |free|);
    }
  }

  lemma {:induction false} FlattenAppend(bs: seq<Block>, b: Block)
    ensures Flatten(bs + [b]) == Flatten(bs) + b
  {
    if bs == [] {
      assert bs + [b] == [b] && [b][1..] == [];
    } else {
      FlattenAppend(bs[1..], b);
      assert (bs + [b])[1..] == bs[1..] + [b];
      assert bs[0] + (Flatten(bs[1..]) + b) == (bs[0] + Flatten(bs[1..])) + b;
    }
  }

  /** Of the blocks chosen so far only the fresh ones are free. */
  lemma ChosenSoFar(img: Image, metaBlock: U64, existing: seq<U64>, chosen: seq<U64>, i: nat)
    requires Addressable(img) && |existing| <= i < |chosen| && i <= |existing| + |FreeList(img)|
    requires Referenced(img.inodes, metaBlock)
    requires forall b :: b in existing ==> Referenced(img.inodes, b)
    requires chosen[..i] == (existing + FreeList(img))[..i]
    requires i == 0 ==> chosen[0] == metaBlock
    requires forall j :: i <= j < |chosen| && j != 0 ==> chosen[j] == 0
    ensures forall b :: b in chosen && Free(img, b) <==> b in FreeList(img)[..i - |existing|]
  {
    var free := FreeList(img);
    var k := i - |existing|;
    assert chosen == chosen[..i] + chosen[i..];
    assert (existing + free)[..i] == existing + free[..k];
    forall b ensures b in chosen && Free(img, b) <==> b in free[..k] {
      if b in chosen[i..] {
        assert b == metaBlock || b == 0;
      }
      if b in free[..k] {
        assert b in free;
      }
    }
  }

  /** Writing metadata does not change what is free. */
  lemma MetaKeepsFree(img: Image, i: nat, meta: Metadata)
    requires Inv(img) && i < |img.inodes| && Live(img.inodes[i])
    ensures InodeInv(img.inodes[i], |img.blocks|)
    ensures Inv(MetaWritten(img, img.inodes[i].pointers[0], meta))
    ensures FreeList(MetaWritten(img, img.inodes[i].pointers[0], meta)) == FreeList(img)
  {
    MetaWrite(img, i, meta);
    SameFreeList(img, MetaWritten(img, img.inodes[i].pointers[0], meta), 1);
  }

  lemma OwnBlocksReferenced(inodes: seq<Inode>, i: nat)
    requires i < |inodes|
    ensures forall b :: b in inodes[i].pointers ==> Referenced(inodes, b)
  {
  }

  lemma ChosenArePointers(img: Image, i: nat, n: nat)
    requires Writable(img, i, n)
    ensures var ps := WritePointers(img.inodes[i], FreeList(img), n);
            && (img.inodes[i].pointers[1..Held(img.inodes[i])] + FreeList(img))[..n] == ps[..n]
            && |ps| <= 11 && forall j :: 0 <= j < |ps| ==> 1 <= ps[j] < |img.blocks|
  {
    WritePointersOk(img, i, n);
  }

  lemma ChosenInRange(img: Image, i: nat, n: nat)
    requires Inv(img) && i < |img.inodes| && Live(img.inodes[i]) && 1 <= Held(img.inodes[i])
    requires Extra(Held(img.inodes[i]) - 1, n) <= |FreeList(img)|
    ensures var blocks := FirstBlocks(img.inodes[i], FreeList(img), n);
            forall j :: 0 <= j < n ==> blocks[j] < |img.blocks|
  {
    hide NoSharing, UniqueNames;
    var ino, free := img.inodes[i], FreeList(img);
    assert InodeInv(ino, |img.blocks|);
    forall j | 0 <= j < n ensures FirstBlocks(ino, free, n)[j] < |img.blocks| {
      if j < Held(ino) - 1 {
        assert FirstBlocks(ino, free, n)[j] == ino.pointers[j + 1];
      } else {
        var x := j - (Held(ino) - 1);
        assert FirstBlocks(ino, free, n)[j] == free[x] && free[x] in free;
      }
    }
  }

  /** Without indirect tables that is what the map holds. */
  lemma ReadResultIs(img: Image, m: M.Store, name: Name)
    requires M.Implements(img, m)
    ensures ReadResult(img, name)
         == if name in m.files then Ok((m.files[name].bytes, m.files[name].meta)) else Err(FileNotFound)
  {
    hide M.Implements, FsImage.Position, NoSharing, UniqueNames, ReadBytes, FileAt, ReadMeta, Run;
    StoreFacts(img, m, name);
    var pos := Position(img.inodes, Pad(name));
    if pos.Some? {
      DirectRead(img.blocks, img.inodes[pos.value]);
    }
  }

  lemma UpdatedPosition(inodes: seq<Inode>, i: nat, updated: Inode)
    requires UniqueNames(inodes) && i < |inodes| && Live(inodes[i])
    requires Live(updated) && updated.fileName == inodes[i].fileName
    ensures Position(inodes, updated.fileName) == Some(i)
    ensures Position(inodes[i := updated], updated.fileName) == Some(i)
  {
    hide Position;
    PositionUnique(inodes, i);
    PositionUnique(inodes[i := updated], i);
  }

  /** The image when the pointer loop starts. */
  ghost function Filled(img: Image, i: nat, blocks: seq<U64>, bs: seq<Block>): Image
    requires i < |img.inodes| && |blocks| == |bs| < 76 && forall j :: 0 <= j < |blocks| ==> blocks[j] < |img.blocks|
  {
    Image(img.sb, img.inodes[i := img.inodes[i].(numDataBlocks := |blocks| + 1)], StoreAll(img.blocks, blocks, bs))
  }

  /** The first n of the blocks a file holds and the free ones. */
  function FirstBlocks(ino: Inode, free: seq<U64>, n: nat): (c: seq<U64>)
    requires 1 <= Held(ino) && n <= Held(ino) - 1 + |free|
    ensures |c| == n
  {
    (ino.pointers[1..Held(ino)] + free)[..n]
  }

  /** How write_file ends, in the terms of its loops, once the metadata is written. */
  lemma SpillOutcome(img: Image, i: nat, name: Name, data: seq<Byte>, perms: Option<Perms>, owner: Option<U64>,
                     now: U64)
    requires Inv(img) && DIRECT_LIMIT <= |data| < SINGLE_LIMIT && Position(img.inodes, Pad(name)) == Some(i)
    ensures InodeInv(img.inodes[i], |img.blocks|) && 1 <= Held(img.inodes[i])
    ensures var ino, bs, free := img.inodes[i], Chunks(Padded(data)), FreeList(img);
            var meta := WrittenMeta(ReadMeta(img.blocks[ino.pointers[0]]), perms, owner, now);
            var img1, out := MetaWritten(img, ino.pointers[0], meta), WriteSingle(img, name, data, perms, owner, now);
            && 12 <= |bs| < 76
            && if |free| < Extra(Held(ino) - 1, |bs|) then out == Some((img1, Err(DiskFull)))
               else
                 var c := FirstBlocks(ino, free, |bs|);
                 && (forall j :: 0 <= j < |bs| ==> c[j] < |img.blocks|)
                 && match Turns(Filled(img1, i, c, bs), c, |bs|)
                    case None => out == None
                    case Some((img3, t)) =>
                      out == Some((Image(img.sb, img.inodes[i := Spilled(ino, c, t)], img3.blocks), Ok(())))
  {
    hide NoSharing, UniqueNames, Run, FreeFrom, Turns, StoreAll, MetaBlock, Padded, Chunks, Pad;
    FoundIsLive(img, name);
    PaddedChunks(data);
    var ino, n := img.inodes[i], |Chunks(Padded(data))|;
    assert InodeInv(ino, |img.blocks|);
    if Fits(img, i, n) {
      ChosenOk(img, i, n);
      var c := Chosen(img, i, n);
      assert FirstBlocks(ino, FreeList(img), n) == c;
      forall t: U64 ensures img.inodes[i := ino.(numDataBlocks := n + 1)][i := Spilled(ino, c, t)]
                         == img.inodes[i := Spilled(ino, c, t)] {
      }
    }
  }

  /** The pointer-storing loop leaves the inode of the specification, old tail pointers included. */
  lemma PointersStored(img: Image, i: nat, n: nat, blocks: seq<U64>, updated: Inode)
    requires Writable(img, i, n)
    requires blocks == WritePointers(img.inodes[i], FreeList(img), n)[..n]
    requires updated == img.inodes[i].(numDataBlocks := n + 1, pointers := updated.pointers)
    requires updated.pointers[..n + 1] == [img.inodes[i].pointers[0]] + blocks
    requires updated.pointers[n + 1..] == img.inodes[i].pointers[n + 1..]
    ensures |WritePointers(img.inodes[i], FreeList(img), n)| <= 11
    ensures updated == Repointed(img.inodes[i], WritePointers(img.inodes[i], FreeList(img), n), n)
  {
    WritePointersOk(img, i, n);
    var ino := img.inodes[i];
    var ps := WritePointers(ino, FreeList(img), n);
    RepointedAt(ino, ps, n);
    forall j | 0 <= j < 12 ensures updated.pointers[j] == Repointed(ino, ps, n).pointers[j] {
      if j <= n {
        assert updated.pointers[j] == updated.pointers[..n + 1][j];
      } else {
        assert updated.pointers[j] == updated.pointers[n + 1..][j - n - 1] == ino.pointers[j];
      }
    }
  }

  /** The direct pointers after k turns of the pointer loop. */
  function DirectPointers(ps: Pointers, blocks: seq<U64>, k: nat): Pointers
    requires k <= 11 && k <= |blocks|
  {
    [ps[0]] + blocks[..k] + ps[k + 1..]
  }

  lemma DirectPointersStep(ps: Pointers, blocks: seq<U64>, k: nat)
    requires k < 11 && k < |blocks|
    ensures DirectPointers(ps, blocks, k)[k + 1 := blocks[k]] == DirectPointers(ps, blocks, k + 1)
  {
  }

  lemma DirectPointersEnds(ps: Pointers, blocks: seq<U64>)
    ensures DirectPointers(ps, blocks, 0) == ps
    ensures |blocks| <= 11 ==>
              && DirectPointers(ps, blocks, |blocks|)[..|blocks| + 1] == [ps[0]] + blocks
              && DirectPointers(ps, blocks, |blocks|)[|blocks| + 1..] == ps[|blocks| + 1..]
    ensures |blocks| >= 11 ==> DirectPointers(ps, blocks, 11) == [ps[0]] + blocks[..11]
  {
    assert |blocks| <= 11 ==> blocks[..|blocks|] == blocks;
  }

  class PhysFs {
    var superblock: Superblock
    var inodeTable: seq<Inode>
    var dataBlocks: seq<Block>
    ghost var store: M.Store

    /** Any image satisfying the invariant will do: a fresh one, or one loaded from disk. */
    constructor (img: Image)
      requires Inv(img)
      ensures Valid() && Img() == img
    {
      superblock, inodeTable, dataBlocks := img.sb, img.inodes, img.blocks;
      var m := StoreExists(img);
      store := m;
    }

    ghost function Img(): Image
      reads this
    {
      Image(superblock, inodeTable, dataBlocks)
    }

    ghost predicate Valid()
      reads this
    {
      M.Implements(Img(), store)
    }

    method FindEmptyDataBlock(ignore: seq<U64>) returns (r: Result<U64>)
      requires |dataBlocks| == superblock.numDataBlocks
      ensures IsFirstFree(Img(), ignore, r)
    {
      var i := 1;
      while i < superblock.numDataBlocks
        invariant 1 <= i
        invariant forall c :: 1 <= c < i && Free(Img(), c) ==> c in ignore
      {
        if dataBlocks[i] == ZERO_BLOCK && i !in ignore {
          var used := false;
          var k := 0;
          while k < |inodeTable| && !used
            invariant 0 <= k <= |inodeTable|
            invariant used ==> Referenced(inodeTable, i)
            invariant !used ==> forall x :: 0 <= x < k ==> i !in inodeTable[x].pointers
          {
            if i in inodeTable[k].pointers {
              used := true;
            }
            k := k + 1;
          }
          if !used {
            return Ok(i);
          }
        }
        i := i + 1;
      }
      return Err(DiskFull);
    }

    /** Indexing by the superblock's count runs off a table that deletions have shortened. */
    method FindEmptyInode() returns (r: Result<nat>)
      requires |inodeTable| <= superblock.numInodes
      ensures r == match EmptyFrom(inodeTable, 0)
                   case Some(i) => Ok(i)
                   case None => if |inodeTable| < superblock.numInodes then Panic else Err(OutOfInodes)
    {
      var i := 0;
      while i < superblock.numInodes
        invariant 0 <= i <= |inodeTable|
        invariant EmptyFrom(inodeTable, 0) == EmptyFrom(inodeTable, i)
      {
        if i >= |inodeTable| {
          return Panic;
        }
        if inodeTable[i].numDataBlocks == 0 {
          return Ok(i);
        }
        i := i + 1;
      }
      return Err(OutOfInodes);
    }

    method WriteToDataBlock(b: U64, data: Block) returns (r: Result<()>)
      requires |dataBlocks| == superblock.numDataBlocks
      modifies `dataBlocks
      ensures r == if b < superblock.numDataBlocks then Ok(()) else Err(InvalidDataBlock)
      ensures dataBlocks == if r.Ok? then old(dataBlocks)[b := data] else old(dataBlocks)
    {
      if b >= superblock.numDataBlocks {
        return Err(InvalidDataBlock);
      }
      dataBlocks := dataBlocks[b := data];
      return Ok(());
    }

    method FindInodeByName(name: Name) returns (r: Option<nat>)
      ensures r == Position(inodeTable, Pad(name))
    {
      var i := 0;
      while i < |inodeTable|
        invariant 0 <= i <= |inodeTable|
        invariant Position(inodeTable, Pad(name)) == PositionFrom(inodeTable, Pad(name), i)
      {
        if inodeTable[i].fileName == Pad(name) {
          return Some(i);
        }
        i := i + 1;
      }
      return None;
    }

    method UpdateInode(inode: Inode) returns (r: Result<()>)
      modifies `inodeTable
      ensures match Position(old(inodeTable), inode.fileName)
              case Some(i) => r == Ok(()) && inodeTable == old(inodeTable)[i := inode]
              case None => r == Err(InvalidInode) && inodeTable == old(inodeTable)
    {
      var i := 0;
      while i < |inodeTable|
        invariant 0 <= i <= |inodeTable| && inodeTable == old(inodeTable)
        invariant Position(inodeTable, inode.fileName) == PositionFrom(inodeTable, inode.fileName, i)
      {
        if inodeTable[i].fileName == inode.fileName {
          inodeTable := inodeTable[i := inode];
          return Ok(());
        }
        i := i + 1;
      }
      return Err(InvalidInode);
    }

    /** create_file; it does not look for the name first, and stays within the invariant if the name is new. */
    method CreateFile(name: Name, perms: Perms, owner: U64, t: Times) returns (r: Result<()>)
      requires Valid()
      modifies this
      ensures (Img(), r) == Create(old(Img()), name, perms, owner, t)
      ensures name !in old(store).files ==> Valid() && (store, r) == M.CreateFile(old(store), name, perms, owner, t)
    {
      ghost var img := Img();
      if name !in store.files {
        CreateRefines(img, store, name, perms, owner, t);
      }
      ghost var m := M.CreateFile(store, name, perms, owner, t).0;
      var found := FindEmptyDataBlock([]);
      FirstFreeIsNext(img, [], 0, found);
      if !found.Ok? {
        store := m;
        return Err(DiskFull);
      }
      assert found.value == FreeList(img)[0];
      var metadata := NewMeta(perms, owner, t);
      var written := WriteToDataBlock(found.value, MetaBlock(metadata));
      var slot := FindEmptyInode();
      store := m;
      match slot
      case Ok(i) =>
        inodeTable := inodeTable[i := NewInode(name, found.value)];
        return Ok(());
      case Err(e) => return Err(e);
      case Panic => return Panic;
    }

    /** The data loop of read_file on any inode, with indirect tables or without; None where it panics. */
    method ReadData(inode: Inode) returns (r: Option<seq<Byte>>)
      ensures r == ReadBytes(dataBlocks, inode)
    {
      hide AllAddresses, InodeOk, Flatten;
      var found := GetAllBlockAddresses(dataBlocks, inode);
      if found.None? {
        return None;
      }
      var addresses := found.value;
      var data: seq<Byte> := [];
      var i := 1;
      while i < inode.numDataBlocks
        invariant i == 1 || 1 < i <= inode.numDataBlocks
        invariant i > 1 ==> i <= |addresses| && forall j :: 1 <= j < i ==> addresses[j] < |dataBlocks|
        invariant i > 1 ==> data == Flatten(BlocksAt(dataBlocks, addresses[1..i]))
        invariant i == 1 ==> data == []
      {
        if i >= |addresses| || addresses[i] >= |dataBlocks| {
          return None;
        }
        ghost var before := if i == 1 then [] else BlocksAt(dataBlocks, addresses[1..i]);
        FlattenAppend(before, dataBlocks[addresses[i]]);
        assert BlocksAt(dataBlocks, addresses[1..i + 1]) == before + [dataBlocks[addresses[i]]];
        FlattenNone();
        data := data + dataBlocks[addresses[i]];
        i := i + 1;
      }
      return Some(data);
    }

    /**
     * read_file: on any image the metadata and the blocks the enumeration lists, or a panic on a pointer
     * out of range; on a valid one exactly what the map holds.
     */
    method ReadFile(name: Name) returns (r: Result<(seq<Byte>, Metadata)>)
      ensures r == ReadResult(Img(), name)
      ensures Valid() ==>
                r == if name in store.files then Ok((store.files[name].bytes, store.files[name].meta))
                     else Err(FileNotFound)
    {
      hide M.Implements, FsImage.Position, ReadBytes, ReadMeta;
      if Valid() {
        ReadResultIs(Img(), store, name);
      }
      var pos := FindInodeByName(name);
      if pos.None? {
        return Err(FileNotFound);
      }
      var inode := inodeTable[pos.value];
      if inode.pointers[0] >= |dataBlocks| {
        return Panic;
      }
      var data := ReadData(inode);
      return if data.Some? then Ok((data.value, ReadMeta(dataBlocks[inode.pointers[0]]))) else Panic;
    }

    /** The block-choosing loop of write_file: held blocks first, then the lowest free ones. */
    method ChooseBlocks(metaBlock: U64, existing: seq<U64>, n: nat) returns (r: Result<seq<U64>>)
      requires |dataBlocks| == superblock.numDataBlocks && 1 <= n
      requires Referenced(inodeTable, metaBlock)
      requires forall b :: b in existing ==> Referenced(inodeTable, b)
      ensures r == if Extra(|existing|, n) <= |FreeList(Img())|
                   then Ok((existing + FreeList(Img()))[..n]) else Err(DiskFull)
    {
      ghost var free := FreeList(Img());
      var chosen: seq<U64> := ZeroWords(n)[0 := metaBlock];
      for i := 0 to n
        invariant |chosen| == n && i <= |existing| + |free|
        invariant chosen[..i] == (existing + free)[..i]
        invariant i == 0 ==> chosen[0] == metaBlock
        invariant forall j :: i <= j < n && j != 0 ==> chosen[j] == 0
      {
        if i < |existing| {
          chosen := chosen[i := existing[i]];
        } else {
          var found := FindEmptyDataBlock(chosen);
          ChosenSoFar(Img(), metaBlock, existing, chosen, i);
          FirstFreeIsNext(Img(), chosen, i - |existing|, found);
          if !found.Ok? {
            return Err(DiskFull);
          }
          chosen := chosen[i := found.value];
        }
      }
      assert chosen == chosen[..n];
      return Ok(chosen);
    }

    /** The data-writing loop of write_file. */
    method StoreBlocks(blocks: seq<U64>, data: seq<Byte>)
      requires |dataBlocks| == superblock.numDataBlocks && |data| == 512 * |blocks|
      requires forall j :: 0 <= j < |blocks| ==> blocks[j] < |dataBlocks|
      modifies `dataBlocks
      ensures dataBlocks == StoreAll(old(dataBlocks), blocks, Chunks(data))
    {
      for i := 0 to |blocks|
        invariant dataBlocks == StoreAll(old(dataBlocks), blocks[..i], Chunks(data)[..i])
      {
        var done := WriteToDataBlock(blocks[i], data[512 * i..512 * i + 512]);
        assert blocks[..i + 1][..i] == blocks[..i] && Chunks(data)[..i + 1][..i] == Chunks(data)[..i];
      }
      assert blocks[..|blocks|] == blocks && Chunks(data)[..|blocks|] == Chunks(data);
    }

    /** allocate_single_indirect_block; returns the table's block, None where an `expect` panics. */
    method AllocateSingleIndirect(single: U64, blockNum: nat) returns (r: Option<U64>)
      requires |dataBlocks| == superblock.numDataBlocks
      modifies `dataBlocks
      ensures match AllocateSingle(old(Img()), single, blockNum)
              case None => r == None
              case Some((img, t)) => r == Some(t) && Img() == img
    {
      hide PointersOf, WithEntry, FirstOutside, FreeList, IsFirstFree;
      var table := single;
      if table == 0 {
        var found := FindEmptyDataBlock([]);
        FirstFreeOutside(Img(), [], found);
        if !found.Ok? {
          return None;
        }
        table := found.value;
      }
      if table >= |dataBlocks| {
        return None;
      }
      var reserved := FindEmptyDataBlock(PointersOf(dataBlocks[table]));
      FirstFreeOutside(Img(), PointersOf(dataBlocks[table]), reserved);
      if !reserved.Ok? {
        return None;
      }
      dataBlocks := dataBlocks[table := WithEntry(dataBlocks[table], blockNum % 64, reserved.value)];
      return Some(table);
    }

    /**
     * The pointer-storing loop of write_file, its direct and its single-indirect arm; None where it
     * panics.
     */
    method StorePointers(inode: Inode, blocks: seq<U64>) returns (r: Option<Inode>)
      requires |dataBlocks| == superblock.numDataBlocks && |blocks| < 76 && inode.single == 0
      modifies `dataBlocks
      ensures |blocks| <= 11 ==>
                && r.Some? && dataBlocks == old(dataBlocks)
                && r.value == inode.(pointers := r.value.pointers)
                && r.value.pointers[..|blocks| + 1] == [inode.pointers[0]] + blocks
                && r.value.pointers[|blocks| + 1..] == inode.pointers[|blocks| + 1..]
      ensures |blocks| >= 12 ==>
                match Turns(old(Img()), blocks, |blocks|)
                case None => r == None
                case Some((img, t)) =>
                  r == Some(inode.(pointers := [inode.pointers[0]] + blocks[..11], single := t)) && Img() == img
    {
      hide AllocateSingle, WithEntry, FreeList, DirectPointers;
      var updated := inode;
      ghost var img := Img();
      DirectPointersEnds(inode.pointers, blocks);
      for i := 0 to |blocks|
        invariant |dataBlocks| == superblock.numDataBlocks
        invariant updated == inode.(pointers := DirectPointers(inode.pointers, blocks, if i < 11 then i else 11),
                                    single := updated.single)
        invariant i <= 11 ==> dataBlocks == old(dataBlocks) && updated.single == 0
        invariant i >= 11 ==> Turns(img, blocks, i) == Some((Img(), updated.single))
      {
        if i + 1 < 12 {
          DirectPointersStep(inode.pointers, blocks, i);
          updated := updated.(pointers := updated.pointers[i + 1 := blocks[i]]);
        } else {
          var table := AllocateSingleIndirect(updated.single, i + 1 - 12);
          if table.None? {
            TurnsStop(img, blocks, i + 1, |blocks|);
            return None;
          }
          dataBlocks := dataBlocks[table.value := WithEntry(dataBlocks[table.value], (i + 1) % 64, blocks[i])];
          updated := updated.(single := table.value);
        }
      }
      return Some(updated);
    }

    /** The end of write_file: fill the chosen blocks and point the inode at them; false on a panic. */
    method StoreContents(ghost i: nat, inode: Inode, blocks: seq<U64>, data: seq<Byte>) returns (ok: bool)
      requires Inv(Img()) && i < |inodeTable| && Live(inodeTable[i]) && inode == inodeTable[i] && 1 <= Held(inode)
      requires 1 <= |blocks| < 76 && |data| == 512 * |blocks| && Extra(Held(inode) - 1, |blocks|) <= |FreeList(Img())|
      requires blocks == FirstBlocks(inode, FreeList(Img()), |blocks|)
      modifies `dataBlocks, `inodeTable
      ensures |blocks| <= 11 ==>
                var ps := WritePointers(inode, FreeList(old(Img())), |blocks|);
                && |ps| <= 11 && (forall j :: 0 <= j < |ps| ==> ps[j] < |old(dataBlocks)|)
                && ok && Img() == DataWritten(old(Img()), i, ps, Chunks(data))
      ensures |blocks| >= 12 ==>
                && (forall j :: 0 <= j < |blocks| ==> blocks[j] < |old(dataBlocks)|)
                && match Turns(Filled(old(Img()), i, blocks, Chunks(data)), blocks, |blocks|)
                   case None => !ok
                   case Some((img, t)) =>
                     && ok
                     && Img() == Image(superblock, old(inodeTable)[i := Spilled(inode, blocks, t)], img.blocks)
    {
      hide NoSharing, UniqueNames, StoreAll, Run, Turns, FreeFrom, Position, Chunks;
      ghost var img := Img();
      var n := |blocks|;
      ChosenInRange(img, i, n);
      StoreBlocks(blocks, data);
      var updated := inode.(numDataBlocks := n + 1);
      UpdatedPosition(img.inodes, i, updated);
      var done := UpdateInode(updated);
      assert updated.single == 0 by {
        assert InodeInv(img.inodes[i], |img.blocks|);
      }
      var pointed := StorePointers(updated, blocks);
      if pointed.None? {
        return false;
      }
      if n <= 11 {
        ChosenArePointers(img, i, n);
        PointersStored(img, i, n, blocks, pointed.value);
      }
      done := UpdateInode(pointed.value);
      assert inodeTable == img.inodes[i := pointed.value];
      return true;
    }

    /** The middle of write_file: choose the blocks for the data, then store it. */
    method WriteBlocks(ghost i: nat, inode: Inode, data: seq<Byte>) returns (r: Result<()>)
      requires Inv(Img()) && i < |inodeTable| && Live(inodeTable[i]) && inode == inodeTable[i] && 1 <= Held(inode)
      requires |data| % 512 == 0 && 1 <= |data| / 512 < 76
      modifies `dataBlocks, `inodeTable
      ensures var n, free := |data| / 512, FreeList(old(Img()));
              if |free| < Extra(Held(inode) - 1, n) then r == Err(DiskFull) && Img() == old(Img())
              else if n <= 11 then
                var ps := WritePointers(inode, free, n);
                && |ps| <= 11 && (forall j :: 0 <= j < |ps| ==> ps[j] < |old(dataBlocks)|)
                && r == Ok(()) && Img() == DataWritten(old(Img()), i, ps, Chunks(data))
              else
                var c := FirstBlocks(inode, free, n);
                && (forall j :: 0 <= j < n ==> c[j] < |old(dataBlocks)|)
                && match Turns(Filled(old(Img()), i, c, Chunks(data)), c, n)
                   case None => r == Panic
                   case Some((img, t)) =>
                     r == Ok(()) && Img() == Image(superblock, old(inodeTable)[i := Spilled(inode, c, t)], img.blocks)
    {
      hide NoSharing, UniqueNames, StoreAll, Run, Turns, FreeFrom, Chunks;
      assert InodeInv(inode, |dataBlocks|);
      DirectAddresses(dataBlocks, inode);
      var addresses := GetAllBlockAddresses(dataBlocks, inode);
      var existing := addresses.value[1..];
      assert existing == inode.pointers[1..Held(inode)];
      OwnBlocksReferenced(inodeTable, i);
      var chosen := ChooseBlocks(inode.pointers[0], existing, |data| / 512);
      if !chosen.Ok? {
        return Err(DiskFull);
      }
      var stored := StoreContents(i, inode, chosen.value, data);
      return if stored then Ok(()) else Panic;
    }

    /**
     * write_file for contents in the direct and the single-indirect range: within the direct range it
     * is the step of the map; past it the image is the one FsSpill describes.
     */
    method WriteFile(name: Name, contents: seq<Byte>, perms: Option<Perms>, owner: Option<U64>, now: U64)
      returns (r: Result<()>)
      requires Valid() && |contents| < SINGLE_LIMIT
      modifies this
      ensures |contents| < DIRECT_LIMIT ==>
                && Valid()
                && (store, r) == M.WriteFile(old(store), name, contents, perms, owner, now)
                && (Img(), r) == Write(old(Img()), name, contents, perms, owner, now)
      ensures |contents| >= DIRECT_LIMIT ==>
                match WriteSingle(old(Img()), name, contents, perms, owner, now)
                case None => r == Panic
                case Some(outcome) => (Img(), r) == outcome
    {
      hide M.Implements, Position, FreeList, StoreAll, NoSharing, UniqueNames, M.WriteFile, MetaBlock, Padded, Chunks,
           Flatten, Turns, Run;
      ghost var img := Img();
      if |contents| < DIRECT_LIMIT {
        WriteRefines(img, store, name, contents, perms, owner, now);
      }
      StoreFacts(img, store, name);
      store := M.WriteFile(store, name, contents, perms, owner, now).0;
      var pos := FindInodeByName(name);
      if pos.None? {
        return Err(FileNotFound);
      }
      var inode := inodeTable[pos.value];
      var metadata := WrittenMeta(ReadMeta(dataBlocks[inode.pointers[0]]), perms, owner, now);
      var done := WriteToDataBlock(inode.pointers[0], MetaBlock(metadata));
      assert Img() == MetaWritten(img, inode.pointers[0], metadata);
      PaddedChunks(contents);
      MetaKeepsFree(img, pos.value, metadata);
      if |contents| >= DIRECT_LIMIT {
        SpillOutcome(img, pos.value, name, contents, perms, owner, now);
      }
      r := WriteBlocks(pos.value, inode, Padded(contents));
    }
  }
}
