/**
 * Writes past the direct pointers that stay in the single-indirect range: 12 to 75 data blocks, 5632
 * to 38399 bytes.
 *
 * The single-indirect arm of write_file reserves one entry of the table, stores the data pointer at
 * another, and reserves over stored pointers later on; reading goes through the entries in order.  This
 * module follows that arm turn by turn, says what read_file then returns, and for which data it is what
 * was written.  In particular the direct limit of the other modules is tight.
 */
module FsSpill {
  import opened Common
  import opened Bytes
  import opened FsTypes
  import opened FsImage
  import opened FsFrames
  import opened FsRefine
  import opened BlockTree

  /** Contents from here on reach the double-indirect arm. */
  const SINGLE_LIMIT: nat := 38400

  /** find_empty_data_block over the free blocks in ascending order. */
  function FirstOutside(free: seq<U64>, ignore: seq<U64>): (r: Option<U64>)
    ensures r.Some? ==> r.value in free && r.value !in ignore
  {
    if free == [] then None
    else if free[0] !in ignore then Some(free[0])
    else FirstOutside(free[1..], ignore)
  }

  /** allocate_single_indirect_block: the new image and the table's block; None where `expect` panics. */
  function AllocateSingle(img: Image, single: U64, n: nat): (r: Option<(Image, U64)>)
    requires Addressable(img)
    ensures r.Some? ==> |r.value.0.blocks| == |img.blocks| && r.value.1 < |img.blocks|
  {
    var table := if single == 0 then FirstOutside(FreeList(img), []) else Some(single);
    if table.None? || table.value >= |img.blocks| then None
    else
      var t := table.value;
      match FirstOutside(FreeList(img), PointersOf(img.blocks[t]))
      case None => None
      case Some(f) => Some((img.(blocks := img.blocks[t := WithEntry(img.blocks[t], n % 64, f)]), t))
  }

  /** The turn of the pointer loop for logical block k: reserve entry k - 12, store p at entry k % 64. */
  function Turn(img: Image, single: U64, k: nat, p: U64): (r: Option<(Image, U64)>)
    requires Addressable(img) && k >= 12
    ensures r.Some? ==> |r.value.0.blocks| == |img.blocks|
  {
    match AllocateSingle(img, single, k - 12)
    case None => None
    case Some((img', t)) =>
      Some((img'.(blocks := img'.blocks[t := WithEntry(img'.blocks[t], k % 64, p)]), t))
  }

  /** The turns for logical blocks 12 to n, whose pointers are c[11..n]. */
  function Turns(img: Image, c: seq<U64>, n: nat): (r: Option<(Image, U64)>)
    requires Addressable(img) && 11 <= n <= |c|
    ensures r.Some? ==> |r.value.0.blocks| == |img.blocks|
  {
    if n == 11 then Some((img, 0))
    else
      match Turns(img, c, n - 1)
      case None => None
      case Some((img', t)) => Turn(img', t, n, c[n - 1])
  }

  lemma {:induction false} TurnsStop(img: Image, c: seq<U64>, k: nat, n: nat)
    requires Addressable(img) && 11 <= k <= n <= |c| && Turns(img, c, k).None?
    ensures Turns(img, c, n).None?
    decreases n
  {
    hide Turn;
    if k < n {
      TurnsStop(img, c, k, n - 1);
    }
  }

  // ----- the whole write

  /** There is room for n data blocks; otherwise write_file returns DiskFull before it gets here. */
  ghost predicate Fits(img: Image, i: nat, n: nat) {
    && Inv(img) && i < |img.inodes| && Live(img.inodes[i]) && 1 <= Held(img.inodes[i])
    && 12 <= n < 76 && n - Kept(img, i) <= |FreeList(img)|
  }

  /** How many data blocks the file holds on to already. */
  function Kept(img: Image, i: nat): (h: nat)
    requires i < |img.inodes|
    ensures h < 12
  {
    if Held(img.inodes[i]) == 0 then 0 else Held(img.inodes[i]) - 1
  }

  /** The n data blocks of the write. */
  function Chosen(img: Image, i: nat, n: nat): (c: seq<U64>)
    requires Addressable(img) && i < |img.inodes| && 1 <= Held(img.inodes[i])
    requires 12 <= n && n - Kept(img, i) <= |FreeList(img)|
    ensures |c| == n
  {
    WritePointers(img.inodes[i], FreeList(img), n)
  }

  /** The image when the pointer loop starts: data stored, block count updated, old pointers still in place. */
  ghost function Stored(img: Image, i: nat, meta: Metadata, bs: seq<Block>): (r: Image)
    requires Fits(img, i, |bs|)
    ensures |r.blocks| == |img.blocks| && |r.inodes| == |img.inodes|
  {
    ChosenOk(img, i, |bs|);
    var ino := img.inodes[i];
    Image(img.sb, img.inodes[i := ino.(numDataBlocks := |bs| + 1)],
          StoreAll(MetaWritten(img, ino.pointers[0], meta).blocks, Chosen(img, i, |bs|), bs))
  }

  /** The inode after the write. */
  function Spilled(ino: Inode, c: seq<U64>, t: U64): Inode
    requires 12 <= |c| < 76
  {
    ino.(numDataBlocks := |c| + 1, pointers := [ino.pointers[0]] + c[..11], single := t)
  }

  /** The rest of write_file: eleven direct pointers, then the turns of the single-indirect arm. */
  ghost function Spill(img: Image, i: nat, meta: Metadata, bs: seq<Block>): Option<(Image, Inode)>
    requires Fits(img, i, |bs|)
  {
    hide NoSharing, UniqueNames, Run, FreeFrom, Stored, Chosen;
    var img2, c, ino := Stored(img, i, meta, bs), Chosen(img, i, |bs|), img.inodes[i];
    match Turns(img2, c, |bs|)
    case None => None
    case Some((img3, t)) =>
      var ino' := Spilled(ino, c, t);
      Some((Image(img.sb, img2.inodes[i := ino'], img3.blocks), ino'))
  }

  /** write_file for contents of this range; None where an `expect` panics, the metadata by then rewritten. */
  ghost function WriteSingle(img: Image, name: Name, data: seq<Byte>, perms: Option<Perms>, owner: Option<U64>,
                             now: U64): Option<(Image, Result<()>)>
    requires Inv(img) && DIRECT_LIMIT <= |data| < SINGLE_LIMIT
  {
    match Position(img.inodes, Pad(name))
    case None => Some((img, Err(FileNotFound)))
    case Some(i) =>
      FoundIsLive(img, name);
      assert InodeInv(img.inodes[i], |img.blocks|);
      var p, bs := img.inodes[i].pointers[0], Chunks(Padded(data));
      var meta := WrittenMeta(ReadMeta(img.blocks[p]), perms, owner, now);
      if !Fits(img, i, |bs|) then Some((MetaWritten(img, p, meta), Err(DiskFull)))
      else
        match Spill(img, i, meta, bs)
        case None => None
        case Some((img', _)) => Some((img', Ok(())))
  }

  lemma SpillIs(img: Image, i: nat, meta: Metadata, bs: seq<Block>)
    requires Fits(img, i, |bs|)
    ensures Addressable(Stored(img, i, meta, bs))
    ensures var turns := Turns(Stored(img, i, meta, bs), Chosen(img, i, |bs|), |bs|);
            && Spill(img, i, meta, bs).Some? == turns.Some?
            && (turns.Some? ==> Spill(img, i, meta, bs).value.0.blocks == turns.value.0.blocks
                                && Spill(img, i, meta, bs).value.1.single == turns.value.1)
  {
    hide NoSharing, UniqueNames, Chosen, Turns, Run, FreeFrom;
  }

  /** read_file's bytes through the flat enumeration; None where it would index out of range. */
  function ReadBytes(blocks: seq<Block>, ino: Inode): Option<seq<Byte>> {
    if !InodeOk(blocks, ino) then None
    else
      var a := AllAddresses(blocks, ino);
      if ino.numDataBlocks <= 1 then Some([])
      else if |a| < ino.numDataBlocks || exists j :: 1 <= j < ino.numDataBlocks && a[j] >= |blocks| then None
      else Some(Flatten(BlocksAt(blocks, a[1..ino.numDataBlocks])))
  }

  /** What read_file returns, on any image. */
  function ReadResult(img: Image, name: Name): Result<(seq<Byte>, Metadata)> {
    match Position(img.inodes, Pad(name))
    case None => Err(FileNotFound)
    case Some(i) =>
      var ino := img.inodes[i];
      if ino.pointers[0] >= |img.blocks| then Panic
      else
        match ReadBytes(img.blocks, ino)
        case None => Panic
        case Some(bytes) => Ok((bytes, ReadMeta(img.blocks[ino.pointers[0]])))
  }

  lemma DirectAddresses(blocks: seq<Block>, ino: Inode)
    requires Live(ino) && InodeInv(ino, |blocks|)
    ensures InodeOk(blocks, ino) && AllAddresses(blocks, ino) == ino.pointers[..Held(ino)]
  {
    NonZeroOfPrefix(ino.pointers, Held(ino));
  }

  lemma FlattenNone()
    ensures Flatten([]) == []
  {
  }

  /** Without indirect tables the read is the file. */
  lemma DirectRead(blocks: seq<Block>, ino: Inode)
    requires Live(ino) && InodeInv(ino, |blocks|)
    ensures ReadBytes(blocks, ino) == Some(FileAt(blocks, ino).bytes)
    ensures ino.pointers[0] < |blocks| && ReadMeta(blocks[ino.pointers[0]]) == FileAt(blocks, ino).meta
  {
    hide AllAddresses, InodeOk, Flatten, ReadMeta, Run;
    DirectAddresses(blocks, ino);
    FlattenNone();
    var n := ino.numDataBlocks;
    if n >= 2 {
      assert ino.pointers[..Held(ino)][1..n] == ino.pointers[1..n];
    } else {
      assert ino.pointers[1..n] == [];
      assert BlocksAt(blocks, ino.pointers[1..n]) == [];
    }
  }

  // ----- the blocks involved

  lemma ChosenAt(img: Image, i: nat, n: nat, j: nat)
    requires Fits(img, i, n) && j < n
    ensures var p, h := Chosen(img, i, n)[j], Kept(img, i);
            && (j < h ==> p == Ptr(img.inodes, i, j + 1) && p != 0)
            && (j >= h ==> j - h < |FreeList(img)| && p == FreeList(img)[j - h] && Free(img, p))
            && 1 <= p < |img.blocks| && p != img.inodes[i].pointers[0]
  {
    hide UniqueNames;
    var h, free := Kept(img, i), FreeList(img);
    assert InodeInv(img.inodes[i], |img.blocks|);
    assert Ptr(img.inodes, i, 0) == img.inodes[i].pointers[0];
    if j >= h {
      assert free[j - h] in free;
      HeldIsReferenced(img.inodes, i, 0);
    }
  }

  lemma ChosenApart(img: Image, i: nat, n: nat, x: nat, y: nat)
    requires Fits(img, i, n) && x < y < n
    ensures Chosen(img, i, n)[x] != Chosen(img, i, n)[y]
    ensures x >= Kept(img, i) ==> Chosen(img, i, n)[x] < Chosen(img, i, n)[y]
  {
    var h := Kept(img, i);
    ChosenAt(img, i, n, x);
    ChosenAt(img, i, n, y);
    if x < h <= y {
      FreeUnheld(img, Chosen(img, i, n)[y], i, x + 1);
    }
  }

  lemma ChosenOk(img: Image, i: nat, n: nat)
    requires Fits(img, i, n)
    ensures var c := Chosen(img, i, n);
            && Distinct(c)
            && forall j :: 0 <= j < n ==> 1 <= c[j] < |img.blocks| && c[j] != img.inodes[i].pointers[0]
    ensures InodeInv(img.inodes[i], |img.blocks|)
  {
    hide NoSharing, UniqueNames, Free, Run, FreeFrom, Chosen;
    var c := Chosen(img, i, n);
    assert InodeInv(img.inodes[i], |img.blocks|);
    forall j | 0 <= j < n ensures 1 <= c[j] < |img.blocks| && c[j] != img.inodes[i].pointers[0] {
      ChosenAt(img, i, n, j);
    }
    forall x, y | 0 <= x < y < n ensures c[x] != c[y] {
      ChosenApart(img, i, n, x, y);
    }
  }

  /** Each data block holds its data when the pointer loop starts; other blocks but the metadata are as before. */
  lemma StoredBlocks(img: Image, i: nat, meta: Metadata, bs: seq<Block>)
    requires Fits(img, i, |bs|)
    ensures var img2, c, p := Stored(img, i, meta, bs), Chosen(img, i, |bs|), img.inodes[i].pointers[0];
            && |img2.blocks| == |img.blocks| && Addressable(img2)
            && (forall j :: 0 <= j < |bs| ==> c[j] < |img2.blocks| && img2.blocks[c[j]] == bs[j])
            && (forall b :: 0 <= b < |img.blocks| && b != p && b !in c ==> img2.blocks[b] == img.blocks[b])
  {
    hide NoSharing, UniqueNames, FreeFrom, Run, Chosen;
    ChosenOk(img, i, |bs|);
    StoreAllEffect(MetaWritten(img, img.inodes[i].pointers[0], meta).blocks, Chosen(img, i, |bs|), bs);
  }

  /** Free when the pointer loop starts: free before, and not taken for data, unless that data is all zero. */
  ghost predicate StillFree(img: Image, i: nat, bs: seq<Block>, b: nat)
    requires Fits(img, i, |bs|)
  {
    Free(img, b) && forall j :: 0 <= j < |bs| && Chosen(img, i, |bs|)[j] == b ==> bs[j] == ZERO_BLOCK
  }

  lemma StoredFree(img: Image, i: nat, meta: Metadata, bs: seq<Block>, b: nat)
    requires Fits(img, i, |bs|)
    ensures Free(Stored(img, i, meta, bs), b) <==> StillFree(img, i, bs, b)
  {
    hide NoSharing, UniqueNames, Run, FreeFrom, Chosen, InodeInv, StoreAll, MetaBlock, Referenced;
    var img2, c, p := Stored(img, i, meta, bs), Chosen(img, i, |bs|), img.inodes[i].pointers[0];
    StoredBlocks(img, i, meta, bs);
    SameReferences(img.inodes, i, |bs| + 1, b);
    HeldIsReferenced(img.inodes, i, 0);
    if b in c {
      var j :| 0 <= j < |c| && c[j] == b;
      ChosenAt(img, i, |bs|, j);
      ChosenOk(img, i, |bs|);
      if j < Kept(img, i) {
        HeldIsReferenced(img.inodes, i, j + 1);
      }
    }
  }

  lemma SameReferences(inodes: seq<Inode>, i: nat, n: U64, b: nat)
    requires i < |inodes|
    ensures Referenced(inodes[i := inodes[i].(numDataBlocks := n)], b) <==> Referenced(inodes, b)
  {
    ReferencedUpdate(inodes, i, inodes[i].(numDataBlocks := n), b);
    ReferencedUpdate(inodes, i, inodes[i], b);
    assert inodes[i := inodes[i]] == inodes;
  }

  // ----- free lists

  ghost predicate Ascending(s: seq<U64>) {
    forall x, y :: 0 <= x < y < |s| ==> s[x] < s[y]
  }

  lemma Member(s: seq<U64>) returns (x: U64)
    requires s != []
    ensures x in s
  {
    x := s[0];
  }

  lemma {:induction false} AscendingEqual(a: seq<U64>, b: seq<U64>)
    requires Ascending(a) && Ascending(b) && forall x :: x in a <==> x in b
    ensures a == b
    decreases |a|
  {
    if a == [] {
      if b != [] {
        var x := Member(b);
        assert false;
      }
    } else {
      assert a[0] in b && b != [] && b[0] in a;
      assert a[0] == b[0];
      assert a == [a[0]] + a[1..] && b == [b[0]] + b[1..];
      forall x ensures x in a[1..] <==> x in b[1..] {
        assert x in a[1..] ==> x != a[0] && x in b;
        assert x in b[1..] ==> x != b[0] && x in a;
      }
      AscendingEqual(a[1..], b[1..]);
    }
  }

  /** A free block is data block j exactly when it is the (j - h)th free one. */
  lemma ChosenIsFree(img: Image, i: nat, n: nat, x: nat, j: nat)
    requires Fits(img, i, n) && x < |FreeList(img)| && j < n
    ensures Chosen(img, i, n)[j] == FreeList(img)[x] <==> j == Kept(img, i) + x
  {
    hide NoSharing, UniqueNames, Free, FreeFrom, Chosen;
    ChosenAt(img, i, n, j);
    if j < Kept(img, i) {
      FreeIsNotHeld(img, i, n, j);
    }
  }

  lemma StillFreeFrom(img: Image, i: nat, bs: seq<Block>, e: nat, b: U64)
    requires Fits(img, i, |bs|) && 11 <= e <= |bs|
    requires forall j :: Kept(img, i) <= j < |bs| ==> (bs[j] == ZERO_BLOCK <==> j >= e)
    ensures StillFree(img, i, bs, b) <==> b in FreeList(img)[e - Kept(img, i)..]
  {
    hide NoSharing, UniqueNames, Free, FreeList, Chosen;
    InFreeList(img, b);
    var free, c := FreeList(img), Chosen(img, i, |bs|);
    forall x, j | 0 <= x < |free| && 0 <= j < |bs| ensures c[j] == free[x] <==> j == Kept(img, i) + x {
      ChosenIsFree(img, i, |bs|, x, j);
    }
    ChunkMembers(free, c, bs, Kept(img, i), e, b);
  }

  lemma ChunkMembers(free: seq<U64>, c: seq<U64>, bs: seq<Block>, h: nat, e: nat, b: U64)
    requires h <= e <= |bs| == |c| <= h + |free|
    requires forall j :: h <= j < |bs| ==> (bs[j] == ZERO_BLOCK <==> j >= e)
    requires forall x, j :: 0 <= x < |free| && 0 <= j < |bs| ==> (c[j] == free[x] <==> j == h + x)
    ensures b in free[e - h..] <==> b in free && forall j :: 0 <= j < |bs| && c[j] == b ==> bs[j] == ZERO_BLOCK
  {
    if b in free {
      var x :| 0 <= x < |free| && free[x] == b;
      assert h + x < |bs| ==> c[h + x] == b;
      assert x >= e - h ==> free[e - h..][x - (e - h)] == b;
    }
  }

  /** With the zero chunks being exactly those from e on, the allocator is back at data block e. */
  lemma FreeFromChunk(img: Image, i: nat, meta: Metadata, bs: seq<Block>, e: nat)
    requires Fits(img, i, |bs|) && 11 <= e <= |bs|
    requires forall j :: Kept(img, i) <= j < |bs| ==> (bs[j] == ZERO_BLOCK <==> j >= e)
    ensures Addressable(Stored(img, i, meta, bs))
    ensures FreeList(Stored(img, i, meta, bs)) == FreeList(img)[e - Kept(img, i)..]
  {
    hide Inv, Free, StillFree, Run, Stored, FreeFrom, Chosen;
    StoredBlocks(img, i, meta, bs);
    var img2, rest := Stored(img, i, meta, bs), FreeList(img)[e - Kept(img, i)..];
    forall b: U64 ensures b in FreeList(img2) <==> b in rest {
      StoredFree(img, i, meta, bs, b);
      InFreeList(img2, b);
      StillFreeFrom(img, i, bs, e, b);
    }
    AscendingEqual(FreeList(img2), rest);
  }

  lemma InFreeList(img: Image, b: U64)
    requires Addressable(img)
    ensures b in FreeList(img) <==> Free(img, b)
  {
  }

  lemma FreeIsNotHeld(img: Image, i: nat, n: nat, j: nat)
    requires Fits(img, i, n) && j < Kept(img, i)
    ensures Chosen(img, i, n)[j] !in FreeList(img)
  {
    ChosenAt(img, i, n, j);
    HeldIsReferenced(img.inodes, i, j + 1);
  }

  /** A block stops being free when it is filled. */
  lemma FilledBlock(img: Image, t: U64, b: Block)
    requires Addressable(img) && FreeList(img) != [] && t == FreeList(img)[0] && b != ZERO_BLOCK
    ensures t < |img.blocks| && FreeList(img.(blocks := img.blocks[t := b])) == FreeList(img)[1..]
  {
    hide Referenced;
    var free := FreeList(img);
    assert t in free;
    var img' := img.(blocks := img.blocks[t := b]);
    forall x: U64 ensures x in FreeList(img') <==> x in free[1..] {
      InFreeList(img', x);
      InFreeList(img, x);
      assert free == [t] + free[1..];
    }
    AscendingEqual(FreeList(img'), free[1..]);
  }

  // ----- the table after any number of turns

  /**
   * Entry j of table t after the turns up to n: from 64 on the stored pointers wrap round over the
   * reserved entries; entry 0 reserves the table itself, the others some all-zero block.
   */
  ghost predicate EntryIs(img: Image, c: seq<U64>, n: nat, t: U64, j: nat, p: U64)
    requires n <= |c|
  {
    if j + 64 <= n then p == c[j + 63]
    else if j == 0 then p == t
    else if j + 12 <= n then p != t && 1 <= p < |img.blocks| && img.blocks[p] == ZERO_BLOCK
    else if 12 <= j <= n then p == c[j - 1]
    else p == 0
  }

  ghost predicate TableIs(img: Image, c: seq<U64>, n: nat, t: U64, table: Block)
    requires n <= |c|
  {
    && table != ZERO_BLOCK
    && forall j :: 0 <= j < 64 ==> EntryIs(img, c, n, t, j, PointersOf(table)[j])
  }

  lemma ZeroTable()
    ensures PointersOf(ZERO_BLOCK) == ZeroWords(64)
  {
    forall j | 0 <= j < 64 ensures PointersOf(ZERO_BLOCK)[j] == 0 {
      ZeroBlockPointers(j);
    }
  }

  /** Two entries of a table set, the second not over the first. */
  lemma TwoEntries(b: Block, x: nat, p: U64, y: nat, q: U64)
    requires x < 64 && y < 64
    ensures PointersOf(WithEntry(WithEntry(b, x, p), y, q)) == PointersOf(b)[x := p][y := q]
  {
    EntryStored(b, x, p);
    EntryStored(WithEntry(b, x, p), y, q);
  }

  lemma NonZeroEntry(b: Block, j: nat)
    requires j < 64 && PointersOf(b)[j] != 0
    ensures b != ZERO_BLOCK
  {
    ZeroTable();
  }

  /** Both searches of allocate_single_indirect_block return the same block. */
  lemma ReservesItself(img: Image)
    requires Addressable(img)
    ensures FreeList(img) == [] ==> AllocateSingle(img, 0, 0) == None
    ensures FreeList(img) != [] ==>
              var t := FreeList(img)[0];
              && Free(img, t)
              && AllocateSingle(img, 0, 0) == Some((img.(blocks := img.blocks[t := WithEntry(ZERO_BLOCK, 0, t)]), t))
  {
    hide WithEntry, PointersOf;
    var free := FreeList(img);
    if free != [] {
      assert free[0] in free;
      ZeroTable();
      assert free[0] !in PointersOf(ZERO_BLOCK);
    }
  }

  /** The first turn. */
  lemma FirstTurn(img: Image, c: seq<U64>)
    requires Addressable(img) && 12 <= |c|
    ensures Turns(img, c, 12).Some? <==> FreeList(img) != []
    ensures FreeList(img) != [] ==>
              var t := FreeList(img)[0];
              && Free(img, t)
              && var table := WithEntry(WithEntry(ZERO_BLOCK, 0, t), 12, c[11]);
              && Turns(img, c, 12) == Some((img.(blocks := img.blocks[t := table]), t))
              && PointersOf(table) == ZeroWords(64)[0 := t][12 := c[11]] && table != ZERO_BLOCK
  {
    hide WithEntry, PointersOf, AllocateSingle, FreeFrom;
    ReservesItself(img);
    assert Turns(img, c, 11) == Some((img, 0));
    if FreeList(img) != [] {
      var t := FreeList(img)[0];
      ZeroTable();
      TwoEntries(ZERO_BLOCK, 0, t, 12, c[11]);
      var table := WithEntry(WithEntry(ZERO_BLOCK, 0, t), 12, c[11]);
      assert PointersOf(table)[0] == t;
      NonZeroEntry(table, 0);
      var one := img.blocks[t := WithEntry(ZERO_BLOCK, 0, t)];
      assert one[t := table] == img.blocks[t := table];
    }
  }

  /** A turn on an existing table. */
  lemma TurnOn(img: Image, t: U64, k: nat, p: U64)
    requires Addressable(img) && 12 <= k < 76 && 0 < t < |img.blocks|
    ensures var table := img.blocks[t];
            var f := FirstOutside(FreeList(img), PointersOf(table));
            Turn(img, t, k, p)
            == if f.None? then None
               else Some((img.(blocks := img.blocks[t := WithEntry(WithEntry(table, k - 12, f.value), k % 64, p)]), t))
  {
    hide WithEntry, PointersOf, FreeFrom, FirstOutside;
    var f := FirstOutside(FreeList(img), PointersOf(img.blocks[t]));
    if f.Some? {
      var half := WithEntry(img.blocks[t], k - 12, f.value);
      var whole := WithEntry(half, k % 64, p);
      assert img.blocks[t := half][t := whole] == img.blocks[t := whole];
    }
  }

  /** A later turn, on the table the turns before it left. */
  lemma NextTurn(img: Image, c: seq<U64>, n: nat, t: U64, table: Block)
    requires Addressable(img) && 13 <= n <= |c| && n < 76 && 0 < t < |img.blocks|
    requires FreeList(img) != [] && t == FreeList(img)[0] && table != ZERO_BLOCK
    requires Turns(img, c, n - 1) == Some((img.(blocks := img.blocks[t := table]), t))
    ensures var f := FirstOutside(FreeList(img)[1..], PointersOf(table));
            && Turns(img, c, n).Some? == f.Some?
            && (f.Some? ==>
                  var table' := WithEntry(WithEntry(table, n - 12, f.value), n % 64, c[n - 1]);
                  && Turns(img, c, n) == Some((img.(blocks := img.blocks[t := table']), t))
                  && PointersOf(table') == PointersOf(table)[n - 12 := f.value][n % 64 := c[n - 1]])
  {
    hide WithEntry, PointersOf, FreeList, FirstOutside, Turn;
    var img' := img.(blocks := img.blocks[t := table]);
    FilledBlock(img, t, table);
    TurnOn(img', t, n, c[n - 1]);
    var f := FirstOutside(FreeList(img'), PointersOf(table));
    if f.Some? {
      TwoEntries(table, n - 12, f.value, n % 64, c[n - 1]);
      var whole := WithEntry(WithEntry(table, n - 12, f.value), n % 64, c[n - 1]);
      assert img'.blocks[t := whole] == img.blocks[t := whole];
    }
  }

  /** Whatever the data: the turns fill one table, at the first free block, as EntryIs says. */
  lemma {:induction false} TurnsFill(img: Image, c: seq<U64>, n: nat) returns (table: Block)
    requires Addressable(img) && 12 <= n <= |c| && n < 76 && Turns(img, c, n).Some?
    requires forall j :: 0 <= j < |c| ==> c[j] != 0
    ensures FreeList(img) != []
    ensures var t := FreeList(img)[0];
            && Free(img, t)
            && Turns(img, c, n) == Some((img.(blocks := img.blocks[t := table]), t))
            && TableIs(img, c, n, t, table)
    decreases n
  {
    hide WithEntry, PointersOf, FreeFrom, Turn, Referenced;
    FirstTurn(img, c);
    if n == 12 {
      table := WithEntry(WithEntry(ZERO_BLOCK, 0, FreeList(img)[0]), 12, c[11]);
    } else {
      var was := TurnsFill(img, c, n - 1);
      var t := FreeList(img)[0];
      NextTurn(img, c, n, t, was);
      var f := FirstOutside(FreeList(img)[1..], PointersOf(was)).value;
      table := WithEntry(WithEntry(was, n - 12, f), n % 64, c[n - 1]);
      InFreeList(img, f);
      assert f in FreeList(img)[1..] && f != t;
      EntriesStep(img, c, n, t, was, table, f);
    }
  }

  lemma EntriesStep(img: Image, c: seq<U64>, n: nat, t: U64, was: Block, table: Block, f: U64)
    requires 13 <= n <= |c| && n < 76 && t != 0 && (forall j :: 0 <= j < |c| ==> c[j] != 0)
    requires TableIs(img, c, n - 1, t, was)
    requires f != t && 1 <= f < |img.blocks| && img.blocks[f] == ZERO_BLOCK
    requires PointersOf(table) == PointersOf(was)[n - 12 := f][n % 64 := c[n - 1]]
    ensures TableIs(img, c, n, t, table)
  {
    hide PointersOf;
    forall j | 0 <= j < 64 ensures EntryIs(img, c, n, t, j, PointersOf(table)[j]) {
      assert EntryIs(img, c, n - 1, t, j, PointersOf(was)[j]);
    }
    assert PointersOf(table)[n % 64] != 0;
    NonZeroEntry(table, n % 64);
  }

  // ----- what read_file returns

  lemma NonZeroPrefix(s: seq<U64>, m: nat)
    requires m <= |s| && forall j :: 0 <= j < m ==> s[j] != 0
    ensures m <= |NonZero(s)| && NonZero(s)[..m] == s[..m]
  {
    NonZeroConcat(s[..m], s[m..]);
    assert s == s[..m] + s[m..];
    NonZeroOfPrefix(s[..m], m);
    assert s[..m][..m] == s[..m];
  }

  lemma {:induction false} FlatTable(blocks: seq<Block>, ps: seq<U64>)
    ensures ForestOk(blocks, ps, 0) && ForestLeaves(blocks, ps, 0) == NonZero(ps)
  {
    if ps != [] {
      FlatTable(blocks, ps[1..]);
    }
  }

  /** The flat enumeration of an inode with twelve direct pointers and one table. */
  lemma SpilledAddresses(blocks: seq<Block>, ino: Inode)
    requires (forall j :: 0 <= j < 12 ==> ino.pointers[j] != 0)
    requires 0 < ino.single < |blocks| && ino.double == 0 && ino.triple == 0
    ensures InodeOk(blocks, ino) && AllAddresses(blocks, ino) == ino.pointers + NonZero(PointersOf(blocks[ino.single]))
  {
    hide PointersOf;
    FlatTable(blocks, PointersOf(blocks[ino.single]));
    NonZeroOfPrefix(ino.pointers, 12);
    assert ino.pointers[..12] == ino.pointers;
  }

  /**
   * What is read as data block d: a direct one as it is, unless the table was put there; then, as far as
   * the stored pointers wrapped round, the data 52 blocks on; after that the table and zeros.
   */
  function ShownAt(t: U64, table: Block, c: seq<U64>, bs: seq<Block>, d: nat): Block
    requires |c| == |bs| && d < |bs|
  {
    var n := |bs|;
    if d < 11 then (if c[d] == t then table else bs[d])
    else if d + 53 <= n then (if c[d + 52] == t then table else bs[d + 52])
    else if d == 11 then table
    else ZERO_BLOCK
  }

  function Shown(t: U64, table: Block, c: seq<U64>, bs: seq<Block>): (r: seq<Block>)
    requires |c| == |bs|
    ensures |r| == |bs| && forall d :: 0 <= d < |bs| ==> r[d] == ShownAt(t, table, c, bs, d)
  {
    seq(|bs|, d requires 0 <= d < |bs| => ShownAt(t, table, c, bs, d))
  }

  /** The block that data block d is read from. */
  lemma ReadFrom(img: Image, c: seq<U64>, bs: seq<Block>, t: U64, table: Block, d: nat)
    requires 12 <= |bs| == |c| < 76 && d < |bs| && 0 < t < |img.blocks|
    requires forall j :: 0 <= j < |bs| ==> c[j] < |img.blocks| && img.blocks[c[j]] == bs[j]
    requires TableIs(img, c, |bs|, t, table)
    ensures var p := if d < 11 then c[d] else PointersOf(table)[d - 11];
            p < |img.blocks| && img.blocks[t := table][p] == ShownAt(t, table, c, bs, d)
  {
    hide PointersOf;
    if d >= 11 {
      assert EntryIs(img, c, |bs|, t, d - 11, PointersOf(table)[d - 11]);
    }
  }

  /**
   * A write of 12 to 75 data blocks that goes through: the table is put in the least block that was free
   * and has not been taken for data other than zeros, and read_file returns what ShownAt says.
   */
  lemma SpillReads(img: Image, i: nat, meta: Metadata, bs: seq<Block>)
    requires Fits(img, i, |bs|) && Spill(img, i, meta, bs).Some?
    ensures var (img', ino) := Spill(img, i, meta, bs).value;
            var c, t := Chosen(img, i, |bs|), ino.single;
            && StillFree(img, i, bs, t) && (forall b :: 0 <= b < t ==> !StillFree(img, i, bs, b))
            && t < |img'.blocks| && img'.blocks[t] != ZERO_BLOCK
            && ReadBytes(img'.blocks, ino) == Some(Flatten(Shown(t, img'.blocks[t], c, bs)))
  {
    hide NoSharing, UniqueNames, Spill, Free, StillFree, Run, FreeFrom, Stored, Chosen, Turns, PointersOf,
         AllAddresses, ShownAt, EntryIs;
    ChosenOk(img, i, |bs|);
    SpillIs(img, i, meta, bs);
    StoredBlocks(img, i, meta, bs);
    var img2, c := Stored(img, i, meta, bs), Chosen(img, i, |bs|);
    var table := TurnsFill(img2, c, |bs|);
    var (img', ino) := Spill(img, i, meta, bs).value;
    TableLeast(img, i, meta, bs);
    var t := ino.single;
    assert img'.blocks == img2.blocks[t := table];
    SpillPointers(img, i, meta, bs);
    SpilledReads(img2, ino, c, bs, t, table);
  }

  lemma SpilledReads(img: Image, ino: Inode, c: seq<U64>, bs: seq<Block>, t: U64, table: Block)
    requires 12 <= |bs| == |c| < 76 && 0 < t < |img.blocks| && TableIs(img, c, |bs|, t, table)
    requires forall j :: 0 <= j < |bs| ==> 0 < c[j] < |img.blocks| && img.blocks[c[j]] == bs[j]
    requires ino.single == t && ino.double == 0 && ino.triple == 0 && ino.numDataBlocks == |bs| + 1
    requires 0 < ino.pointers[0] < |img.blocks| && forall j :: 1 <= j < 12 ==> ino.pointers[j] == c[j - 1]
    ensures ReadBytes(img.blocks[t := table], ino) == Some(Flatten(Shown(t, table, c, bs)))
  {
    hide PointersOf, AllAddresses, InodeOk, ShownAt, EntryIs, TableIs, Flatten;
    var blocks', n, ps := img.blocks[t := table], |bs|, PointersOf(table);
    SpilledAddresses(blocks', ino);
    forall j | 0 <= j < n - 11 ensures ps[j] != 0 {
      EntryNonZero(img, c, n, t, table, j);
    }
    NonZeroPrefix(ps, n - 11);
    var shown := Shown(t, table, c, bs);
    var a: seq<U64> := ino.pointers + NonZero(ps);
    var data: seq<U64> := a[1..n + 1];
    forall d | 0 <= d < n ensures data[d] < |blocks'| && blocks'[data[d]] == shown[d] {
      ReadFrom(img, c, bs, t, table, d);
      assert data[d] == if d < 11 then c[d] else NonZero(ps)[..n - 11][d - 11];
    }
    assert BlocksAt(blocks', data) == shown;
    forall j | 0 <= j < n + 1 ensures a[j] < |blocks'| {
      assert j > 0 ==> a[j] == data[j - 1];
    }
  }

  lemma EntryNonZero(img: Image, c: seq<U64>, n: nat, t: U64, table: Block, j: nat)
    requires 12 <= n <= |c| && n < 76 && t != 0 && TableIs(img, c, n, t, table) && j < n - 11
    requires forall x :: 0 <= x < |c| ==> c[x] != 0
    ensures PointersOf(table)[j] != 0
  {
    hide PointersOf;
    assert EntryIs(img, c, n, t, j, PointersOf(table)[j]);
    assert j + 64 <= n ==> c[j + 63] != 0;
  }

  lemma SpillPointers(img: Image, i: nat, meta: Metadata, bs: seq<Block>)
    requires Fits(img, i, |bs|) && Spill(img, i, meta, bs).Some?
    ensures var ino := Spill(img, i, meta, bs).value.1;
            var c := Chosen(img, i, |bs|);
            && ino.numDataBlocks == |bs| + 1 && ino.double == 0 && ino.triple == 0
            && (forall j :: 1 <= j < 12 ==> ino.pointers[j] == c[j - 1])
            && 0 < ino.pointers[0] == img.inodes[i].pointers[0] < |img.blocks|
            && (forall j :: 0 <= j < 12 ==> ino.pointers[j] != 0)
  {
    hide NoSharing, UniqueNames, Free, FreeFrom, Stored, Chosen, Turns;
    ChosenOk(img, i, |bs|);
  }

  lemma TableLeast(img: Image, i: nat, meta: Metadata, bs: seq<Block>)
    requires Fits(img, i, |bs|) && Spill(img, i, meta, bs).Some?
    ensures var img2, t := Stored(img, i, meta, bs), Spill(img, i, meta, bs).value.1.single;
            && Addressable(img2) && FreeList(img2) != [] && t == FreeList(img2)[0]
            && StillFree(img, i, bs, t) && forall b :: 0 <= b < t ==> !StillFree(img, i, bs, b)
  {
    hide Inv, Spill, Free, StillFree, Run, Stored, Chosen, Turns, EntryIs;
    SpillIs(img, i, meta, bs);
    StoredBlocks(img, i, meta, bs);
    ChosenOk(img, i, |bs|);
    var img2 := Stored(img, i, meta, bs);
    var table := TurnsFill(img2, Chosen(img, i, |bs|), |bs|);
    var free := FreeList(img2);
    StoredFree(img, i, meta, bs, free[0]);
    forall b | 0 <= b < free[0] ensures !StillFree(img, i, bs, b) {
      StoredFree(img, i, meta, bs, b);
      InFreeList(img2, b);
    }
  }

  // ----- when that is the data

  /** The data blocks and the free block after them. */
  function Extended(img: Image, i: nat, n: nat): seq<U64>
    requires Addressable(img) && i < |img.inodes| && 1 <= Held(img.inodes[i])
    requires 12 <= n && n - Kept(img, i) < |FreeList(img)|
    ensures |Extended(img, i, n)| == n + 1
  {
    Chosen(img, i, n + 1)
  }

  /** The words of the table when every chunk from 12 on is zero: blocks 12 on, then the last ones stored. */
  function TableWords(d: seq<U64>, n: nat): (ws: seq<U64>)
    requires 12 <= n < 64 && |d| == n + 1
    ensures |ws| == 64
    ensures forall j :: 0 <= j < 64 ==> ws[j] == if j + 12 <= n then d[j + 12] else if 12 <= j <= n then d[j - 1] else 0
  {
    seq(64, j requires 0 <= j < 64 => if j + 12 <= n then d[j + 12] else if 12 <= j <= n then d[j - 1] else 0)
  }

  /**
   * The data that reads back: no direct block newly taken is all zero; and up to 63 blocks, data block
   * 11 is word for word the table the arm is about to build, all later ones are zero and there is a
   * free block to spare; from 64 on, all blocks from 11 on are zero.
   */
  ghost predicate ReadsBack(img: Image, i: nat, bs: seq<Block>)
    requires Fits(img, i, |bs|)
  {
    var n, h := |bs|, Kept(img, i);
    && (forall j :: h <= j < 11 ==> bs[j] != ZERO_BLOCK)
    && if n < 64
       then && (forall j :: 12 <= j < n ==> bs[j] == ZERO_BLOCK)
            && n - h < |FreeList(img)| && PointersOf(bs[11]) == TableWords(Extended(img, i, n), n)
       else forall j :: 11 <= j < n ==> bs[j] == ZERO_BLOCK
  }

  lemma {:induction false} FirstOutsideIs(free: seq<U64>, ignore: seq<U64>, x: nat)
    requires x <= |free| && (forall y :: 0 <= y < x ==> free[y] in ignore) && (x < |free| ==> free[x] !in ignore)
    ensures FirstOutside(free, ignore) == if x < |free| then Some(free[x]) else None
    decreases x
  {
    if x > 0 {
      FirstOutsideIs(free[1..], ignore, x - 1);
    }
  }

  lemma {:induction false} FirstOutsideBy(free: seq<U64>, ignore: seq<U64>, x: nat) returns (y: nat)
    requires x < |free| && free[x] !in ignore
    ensures y <= x && FirstOutside(free, ignore) == Some(free[y])
    decreases x
  {
    y := 0;
    if free[0] in ignore {
      y := FirstOutsideBy(free[1..], ignore, x - 1);
      y := y + 1;
    }
  }

  /** The free blocks from the first on, as far as reserved, then the last data blocks stored. */
  ghost predicate WordsAre(free: seq<U64>, c: seq<U64>, n: nat, ps: seq<U64>)
    requires 12 <= n <= |c| && n - 11 <= |free| && |ps| == 64
  {
    forall j :: 0 <= j < 64 ==> ps[j] == if j + 12 <= n then free[j] else if 12 <= j <= n then c[j - 1] else 0
  }

  lemma NextReserved(free: seq<U64>, c: seq<U64>, n: nat, ps: seq<U64>)
    requires 13 <= n <= |c| && n < 64 && n - 12 <= |free| && |ps| == 64
    requires Ascending(free) && 0 !in free && c[11] !in free && forall j :: 12 <= j < n ==> c[j] == free[j - 12]
    requires WordsAre(free, c, n - 1, ps)
    ensures FirstOutside(free[1..], ps) == if n - 12 < |free| then Some(free[n - 12]) else None
    ensures n - 12 < |free| ==> WordsAre(free, c, n, ps[n - 12 := free[n - 12]][n % 64 := c[n - 1]])
  {
    hide FirstOutside, WordsAre;
    forall y | 0 <= y < n - 13 ensures free[1..][y] in ps {
      WordAt(free, c, n - 1, ps, y + 1);
      assert ps[y + 1] == free[1..][y];
    }
    if n - 12 < |free| {
      forall j | 0 <= j < 64 ensures ps[j] != free[n - 12] {
        WordIsOther(free, c, n, ps, j);
      }
      NextWords(free, c, n, ps);
    }
    FirstOutsideIs(free[1..], ps, n - 13);
  }

  lemma WordAt(free: seq<U64>, c: seq<U64>, n: nat, ps: seq<U64>, j: nat)
    requires 12 <= n <= |c| && n - 11 <= |free| && |ps| == 64 && WordsAre(free, c, n, ps) && j < 64
    ensures ps[j] == if j + 12 <= n then free[j] else if 12 <= j <= n then c[j - 1] else 0
  {
  }

  lemma WordIsOther(free: seq<U64>, c: seq<U64>, n: nat, ps: seq<U64>, j: nat)
    requires 13 <= n <= |c| && n < 64 && n - 12 < |free| && |ps| == 64 && j < 64
    requires Ascending(free) && 0 !in free && c[11] !in free && forall j :: 12 <= j < n ==> c[j] == free[j - 12]
    requires WordsAre(free, c, n - 1, ps)
    ensures ps[j] != free[n - 12]
  {
    hide WordsAre;
    WordAt(free, c, n - 1, ps, j);
    assert free[n - 12] in free;
    if 12 < j < n {
      assert c[j - 1] == free[j - 13];
    }
  }

  lemma NextWords(free: seq<U64>, c: seq<U64>, n: nat, ps: seq<U64>)
    requires 13 <= n <= |c| && n < 64 && n - 12 < |free| && |ps| == 64 && WordsAre(free, c, n - 1, ps)
    ensures WordsAre(free, c, n, ps[n - 12 := free[n - 12]][n % 64 := c[n - 1]])
  {
    assert n % 64 == n;
  }

  /**
   * The zero chunks being those from 12 on: each turn reserves the next free block, so the table is
   * known, and the turns get through exactly when there is a free block for the last of them.
   */
  lemma {:induction false} ZerosAfterTable(img: Image, c: seq<U64>, n: nat) returns (table: Block)
    requires Addressable(img) && 12 <= n <= |c| && n < 64
    requires n - 12 <= |FreeList(img)| && c[11] !in FreeList(img)
    requires forall j :: 12 <= j < n ==> c[j] == FreeList(img)[j - 12]
    ensures Turns(img, c, n).Some? <==> n - 11 <= |FreeList(img)|
    ensures Turns(img, c, n).Some? ==>
              var t := FreeList(img)[0];
              && t < |img.blocks| && Turns(img, c, n) == Some((img.(blocks := img.blocks[t := table]), t))
              && table != ZERO_BLOCK
              && WordsAre(FreeList(img), c, n, PointersOf(table))
    decreases n
  {
    hide WithEntry, PointersOf, FreeFrom, Turn, Referenced, Turns, WordsAre, FirstOutside;
    FirstTurn(img, c);
    var free := FreeList(img);
    if n == 12 {
      table := if free == [] then ZERO_BLOCK else WithEntry(WithEntry(ZERO_BLOCK, 0, free[0]), 12, c[11]);
      if free != [] {
        FirstWords(free, c, PointersOf(table));
      }
    } else {
      var was := ZerosAfterTable(img, c, n - 1);
      NextTurn(img, c, n, free[0], was);
      NextReserved(free, c, n, PointersOf(was));
      table := if n - 12 < |free| then WithEntry(WithEntry(was, n - 12, free[n - 12]), n % 64, c[n - 1]) else was;
      if n - 12 < |free| {
        WordsNonZero(free, c, n, PointersOf(table));
        NonZeroEntry(table, 0);
      }
    }
  }

  lemma FirstWords(free: seq<U64>, c: seq<U64>, ps: seq<U64>)
    requires 12 <= |c| && free != [] && ps == ZeroWords(64)[0 := free[0]][12 := c[11]]
    ensures WordsAre(free, c, 12, ps)
  {
  }

  lemma WordsNonZero(free: seq<U64>, c: seq<U64>, n: nat, ps: seq<U64>)
    requires 12 <= n <= |c| && n - 11 <= |free| && |ps| == 64 && WordsAre(free, c, n, ps) && 0 !in free
    ensures ps[0] == free[0] != 0
  {
    assert free[0] in free;
  }

  /** Every word is zero or one of the data blocks 11 to n - 1. */
  ghost predicate WordsAmong(c: seq<U64>, n: nat, ps: seq<U64>)
    requires 11 <= n <= |c|
  {
    forall j :: 0 <= j < |ps| ==> ps[j] == 0 || ps[j] in c[11..n]
  }

  lemma NextAmong(free: seq<U64>, c: seq<U64>, n: nat, ps: seq<U64>) returns (f: U64)
    requires 13 <= n <= |c| && n < 76 && n - 11 <= |free| && |ps| == 64 && WordsAmong(c, n - 1, ps)
    requires Ascending(free) && 0 !in free && forall j :: 11 <= j < n ==> c[j] == free[j - 11]
    ensures FirstOutside(free[1..], ps) == Some(f) && c[n - 1] != 0
    ensures WordsAmong(c, n, ps[n - 12 := f][n % 64 := c[n - 1]])
  {
    hide FirstOutside;
    assert c[n - 1] == free[1..][n - 13] && free[n - 12] in free;
    assert c[11..n - 1] == free[..n - 12];
    assert c[11..n] == free[..n - 11] == c[11..n - 1] + [c[n - 1]];
    assert c[n - 1] !in c[11..n - 1];
    var y := FirstOutsideBy(free[1..], ps, n - 13);
    f := free[y + 1];
    assert f == c[11..n][y + 1];
  }

  /** The zero chunks being those from 11 on: the data blocks themselves are there to be reserved. */
  lemma {:induction false} ZerosFromTable(img: Image, c: seq<U64>, n: nat) returns (table: Block)
    requires Addressable(img) && 12 <= n <= |c| && n < 76
    requires n - 11 <= |FreeList(img)| && forall j :: 11 <= j < n ==> c[j] == FreeList(img)[j - 11]
    ensures var t := FreeList(img)[0];
            && t < |img.blocks| && Turns(img, c, n) == Some((img.(blocks := img.blocks[t := table]), t))
            && table != ZERO_BLOCK && WordsAmong(c, n, PointersOf(table))
    decreases n
  {
    hide WithEntry, PointersOf, FreeFrom, Turn, Referenced, Turns, WordsAmong, FirstOutside;
    FirstTurn(img, c);
    var free := FreeList(img);
    if n == 12 {
      table := WithEntry(WithEntry(ZERO_BLOCK, 0, free[0]), 12, c[11]);
      FirstAmong(c, PointersOf(table));
    } else {
      var was := ZerosFromTable(img, c, n - 1);
      NextTurn(img, c, n, free[0], was);
      var f := NextAmong(free, c, n, PointersOf(was));
      table := WithEntry(WithEntry(was, n - 12, f), n % 64, c[n - 1]);
      assert PointersOf(table)[n % 64] == c[n - 1];
      NonZeroEntry(table, n % 64);
    }
  }

  lemma FirstAmong(c: seq<U64>, ps: seq<U64>)
    requires 12 <= |c| && ps == ZeroWords(64)[0 := c[11]][12 := c[11]]
    ensures WordsAmong(c, 12, ps)
  {
    assert c[11] in c[11..12];
  }

  /** The blocks that show as they were written. */
  ghost predicate ShownAsWritten(t: U64, table: Block, c: seq<U64>, bs: seq<Block>)
    requires |c| == |bs|
  {
    forall d :: 0 <= d < |bs| ==> ShownAt(t, table, c, bs, d) == bs[d]
  }

  lemma ReadBackIffShown(img: Image, i: nat, meta: Metadata, bs: seq<Block>)
    requires Fits(img, i, |bs|) && Spill(img, i, meta, bs).Some?
    ensures var (img', ino) := Spill(img, i, meta, bs).value;
            && ino.single < |img'.blocks|
            && (ReadBytes(img'.blocks, ino) == Some(Flatten(bs))
                <==> ShownAsWritten(ino.single, img'.blocks[ino.single], Chosen(img, i, |bs|), bs))
  {
    hide NoSharing, UniqueNames, Spill, ReadBytes, ShownAt, Chosen, StillFree, Flatten, Chunks;
    SpillReads(img, i, meta, bs);
    var (img', ino) := Spill(img, i, meta, bs).value;
    var shown := Shown(ino.single, img'.blocks[ino.single], Chosen(img, i, |bs|), bs);
    ChunksFlatten(shown);
    ChunksFlatten(bs);
    assert shown == bs <==> ShownAsWritten(ino.single, img'.blocks[ino.single], Chosen(img, i, |bs|), bs);
  }

  /** A newly taken block with a zero chunk is not below the table, and if it is the table it shows as one. */
  lemma ZeroChunk(img: Image, i: nat, meta: Metadata, bs: seq<Block>, d: nat)
    requires Fits(img, i, |bs|) && Spill(img, i, meta, bs).Some? && d < |bs|
    ensures var t, c := Spill(img, i, meta, bs).value.1.single, Chosen(img, i, |bs|);
            && (c[d] == t ==> bs[d] == ZERO_BLOCK)
            && (d >= Kept(img, i) && bs[d] == ZERO_BLOCK ==> exists x :: Kept(img, i) <= x <= d && c[x] == t)
  {
    hide NoSharing, UniqueNames, Spill, Free, Run, FreeFrom, Chosen, ReadBytes;
    SpillReads(img, i, meta, bs);
    var t, c, h := Spill(img, i, meta, bs).value.1.single, Chosen(img, i, |bs|), Kept(img, i);
    if d >= h && bs[d] == ZERO_BLOCK {
      ChosenAt(img, i, |bs|, d);
      ChosenOk(img, i, |bs|);
      assert StillFree(img, i, bs, c[d]);
      var free := FreeList(img);
      InFreeList(img, t);
      var y :| 0 <= y < |free| && free[y] == t;
      assert y <= d - h;
      ChosenAt(img, i, |bs|, h + y);
      assert c[h + y] == t;
    }
  }

  /** What reading the data back demands of the first eleven blocks. */
  lemma DirectShown(img: Image, i: nat, meta: Metadata, bs: seq<Block>, d: nat)
    requires Fits(img, i, |bs|) && Spill(img, i, meta, bs).Some? && d < 11
    requires var (img', ino) := Spill(img, i, meta, bs).value;
             && ino.single < |img'.blocks|
             && ShownAsWritten(ino.single, img'.blocks[ino.single], Chosen(img, i, |bs|), bs)
    ensures Chosen(img, i, |bs|)[d] != Spill(img, i, meta, bs).value.1.single
    ensures d >= Kept(img, i) ==> bs[d] != ZERO_BLOCK
  {
    hide NoSharing, UniqueNames, Spill, ReadBytes, Chosen, StillFree, Shown;
    SpillReads(img, i, meta, bs);
    var (img', ino) := Spill(img, i, meta, bs).value;
    var t, c := ino.single, Chosen(img, i, |bs|);
    forall x | 0 <= x < 11 ensures c[x] != t {
      ZeroChunk(img, i, meta, bs, x);
      assert ShownAt(t, img'.blocks[t], c, bs, x) == bs[x];
    }
    ZeroChunk(img, i, meta, bs, d);
  }

  /** And of the rest. */
  lemma TailShown(img: Image, i: nat, meta: Metadata, bs: seq<Block>)
    requires Fits(img, i, |bs|) && Spill(img, i, meta, bs).Some?
    requires var (img', ino) := Spill(img, i, meta, bs).value;
             && ino.single < |img'.blocks|
             && ShownAsWritten(ino.single, img'.blocks[ino.single], Chosen(img, i, |bs|), bs)
    ensures forall j :: 12 <= j < |bs| ==> bs[j] == ZERO_BLOCK
    ensures var (img', ino) := Spill(img, i, meta, bs).value;
            bs[11] == if |bs| < 64 then img'.blocks[ino.single] else ZERO_BLOCK
  {
    hide NoSharing, UniqueNames, Spill, ReadBytes, Chosen, StillFree, Shown;
    var (img', ino) := Spill(img, i, meta, bs).value;
    var n, t, c := |bs|, ino.single, Chosen(img, i, |bs|);
    forall j | 12 <= j < n && j + 53 > n ensures bs[j] == ZERO_BLOCK {
      assert ShownAt(t, img'.blocks[t], c, bs, j) == bs[j];
    }
    forall j | 11 <= j < n && j + 53 <= n ensures bs[j] == ZERO_BLOCK {
      assert ShownAt(t, img'.blocks[t], c, bs, j) == bs[j];
      assert bs[j + 52] == ZERO_BLOCK && bs[23] == ZERO_BLOCK;
      ZeroChunk(img, i, meta, bs, 23);
      var x :| Kept(img, i) <= x <= 23 && c[x] == t;
      ChosenApart(img, i, n, x, j + 52);
    }
    assert ShownAt(t, img'.blocks[t], c, bs, 11) == bs[11];
  }

  /** A block is determined by its words. */
  lemma SameWords(a: Block, b: Block)
    requires PointersOf(a) == PointersOf(b)
    ensures a == b
  {
    hide Get64, PutAll;
    PutAllOfGetAll(a, 64);
    PutAllOfGetAll(b, 64);
  }

  /** Chunks from 12 on zero and those newly taken before it not: what the turns do, and the table. */
  lemma SpillZerosAfter(img: Image, i: nat, meta: Metadata, bs: seq<Block>)
    requires Fits(img, i, |bs|) && |bs| < 64
    requires forall j :: Kept(img, i) <= j < |bs| ==> (bs[j] == ZERO_BLOCK <==> j >= 12)
    ensures Spill(img, i, meta, bs).Some? <==> |bs| - Kept(img, i) < |FreeList(img)|
    ensures Spill(img, i, meta, bs).Some? ==>
              var (img', ino) := Spill(img, i, meta, bs).value;
              && ino.single == FreeList(img)[12 - Kept(img, i)] < |img'.blocks|
              && PointersOf(img'.blocks[ino.single]) == TableWords(Extended(img, i, |bs|), |bs|)
  {
    hide NoSharing, UniqueNames, Spill, Free, FreeList, Stored, Chosen, Extended, Turns, PointersOf, WordsAre;
    var img2, c, n := Stored(img, i, meta, bs), Chosen(img, i, |bs|), |bs|;
    SpillIs(img, i, meta, bs);
    ZerosAligned(img, i, meta, bs, 12);
    var table := ZerosAfterTable(img2, c, n);
    if n - Kept(img, i) < |FreeList(img)| {
      ExtendedAt(img, i, n);
      WordsOfTable(FreeList(img2), c, Extended(img, i, n), n, PointersOf(table));
    }
  }

  lemma WordsOfTable(free: seq<U64>, c: seq<U64>, d: seq<U64>, n: nat, ps: seq<U64>)
    requires 12 <= n < 64 && |c| == n && |d| == n + 1 && n - 11 <= |free| && |ps| == 64 && WordsAre(free, c, n, ps)
    requires (forall j :: 0 <= j < n ==> d[j] == c[j]) && forall j :: 12 <= j <= n ==> d[j] == free[j - 12]
    ensures ps == TableWords(d, n)
  {
    forall j | 0 <= j < 64 ensures ps[j] == TableWords(d, n)[j] {
      WordAt(free, c, n, ps, j);
    }
  }

  lemma ExtendedAt(img: Image, i: nat, n: nat)
    requires Fits(img, i, n) && n - Kept(img, i) < |FreeList(img)|
    ensures var d, h := Extended(img, i, n), Kept(img, i);
            && |d| == n + 1 && (forall j :: 0 <= j < n ==> d[j] == Chosen(img, i, n)[j])
            && forall j :: h <= j <= n ==> d[j] == FreeList(img)[j - h]
  {
  }

  /** Chunks from e on zero: the free list goes on where the data blocks before e end. */
  lemma ZerosAligned(img: Image, i: nat, meta: Metadata, bs: seq<Block>, e: nat)
    requires Fits(img, i, |bs|) && 11 <= e <= 12
    requires forall j :: Kept(img, i) <= j < |bs| ==> (bs[j] == ZERO_BLOCK <==> j >= e)
    ensures Addressable(Stored(img, i, meta, bs))
    ensures var free, c := FreeList(Stored(img, i, meta, bs)), Chosen(img, i, |bs|);
            && |free| == |FreeList(img)| - (e - Kept(img, i)) >= |bs| - e
            && (forall x :: 0 <= x < |free| ==> free[x] == FreeList(img)[x + e - Kept(img, i)])
            && (forall j :: e <= j < |bs| ==> c[j] == free[j - e])
            && (e > 11 ==> c[11] !in free)
  {
    hide NoSharing, UniqueNames, Free, Run, FreeFrom, Stored, Chosen;
    FreeFromChunk(img, i, meta, bs, e);
    forall j | 0 <= j < |bs| && j >= Kept(img, i) ensures Chosen(img, i, |bs|)[j] == FreeList(img)[j - Kept(img, i)] {
      ChosenAt(img, i, |bs|, j);
    }
  }

  /** Chunks from 11 on zero: the turns get through, and the table is data block 11. */
  lemma SpillZerosFrom(img: Image, i: nat, meta: Metadata, bs: seq<Block>)
    requires Fits(img, i, |bs|)
    requires forall j :: Kept(img, i) <= j < |bs| ==> (bs[j] == ZERO_BLOCK <==> j >= 11)
    ensures Spill(img, i, meta, bs).Some?
    ensures Spill(img, i, meta, bs).value.1.single == Chosen(img, i, |bs|)[11]
  {
    hide NoSharing, UniqueNames, Spill, WordsAmong, Free, FreeList, Stored, Chosen, Turns, PointersOf;
    SpillIs(img, i, meta, bs);
    ZerosAligned(img, i, meta, bs, 11);
    var table := ZerosFromTable(Stored(img, i, meta, bs), Chosen(img, i, |bs|), |bs|);
  }

  lemma BlocksReadBackIff(img: Image, i: nat, meta: Metadata, bs: seq<Block>)
    requires Fits(img, i, |bs|)
    ensures var out := Spill(img, i, meta, bs);
            (out.Some? && ReadBytes(out.value.0.blocks, out.value.1) == Some(Flatten(bs))) <==> ReadsBack(img, i, bs)
  {
    hide Inv, Spill, ReadBytes, Chosen, Extended, PointersOf, Flatten, ShownAt;
    var out, n := Spill(img, i, meta, bs), |bs|;
    if out.Some? {
      ReadBackIffShown(img, i, meta, bs);
      if ReadBytes(out.value.0.blocks, out.value.1) == Some(Flatten(bs)) {
        ReadBackNeeds(img, i, meta, bs);
      }
    }
    if ReadsBack(img, i, bs) {
      ReadBackSuffices(img, i, meta, bs);
    }
  }

  lemma ReadBackNeeds(img: Image, i: nat, meta: Metadata, bs: seq<Block>)
    requires Fits(img, i, |bs|) && Spill(img, i, meta, bs).Some?
    requires var (img', ino) := Spill(img, i, meta, bs).value;
             && ino.single < |img'.blocks|
             && ShownAsWritten(ino.single, img'.blocks[ino.single], Chosen(img, i, |bs|), bs)
    ensures ReadsBack(img, i, bs)
  {
    hide Inv, Spill, ReadBytes, Chosen, Extended, PointersOf, ShownAt, ShownAsWritten, StillFree;
    forall j | Kept(img, i) <= j < 11 ensures bs[j] != ZERO_BLOCK {
      DirectShown(img, i, meta, bs, j);
    }
    TailShown(img, i, meta, bs);
    SpillReads(img, i, meta, bs);
    if |bs| < 64 {
      SpillZerosAfter(img, i, meta, bs);
    }
  }

  lemma ReadBackSuffices(img: Image, i: nat, meta: Metadata, bs: seq<Block>)
    requires Fits(img, i, |bs|) && ReadsBack(img, i, bs)
    ensures Spill(img, i, meta, bs).Some?
    ensures var (img', ino) := Spill(img, i, meta, bs).value;
            && ino.single < |img'.blocks|
            && ShownAsWritten(ino.single, img'.blocks[ino.single], Chosen(img, i, |bs|), bs)
  {
    hide NoSharing, UniqueNames, Spill, ReadBytes, Chosen, PointersOf, StillFree, Extended;
    var n, c, h := |bs|, Chosen(img, i, |bs|), Kept(img, i);
    ChosenOk(img, i, n);
    if n < 64 {
      ExtendedAt(img, i, n);
      var d := Extended(img, i, n);
      assert PointersOf(bs[11])[0] == d[12];
      FreeNonZero(img, 12 - h);
      NonZeroEntry(bs[11], 0);
      SpillZerosAfter(img, i, meta, bs);
      var (img', ino) := Spill(img, i, meta, bs).value;
      SameWords(img'.blocks[ino.single], bs[11]);
      forall x | 0 <= x < 11 ensures c[x] != ino.single {
        ExtendedApart(img, i, n, x);
      }
    } else {
      SpillZerosFrom(img, i, meta, bs);
      SpillReads(img, i, meta, bs);
    }
  }

  lemma FreeNonZero(img: Image, x: nat)
    requires Addressable(img) && x < |FreeList(img)|
    ensures FreeList(img)[x] != 0
  {
    assert FreeList(img)[x] in FreeList(img);
  }

  lemma ExtendedApart(img: Image, i: nat, n: nat, x: nat)
    requires Fits(img, i, n) && n - Kept(img, i) < |FreeList(img)| && x < 11
    ensures Chosen(img, i, n)[x] != FreeList(img)[12 - Kept(img, i)]
  {
    ChosenAt(img, i, n, x);
    if x < Kept(img, i) {
      FreeIsNotHeld(img, i, n, x);
    }
  }

  /**
   * The exact condition, for all contents of 5632 to 38399 bytes that there is room for: the write goes
   * through and read_file returns the padded data if and only if the data is of the kind above.
   */
  lemma SpillReadsBackIff(img: Image, i: nat, meta: Metadata, data: seq<Byte>)
    requires DIRECT_LIMIT <= |data| < SINGLE_LIMIT && Fits(img, i, |data| / 512 + 1)
    ensures |Chunks(Padded(data))| == |data| / 512 + 1
    ensures var bs := Chunks(Padded(data));
            var out := Spill(img, i, meta, bs);
            (out.Some? && ReadBytes(out.value.0.blocks, out.value.1) == Some(Padded(data))) <==> ReadsBack(img, i, bs)
  {
    hide Inv, Spill, ReadBytes, ReadsBack, Padded, Chunks, Flatten;
    PaddedChunks(data);
    BlocksReadBackIff(img, i, meta, Chunks(Padded(data)));
  }

  /** The same by name: write_file followed by read_file. */
  lemma WriteSingleReadsBackIff(img: Image, name: Name, i: nat, data: seq<Byte>, perms: Option<Perms>,
                                owner: Option<U64>, now: U64)
    requires DIRECT_LIMIT <= |data| < SINGLE_LIMIT && Fits(img, i, |data| / 512 + 1)
    requires Position(img.inodes, Pad(name)) == Some(i)
    ensures |Chunks(Padded(data))| == |data| / 512 + 1
    ensures var out := WriteSingle(img, name, data, perms, owner, now);
            (&& out.Some? && out.value.1 == Ok(())
             && var r := ReadResult(out.value.0, name);
             && r.Ok? && r.value.0 == Padded(data))
            <==> ReadsBack(img, i, Chunks(Padded(data)))
  {
    hide NoSharing, Run, Stored, Chosen, Turns, ReadBytes, ReadsBack, Padded, Chunks, Flatten, Pad, MetaBlock,
         ReadMeta, FreeFrom;
    var bs := Chunks(Padded(data));
    var meta := WrittenMeta(ReadMeta(img.blocks[img.inodes[i].pointers[0]]), perms, owner, now);
    SpillReadsBackIff(img, i, meta, data);
    if Spill(img, i, meta, bs).Some? {
      SpillKeepsNames(img, i, meta, bs);
      SpillPointers(img, i, meta, bs);
    }
  }

  /** The metadata it leaves. */
  lemma WriteSingleMeta(img: Image, name: Name, i: nat, data: seq<Byte>, perms: Option<Perms>, owner: Option<U64>,
                        now: U64)
    requires DIRECT_LIMIT <= |data| < SINGLE_LIMIT && Fits(img, i, |data| / 512 + 1)
    requires Position(img.inodes, Pad(name)) == Some(i)
    requires WriteSingle(img, name, data, perms, owner, now).Some?
    ensures var (img', r) := WriteSingle(img, name, data, perms, owner, now).value;
            && r == Ok(()) && img.inodes[i].pointers[0] < |img.blocks| && ReadResult(img', name).Ok?
            && var a, b := ReadMeta(img.blocks[img.inodes[i].pointers[0]]), ReadResult(img', name).value.1;
            && b.owner == (if owner.Some? then owner.value else a.owner)
            && (perms.None? ==> b.permissions == a.permissions)
            && (perms.Some? ==> WordPerms(b.permissions) == perms.value)
            && b.creationTime == a.creationTime && b.accessTime == a.accessTime && b.modificationTime == now
  {
    hide NoSharing, Run, Stored, Chosen, Turns, ReadBytes, Padded, Chunks, Flatten, Pad, MetaBlock, ReadMeta, FreeFrom;
    var p, bs := img.inodes[i].pointers[0], Chunks(Padded(data));
    var meta := WrittenMeta(ReadMeta(img.blocks[p]), perms, owner, now);
    PaddedChunks(data);
    SpillReads(img, i, meta, bs);
    SpillKeepsNames(img, i, meta, bs);
    SpillPointers(img, i, meta, bs);
    SpillKeepsMeta(img, i, meta, bs);
    MetaRoundTrip(meta);
    if perms.Some? {
      PermsRoundTrip(perms.value);
    }
  }

  lemma SpillKeepsMeta(img: Image, i: nat, meta: Metadata, bs: seq<Block>)
    requires Fits(img, i, |bs|) && Spill(img, i, meta, bs).Some?
    ensures var blocks' := Spill(img, i, meta, bs).value.0.blocks;
            && |blocks'| == |img.blocks| && img.inodes[i].pointers[0] < |img.blocks|
            && blocks'[img.inodes[i].pointers[0]] == MetaBlock(meta)
  {
    hide NoSharing, UniqueNames, Spill, Free, StillFree, Run, FreeFrom, Chosen, Turns, PointersOf, EntryIs, TableIs;
    var c, p := Chosen(img, i, |bs|), img.inodes[i].pointers[0];
    ChosenOk(img, i, |bs|);
    SpillIs(img, i, meta, bs);
    SpillPointers(img, i, meta, bs);
    TableLeast(img, i, meta, bs);
    StoreAllEffect(MetaWritten(img, p, meta).blocks, c, bs);
    var table := TurnsFill(Stored(img, i, meta, bs), c, |bs|);
    StillFreeIsFree(img, i, bs, Spill(img, i, meta, bs).value.1.single);
    assert Ptr(img.inodes, i, 0) == p;
    FreeUnheld(img, Spill(img, i, meta, bs).value.1.single, i, 0);
  }

  // ----- what it does to the other files

  /** Blocks that no other file holds are all that differs. */
  ghost predicate OthersKept(img: Image, i: nat, blocks': seq<Block>)
    requires i < |img.inodes|
  {
    && |blocks'| == |img.blocks|
    && forall x, j {:trigger Ptr(img.inodes, x, j)} ::
         0 <= x < |img.inodes| && x != i && 0 <= j < 12 && 0 < Ptr(img.inodes, x, j) < |img.blocks|
         ==> blocks'[Ptr(img.inodes, x, j)] == img.blocks[Ptr(img.inodes, x, j)]
  }

  lemma OtherRead(img: Image, i: nat, img': Image, other: Name)
    requires Inv(img) && i < |img.inodes| && OthersKept(img, i, img'.blocks)
    requires |img'.inodes| == |img.inodes| && img'.inodes == img.inodes[i := img'.inodes[i]]
    requires Pad(other) != img.inodes[i].fileName == img'.inodes[i].fileName
    ensures ReadResult(img', other) == ReadResult(img, other)
  {
    hide NoSharing, UniqueNames, ReadBytes, ReadMeta, FileAt, Run, Pad, Position;
    PositionUpdate(img.inodes, i, img'.inodes[i], Pad(other));
    FoundIsLive(img, other);
    var pos := Position(img.inodes, Pad(other));
    if pos.Some? {
      var ino := img.inodes[pos.value];
      assert InodeInv(ino, |img.blocks|);
      forall j | 0 <= j < Held(ino) ensures img'.blocks[ino.pointers[j]] == img.blocks[ino.pointers[j]] {
        assert Ptr(img.inodes, pos.value, j) == ino.pointers[j];
      }
      FileFrame(img.blocks, img'.blocks, ino);
      DirectRead(img.blocks, ino);
      DirectRead(img'.blocks, ino);
    }
  }

  lemma SpillKeepsBlocks(img: Image, i: nat, meta: Metadata, bs: seq<Block>)
    requires Fits(img, i, |bs|) && Spill(img, i, meta, bs).Some?
    ensures var img' := Spill(img, i, meta, bs).value.0;
            OthersKept(img, i, img'.blocks) && img'.blocks[0] == img.blocks[0]
  {
    hide NoSharing, UniqueNames, Spill, Free, StillFree, Run, FreeFrom, Stored, Chosen, Turns, PointersOf, ReadBytes,
         ShownAt;
    hide EntryIs, TableIs;
    ChosenOk(img, i, |bs|);
    StoredBlocks(img, i, meta, bs);
    SpillIs(img, i, meta, bs);
    TableLeast(img, i, meta, bs);
    var img2, c, t := Stored(img, i, meta, bs), Chosen(img, i, |bs|), Spill(img, i, meta, bs).value.1.single;
    var table := TurnsFill(img2, c, |bs|);
    var blocks' := Spill(img, i, meta, bs).value.0.blocks;
    assert blocks' == img2.blocks[t := table];
    StillFreeIsFree(img, i, bs, t);
    SpillPointers(img, i, meta, bs);
    forall x, j | 0 <= x < |img.inodes| && x != i && 0 <= j < 12 && 0 < Ptr(img.inodes, x, j) < |img.blocks|
      ensures blocks'[Ptr(img.inodes, x, j)] == img.blocks[Ptr(img.inodes, x, j)]
    {
      NotTouched(img, i, |bs|, x, j);
      FreeUnheld(img, t, x, j);
    }
  }

  lemma StillFreeIsFree(img: Image, i: nat, bs: seq<Block>, b: nat)
    requires Fits(img, i, |bs|) && StillFree(img, i, bs, b)
    ensures Free(img, b) && 1 <= b < |img.blocks|
  {
  }

  lemma NotTouched(img: Image, i: nat, n: nat, x: nat, j: nat)
    requires Fits(img, i, n) && x < |img.inodes| && x != i && j < 12 && Ptr(img.inodes, x, j) != 0
    ensures var b := Ptr(img.inodes, x, j);
            b != img.inodes[i].pointers[0] && b !in Chosen(img, i, n)
  {
    hide UniqueNames, Free, Run, FreeFrom, Chosen;
    assert Ptr(img.inodes, i, 0) == img.inodes[i].pointers[0];
    var b, c := Ptr(img.inodes, x, j), Chosen(img, i, n);
    forall y | 0 <= y < n ensures c[y] != b {
      ChosenAt(img, i, n, y);
      if y < Kept(img, i) {
        assert c[y] == Ptr(img.inodes, i, y + 1);
      } else {
        FreeUnheld(img, c[y], x, j);
      }
    }
  }

  /** However such a write ends, short of a panic, every other name reads as before. */
  lemma WriteSingleKeepsOthers(img: Image, name: Name, data: seq<Byte>, perms: Option<Perms>, owner: Option<U64>,
                               now: U64, other: Name)
    requires Inv(img) && DIRECT_LIMIT <= |data| < SINGLE_LIMIT && other != name
    requires WriteSingle(img, name, data, perms, owner, now).Some?
    ensures ReadResult(WriteSingle(img, name, data, perms, owner, now).value.0, other) == ReadResult(img, other)
  {
    hide NoSharing, UniqueNames, Run, Spill, ReadResult, Padded, Chunks, Pad, Position, MetaBlock, ReadMeta, FreeFrom;
    PadInjective(name, other);
    FoundIsLive(img, name);
    var pos := Position(img.inodes, Pad(name));
    if pos.Some? {
      var i, bs := pos.value, Chunks(Padded(data));
      var p := img.inodes[i].pointers[0];
      assert InodeInv(img.inodes[i], |img.blocks|);
      var meta := WrittenMeta(ReadMeta(img.blocks[p]), perms, owner, now);
      var img' := WriteSingle(img, name, data, perms, owner, now).value.0;
      if Fits(img, i, |bs|) {
        SpillKeepsBlocks(img, i, meta, bs);
        SpillKeepsNames(img, i, meta, bs);
      } else {
        MetaTouches(img, i, meta);
      }
      OtherRead(img, i, img', other);
    }
  }

  lemma MetaTouches(img: Image, i: nat, meta: Metadata)
    requires Inv(img) && i < |img.inodes| && img.inodes[i].pointers[0] != 0
    requires img.inodes[i].pointers[0] < |img.blocks|
    ensures OthersKept(img, i, MetaWritten(img, img.inodes[i].pointers[0], meta).blocks)
  {
    hide UniqueNames, MetaBlock, Run;
    assert Ptr(img.inodes, i, 0) == img.inodes[i].pointers[0];
  }

  /** Only inode i changes, and it keeps its name. */
  lemma SpillKeepsNames(img: Image, i: nat, meta: Metadata, bs: seq<Block>)
    requires Fits(img, i, |bs|) && Spill(img, i, meta, bs).Some?
    ensures var (img', ino) := Spill(img, i, meta, bs).value;
            && i < |img'.inodes| == |img.inodes| && img'.inodes == img.inodes[i := ino]
            && ino.fileName == img.inodes[i].fileName
            && Position(img'.inodes, img.inodes[i].fileName) == Some(i)
  {
    hide NoSharing, Run, Chosen, Turns, FreeFrom, StoreAll, MetaBlock;
    var (img', ino) := Spill(img, i, meta, bs).value;
    assert img'.inodes == img.inodes[i := ino];
    forall x | 0 <= x < |img.inodes| && x != i ensures img'.inodes[x].fileName != ino.fileName {
      assert img.inodes[x].fileName != img.inodes[i].fileName;
    }
    var r := Position(img'.inodes, ino.fileName);
    assert img'.inodes[i].fileName == ino.fileName;
    assert r.Some? && img'.inodes[r.value].fileName == ino.fileName;
  }

  /** At exactly 5632 bytes, on every image with room, the write goes through and does not read back. */
  lemma LimitIsTight(img: Image, i: nat, meta: Metadata, data: seq<Byte>)
    requires |data| == DIRECT_LIMIT && Fits(img, i, 12)
    ensures |Chunks(Padded(data))| == 12
    ensures var out := Spill(img, i, meta, Chunks(Padded(data)));
            out.Some? && ReadBytes(out.value.0.blocks, out.value.1) != Some(Padded(data))
  {
    hide NoSharing, UniqueNames, Spill, Free, Run, FreeFrom, Stored, Chosen, ReadBytes, PointersOf, Turns, TableWords,
         Extended;
    SpillReadsBackIff(img, i, meta, data);
    var bs, c := Chunks(Padded(data)), Chosen(img, i, 12);
    assert bs[11] == ZERO_BLOCK by {
      assert Padded(data) == data + Zeros(512);
      assert bs[11] == Padded(data)[512 * 11..512 * 11 + 512];
    }
    SpillIs(img, i, meta, bs);
    LastChunkFree(img, i, meta, bs);
    FirstTurn(Stored(img, i, meta, bs), c);
    if ReadsBack(img, i, bs) {
      ZeroTableWords(img, i, 12);
    }
  }

  lemma LastChunkFree(img: Image, i: nat, meta: Metadata, bs: seq<Block>)
    requires |bs| == 12 && Fits(img, i, 12) && bs[11] == ZERO_BLOCK
    ensures Addressable(Stored(img, i, meta, bs)) && FreeList(Stored(img, i, meta, bs)) != []
  {
    hide NoSharing, UniqueNames, Free, Run, FreeFrom, Stored, Chosen;
    StoredBlocks(img, i, meta, bs);
    ChosenAt(img, i, 12, 11);
    ChosenOk(img, i, 12);
    StoredFree(img, i, meta, bs, Chosen(img, i, 12)[11]);
    InFreeList(Stored(img, i, meta, bs), Chosen(img, i, 12)[11]);
  }

  /** The table is never all zero. */
  lemma ZeroTableWords(img: Image, i: nat, n: nat)
    requires Fits(img, i, n) && n < 64 && n - Kept(img, i) < |FreeList(img)|
    ensures |Extended(img, i, n)| == n + 1 && PointersOf(ZERO_BLOCK) != TableWords(Extended(img, i, n), n)
  {
    hide PointersOf;
    ExtendedAt(img, i, n);
    FreeNonZero(img, 12 - Kept(img, i));
    ZeroTable();
    assert TableWords(Extended(img, i, n), n)[0] != 0;
  }
}
