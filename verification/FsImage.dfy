/**
 * The invariant of the in-memory filesystem and, as functions on images, what each PhysFs operation
 * does to it in the direct range.  The allocator appears here only as "the first free blocks in
 * ascending order"; PhysFs.dfy proves the loops of the source equal to this.
 */
module FsImage {
  import opened Common
  import opened Bytes
  import opened FsTypes

  // ----- names

  /** The first inode at or after lo with the given name, as Iterator::position finds it. */
  function PositionFrom(inodes: seq<Inode>, key: NameField, lo: nat): (r: Option<nat>)
    requires lo <= |inodes|
    ensures r.Some? ==> lo <= r.value < |inodes| && inodes[r.value].fileName == key
    ensures forall j :: lo <= j < (if r.Some? then r.value else |inodes|) ==> inodes[j].fileName != key
    decreases |inodes| - lo
  {
    if lo == |inodes| then None
    else if inodes[lo].fileName == key then Some(lo)
    else PositionFrom(inodes, key, lo + 1)
  }

  function Position(inodes: seq<Inode>, key: NameField): (r: Option<nat>)
    ensures r.Some? ==> r.value < |inodes| && inodes[r.value].fileName == key
    ensures forall j :: 0 <= j < (if r.Some? then r.value else |inodes|) ==> inodes[j].fileName != key
  {
    PositionFrom(inodes, key, 0)
  }

  /** The first unused inode at or after lo. */
  function EmptyFrom(inodes: seq<Inode>, lo: nat): (r: Option<nat>)
    requires lo <= |inodes|
    ensures r.Some? ==> lo <= r.value < |inodes| && inodes[r.value].numDataBlocks == 0
    ensures forall j :: lo <= j < (if r.Some? then r.value else |inodes|) ==> inodes[j].numDataBlocks != 0
    decreases |inodes| - lo
  {
    if lo == |inodes| then None
    else if inodes[lo].numDataBlocks == 0 then Some(lo)
    else EmptyFrom(inodes, lo + 1)
  }

  /** How many inodes are unused. */
  function EmptyCount(inodes: seq<Inode>): nat {
    if inodes == [] then 0
    else (if inodes[0].numDataBlocks == 0 then 1 else 0) + EmptyCount(inodes[1..])
  }

  function Retain(inodes: seq<Inode>, key: NameField): seq<Inode> {
    if inodes == [] then []
    else (if inodes[0].fileName == key then [] else [inodes[0]]) + Retain(inodes[1..], key)
  }

  // ----- pointers

  /** The length of the leading run of non-zero pointers. */
  function Run(ps: seq<U64>): (k: nat)
    ensures k <= |ps|
    ensures forall j :: 0 <= j < k ==> ps[j] != 0
    ensures k < |ps| ==> ps[k] == 0
  {
    if ps == [] || ps[0] == 0 then 0 else 1 + Run(ps[1..])
  }

  /** How many blocks an inode holds on to: the metadata block, its data and any shrunk-off tail. */
  function Held(ino: Inode): (k: nat)
    ensures k <= 12
  {
    Run(ino.pointers)
  }

  predicate Live(ino: Inode) {
    ino.numDataBlocks != 0
  }

  ghost predicate InodeInv(ino: Inode, numBlocks: nat) {
    if Live(ino) then
      && ino.numDataBlocks <= Held(ino)
      && (forall j :: Held(ino) <= j < 12 ==> ino.pointers[j] == 0)
      && (forall j :: 0 <= j < Held(ino) ==> ino.pointers[j] < numBlocks)
      && ino.single == 0 && ino.double == 0 && ino.triple == 0
      && exists name: Name :: ino.fileName == Pad(name)
    else
      ino == EMPTY_INODE
  }

  function Ptr(inodes: seq<Inode>, i: nat, j: nat): U64
    requires i < |inodes| && j < 12
  {
    inodes[i].pointers[j]
  }

  /** No block is referenced from two slots. */
  ghost predicate NoSharing(inodes: seq<Inode>) {
    forall i, j, i', j' {:trigger Ptr(inodes, i, j), Ptr(inodes, i', j')} ::
      0 <= i < |inodes| && 0 <= j < 12 && 0 <= i' < |inodes| && 0 <= j' < 12
      && Ptr(inodes, i, j) != 0 && Ptr(inodes, i, j) == Ptr(inodes, i', j')
      ==> i == i' && j == j'
  }

  ghost predicate UniqueNames(inodes: seq<Inode>) {
    forall i, i' ::
      0 <= i < |inodes| && 0 <= i' < |inodes|
      && Live(inodes[i]) && inodes[i].fileName == inodes[i'].fileName
      ==> i == i'
  }

  ghost predicate Inv(img: Image) {
    && |img.blocks| == img.sb.numDataBlocks
    && |img.inodes| <= img.sb.numInodes
    && (forall i :: 0 <= i < |img.inodes| ==> InodeInv(img.inodes[i], |img.blocks|))
    && NoSharing(img.inodes)
    && UniqueNames(img.inodes)
  }

  // ----- the allocator

  predicate Referenced(inodes: seq<Inode>, b: nat) {
    exists i :: 0 <= i < |inodes| && b in inodes[i].pointers
  }

  /** What find_empty_data_block accepts: not block 0, all zero, in no inode's direct pointers. */
  predicate Free(img: Image, b: nat) {
    1 <= b < |img.blocks| && img.blocks[b] == ZERO_BLOCK && !Referenced(img.inodes, b)
  }

  function FreeSet(img: Image): set<nat> {
    set b: nat | 1 <= b < |img.blocks| && Free(img, b)
  }

  /** Block numbers fit the 64-bit words they are stored in. */
  predicate Addressable(img: Image) {
    |img.blocks| <= 0x1_0000_0000_0000_0000
  }

  function FreeFrom(img: Image, lo: nat): (r: seq<U64>)
    requires Addressable(img)
    ensures forall b :: b in r <==> lo <= b && Free(img, b)
    ensures forall x :: 0 <= x < |r| ==> lo <= r[x]
    ensures forall x, y :: 0 <= x < y < |r| ==> r[x] < r[y]
    decreases |img.blocks| - lo
  {
    if lo >= |img.blocks| then []
    else if Free(img, lo) then [lo] + FreeFrom(img, lo + 1)
    else FreeFrom(img, lo + 1)
  }

  /** The free blocks in the order the allocator hands them out. */
  function FreeList(img: Image): (r: seq<U64>)
    requires Addressable(img)
    ensures forall b :: b in r <==> b in FreeSet(img)
    ensures forall x, y :: 0 <= x < y < |r| ==> r[x] < r[y]
  {
    FreeFrom(img, 1)
  }

  lemma {:induction false} SizeOfDistinct(s: seq<U64>)
    requires Distinct(s)
    ensures |Elems(s)| == |s|
  {
    if s == [] {
      assert Elems(s) == {};
    } else {
      SizeOfDistinct(s[1..]);
      assert s[0] !in s[1..];
      assert Elems(s) == {s[0]} + Elems(s[1..]);
    }
  }

  lemma FreeListSize(img: Image)
    requires Addressable(img)
    ensures |FreeList(img)| == |FreeSet(img)|
  {
    SizeOfDistinct(FreeList(img));
    assert Elems(FreeList(img)) == FreeSet(img);
  }

  // ----- file contents

  /** The data of a write, zero-padded by 1 to 512 bytes to a whole number of blocks. */
  function Padded(data: seq<Byte>): (p: seq<Byte>)
    ensures |p| == 512 * (|data| / 512 + 1)
  {
    data + Zeros(512 - |data| % 512)
  }

  function Chunks(p: seq<Byte>): (bs: seq<Block>)
    ensures |bs| == |p| / 512
    ensures forall i :: 0 <= i < |bs| ==> bs[i] == p[512 * i..512 * i + 512]
  {
    seq(|p| / 512, i requires 0 <= i < |p| / 512 => p[512 * i..512 * i + 512])
  }

  function Flatten(bs: seq<Block>): (p: seq<Byte>)
    ensures |p| == 512 * |bs|
  {
    if bs == [] then [] else bs[0] + Flatten(bs[1..])
  }

  lemma {:induction false} FlattenChunks(p: seq<Byte>)
    requires |p| % 512 == 0
    ensures Flatten(Chunks(p)) == p
    decreases |p|
  {
    if p != [] {
      FlattenChunks(p[512..]);
      forall i | 0 <= i < |p| / 512 - 1 ensures Chunks(p)[1..][i] == Chunks(p[512..])[i] {
        assert p[512..][512 * i..512 * i + 512] == p[512 * (i + 1)..512 * (i + 1) + 512];
      }
      assert Chunks(p)[1..] == Chunks(p[512..]);
      assert Chunks(p)[0] == p[..512];
      assert p == p[..512] + p[512..];
    }
  }

  lemma PaddedChunks(data: seq<Byte>)
    ensures |Chunks(Padded(data))| == |data| / 512 + 1
    ensures Flatten(Chunks(Padded(data))) == Padded(data)
  {
    FlattenChunks(Padded(data));
  }

  lemma {:induction false} ChunksFlatten(bs: seq<Block>)
    ensures Chunks(Flatten(bs)) == bs
  {
    if bs != [] {
      ChunksFlatten(bs[1..]);
      var p := Flatten(bs);
      assert p[512..] == Flatten(bs[1..]);
      forall i | 0 <= i < |bs| ensures Chunks(p)[i] == bs[i] {
        if i > 0 {
          assert bs[1..][i - 1] == Chunks(p[512..])[i - 1];
          assert p[512..][512 * (i - 1)..512 * (i - 1) + 512] == p[512 * i..512 * i + 512];
        }
      }
    }
  }

  function BlocksAt(blocks: seq<Block>, ps: seq<U64>): (bs: seq<Block>)
    requires forall j :: 0 <= j < |ps| ==> ps[j] < |blocks|
    ensures |bs| == |ps|
    ensures forall j :: 0 <= j < |ps| ==> bs[j] == blocks[ps[j]]
  {
    seq(|ps|, j requires 0 <= j < |ps| => blocks[ps[j]])
  }

  /** A file as its users see it, plus the blocks it keeps from a longer past. */
  datatype File = File(bytes: seq<Byte>, spare: seq<Block>, meta: Metadata)

  ghost function FileAt(blocks: seq<Block>, ino: Inode): File
    requires Live(ino) && InodeInv(ino, |blocks|)
  {
    var n, k := ino.numDataBlocks, Held(ino);
    File(Flatten(BlocksAt(blocks, ino.pointers[1..n])),
         BlocksAt(blocks, ino.pointers[n..k]),
         ReadMeta(blocks[ino.pointers[0]]))
  }

  /** What a caller finds under a name. */
  ghost function Lookup(img: Image, name: Name): Option<File>
    requires Inv(img)
  {
    match Position(img.inodes, Pad(name))
    case None => None
    case Some(i) => FoundIsLive(img, name); Some(FileAt(img.blocks, img.inodes[i]))
  }

  lemma FoundIsLive(img: Image, name: Name)
    requires Inv(img)
    ensures forall i :: 0 <= i < |img.inodes| && img.inodes[i].fileName == Pad(name) ==> Live(img.inodes[i])
  {
    assert Pad(name) != Zeros(384);
    forall i | 0 <= i < |img.inodes| && img.inodes[i].fileName == Pad(name) ensures Live(img.inodes[i]) {
      assert InodeInv(img.inodes[i], |img.blocks|);
    }
  }

  // ----- the operations

  datatype Times = Times(created: U64, modified: U64, accessed: U64)

  function NewMeta(perms: Perms, owner: U64, t: Times): Metadata {
    Metadata(owner, t.created, t.modified, t.accessed, PermsWord(perms))
  }

  function NewInode(name: Name, b: U64): Inode {
    EMPTY_INODE.(numDataBlocks := 1, pointers := NO_POINTERS[0 := b], fileName := Pad(name))
  }

  /** create_file: first a block for the metadata, then an inode; a failure of the second leaks the block. */
  function Create(img: Image, name: Name, perms: Perms, owner: U64, t: Times): (Image, Result<()>)
    requires Inv(img)
  {
    var free := FreeList(img);
    if free == [] then (img, Err(DiskFull))
    else
      assert free[0] in free;
      var blocks := img.blocks[free[0] := MetaBlock(NewMeta(perms, owner, t))];
      match EmptyFrom(img.inodes, 0)
      case Some(i) => (Image(img.sb, img.inodes[i := NewInode(name, free[0])], blocks), Ok(()))
      case None =>
        (img.(blocks := blocks), if |img.inodes| < img.sb.numInodes then Panic else Err(OutOfInodes))
  }

  /** The metadata a write leaves: owner and permissions kept unless given, creation and access times kept. */
  function WrittenMeta(m: Metadata, perms: Option<Perms>, owner: Option<U64>, now: U64): Metadata {
    Metadata(if owner.Some? then owner.value else m.owner,
             m.creationTime, now, m.accessTime,
             if perms.Some? then PermsWord(perms.value) else m.permissions)
  }

  /** Store block j of bs under pointer j, for every j. */
  function StoreAll(blocks: seq<Block>, ps: seq<U64>, bs: seq<Block>): (r: seq<Block>)
    requires |ps| == |bs|
    requires forall j :: 0 <= j < |ps| ==> ps[j] < |blocks|
    ensures |r| == |blocks|
    decreases |ps|
  {
    if ps == [] then blocks
    else
      var n := |ps| - 1;
      StoreAll(blocks, ps[..n], bs[..n])[ps[n] := bs[n]]
  }

  /** The data-block pointers after a write of n blocks: those already held, then fresh ones as needed. */
  function WritePointers(ino: Inode, free: seq<U64>, n: nat): (ps: seq<U64>)
    requires 1 <= Held(ino) && Extra(Held(ino) - 1, n) <= |free|
    ensures |ps| == if n <= Held(ino) - 1 then Held(ino) - 1 else n
  {
    ino.pointers[1..Held(ino)] + free[..Extra(Held(ino) - 1, n)]
  }

  function Extra(held: nat, n: nat): nat {
    if n <= held then 0 else n - held
  }

  function MetaWritten(img: Image, p: U64, meta: Metadata): Image
    requires p < |img.blocks|
  {
    img.(blocks := img.blocks[p := MetaBlock(meta)])
  }

  /** An inode with n visible data blocks, its data pointers being ps. */
  function Repointed(ino: Inode, ps: seq<U64>, n: nat): Inode
    requires n <= |ps| <= 11
  {
    ino.(numDataBlocks := n + 1, pointers := [ino.pointers[0]] + ps + NO_POINTERS[|ps| + 1..])
  }

  function DataWritten(img: Image, i: nat, ps: seq<U64>, bs: seq<Block>): Image
    requires i < |img.inodes| && |bs| <= |ps| <= 11
    requires forall j :: 0 <= j < |ps| ==> ps[j] < |img.blocks|
  {
    Image(img.sb, img.inodes[i := Repointed(img.inodes[i], ps, |bs|)], StoreAll(img.blocks, ps[..|bs|], bs))
  }

  /** write_file in the direct range. */
  ghost function Write(img: Image, name: Name, data: seq<Byte>, perms: Option<Perms>, owner: Option<U64>, now: U64)
    : (Image, Result<()>)
    requires Inv(img) && |data| < DIRECT_LIMIT
  {
    match Position(img.inodes, Pad(name))
    case None => (img, Err(FileNotFound))
    case Some(i) =>
      FoundIsLive(img, name);
      var ino := img.inodes[i];
      assert InodeInv(ino, |img.blocks|);
      var bs, free := Chunks(Padded(data)), FreeList(img);
      var meta := WrittenMeta(ReadMeta(img.blocks[ino.pointers[0]]), perms, owner, now);
      var img1 := MetaWritten(img, ino.pointers[0], meta);
      if |free| < Extra(Held(ino) - 1, |bs|) then (img1, Err(DiskFull))
      else
        WritePointersOk(img, i, |bs|);
        (DataWritten(img1, i, WritePointers(ino, free, |bs|), bs), Ok(()))
  }

  lemma WritePointersOk(img: Image, i: nat, n: nat)
    requires Inv(img) && i < |img.inodes| && Live(img.inodes[i])
    requires n <= 11 && Extra(Held(img.inodes[i]) - 1, n) <= |FreeList(img)|
    ensures var ps := WritePointers(img.inodes[i], FreeList(img), n);
            |ps| <= 11 && forall j :: 0 <= j < |ps| ==> 1 <= ps[j] < |img.blocks|
  {
    var ino, free := img.inodes[i], FreeList(img);
    assert InodeInv(ino, |img.blocks|);
    forall x | 0 <= x < |free| ensures 1 <= free[x] < |img.blocks| {
      assert free[x] in free;
    }
  }

  function ZeroAll(blocks: seq<Block>, ps: seq<U64>): seq<Block>
    requires forall j :: 0 <= j < |ps| ==> ps[j] < |blocks|
  {
    StoreAll(blocks, ps, seq(|ps|, _ => ZERO_BLOCK))
  }

  /** delete: zero the first num_data_blocks blocks and drop the inode from the table. */
  ghost function Delete(img: Image, name: Name): (Image, Result<()>)
    requires Inv(img)
  {
    match Position(img.inodes, Pad(name))
    case None => (img, Err(FileNotFound))
    case Some(i) =>
      FoundIsLive(img, name);
      var ino := img.inodes[i];
      assert InodeInv(ino, |img.blocks|);
      (Image(img.sb, Retain(img.inodes, Pad(name)), ZeroAll(img.blocks, ino.pointers[..ino.numDataBlocks])), Ok(()))
  }

  /** chmod and chown rewrite the metadata block with one field changed. */
  ghost function SetMeta(img: Image, name: Name, change: Metadata -> Metadata): (Image, Result<()>)
    requires Inv(img)
  {
    match Position(img.inodes, Pad(name))
    case None => (img, Err(FileNotFound))
    case Some(i) =>
      FoundIsLive(img, name);
      var p := img.inodes[i].pointers[0];
      assert InodeInv(img.inodes[i], |img.blocks|);
      (img.(blocks := img.blocks[p := MetaBlock(change(ReadMeta(img.blocks[p])))]), Ok(()))
  }

  function WithPerms(perms: Perms): Metadata -> Metadata {
    (m: Metadata) => m.(permissions := PermsWord(perms))
  }

  function WithOwner(owner: U64): Metadata -> Metadata {
    (m: Metadata) => m.(owner := owner)
  }
}
