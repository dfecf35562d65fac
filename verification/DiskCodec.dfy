/** The on-disk format: one sector for the superblock, one per inode, one per data block. */
module DiskCodec {
  import opened Bytes
  import opened FsTypes

  /** A drive or image file as its sectors; reading an absent one is an error. */
  type Disk = map<nat, Block>

  /** The u32 a sector number is cast to. */
  function Sector(n: nat): nat {
    n % 0x1_0000_0000
  }

  // ----- single records

  function EncodeSuperblock(sb: Superblock): Block {
    PutAll([sb.magicNumber, sb.diskSize, sb.inodeTableSize, sb.dataBlockSize, sb.numInodes, sb.numDataBlocks])
    + Zeros(464)
  }

  function DecodeSuperblock(b: Block): Superblock {
    var ws := GetAll(b, 6);
    Superblock(ws[0], ws[1], ws[2], ws[3], ws[4], ws[5])
  }

  function EncodeInode(ino: Inode): Block {
    PutAll([ino.numDataBlocks] + ino.pointers + [ino.single, ino.double, ino.triple]) + ino.fileName
  }

  function DecodeInode(b: Block): Inode {
    var ws := GetAll(b, 16);
    Inode(ws[0], ws[1..13], ws[13], ws[14], ws[15], b[128..])
  }

  lemma PutAllPrefix(ws: seq<U64>, rest: seq<Byte>)
    ensures GetAll(PutAll(ws) + rest, |ws|) == ws
  {
    hide PutAll, Put64, Get64, GetAll;
    forall j | 0 <= j < |ws| ensures GetAll(PutAll(ws) + rest, |ws|)[j] == ws[j] {
      PutAllPrefixAt(ws, rest, j);
    }
  }

  lemma PutAllPrefixAt(ws: seq<U64>, rest: seq<Byte>, j: nat)
    requires j < |ws|
    ensures Get64((PutAll(ws) + rest)[8 * j..8 * j + 8]) == ws[j]
  {
    hide PutAll, Put64, Get64;
    PutAllAt(ws, j);
    SliceOfPrefix(PutAll(ws), rest, 8 * j);
    Get64OfPut64(ws[j]);
  }

  lemma SliceOfPrefix(a: seq<Byte>, rest: seq<Byte>, off: nat)
    requires off + 8 <= |a|
    ensures (a + rest)[off..off + 8] == a[off..off + 8]
  {
  }

  lemma SuperblockRoundTrip(sb: Superblock)
    ensures DecodeSuperblock(EncodeSuperblock(sb)) == sb
  {
    PutAllPrefix([sb.magicNumber, sb.diskSize, sb.inodeTableSize, sb.dataBlockSize, sb.numInodes, sb.numDataBlocks],
                 Zeros(464));
  }

  /** Where the fields are in the superblock's sector. */
  lemma SuperblockLayout(sb: Superblock)
    ensures var b := EncodeSuperblock(sb);
            && Get64(b[0..8]) == sb.magicNumber && Get64(b[8..16]) == sb.diskSize
            && Get64(b[16..24]) == sb.inodeTableSize && Get64(b[24..32]) == sb.dataBlockSize
            && Get64(b[32..40]) == sb.numInodes && Get64(b[40..48]) == sb.numDataBlocks
            && b[48..] == Zeros(464)
  {
    hide Put64, Get64, PutAll;
    var ws := [sb.magicNumber, sb.diskSize, sb.inodeTableSize, sb.dataBlockSize, sb.numInodes, sb.numDataBlocks];
    var b := EncodeSuperblock(sb);
    forall j | 0 <= j < 6 ensures Get64(b[8 * j..8 * j + 8]) == ws[j] {
      PutAllPrefixAt(ws, Zeros(464), j);
    }
    assert Get64(b[8 * 0..8 * 0 + 8]) == ws[0] && Get64(b[8 * 1..8 * 1 + 8]) == ws[1];
    assert Get64(b[8 * 2..8 * 2 + 8]) == ws[2] && Get64(b[8 * 3..8 * 3 + 8]) == ws[3];
    assert Get64(b[8 * 4..8 * 4 + 8]) == ws[4] && Get64(b[8 * 5..8 * 5 + 8]) == ws[5];
  }

  /** Where the fields are in an inode's sector. */
  lemma InodeLayout(ino: Inode)
    ensures var b := EncodeInode(ino);
            && Get64(b[0..8]) == ino.numDataBlocks
            && (forall j :: 0 <= j < 12 ==> Get64(b[8 * j + 8..8 * j + 16]) == ino.pointers[j])
            && Get64(b[104..112]) == ino.single && Get64(b[112..120]) == ino.double
            && Get64(b[120..128]) == ino.triple && b[128..] == ino.fileName
  {
    hide Put64, Get64, PutAll;
    var ws := [ino.numDataBlocks] + ino.pointers + [ino.single, ino.double, ino.triple];
    var b := EncodeInode(ino);
    forall j | 0 <= j < 16 ensures Get64(b[8 * j..8 * j + 8]) == ws[j] {
      PutAllPrefixAt(ws, ino.fileName, j);
    }
    forall j | 0 <= j < 12 ensures Get64(b[8 * j + 8..8 * j + 16]) == ino.pointers[j] {
      assert Get64(b[8 * (j + 1)..8 * (j + 1) + 8]) == ws[j + 1];
    }
    assert Get64(b[8 * 0..8 * 0 + 8]) == ws[0] && Get64(b[8 * 13..8 * 13 + 8]) == ws[13];
    assert Get64(b[8 * 14..8 * 14 + 8]) == ws[14] && Get64(b[8 * 15..8 * 15 + 8]) == ws[15];
  }

  lemma InodeRoundTrip(ino: Inode)
    ensures DecodeInode(EncodeInode(ino)) == ino
  {
    var ws := [ino.numDataBlocks] + ino.pointers + [ino.single, ino.double, ino.triple];
    PutAllPrefix(ws, ino.fileName);
    assert ws[1..13] == ino.pointers;
    assert EncodeInode(ino)[128..] == ino.fileName;
  }

  /** An inode sector has no slack: every sector is the encoding of exactly one inode. */
  lemma InodeSectorRoundTrip(b: Block)
    ensures EncodeInode(DecodeInode(b)) == b
  {
    hide PutAll, Get64;
    var ws := GetAll(b, 16);
    assert b == b[..128] + b[128..];
    forall j | 0 <= j < 16 ensures GetAll(b[..128], 16)[j] == ws[j] {
      SliceOfPrefix(b[..128], b[128..], 8 * j);
    }
    assert GetAll(b[..128], 16) == ws;
    PutAllOfGetAll(b[..128], 16);
    assert ws == ws[..1] + ws[1..13] + ws[13..];
    assert ws[..1] == [ws[0]] && ws[13..] == [ws[13], ws[14], ws[15]];
  }

  // ----- the whole image

  /** What write_to_disk needs so as not to index out of range: long enough tables. */
  predicate Flushable(img: Image) {
    img.sb.inodeTableSize <= |img.inodes| && img.sb.numDataBlocks <= |img.blocks|
  }

  function Sectors(img: Image): nat {
    1 + img.sb.inodeTableSize + img.sb.numDataBlocks
  }

  /** How many sectors write_to_disk has contents for before a table, shorter than recorded, runs out. */
  function Available(img: Image): (n: nat)
    ensures 1 <= n <= Sectors(img)
    ensures n == Sectors(img) <==> Flushable(img)
  {
    if img.sb.inodeTableSize > |img.inodes| then 1 + |img.inodes|
    else if img.sb.numDataBlocks > |img.blocks| then 1 + img.sb.inodeTableSize + |img.blocks|
    else Sectors(img)
  }

  /** The content write_to_disk gives to sector s. */
  function SectorContent(img: Image, s: nat): Block
    requires s < Available(img)
  {
    if s == 0 then EncodeSuperblock(img.sb)
    else if s < 1 + img.sb.inodeTableSize then EncodeInode(img.inodes[s - 1])
    else img.blocks[s - 1 - img.sb.inodeTableSize]
  }

  /** The disk after the first n sectors have been written, in order. */
  function Written(disk: Disk, img: Image, n: nat): Disk
    requires n <= Available(img)
    decreases n
  {
    if n == 0 then disk else Written(disk, img, n - 1)[Sector(n - 1) := SectorContent(img, n - 1)]
  }

  /** No two records share a sector, so all of them survive, and no other sector is touched. */
  lemma {:induction false} WrittenSectors(disk: Disk, img: Image, n: nat)
    requires n <= Available(img) && Sectors(img) <= 0x1_0000_0000
    ensures var d := Written(disk, img, n);
            && (forall s :: 0 <= s < n ==> s in d && d[s] == SectorContent(img, s))
            && (forall s :: s in disk && s >= n ==> s in d && d[s] == disk[s])
            && (forall s :: s in d ==> s in disk || s < n)
    decreases n
  {
    hide SectorContent;
    if n > 0 {
      WrittenSectors(disk, img, n - 1);
      assert Sector(n - 1) == n - 1;
    }
  }

  /** read_from_disk. */
  function Load(disk: Disk): Result<Image> {
    if 0 !in disk then Err(ReadError)
    else
      var sb := DecodeSuperblock(disk[0]);
      if sb.magicNumber != MAGIC_NUMBER then Err(InvalidSuperblock)
      else
        match LoadInodes(disk, sb, sb.inodeTableSize)
        case Ok(inodes) =>
          (match LoadBlocks(disk, sb, sb.numDataBlocks)
           case Ok(blocks) => Ok(Image(sb, inodes, blocks))
           case Err(e) => Err(e)
           case Panic => Panic)
        case Err(e) => Err(e)
        case Panic => Panic
  }

  /** The inode table after n sectors: it starts out as num_inodes empty inodes. */
  function LoadInodes(disk: Disk, sb: Superblock, n: nat): (r: Result<seq<Inode>>)
    ensures r.Ok? ==> |r.value| == sb.numInodes
  {
    if n == 0 then Ok(seq(sb.numInodes, _ => EMPTY_INODE))
    else
      match LoadInodes(disk, sb, n - 1)
      case Ok(inodes) =>
        if Sector(n) !in disk then Err(ReadError)
        else if n - 1 >= sb.numInodes then Panic
        else Ok(inodes[n - 1 := DecodeInode(disk[Sector(n)])])
      case Err(e) => Err(e)
      case Panic => Panic
  }

  function LoadBlocks(disk: Disk, sb: Superblock, n: nat): (r: Result<seq<Block>>)
    requires n <= sb.numDataBlocks
    ensures r.Ok? ==> |r.value| == sb.numDataBlocks
  {
    if n == 0 then Ok(seq(sb.numDataBlocks, _ => ZERO_BLOCK))
    else
      match LoadBlocks(disk, sb, n - 1)
      case Ok(blocks) =>
        var s := Sector(1 + sb.inodeTableSize + (n - 1));
        if s !in disk then Err(ReadError) else Ok(blocks[n - 1 := disk[s]])
      case Err(e) => Err(e)
      case Panic => Panic
  }

  // ----- round trip

  /** What of an image a flush keeps: only inode_table_size inodes and num_data_blocks blocks are stored. */
  function Persisted(img: Image): Image
    requires Flushable(img) && img.sb.inodeTableSize <= img.sb.numInodes
  {
    var k := img.sb.inodeTableSize;
    Image(img.sb, img.inodes[..k] + seq(img.sb.numInodes - k, _ => EMPTY_INODE), img.blocks[..img.sb.numDataBlocks])
  }

  lemma {:induction false} LoadInodesBack(disk: Disk, img: Image, n: nat)
    requires Flushable(img) && n <= img.sb.inodeTableSize && Sectors(img) <= 0x1_0000_0000
    requires forall s :: 0 <= s < Sectors(img) ==> s in disk && disk[s] == SectorContent(img, s)
    ensures LoadInodes(disk, img.sb, n)
         == if n <= img.sb.numInodes
            then Ok(img.inodes[..n] + seq(img.sb.numInodes - n, _ => EMPTY_INODE)) else Panic
    decreases n
  {
    hide EncodeInode, EncodeSuperblock, DecodeInode;
    if n == 0 {
      assert img.inodes[..0] + seq(img.sb.numInodes, _ => EMPTY_INODE) == seq(img.sb.numInodes, _ => EMPTY_INODE);
    } else {
      LoadInodesBack(disk, img, n - 1);
      assert Sector(n) == n && disk[n] == SectorContent(img, n);
      InodeRoundTrip(img.inodes[n - 1]);
      if n <= img.sb.numInodes {
        var was := img.inodes[..n - 1] + seq(img.sb.numInodes - (n - 1), _ => EMPTY_INODE);
        assert was[n - 1 := img.inodes[n - 1]] == img.inodes[..n] + seq(img.sb.numInodes - n, _ => EMPTY_INODE);
      }
    }
  }

  lemma {:induction false} LoadBlocksBack(disk: Disk, img: Image, n: nat)
    requires Flushable(img) && n <= img.sb.numDataBlocks && Sectors(img) <= 0x1_0000_0000
    requires forall s :: 0 <= s < Sectors(img) ==> s in disk && disk[s] == SectorContent(img, s)
    ensures LoadBlocks(disk, img.sb, n) == Ok(img.blocks[..n] + seq(img.sb.numDataBlocks - n, _ => ZERO_BLOCK))
    decreases n
  {
    hide EncodeInode, EncodeSuperblock, SectorContent;
    if n == 0 {
      assert img.blocks[..0] + seq(img.sb.numDataBlocks, _ => ZERO_BLOCK) == seq(img.sb.numDataBlocks, _ => ZERO_BLOCK);
    } else {
      LoadBlocksBack(disk, img, n - 1);
      var s := 1 + img.sb.inodeTableSize + (n - 1);
      BlockSector(img, n - 1);
      assert Sector(s) == s && disk[s] == img.blocks[n - 1];
      var was := img.blocks[..n - 1] + seq(img.sb.numDataBlocks - (n - 1), _ => ZERO_BLOCK);
      assert was[n - 1 := img.blocks[n - 1]] == img.blocks[..n] + seq(img.sb.numDataBlocks - n, _ => ZERO_BLOCK);
    }
  }

  lemma BlockSector(img: Image, i: nat)
    requires Flushable(img) && i < img.sb.numDataBlocks
    ensures SectorContent(img, 1 + img.sb.inodeTableSize + i) == img.blocks[i]
  {
  }

  /** Loading what was flushed, over any previous disk contents: every outcome. */
  lemma FlushThenLoad(disk: Disk, img: Image)
    requires Flushable(img) && Sectors(img) <= 0x1_0000_0000
    ensures Load(Written(disk, img, Sectors(img)))
         == if img.sb.magicNumber != MAGIC_NUMBER then Err(InvalidSuperblock)
            else if img.sb.inodeTableSize > img.sb.numInodes then Panic
            else Ok(Persisted(img))
  {
    hide SectorContent, LoadInodes, LoadBlocks, DecodeSuperblock, EncodeSuperblock, Written;
    var d := Written(disk, img, Sectors(img));
    WrittenSectors(disk, img, Sectors(img));
    FirstSector(img);
    assert 0 in d && DecodeSuperblock(d[0]) == img.sb;
    LoadInodesBack(d, img, img.sb.inodeTableSize);
    LoadBlocksBack(d, img, img.sb.numDataBlocks);
    assert img.blocks[..img.sb.numDataBlocks] + seq(0, _ => ZERO_BLOCK) == img.blocks[..img.sb.numDataBlocks];
  }

  /** Where the records are: the superblock first, then inode_table_size inodes, then the data blocks. */
  lemma DiskLayout(disk: Disk, img: Image)
    requires Flushable(img) && Sectors(img) <= 0x1_0000_0000
    ensures var d, n := Written(disk, img, Sectors(img)), img.sb.inodeTableSize;
            && 0 in d && d[0] == EncodeSuperblock(img.sb)
            && (forall i :: 0 <= i < n ==> 1 + i in d && d[1 + i] == EncodeInode(img.inodes[i]))
            && (forall i :: 0 <= i < img.sb.numDataBlocks ==> 1 + n + i in d && d[1 + n + i] == img.blocks[i])
            && (forall s :: s >= 1 + n + img.sb.numDataBlocks ==> (s in d <==> s in disk))
  {
    hide Written, EncodeInode, EncodeSuperblock;
    WrittenSectors(disk, img, Sectors(img));
  }

  /** What a flush has written when it panics on a short table: every record there is, up to the missing one. */
  lemma PanicLeaves(disk: Disk, img: Image)
    requires !Flushable(img) && Sectors(img) <= 0x1_0000_0000
    ensures var d, n := Written(disk, img, Available(img)), img.sb.inodeTableSize;
            && 0 in d && d[0] == EncodeSuperblock(img.sb)
            && (forall i :: 0 <= i < |img.inodes| && i < n ==> 1 + i in d && d[1 + i] == EncodeInode(img.inodes[i]))
            && (n <= |img.inodes| ==>
                  forall i :: 0 <= i < |img.blocks| ==> 1 + n + i in d && d[1 + n + i] == img.blocks[i])
            && var stop := if n > |img.inodes| then 1 + |img.inodes| else 1 + n + |img.blocks|;
            forall s :: s >= stop ==> (s in d <==> s in disk) && (s in d ==> d[s] == disk[s])
  {
    hide Written, EncodeInode, EncodeSuperblock;
    WrittenSectors(disk, img, Available(img));
  }

  predicate Present(disk: Disk, s: nat) {
    Sector(s) in disk
  }

  /** The sectors a load of a disk with this superblock reads. */
  predicate Readable(disk: Disk, sb: Superblock) {
    forall s :: 1 <= s < 1 + sb.inodeTableSize + sb.numDataBlocks ==> Present(disk, s)
  }

  /** read_from_disk on any disk: when it succeeds, what it then returns, and its first two errors. */
  lemma LoadOkIff(disk: Disk)
    ensures Load(disk).Ok? <==>
              && 0 in disk && Get64(disk[0][0..8]) == 0x7275_7374_6e69_7820
              && var sb := DecodeSuperblock(disk[0]);
              sb.inodeTableSize <= sb.numInodes && Readable(disk, sb)
    ensures Load(disk).Ok? ==>
              var img := Load(disk).value;
              && img.sb == DecodeSuperblock(disk[0])
              && |img.inodes| == img.sb.numInodes && |img.blocks| == img.sb.numDataBlocks
              && (forall i :: 0 <= i < img.sb.inodeTableSize ==>
                    Present(disk, 1 + i) && img.inodes[i] == DecodeInode(disk[Sector(1 + i)]))
              && (forall i :: img.sb.inodeTableSize <= i < |img.inodes| ==> img.inodes[i] == EMPTY_INODE)
              && (forall i :: 0 <= i < |img.blocks| ==>
                    Present(disk, 1 + img.sb.inodeTableSize + i)
                    && img.blocks[i] == disk[Sector(1 + img.sb.inodeTableSize + i)])
    ensures 0 !in disk ==> Load(disk) == Err(ReadError)
    ensures 0 in disk && Get64(disk[0][0..8]) != 0x7275_7374_6e69_7820 ==> Load(disk) == Err(InvalidSuperblock)
    ensures 0 in disk && Get64(disk[0][0..8]) == 0x7275_7374_6e69_7820 && !Load(disk).Ok? ==>
              var sb := DecodeSuperblock(disk[0]);
              && (sb.inodeTableSize <= sb.numInodes ==> Load(disk) == Err(ReadError))
              && (Readable(disk, sb) ==> Load(disk) == Panic)
  {
    hide DecodeInode, LoadInodes, LoadBlocks, Get64;
    if 0 in disk {
      var sb := DecodeSuperblock(disk[0]);
      assert disk[0][8 * 0..8 * 0 + 8] == disk[0][0..8];
      LoadInodesIs(disk, sb, sb.inodeTableSize);
      LoadBlocksIs(disk, sb, sb.numDataBlocks);
    }
  }

  lemma {:induction false} LoadInodesIs(disk: Disk, sb: Superblock, n: nat)
    ensures var r, sectors := LoadInodes(disk, sb, n), forall s :: 1 <= s <= n ==> Present(disk, s);
            && (r.Ok? <==> n <= sb.numInodes && sectors)
            && (n <= sb.numInodes && !sectors ==> r == Err(ReadError))
            && (n > sb.numInodes && sectors ==> r == Panic)
            && (r.Ok? ==>
                  && (forall i :: 0 <= i < n ==>
                        Present(disk, 1 + i) && r.value[i] == DecodeInode(disk[Sector(1 + i)]))
                  && (forall i :: n <= i < sb.numInodes ==> r.value[i] == EMPTY_INODE))
            && (!r.Ok? ==> r == Err(ReadError) || r == Panic)
    decreases n
  {
    hide DecodeInode;
    if n > 0 {
      LoadInodesIs(disk, sb, n - 1);
      assert Present(disk, n) <==> Sector(n) in disk;
      assert (forall s :: 1 <= s <= n ==> Present(disk, s))
        <==> (forall s :: 1 <= s <= n - 1 ==> Present(disk, s)) && Present(disk, n);
    }
  }

  lemma {:induction false} LoadBlocksIs(disk: Disk, sb: Superblock, n: nat)
    requires n <= sb.numDataBlocks
    ensures var r := LoadBlocks(disk, sb, n);
            && (r.Ok? <==> forall s :: 1 + sb.inodeTableSize <= s < 1 + sb.inodeTableSize + n ==> Present(disk, s))
            && (!r.Ok? ==> r == Err(ReadError))
            && (r.Ok? ==> forall i :: 0 <= i < n ==>
                            Present(disk, 1 + sb.inodeTableSize + i)
                            && r.value[i] == disk[Sector(1 + sb.inodeTableSize + i)])
    decreases n
  {
    if n > 0 {
      LoadBlocksIs(disk, sb, n - 1);
      var last := 1 + sb.inodeTableSize + (n - 1);
      assert Present(disk, last) <==> Sector(last) in disk;
      assert (forall s :: 1 + sb.inodeTableSize <= s <= last ==> Present(disk, s))
        <==> (forall s :: 1 + sb.inodeTableSize <= s < last ==> Present(disk, s)) && Present(disk, last);
    }
  }

  lemma FirstSector(img: Image)
    requires Flushable(img)
    ensures DecodeSuperblock(SectorContent(img, 0)) == img.sb
  {
    SuperblockRoundTrip(img.sb);
  }

  /**
   * The round trip is exact precisely when the superblock's counts are the lengths of the tables and
   * no inode beyond inode_table_size is in use.
   */
  lemma RoundTripExactIff(disk: Disk, img: Image)
    requires Flushable(img) && Sectors(img) <= 0x1_0000_0000
    ensures Load(Written(disk, img, Sectors(img))) == Ok(img) <==>
              && img.sb.magicNumber == MAGIC_NUMBER
              && img.sb.inodeTableSize <= img.sb.numInodes == |img.inodes|
              && img.sb.numDataBlocks == |img.blocks|
              && forall i :: img.sb.inodeTableSize <= i < |img.inodes| ==> img.inodes[i] == EMPTY_INODE
  {
    hide Load, Written;
    FlushThenLoad(disk, img);
    var k, n := img.sb.inodeTableSize, img.sb.numInodes;
    if k <= n {
      var back := Persisted(img);
      if n == |img.inodes| {
        assert forall i :: k <= i < n ==> back.inodes[i] == EMPTY_INODE;
        assert (forall i :: k <= i < n ==> img.inodes[i] == EMPTY_INODE) ==> back.inodes == img.inodes;
      }
      assert img.sb.numDataBlocks == |img.blocks| ==> back.blocks == img.blocks;
    }
  }

  // ----- the loops

  /** The inode half of write_to_disk: fill a zeroed sector field by field. */
  method InodeSector(ino: Inode) returns (sector: Block)
    ensures sector == EncodeInode(ino)
  {
    ghost var ws := [ino.numDataBlocks] + ino.pointers + [ino.single, ino.double, ino.triple];
    var buf := Splice(Zeros(512), 0, Put64(ino.numDataBlocks));
    PutAllTake(ws, 0);
    for j := 0 to 12
      invariant |buf| == 512 && buf[..8 * (j + 1)] == PutAll(ws[..j + 1])
    {
      PutAllTake(ws, j + 1);
      var was := buf;
      buf := Splice(buf, 8 * j + 8, Put64(ino.pointers[j]));
      assert buf[..8 * (j + 2)] == was[..8 * (j + 1)] + Put64(ino.pointers[j]);
    }
    var head := buf[..104];
    PutAllTake(ws, 13);
    PutAllTake(ws, 14);
    PutAllTake(ws, 15);
    buf := Splice(buf, 104, Put64(ino.single));
    assert buf[..112] == head + Put64(ino.single);
    head := buf[..112];
    buf := Splice(buf, 112, Put64(ino.double));
    assert buf[..120] == head + Put64(ino.double);
    head := buf[..120];
    buf := Splice(buf, 120, Put64(ino.triple));
    assert buf[..128] == head + Put64(ino.triple);
    head := buf[..128];
    buf := Splice(buf, 128, ino.fileName);
    assert buf == head + ino.fileName;
    assert ws[..16] == ws;
    sector := buf;
  }

  lemma {:induction false} PutAllTake(ws: seq<U64>, j: nat)
    requires j < |ws|
    ensures PutAll(ws[..j + 1]) == PutAll(ws[..j]) + Put64(ws[j])
    decreases j
  {
    if j == 0 {
      assert ws[..1] == [ws[0]] && [ws[0]][1..] == [] && ws[..0] == [];
    } else {
      PutAllTake(ws[1..], j - 1);
      assert ws[..j + 1][1..] == ws[1..][..j] && ws[..j][1..] == ws[1..][..j - 1];
      assert Put64(ws[0]) + (PutAll(ws[1..][..j - 1]) + Put64(ws[j]))
          == (Put64(ws[0]) + PutAll(ws[1..][..j - 1])) + Put64(ws[j]);
    }
  }

  /** The first of sectors lo to hi - 1 that the device refuses to write, hi if it takes them all. */
  function FirstRefused(refused: set<nat>, lo: nat, hi: nat): (n: nat)
    requires lo <= hi
    ensures lo <= n <= hi && (n < hi ==> Sector(n) in refused)
    ensures forall s :: lo <= s < n ==> Sector(s) !in refused
    decreases hi - lo
  {
    if lo == hi || Sector(lo) in refused then lo else FirstRefused(refused, lo + 1, hi)
  }

  /**
   * write_to_disk on a device that refuses the given sectors: everything before the first of them is
   * written and the result is WriteError; if the device takes them all, it is a panic exactly when a
   * table is shorter than its recorded size, and otherwise the whole image is on the disk.
   */
  method WriteToDisk(img: Image, disk: Disk, refused: set<nat>) returns (d: Disk, r: Result<()>)
    ensures var n := FirstRefused(refused, 0, Available(img));
            && d == Written(disk, img, n)
            && r == if n < Available(img) then Err(WriteError) else if Flushable(img) then Ok(()) else Panic
  {
    hide SectorContent, EncodeInode, EncodeSuperblock, FirstRefused, Written;
    SectorContents(img);
    WritingUnfolds(disk, img, refused, 0);
    d := disk;
    if 0 in refused {
      return d, Err(WriteError);
    }
    d := d[0 := EncodeSuperblock(img.sb)];
    ghost var stop, last := FirstRefused(refused, 0, Available(img)), Available(img);
    for i := 0 to img.sb.inodeTableSize
      invariant 1 + i <= last && d == Written(disk, img, 1 + i) && stop == FirstRefused(refused, 1 + i, last)
    {
      WritingUnfolds(disk, img, refused, 1 + i);
      if i >= |img.inodes| {
        return d, Panic;
      }
      var sector := InodeSector(img.inodes[i]);
      if Sector(1 + i) in refused {
        return d, Err(WriteError);
      }
      d := d[Sector(1 + i) := sector];
    }
    for i := 0 to img.sb.numDataBlocks
      invariant img.sb.inodeTableSize <= |img.inodes| && 1 + img.sb.inodeTableSize + i <= last
      invariant d == Written(disk, img, 1 + img.sb.inodeTableSize + i)
      invariant stop == FirstRefused(refused, 1 + img.sb.inodeTableSize + i, last)
    {
      WritingUnfolds(disk, img, refused, 1 + img.sb.inodeTableSize + i);
      if i >= |img.blocks| {
        return d, Panic;
      }
      if Sector(1 + img.sb.inodeTableSize + i) in refused {
        return d, Err(WriteError);
      }
      d := d[Sector(1 + img.sb.inodeTableSize + i) := img.blocks[i]];
    }
    WritingUnfolds(disk, img, refused, last);
    return d, Ok(());
  }

  /** The two recursions at sector n. */
  lemma WritingUnfolds(disk: Disk, img: Image, refused: set<nat>, n: nat)
    requires n <= Available(img)
    ensures n == 0 ==> Written(disk, img, n) == disk
    ensures n == Available(img) ==> FirstRefused(refused, n, n) == n
    ensures n < Available(img) ==>
              && Written(disk, img, n + 1) == Written(disk, img, n)[Sector(n) := SectorContent(img, n)]
              && FirstRefused(refused, n, Available(img))
                 == if Sector(n) in refused then n else FirstRefused(refused, n + 1, Available(img))
  {
    hide SectorContent, Available;
  }

  lemma SectorContents(img: Image)
    ensures SectorContent(img, 0) == EncodeSuperblock(img.sb)
    ensures forall i {:trigger img.inodes[i]} :: 0 <= i < |img.inodes| && i < img.sb.inodeTableSize
              ==> SectorContent(img, 1 + i) == EncodeInode(img.inodes[i])
    ensures img.sb.inodeTableSize <= |img.inodes| ==>
              forall i {:trigger img.blocks[i]} :: 0 <= i < |img.blocks| && i < img.sb.numDataBlocks
                ==> SectorContent(img, 1 + img.sb.inodeTableSize + i) == img.blocks[i]
  {
  }

  /** read_from_disk, sector by sector. */
  method ReadFromDisk(disk: Disk) returns (r: Result<Image>)
    ensures r == Load(disk)
  {
    hide DecodeInode, DecodeSuperblock, LoadInodes, LoadBlocks;
    if 0 !in disk {
      return Err(ReadError);
    }
    var sb := DecodeSuperblock(disk[0]);
    LoadsUnfold(disk, sb);
    if sb.magicNumber != MAGIC_NUMBER {
      return Err(InvalidSuperblock);
    }
    var inodes: seq<Inode> := seq(sb.numInodes, _ => EMPTY_INODE);
    for i := 0 to sb.inodeTableSize
      invariant LoadInodes(disk, sb, i) == Ok(inodes)
    {
      if Sector(1 + i) !in disk {
        LoadInodesStops(disk, sb, i + 1, sb.inodeTableSize);
        return Err(ReadError);
      }
      if i >= sb.numInodes {
        LoadInodesStops(disk, sb, i + 1, sb.inodeTableSize);
        return Panic;
      }
      inodes := inodes[i := DecodeInode(disk[Sector(1 + i)])];
    }
    var blocks: seq<Block> := seq(sb.numDataBlocks, _ => ZERO_BLOCK);
    for i := 0 to sb.numDataBlocks
      invariant LoadBlocks(disk, sb, i) == Ok(blocks)
    {
      var s := Sector(1 + sb.inodeTableSize + i);
      if s !in disk {
        LoadBlocksStops(disk, sb, i + 1, sb.numDataBlocks);
        return Err(ReadError);
      }
      blocks := blocks[i := disk[s]];
    }
    return Ok(Image(sb, inodes, blocks));
  }

  /** The loads sector by sector. */
  lemma LoadsUnfold(disk: Disk, sb: Superblock)
    ensures LoadInodes(disk, sb, 0) == Ok(seq(sb.numInodes, _ => EMPTY_INODE))
    ensures LoadBlocks(disk, sb, 0) == Ok(seq(sb.numDataBlocks, _ => ZERO_BLOCK))
    ensures forall i: nat {:trigger LoadInodes(disk, sb, i)} :: LoadInodes(disk, sb, i).Ok? ==>
              LoadInodes(disk, sb, i + 1)
              == if Sector(1 + i) !in disk then Err(ReadError) else if i >= sb.numInodes then Panic
                 else Ok(LoadInodes(disk, sb, i).value[i := DecodeInode(disk[Sector(1 + i)])])
    ensures forall i: nat {:trigger LoadBlocks(disk, sb, i)} :: i < sb.numDataBlocks && LoadBlocks(disk, sb, i).Ok? ==>
              LoadBlocks(disk, sb, i + 1)
              == var s := Sector(1 + sb.inodeTableSize + i);
                 if s !in disk then Err(ReadError) else Ok(LoadBlocks(disk, sb, i).value[i := disk[s]])
  {
    hide DecodeInode;
  }

  lemma {:induction false} LoadInodesStops(disk: Disk, sb: Superblock, i: nat, n: nat)
    requires i <= n && !LoadInodes(disk, sb, i).Ok?
    ensures LoadInodes(disk, sb, n) == LoadInodes(disk, sb, i)
    decreases n
  {
    if i < n {
      LoadInodesStops(disk, sb, i, n - 1);
    }
  }

  lemma {:induction false} LoadBlocksStops(disk: Disk, sb: Superblock, i: nat, n: nat)
    requires i <= n <= sb.numDataBlocks && !LoadBlocks(disk, sb, i).Ok?
    ensures LoadBlocks(disk, sb, n) == LoadBlocks(disk, sb, i)
    decreases n
  {
    if i < n {
      LoadBlocksStops(disk, sb, i, n - 1);
    }
  }
}
