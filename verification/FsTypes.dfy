/** The records of the rustnix filesystem and the in-memory image they make up. */
module FsTypes {
  import opened Bytes

  const NAME_SIZE: nat := 384
  const MAGIC_NUMBER: U64 := 0x727573746e697820
  /** Files shorter than this need at most eleven data blocks, so only direct pointers. */
  const DIRECT_LIMIT: nat := 5632

  datatype FsError =
    | FileNotFound | DiskFull | OutOfInodes | InvalidInode | InvalidDataBlock
    | InvalidSuperblock | ReadError | WriteError

  /** What an operation comes back with; `Panic` is a Rust panic (an index out of range, say). */
  datatype Result<+T> = Ok(value: T) | Err(error: FsError) | Panic

  type Block = b: seq<Byte> | |b| == 512 witness Zeros(512)
  type NameField = b: seq<Byte> | |b| == 384 witness Zeros(384)
  type Pointers = ps: seq<U64> | |ps| == 12 witness ZeroWords(12)

  const ZERO_BLOCK: Block := Zeros(512)
  const NO_POINTERS: Pointers := ZeroWords(12)

  datatype Superblock = Superblock(
    magicNumber: U64, diskSize: U64, inodeTableSize: U64,
    dataBlockSize: U64, numInodes: U64, numDataBlocks: U64)

  datatype Inode = Inode(
    numDataBlocks: U64, pointers: Pointers,
    single: U64, double: U64, triple: U64, fileName: NameField)

  const EMPTY_INODE: Inode := Inode(0, NO_POINTERS, 0, 0, 0, Zeros(384))

  datatype Metadata = Metadata(
    owner: U64, creationTime: U64, modificationTime: U64, accessTime: U64, permissions: U64)

  datatype Image = Image(sb: Superblock, inodes: seq<Inode>, blocks: seq<Block>)

  /** File names as callers pass them: nonempty, at most 384 bytes, no trailing NUL. */
  predicate ValidName(name: seq<Byte>) {
    0 < |name| <= NAME_SIZE && name[|name| - 1] != 0
  }

  type Name = n: seq<Byte> | ValidName(n) witness [1]

  /** The zero-padded form a name takes in an inode. */
  function Pad(name: Name): (f: NameField)
    ensures f != Zeros(384)
    ensures forall i :: 0 <= i < 384 ==> f[i] == if i < |name| then name[i] else 0
  {
    var f := name + Zeros(384 - |name|);
    assert f[|name| - 1] != 0;
    f
  }

  lemma PadInjective(a: Name, b: Name)
    requires a != b
    ensures Pad(a) != Pad(b)
  {
    if |a| < |b| {
      assert Pad(a)[|b| - 1] != Pad(b)[|b| - 1];
    } else if |b| < |a| {
      assert Pad(a)[|a| - 1] != Pad(b)[|a| - 1];
    } else {
      assert Pad(a)[..|a|] == a && Pad(b)[..|b|] == b;
    }
  }

  /** Three permission digits, as chmod takes them and get_perms returns them. */
  datatype Perms = Perms(user: Byte, group: Byte, other: Byte)

  function PermsWord(p: Perms): U64 {
    Get64([p.user, p.group, p.other, 0, 0, 0, 0, 0])
  }

  function WordPerms(w: U64): Perms {
    var bs := Put64(w);
    Perms(bs[0], bs[1], bs[2])
  }

  lemma PermsRoundTrip(p: Perms)
    ensures WordPerms(PermsWord(p)) == p
  {
    Put64OfGet64([p.user, p.group, p.other, 0, 0, 0, 0, 0]);
  }

  /** The digits are the three low bytes of the word, user first. */
  lemma PermsLayout(p: Perms)
    ensures PermsWord(p) == p.user + 0x100 * p.group + 0x1_0000 * p.other
  {
    hide Get64;
    LittleEndian([p.user, p.group, p.other, 0, 0, 0, 0, 0]);
  }

  /** The metadata header block of a file: five words, then zeros. */
  function MetaBlock(m: Metadata): (b: Block) {
    PutAll([m.owner, m.creationTime, m.modificationTime, m.accessTime, m.permissions]) + Zeros(472)
  }

  function ReadMeta(b: Block): Metadata {
    var ws := GetAll(b, 5);
    Metadata(ws[0], ws[1], ws[2], ws[3], ws[4])
  }

  lemma MetaRoundTrip(m: Metadata)
    ensures ReadMeta(MetaBlock(m)) == m
  {
    var ws := [m.owner, m.creationTime, m.modificationTime, m.accessTime, m.permissions];
    var b := MetaBlock(m);
    forall j | 0 <= j < 5 ensures GetAll(b, 5)[j] == ws[j] {
      PutAllAt(ws, j);
      assert b[8 * j..8 * j + 8] == PutAll(ws)[8 * j..8 * j + 8];
      Get64OfPut64(ws[j]);
    }
  }

  /** Where the fields are in the block. */
  lemma MetaLayout(m: Metadata)
    ensures var b := MetaBlock(m);
            && Get64(b[0..8]) == m.owner && Get64(b[8..16]) == m.creationTime
            && Get64(b[16..24]) == m.modificationTime && Get64(b[24..32]) == m.accessTime
            && Get64(b[32..40]) == m.permissions && b[40..] == Zeros(472)
  {
    hide Put64, Get64;
    var ws := [m.owner, m.creationTime, m.modificationTime, m.accessTime, m.permissions];
    forall j | 0 <= j < 5 ensures Get64(MetaBlock(m)[8 * j..8 * j + 8]) == ws[j] {
      PutAllAt(ws, j);
      assert MetaBlock(m)[8 * j..8 * j + 8] == PutAll(ws)[8 * j..8 * j + 8];
      Get64OfPut64(ws[j]);
    }
    var b := MetaBlock(m);
    assert Get64(b[8 * 0..8 * 0 + 8]) == ws[0] && Get64(b[8 * 1..8 * 1 + 8]) == ws[1];
    assert Get64(b[8 * 2..8 * 2 + 8]) == ws[2] && Get64(b[8 * 3..8 * 3 + 8]) == ws[3];
    assert Get64(b[8 * 4..8 * 4 + 8]) == ws[4];
  }
}
