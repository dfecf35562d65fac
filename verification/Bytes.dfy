/** Bytes, 64-bit words and the little-endian layout shared by every on-disk structure. */
module Bytes {

  type Byte = b: int | 0 <= b < 256

  type U64 = n: int | 0 <= n < 0x1_0000_0000_0000_0000

  function Zeros(n: nat): (z: seq<Byte>)
    ensures |z| == n
    ensures forall i :: 0 <= i < n ==> z[i] == 0
  {
    seq(n, _ => 0)
  }

  function ZeroWords(n: nat): (z: seq<U64>)
    ensures |z| == n
    ensures forall i :: 0 <= i < n ==> z[i] == 0
  {
    Zeros(n)
  }

  function Pow256(n: nat): nat {
    if n == 0 then 1 else 256 * Pow256(n - 1)
  }

  /** The n low-order bytes of v, least significant first. */
  function LeBytes(v: nat, n: nat): (bs: seq<Byte>)
    ensures |bs| == n
  {
    if n == 0 then [] else [v % 256] + LeBytes(v / 256, n - 1)
  }

  /** The number whose little-endian digits are bs. */
  function LeValue(bs: seq<Byte>): nat {
    if bs == [] then 0 else bs[0] + 256 * LeValue(bs[1..])
  }

  lemma {:induction false} LeValueOfBytes(v: nat, n: nat)
    requires v < Pow256(n)
    ensures LeValue(LeBytes(v, n)) == v
  {
    if n > 0 {
      LeValueOfBytes(v / 256, n - 1);
      assert LeBytes(v, n)[1..] == LeBytes(v / 256, n - 1);
    }
  }

  lemma QuotientAndRemainder(q: nat, b: Byte)
    ensures (b + 256 * q) / 256 == q && (b + 256 * q) % 256 == b
  {
  }

  lemma {:induction false} LeBytesOfValue(bs: seq<Byte>)
    ensures LeBytes(LeValue(bs), |bs|) == bs
  {
    if bs != [] {
      LeBytesOfValue(bs[1..]);
      QuotientAndRemainder(LeValue(bs[1..]), bs[0]);
    }
  }

  lemma {:induction false} LeValueBound(bs: seq<Byte>)
    ensures LeValue(bs) < Pow256(|bs|)
  {
    if bs != [] {
      LeValueBound(bs[1..]);
    }
  }

  lemma Pow256Of8()
    ensures Pow256(8) == 0x1_0000_0000_0000_0000
  {
    assert Pow256(4) == 0x1_0000_0000;
    assert Pow256(6) == 0x1_0000_0000_0000;
  }

  /** u64::to_le_bytes */
  function Put64(v: U64): (bs: seq<Byte>)
    ensures |bs| == 8
  {
    LeBytes(v, 8)
  }

  /** u64::from_le_bytes */
  function Get64(bs: seq<Byte>): U64
    requires |bs| == 8
  {
    LeValueBound(bs);
    Pow256Of8();
    LeValue(bs)
  }

  lemma Get64OfPut64(v: U64)
    ensures Get64(Put64(v)) == v
  {
    Pow256Of8();
    LeValueOfBytes(v, 8);
  }

  /** Least significant byte first. */
  lemma LittleEndian(bs: seq<Byte>)
    requires |bs| == 8
    ensures Get64(bs)
         == var d: seq<int> := bs;
            d[0] + 0x100 * d[1] + 0x1_0000 * d[2] + 0x100_0000 * d[3] + 0x1_0000_0000 * d[4]
            + 0x100_0000_0000 * d[5] + 0x1_0000_0000_0000 * d[6] + 0x100_0000_0000_0000 * d[7]
  {
    LeValueStep(bs);
    LeValueStep(bs[1..]);
    LeValueStep(bs[2..]);
    LeValueStep(bs[3..]);
    LeValueStep(bs[4..]);
    LeValueStep(bs[5..]);
    LeValueStep(bs[6..]);
    LeValueStep(bs[7..]);
    assert bs[1..][1..] == bs[2..] && bs[2..][1..] == bs[3..] && bs[3..][1..] == bs[4..] && bs[4..][1..] == bs[5..];
    assert bs[5..][1..] == bs[6..] && bs[6..][1..] == bs[7..] && bs[7..][1..] == [];
  }

  lemma LeValueStep(bs: seq<Byte>)
    requires bs != []
    ensures LeValue(bs) == bs[0] + 256 * LeValue(bs[1..])
  {
  }

  lemma Put64OfGet64(bs: seq<Byte>)
    requires |bs| == 8
    ensures Put64(Get64(bs)) == bs
  {
    LeBytesOfValue(bs);
  }

  /** The little-endian images of several words, one after the other. */
  function PutAll(vs: seq<U64>): (bs: seq<Byte>)
    ensures |bs| == 8 * |vs|
  {
    if vs == [] then [] else Put64(vs[0]) + PutAll(vs[1..])
  }

  /** The first n words stored in bs. */
  function GetAll(bs: seq<Byte>, n: nat): (vs: seq<U64>)
    requires 8 * n <= |bs|
    ensures |vs| == n
    ensures forall j :: 0 <= j < n ==> vs[j] == Get64(bs[8 * j..8 * j + 8])
  {
    seq(n, j requires 0 <= j < n => Get64(bs[8 * j..8 * j + 8]))
  }

  lemma {:induction false} PutAllAt(vs: seq<U64>, j: nat)
    requires j < |vs|
    ensures PutAll(vs)[8 * j..8 * j + 8] == Put64(vs[j])
  {
    if j > 0 {
      PutAllAt(vs[1..], j - 1);
      assert PutAll(vs)[8 * j..8 * j + 8] == PutAll(vs[1..])[8 * (j - 1)..8 * (j - 1) + 8];
    }
  }

  lemma {:induction false} PutAllOfGetAll(bs: seq<Byte>, n: nat)
    requires |bs| == 8 * n
    ensures PutAll(GetAll(bs, n)) == bs
  {
    if n > 0 {
      PutAllOfGetAll(bs[8..], n - 1);
      forall j | 0 <= j < n - 1
        ensures GetAll(bs, n)[1..][j] == GetAll(bs[8..], n - 1)[j]
      {
        assert bs[8..][8 * j..8 * j + 8] == bs[8 * (j + 1)..8 * (j + 1) + 8];
      }
      assert GetAll(bs, n)[1..] == GetAll(bs[8..], n - 1);
      Put64OfGet64(bs[..8]);
      assert bs[0..8] == bs[..8];
      assert bs == bs[..8] + bs[8..];
    }
  }

  /** buf with the bytes from off on replaced by bs, as `copy_from_slice` on a sub-slice does. */
  function Splice(buf: seq<Byte>, off: nat, bs: seq<Byte>): (r: seq<Byte>)
    requires off + |bs| <= |buf|
    ensures |r| == |buf|
    ensures forall i :: 0 <= i < |buf| ==> r[i] == if off <= i < off + |bs| then bs[i - off] else buf[i]
  {
    buf[..off] + bs + buf[off + |bs|..]
  }
}
