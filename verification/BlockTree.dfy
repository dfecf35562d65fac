/**
 * Block lookup through the direct, single, double and triple indirect pointers, and the flat
 * enumeration of all blocks of an inode.
 *
 * Both are related to one picture: the slots of a pointer tree, read left to right. Level d of a
 * tree has 64^d slots; a null pointer stands for a subtree of zero slots.
 */
module BlockTree {
  import opened Common
  import opened Bytes
  import opened FsTypes

  const FANOUT: nat := 64
  /** 12 direct blocks, 64 single, and the 63 entries of the double block that are ever addressed. */
  const TRIPLE_START: nat := 4108
  const MAX_BLOCKS: nat := 266252

  /** A block read as a table of pointers. */
  function PointersOf(b: Block): (ps: seq<U64>)
    ensures |ps| == 64
  {
    GetAll(b, 64)
  }

  /** Entry j is the little-endian word at byte 8j. */
  lemma TableLayout(b: Block, j: nat)
    requires j < 64
    ensures PointersOf(b)[j] == Get64(b[8 * j..8 * j + 8])
  {
    hide Get64;
  }

  // ----- get_block and its helpers; None is an index out of range, a panic in the source

  function GetSingle(blocks: seq<Block>, single: U64, n: nat): Option<U64> {
    if single < |blocks| then Some(PointersOf(blocks[single])[n % 64]) else None
  }

  function GetDouble(blocks: seq<Block>, double: U64, n: nat): Option<U64> {
    if double < |blocks| && n / 64 < 64
    then GetSingle(blocks, PointersOf(blocks[double])[n / 64], n % 64)
    else None
  }

  function GetTriple(blocks: seq<Block>, triple: U64, n: nat): Option<U64> {
    if triple < |blocks| && n / 4096 < 64
    then GetDouble(blocks, PointersOf(blocks[triple])[n / 4096], n % 4096)
    else None
  }

  function GetBlock(blocks: seq<Block>, inode: Inode, n: nat): Option<U64> {
    if n < 12 then Some(inode.pointers[n])
    else if n < 12 + 64 then GetSingle(blocks, inode.single, n - 12)
    else if n < 12 + 64 * 64 then GetDouble(blocks, inode.double, n - 12 - 64)
    else GetTriple(blocks, inode.triple, n - 12 - 64 * 64)
  }

  // ----- the slots of a tree

  function Span(d: nat): (s: nat)
    ensures s > 0
  {
    if d == 0 then 1 else 64 * Span(d - 1)
  }

  lemma SpanStep(d: nat)
    ensures Span(d) == if d == 0 then 1 else 64 * Span(d - 1)
  {
  }

  /** Every non-null pointer above the leaves names an existing block. */
  predicate TreeOk(blocks: seq<Block>, p: U64, d: nat)
    decreases d, 0
  {
    d == 0 || p == 0 || (p < |blocks| && ForestOk(blocks, PointersOf(blocks[p]), d - 1))
  }

  predicate ForestOk(blocks: seq<Block>, ps: seq<U64>, d: nat)
    decreases d, 1
  {
    forall j :: 0 <= j < |ps| ==> TreeOk(blocks, ps[j], d)
  }

  function Slots(blocks: seq<Block>, p: U64, d: nat): (s: seq<U64>)
    requires TreeOk(blocks, p, d)
    ensures |s| == Span(d)
    decreases d, 0
  {
    if d == 0 then [p]
    else if p == 0 then seq(Span(d), _ => 0)
    else ForestSlots(blocks, PointersOf(blocks[p]), d - 1)
  }

  function ForestSlots(blocks: seq<Block>, ps: seq<U64>, d: nat): (s: seq<U64>)
    requires ForestOk(blocks, ps, d)
    ensures |s| == |ps| * Span(d)
    decreases d, 1, |ps|
  {
    if ps == [] then [] else Slots(blocks, ps[0], d) + ForestSlots(blocks, ps[1..], d)
  }

  /** The non-zero entries, in order. */
  function NonZero(s: seq<U64>): (r: seq<U64>)
    ensures |r| <= |s|
  {
    if s == [] then [] else if s[0] == 0 then NonZero(s[1..]) else [s[0]] + NonZero(s[1..])
  }

  lemma ConcatThree(x: seq<U64>, y: seq<U64>, z: seq<U64>)
    ensures x + (y + z) == (x + y) + z
  {
  }

  lemma {:induction false} NonZeroConcat(a: seq<U64>, b: seq<U64>)
    ensures NonZero(a + b) == NonZero(a) + NonZero(b)
  {
    if a == [] {
      assert a + b == b;
    } else {
      NonZeroConcat(a[1..], b);
      assert (a + b)[1..] == a[1..] + b && (a + b)[0] == a[0];
      ConcatThree([a[0]], NonZero(a[1..]), NonZero(b));
    }
  }

  lemma {:induction false} NonZeroOfZeros(s: seq<U64>)
    requires forall i :: 0 <= i < |s| ==> s[i] == 0
    ensures NonZero(s) == []
  {
    if s != [] {
      NonZeroOfZeros(s[1..]);
    }
  }

  lemma {:induction false} NonZeroOfPrefix(s: seq<U64>, n: nat)
    requires n <= |s|
    requires forall i :: 0 <= i < |s| ==> (s[i] != 0 <==> i < n)
    ensures NonZero(s) == s[..n]
  {
    if n == 0 {
      NonZeroOfZeros(s);
    } else {
      NonZeroOfPrefix(s[1..], n - 1);
    }
  }

  lemma {:induction false} NonZeroMember(s: seq<U64>, i: nat)
    requires i < |s| && s[i] != 0
    ensures s[i] in NonZero(s)
  {
    if i > 0 {
      NonZeroMember(s[1..], i - 1);
    }
  }

  lemma {:induction false} NonZeroIsMember(s: seq<U64>, v: U64)
    requires v in NonZero(s)
    ensures v != 0 && v in s
  {
    if s[0] == 0 || s[0] != v {
      NonZeroIsMember(s[1..], v);
    }
  }

  // ----- what the nested loops of get_all_block_addresses collect

  function Leaves(blocks: seq<Block>, p: U64, d: nat): (s: seq<U64>)
    requires TreeOk(blocks, p, d)
    decreases d, 0
  {
    if p == 0 then [] else if d == 0 then [p]
    else ForestLeaves(blocks, PointersOf(blocks[p]), d - 1)
  }

  function ForestLeaves(blocks: seq<Block>, ps: seq<U64>, d: nat): (s: seq<U64>)
    requires ForestOk(blocks, ps, d)
    decreases d, 1, |ps|
  {
    if ps == [] then [] else Leaves(blocks, ps[0], d) + ForestLeaves(blocks, ps[1..], d)
  }

  lemma {:induction false} LeavesAreNonZeroSlots(blocks: seq<Block>, p: U64, d: nat)
    requires TreeOk(blocks, p, d)
    ensures Leaves(blocks, p, d) == NonZero(Slots(blocks, p, d))
    decreases d, 0
  {
    if p == 0 {
      NonZeroOfZeros(Slots(blocks, p, d));
    } else if d > 0 {
      ForestLeavesAreNonZeroSlots(blocks, PointersOf(blocks[p]), d - 1);
    }
  }

  lemma {:induction false} ForestLeavesAreNonZeroSlots(blocks: seq<Block>, ps: seq<U64>, d: nat)
    requires ForestOk(blocks, ps, d)
    ensures ForestLeaves(blocks, ps, d) == NonZero(ForestSlots(blocks, ps, d))
    decreases d, 1, |ps|
  {
    if ps != [] {
      LeavesAreNonZeroSlots(blocks, ps[0], d);
      ForestLeavesAreNonZeroSlots(blocks, ps[1..], d);
      NonZeroConcat(Slots(blocks, ps[0], d), ForestSlots(blocks, ps[1..], d));
    }
  }

  lemma {:induction false} ForestLeavesAppend(blocks: seq<Block>, ps: seq<U64>, p: U64, d: nat)
    requires ForestOk(blocks, ps, d) && TreeOk(blocks, p, d)
    ensures ForestOk(blocks, ps + [p], d)
    ensures ForestLeaves(blocks, ps + [p], d) == ForestLeaves(blocks, ps, d) + Leaves(blocks, p, d)
    decreases |ps|
  {
    if ps == [] {
      assert ps + [p] == [p];
      assert [p][1..] == [];
    } else {
      ForestLeavesAppend(blocks, ps[1..], p, d);
      assert (ps + [p])[1..] == ps[1..] + [p];
    }
  }

  // ----- slot j*64^d + r of a table is slot r of its jth subtree

  lemma {:induction false} ForestSlotAt(blocks: seq<Block>, ps: seq<U64>, d: nat, j: nat, r: nat)
    requires ForestOk(blocks, ps, d)
    requires j < |ps| && r < Span(d)
    ensures j * Span(d) + r < |ps| * Span(d)
    ensures ForestSlots(blocks, ps, d)[j * Span(d) + r] == Slots(blocks, ps[j], d)[r]
    decreases j
  {
    hide Span, TreeOk;
    var s := Span(d);
    ScaleBound(j, r, |ps|, s);
    if j > 0 {
      ForestSlotAt(blocks, ps[1..], d, j - 1, r);
      var k := (j - 1) * s + r;
      assert j * s + r == s + k;
      assert (Slots(blocks, ps[0], d) + ForestSlots(blocks, ps[1..], d))[s + k]
          == ForestSlots(blocks, ps[1..], d)[k];
    }
  }

  lemma ScaleBound(j: nat, r: nat, n: nat, s: nat)
    requires j < n && r < s
    ensures j * s + r < n * s
    ensures j > 0 ==> j * s + r == s + ((j - 1) * s + r)
  {
    assert (j + 1) * s == j * s + s;
    MulMonotone(j + 1, n, s);
  }

  lemma {:induction false} MulMonotone(a: nat, b: nat, s: nat)
    requires a <= b
    ensures a * s <= b * s
    decreases b - a
  {
    if a < b {
      MulMonotone(a + 1, b, s);
      assert (a + 1) * s == a * s + s;
    }
  }

  /** The slot a given logical block number is looked up in. */
  function SlotOf(n: nat): (s: nat)
    ensures !(TRIPLE_START <= s < TRIPLE_START + FANOUT)
  {
    if n < TRIPLE_START then n else n + FANOUT
  }

  predicate InodeOk(blocks: seq<Block>, inode: Inode) {
    TreeOk(blocks, inode.single, 1) && TreeOk(blocks, inode.double, 2) && TreeOk(blocks, inode.triple, 3)
  }

  function FileSlots(blocks: seq<Block>, inode: Inode): (s: seq<U64>)
    requires InodeOk(blocks, inode)
    ensures |s| == MAX_BLOCKS + FANOUT
  {
    inode.pointers + Slots(blocks, inode.single, 1) + Slots(blocks, inode.double, 2)
    + Slots(blocks, inode.triple, 3)
  }

  /** The specification of get_all_block_addresses. */
  function AllAddresses(blocks: seq<Block>, inode: Inode): (s: seq<U64>)
    requires InodeOk(blocks, inode)
  {
    NonZero(inode.pointers) + Leaves(blocks, inode.single, 1) + Leaves(blocks, inode.double, 2)
    + Leaves(blocks, inode.triple, 3)
  }

  lemma AllAddressesAreNonZeroSlots(blocks: seq<Block>, inode: Inode)
    requires InodeOk(blocks, inode)
    ensures AllAddresses(blocks, inode) == NonZero(FileSlots(blocks, inode))
  {
    LeavesAreNonZeroSlots(blocks, inode.single, 1);
    LeavesAreNonZeroSlots(blocks, inode.double, 2);
    LeavesAreNonZeroSlots(blocks, inode.triple, 3);
    var a, b := inode.pointers, Slots(blocks, inode.single, 1);
    var c, d := Slots(blocks, inode.double, 2), Slots(blocks, inode.triple, 3);
    NonZeroConcat(a, b);
    NonZeroConcat(a + b, c);
    NonZeroConcat(a + b + c, d);
  }

  // ----- lookup reads the slot

  /** Descend from a level-d pointer to slot n, as the get_*_indirect_block functions do. */
  function Descend(blocks: seq<Block>, p: U64, d: nat, n: nat): Option<U64>
    requires n < Span(d)
    decreases d
  {
    if d == 0 then Some(p)
    else if p < |blocks| then
      DivBound(n, 64, Span(d - 1));
      Descend(blocks, PointersOf(blocks[p])[n / Span(d - 1)], d - 1, n % Span(d - 1))
    else None
  }

  lemma DivBound(n: nat, a: nat, s: nat)
    requires s > 0 && n < a * s
    ensures n / s < a && n == n / s * s + n % s
  {
    if n / s >= a {
      MulMonotone(a, n / s, s);
      assert false;
    }
  }

  lemma ZeroBlockPointers(j: nat)
    requires j < 64
    ensures PointersOf(ZERO_BLOCK)[j] == 0
  {
    var z := ZERO_BLOCK[8 * j..8 * j + 8];
    Get64OfPut64(0);
    assert z == Put64(0) by {
      assert LeBytes(0, 8) == [0, 0, 0, 0, 0, 0, 0, 0] by { assert LeBytes(0, 6) == [0, 0, 0, 0, 0, 0]; }
    }
  }

  /** Holes read as zero: the block that null table pointers are followed into is itself zero. */
  predicate NullReadsZero(blocks: seq<Block>) {
    |blocks| > 0 && blocks[0] == ZERO_BLOCK
  }

  /** A null pointer is followed into block 0; if that is zero, the lookup ends in zero. */
  lemma {:induction false} DescendFromNull(blocks: seq<Block>, d: nat, n: nat)
    requires n < Span(d) && NullReadsZero(blocks)
    ensures Descend(blocks, 0, d, n) == Some(0)
    decreases d
  {
    hide PointersOf, Span;
    SpanStep(d);
    if d > 0 {
      var s := Span(d - 1);
      DivBound(n, 64, s);
      var j: nat, r: nat := n / s, n % s;
      ZeroBlockPointers(j);
      DescendFromNull(blocks, d - 1, r);
    }
  }

  lemma NullSlots(blocks: seq<Block>, d: nat, n: nat)
    requires n < Span(d)
    ensures TreeOk(blocks, 0, d) && Slots(blocks, 0, d)[n] == 0
  {
  }

  /**
   * A lookup finds the slot's value whenever that is a block; holes read as zero too as long as
   * block 0, which null table pointers are followed into, is itself zero.
   */
  lemma {:induction false} DescendReadsSlot(blocks: seq<Block>, p: U64, d: nat, n: nat)
    requires TreeOk(blocks, p, d) && n < Span(d)
    ensures Slots(blocks, p, d)[n] != 0 || NullReadsZero(blocks)
            ==> Descend(blocks, p, d, n) == Some(Slots(blocks, p, d)[n])
    decreases d
  {
    if p == 0 {
      NullSlots(blocks, d, n);
      if NullReadsZero(blocks) {
        DescendFromNull(blocks, d, n);
      }
    } else if d > 0 {
      var j, r := TableSlot(blocks, p, d, n);
      DescendReadsSlot(blocks, PointersOf(blocks[p])[j], d - 1, r);
    }
  }

  /** A slot below a table is a slot below one of its entries, and the descent goes through that entry. */
  lemma TableSlot(blocks: seq<Block>, p: U64, d: nat, n: nat) returns (j: nat, r: nat)
    requires d > 0 && p != 0 && TreeOk(blocks, p, d) && n < Span(d)
    ensures j < 64 && r < Span(d - 1) && n == j * Span(d - 1) + r
    ensures var q := PointersOf(blocks[p])[j];
            && TreeOk(blocks, q, d - 1)
            && Slots(blocks, p, d)[n] == Slots(blocks, q, d - 1)[r]
            && Descend(blocks, p, d, n) == Descend(blocks, q, d - 1, r)
  {
    hide PointersOf;
    DivBound(n, 64, Span(d - 1));
    j, r := n / Span(d - 1), n % Span(d - 1);
    ForestSlotAt(blocks, PointersOf(blocks[p]), d - 1, j, r);
  }

  lemma GetSingleDescends(blocks: seq<Block>, p: U64, n: nat)
    requires n < 64
    ensures n < Span(1) && GetSingle(blocks, p, n) == Descend(blocks, p, 1, n)
  {
    assert Span(0) == 1 && Span(1) == 64;
  }

  lemma GetDoubleDescends(blocks: seq<Block>, p: U64, n: nat)
    requires n < 4096
    ensures n < Span(2) && GetDouble(blocks, p, n) == Descend(blocks, p, 2, n)
  {
    assert Span(1) == 64 && Span(2) == 4096;
    if p < |blocks| {
      GetSingleDescends(blocks, PointersOf(blocks[p])[n / 64], n % 64);
    }
  }

  lemma GetTripleDescends(blocks: seq<Block>, p: U64, n: nat)
    requires n < 262144
    ensures n < Span(3) && GetTriple(blocks, p, n) == Descend(blocks, p, 3, n)
  {
    assert Span(2) == 4096 && Span(3) == 262144;
    if p < |blocks| {
      GetDoubleDescends(blocks, PointersOf(blocks[p])[n / 4096], n % 4096);
    }
  }

  lemma FileSlotsAt(blocks: seq<Block>, inode: Inode)
    requires InodeOk(blocks, inode)
    ensures var s := FileSlots(blocks, inode);
            && |Slots(blocks, inode.single, 1)| == 64
            && |Slots(blocks, inode.double, 2)| == 4096
            && |Slots(blocks, inode.triple, 3)| == 262144
            && (forall k {:trigger s[k]} :: 0 <= k < 12 ==> s[k] == inode.pointers[k])
            && (forall k {:trigger s[k]} :: 12 <= k < 76 ==> s[k] == Slots(blocks, inode.single, 1)[k - 12])
            && (forall k {:trigger s[k]} :: 76 <= k < 4172 ==> s[k] == Slots(blocks, inode.double, 2)[k - 76])
            && (forall k {:trigger s[k]} :: 4172 <= k < 266316 ==> s[k] == Slots(blocks, inode.triple, 3)[k - 4172])
  {
    assert Span(1) == 64 && Span(2) == 4096 && Span(3) == 262144;
  }

  /** The three indirect regions of get_block are descents into the three trees. */
  lemma GetBlockDescends(blocks: seq<Block>, inode: Inode, n: nat)
    ensures n < 12 ==> GetBlock(blocks, inode, n) == Some(inode.pointers[n])
    ensures 12 <= n < 76 ==>
              n - 12 < Span(1) && GetBlock(blocks, inode, n) == Descend(blocks, inode.single, 1, n - 12)
    ensures 76 <= n < TRIPLE_START ==>
              n - 76 < Span(2) && GetBlock(blocks, inode, n) == Descend(blocks, inode.double, 2, n - 76)
    ensures TRIPLE_START <= n < MAX_BLOCKS ==>
              n - TRIPLE_START < Span(3)
              && GetBlock(blocks, inode, n) == Descend(blocks, inode.triple, 3, n - TRIPLE_START)
  {
    if 12 <= n < 76 {
      GetSingleDescends(blocks, inode.single, n - 12);
    } else if 76 <= n < TRIPLE_START {
      GetDoubleDescends(blocks, inode.double, n - 76);
    } else if TRIPLE_START <= n < MAX_BLOCKS {
      GetTripleDescends(blocks, inode.triple, n - TRIPLE_START);
    }
  }

  /** Which slot get_block reads, over the whole addressable range. */
  lemma GetBlockReadsSlot(blocks: seq<Block>, inode: Inode, n: nat)
    requires InodeOk(blocks, inode) && n < MAX_BLOCKS
    ensures var v := FileSlots(blocks, inode)[SlotOf(n)];
            v != 0 || NullReadsZero(blocks) ==> GetBlock(blocks, inode, n) == Some(v)
  {
    hide GetBlock, Descend, Slots, FileSlots;
    var v := FileSlots(blocks, inode)[SlotOf(n)];
    FileSlotsAt(blocks, inode);
    GetBlockDescends(blocks, inode, n);
    if 12 <= n < 76 {
      assert v == Slots(blocks, inode.single, 1)[n - 12];
      DescendReadsSlot(blocks, inode.single, 1, n - 12);
    } else if 76 <= n < TRIPLE_START {
      assert v == Slots(blocks, inode.double, 2)[n - 76];
      DescendReadsSlot(blocks, inode.double, 2, n - 76);
    } else if TRIPLE_START <= n {
      assert v == Slots(blocks, inode.triple, 3)[n - TRIPLE_START];
      DescendReadsSlot(blocks, inode.triple, 3, n - TRIPLE_START);
    }
  }

  /**
   * The addressable range is exact: past it get_block indexes beyond a 64-entry table, whatever the
   * blocks hold; inside it every lookup of a block, and of a hole while block 0 is zero, succeeds.
   */
  lemma GetBlockDomain(blocks: seq<Block>, inode: Inode, n: nat)
    requires InodeOk(blocks, inode)
    ensures n >= MAX_BLOCKS ==> GetBlock(blocks, inode, n).None?
    ensures n < MAX_BLOCKS && (NullReadsZero(blocks) || FileSlots(blocks, inode)[SlotOf(n)] != 0)
            ==> GetBlock(blocks, inode, n).Some?
  {
    if n < MAX_BLOCKS {
      GetBlockReadsSlot(blocks, inode, n);
    }
  }

  /** Distinct block numbers decode to distinct slots, and all slots but the 64 of the gap are decoded to. */
  lemma SlotsAddressed(s: nat)
    requires s < MAX_BLOCKS + FANOUT
    ensures forall n: nat, m: nat :: SlotOf(n) == SlotOf(m) ==> n == m
    ensures (exists n: nat :: n < MAX_BLOCKS && SlotOf(n) == s) <==> !(TRIPLE_START <= s < TRIPLE_START + FANOUT)
  {
    if s < TRIPLE_START {
      assert SlotOf(s) == s;
    } else if s >= TRIPLE_START + FANOUT {
      assert SlotOf(s - FANOUT) == s;
    }
  }

  /** Logical blocks 0..n-1 are present, and every other slot of the inode's trees is zero. */
  ghost predicate Dense(blocks: seq<Block>, inode: Inode, n: nat)
    requires InodeOk(blocks, inode)
  {
    var s := FileSlots(blocks, inode);
    && n <= MAX_BLOCKS
    && (forall i :: 0 <= i < MAX_BLOCKS ==> (s[SlotOf(i)] != 0 <==> i < n))
    && (forall i :: TRIPLE_START <= i < TRIPLE_START + FANOUT ==> s[i] == 0)
  }

  lemma LogicalOrder(blocks: seq<Block>, inode: Inode, n: nat)
    requires InodeOk(blocks, inode) && Dense(blocks, inode, n)
    ensures var s := FileSlots(blocks, inode);
            AllAddresses(blocks, inode) == (s[..TRIPLE_START] + s[TRIPLE_START + FANOUT..])[..n]
  {
    hide FileSlots, AllAddresses;
    var s := FileSlots(blocks, inode);
    var a, gap, b := s[..TRIPLE_START], s[TRIPLE_START..TRIPLE_START + FANOUT], s[TRIPLE_START + FANOUT..];
    AllAddressesAreNonZeroSlots(blocks, inode);
    assert s == a + gap + b;
    NonZeroConcat(a, gap);
    NonZeroConcat(a + gap, b);
    NonZeroConcat(a, b);
    NonZeroOfZeros(gap);
    forall i | 0 <= i < |a + b| ensures (a + b)[i] != 0 <==> i < n {
      assert (a + b)[i] == s[SlotOf(i)];
    }
    NonZeroOfPrefix(a + b, n);
  }

  /** On a densely filled inode the flat enumeration and get_block agree, block by block. */
  lemma EnumerationAgreesWithLookup(blocks: seq<Block>, inode: Inode, n: nat)
    requires InodeOk(blocks, inode) && Dense(blocks, inode, n)
    ensures |AllAddresses(blocks, inode)| == n
    ensures forall i :: 0 <= i < n ==> GetBlock(blocks, inode, i) == Some(AllAddresses(blocks, inode)[i])
  {
    hide GetBlock, FileSlots, AllAddresses;
    LogicalOrder(blocks, inode, n);
    var s := FileSlots(blocks, inode);
    forall i | 0 <= i < n
      ensures GetBlock(blocks, inode, i) == Some(AllAddresses(blocks, inode)[i])
    {
      GetBlockReadsSlot(blocks, inode, i);
      assert (s[..TRIPLE_START] + s[TRIPLE_START + FANOUT..])[i] == s[SlotOf(i)];
    }
  }

  // ----- entry 63 of the double indirect block is enumerated but never addressed

  /** The value v sits in a slot that some block number decodes to. */
  ghost predicate Addressed(blocks: seq<Block>, inode: Inode, v: U64)
    requires InodeOk(blocks, inode)
  {
    exists k :: 0 <= k < MAX_BLOCKS + FANOUT && !(TRIPLE_START <= k < TRIPLE_START + FANOUT)
                && FileSlots(blocks, inode)[k] == v
  }

  /**
   * An address that sits outside the gap is returned by get_block for some block number; and, as long
   * as holes read as zero, no other is.
   */
  lemma LookedUpIff(blocks: seq<Block>, inode: Inode, v: U64)
    requires InodeOk(blocks, inode) && v != 0
    ensures Addressed(blocks, inode, v) ==> exists n: nat :: GetBlock(blocks, inode, n) == Some(v)
    ensures NullReadsZero(blocks) ==>
              ((exists n: nat :: GetBlock(blocks, inode, n) == Some(v)) <==> Addressed(blocks, inode, v))
  {
    hide GetBlock, FileSlots;
    var s := FileSlots(blocks, inode);
    if Addressed(blocks, inode, v) {
      var k :| 0 <= k < MAX_BLOCKS + FANOUT && !(TRIPLE_START <= k < TRIPLE_START + FANOUT) && s[k] == v;
      SlotsAddressed(k);
      var n: nat :| n < MAX_BLOCKS && SlotOf(n) == k;
      GetBlockReadsSlot(blocks, inode, n);
    }
    if NullReadsZero(blocks) {
      if n: nat :| GetBlock(blocks, inode, n) == Some(v) {
        GetBlockDomain(blocks, inode, n);
        GetBlockReadsSlot(blocks, inode, n);
        assert s[SlotOf(n)] == v;
      }
    }
  }

  /** get_block finds everything that is enumerated. */
  ghost predicate AllLookedUp(blocks: seq<Block>, inode: Inode)
    requires InodeOk(blocks, inode)
  {
    forall v :: v in AllAddresses(blocks, inode) ==> exists n: nat :: GetBlock(blocks, inode, n) == Some(v)
  }

  /** The gap holds nothing that is not elsewhere too. */
  ghost predicate GapRepeats(blocks: seq<Block>, inode: Inode)
    requires InodeOk(blocks, inode)
  {
    forall k :: TRIPLE_START <= k < TRIPLE_START + FANOUT ==>
      FileSlots(blocks, inode)[k] == 0 || Addressed(blocks, inode, FileSlots(blocks, inode)[k])
  }

  lemma AllLookedUpIff(blocks: seq<Block>, inode: Inode)
    requires InodeOk(blocks, inode)
    ensures GapRepeats(blocks, inode) ==> AllLookedUp(blocks, inode)
    ensures NullReadsZero(blocks) ==> (AllLookedUp(blocks, inode) <==> GapRepeats(blocks, inode))
  {
    hide GetBlock, FileSlots, AllAddresses;
    var s, all := FileSlots(blocks, inode), AllAddresses(blocks, inode);
    AllAddressesAreNonZeroSlots(blocks, inode);
    forall v | v in all ensures v != 0 && v in s {
      NonZeroIsMember(s, v);
    }
    forall k | 0 <= k < |s| && s[k] != 0 ensures s[k] in all {
      NonZeroMember(s, k);
    }
    forall v | v in all
      ensures Addressed(blocks, inode, v) ==> exists n: nat :: GetBlock(blocks, inode, n) == Some(v)
      ensures NullReadsZero(blocks) ==>
                ((exists n: nat :: GetBlock(blocks, inode, n) == Some(v)) <==> Addressed(blocks, inode, v))
    {
      LookedUpIff(blocks, inode, v);
    }
  }

  /** A table block with entry j set to p. */
  function WithEntry(b: Block, j: nat, p: U64): Block
    requires j < 64
  {
    Splice(b, 8 * j, Put64(p))
  }

  lemma EntryStored(b: Block, j: nat, p: U64)
    requires j < 64
    ensures PointersOf(WithEntry(b, j, p)) == PointersOf(b)[j := p]
  {
    var b' := WithEntry(b, j, p);
    forall k | 0 <= k < 64 ensures PointersOf(b')[k] == PointersOf(b)[j := p][k] {
      if k == j {
        assert b'[8 * k..8 * k + 8] == Put64(p);
        Get64OfPut64(p);
      } else {
        assert b'[8 * k..8 * k + 8] == b[8 * k..8 * k + 8];
      }
    }
  }

  /** For instance: block 1 a double table with entry 63 set to block 2, a table whose entry 0 is block 3. */
  lemma Entry63Inode() returns (blocks: seq<Block>, inode: Inode)
    ensures InodeOk(blocks, inode) && NullReadsZero(blocks) && 3 < |blocks|
    ensures 3 in AllAddresses(blocks, inode)
    ensures forall n: nat :: GetBlock(blocks, inode, n) != Some(3)
  {
    hide PointersOf, WithEntry, GetBlock;
    var upper, lower := WithEntry(ZERO_BLOCK, 63, 2), WithEntry(ZERO_BLOCK, 0, 3);
    blocks := [ZERO_BLOCK, upper, lower, ZERO_BLOCK];
    inode := EMPTY_INODE.(double := 1);
    EntryStored(ZERO_BLOCK, 63, 2);
    EntryStored(ZERO_BLOCK, 0, 3);
    forall j | 0 <= j < 64 ensures PointersOf(ZERO_BLOCK)[j] == 0 {
      ZeroBlockPointers(j);
    }
    assert TreeOk(blocks, 2, 1) && TreeOk(blocks, 1, 2);
    var s := FileSlots(blocks, inode);
    forall k | 0 <= k < |s| ensures s[k] == if k == TRIPLE_START then 3 else 0 {
      Entry63Slots(blocks, inode, k);
    }
    AllAddressesAreNonZeroSlots(blocks, inode);
    NonZeroMember(s, TRIPLE_START);
    LookedUpIff(blocks, inode, 3);
  }

  lemma Entry63Slots(blocks: seq<Block>, inode: Inode, k: nat)
    requires |blocks| > 2 && inode == EMPTY_INODE.(double := 1)
    requires PointersOf(blocks[1]) == ZeroWords(64)[63 := 2] && PointersOf(blocks[2]) == ZeroWords(64)[0 := 3]
    requires InodeOk(blocks, inode) && k < MAX_BLOCKS + FANOUT
    ensures FileSlots(blocks, inode)[k] == if k == TRIPLE_START then 3 else 0
  {
    hide PointersOf, FileSlots;
    FileSlotsAt(blocks, inode);
    assert Span(0) == 1 && Span(1) == 64;
    if k < 12 {
    } else if k < 76 {
      NullSlots(blocks, 1, k - 12);
    } else if k < 4172 {
      var j, r := TableSlot(blocks, 1, 2, k - 76);
      if j == 63 {
        var j', r' := TableSlot(blocks, 2, 1, r);
      } else {
        NullSlots(blocks, 1, r);
      }
    } else {
      NullSlots(blocks, 3, k - 4172);
    }
  }

  // ----- the loops themselves; None is an index out of range, a panic in the source

  method CollectSingle(blocks: seq<Block>, single: U64) returns (r: Option<seq<U64>>)
    ensures r == if TreeOk(blocks, single, 1) then Some(Leaves(blocks, single, 1)) else None
  {
    var addresses: seq<U64> := [];
    if single != 0 {
      if single >= |blocks| {
        return None;
      }
      var ps := PointersOf(blocks[single]);
      for j := 0 to 64
        invariant ForestOk(blocks, ps[..j], 0) && addresses == ForestLeaves(blocks, ps[..j], 0)
      {
        assert ps[..j + 1] == ps[..j] + [ps[j]];
        ForestLeavesAppend(blocks, ps[..j], ps[j], 0);
        if ps[j] != 0 {
          addresses := addresses + [ps[j]];
        }
      }
      assert ps[..64] == ps;
    }
    return Some(addresses);
  }

  method CollectDouble(blocks: seq<Block>, double: U64) returns (r: Option<seq<U64>>)
    ensures r == if TreeOk(blocks, double, 2) then Some(Leaves(blocks, double, 2)) else None
  {
    var addresses: seq<U64> := [];
    if double != 0 {
      if double >= |blocks| {
        return None;
      }
      var ps := PointersOf(blocks[double]);
      for j := 0 to 64
        invariant ForestOk(blocks, ps[..j], 1) && addresses == ForestLeaves(blocks, ps[..j], 1)
      {
        assert ps[..j + 1] == ps[..j] + [ps[j]];
        if TreeOk(blocks, ps[j], 1) {
          ForestLeavesAppend(blocks, ps[..j], ps[j], 1);
        }
        var below := CollectSingle(blocks, ps[j]);
        if below.None? {
          return None;
        }
        addresses := addresses + below.value;
      }
      assert ps[..64] == ps;
    }
    return Some(addresses);
  }

  method CollectTriple(blocks: seq<Block>, triple: U64) returns (r: Option<seq<U64>>)
    ensures r == if TreeOk(blocks, triple, 3) then Some(Leaves(blocks, triple, 3)) else None
  {
    var addresses: seq<U64> := [];
    if triple != 0 {
      if triple >= |blocks| {
        return None;
      }
      var ps := PointersOf(blocks[triple]);
      for j := 0 to 64
        invariant ForestOk(blocks, ps[..j], 2) && addresses == ForestLeaves(blocks, ps[..j], 2)
      {
        assert ps[..j + 1] == ps[..j] + [ps[j]];
        if TreeOk(blocks, ps[j], 2) {
          ForestLeavesAppend(blocks, ps[..j], ps[j], 2);
        }
        var below := CollectDouble(blocks, ps[j]);
        if below.None? {
          return None;
        }
        addresses := addresses + below.value;
      }
      assert ps[..64] == ps;
    }
    return Some(addresses);
  }

  method GetAllBlockAddresses(blocks: seq<Block>, inode: Inode) returns (r: Option<seq<U64>>)
    ensures r == if InodeOk(blocks, inode) then Some(AllAddresses(blocks, inode)) else None
  {
    var addresses: seq<U64> := [];
    for j := 0 to 12
      invariant addresses == NonZero(inode.pointers[..j])
    {
      NonZeroConcat(inode.pointers[..j], [inode.pointers[j]]);
      assert inode.pointers[..j + 1] == inode.pointers[..j] + [inode.pointers[j]];
      if inode.pointers[j] != 0 {
        addresses := addresses + [inode.pointers[j]];
      }
    }
    assert inode.pointers[..12] == inode.pointers;
    var single := CollectSingle(blocks, inode.single);
    if single.None? {
      return None;
    }
    var double := CollectDouble(blocks, inode.double);
    if double.None? {
      return None;
    }
    var triple := CollectTriple(blocks, inode.triple);
    if triple.None? {
      return None;
    }
    return Some(addresses + single.value + double.value + triple.value);
  }
}
