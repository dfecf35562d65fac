/** delete refines removal from the map, and gives back exactly the blocks the allocator can see. */
module FsDelete {
  import opened Common
  import opened Bytes
  import opened FsTypes
  import opened FsImage
  import opened FsFrames
  import opened FsRefine
  import M = FsModel

  function Without(s: seq<Inode>, i: nat): seq<Inode>
    requires i < |s|
  {
    s[..i] + s[i + 1..]
  }

  lemma {:induction false} RetainConcat(a: seq<Inode>, b: seq<Inode>, key: NameField)
    ensures Retain(a + b, key) == Retain(a, key) + Retain(b, key)
  {
    if a == [] {
      assert a + b == b;
    } else {
      RetainConcat(a[1..], b, key);
      assert (a + b)[1..] == a[1..] + b;
      var head := if a[0].fileName == key then [] else [a[0]];
      assert head + (Retain(a[1..], key) + Retain(b, key)) == (head + Retain(a[1..], key)) + Retain(b, key);
    }
  }

  lemma {:induction false} RetainAll(s: seq<Inode>, key: NameField)
    requires forall x :: 0 <= x < |s| ==> s[x].fileName != key
    ensures Retain(s, key) == s
  {
    if s != [] {
      RetainAll(s[1..], key);
    }
  }

  lemma RetainGone(x: Inode, key: NameField)
    requires x.fileName == key
    ensures Retain([x], key) == []
  {
    assert [x][1..] == [];
  }

  lemma RetainOne(s: seq<Inode>, i: nat, key: NameField)
    requires i < |s| && s[i].fileName == key
    requires forall x :: 0 <= x < |s| && x != i ==> s[x].fileName != key
    ensures Retain(s, key) == Without(s, i)
  {
    hide Retain;
    var a, one, b := s[..i], [s[i]], s[i + 1..];
    RetainConcat(a, one, key);
    RetainConcat(a + one, b, key);
    RetainAll(a, key);
    RetainAll(b, key);
    RetainGone(s[i], key);
    assert s == a + one + b;
  }

  function Up(i: nat, x: nat): nat {
    if x < i then x else x + 1
  }

  lemma WithoutKeepsInodes(s: seq<Inode>, i: nat)
    requires NoSharing(s) && UniqueNames(s) && i < |s|
    ensures NoSharing(Without(s, i)) && UniqueNames(Without(s, i))
    ensures forall x :: 0 <= x < |s| - 1 ==> Without(s, i)[x] == s[Up(i, x)]
  {
    var s' := Without(s, i);
    forall x, j | 0 <= x < |s'| && 0 <= j < 12 ensures Ptr(s', x, j) == Ptr(s, Up(i, x), j) {
    }
    forall x, j, x', j' |
      0 <= x < |s'| && 0 <= j < 12 && 0 <= x' < |s'| && 0 <= j' < 12
      && Ptr(s', x, j) != 0 && !(x == x' && j == j')
      ensures Ptr(s', x, j) != Ptr(s', x', j')
    {
      assert Ptr(s', x, j) == Ptr(s, Up(i, x), j) && Ptr(s', x', j') == Ptr(s, Up(i, x'), j');
    }
  }

  /** The inode found under another name is the same one. */
  lemma PositionWithout(s: seq<Inode>, i: nat, key: NameField)
    requires i < |s| && s[i].fileName != key
    ensures var r, r' := Position(s, key), Position(Without(s, i), key);
            && (r.Some? <==> r'.Some?)
            && (r.Some? ==> r.value == Up(i, r'.value) && Without(s, i)[r'.value] == s[r.value])
  {
    var s' := Without(s, i);
    var r, r' := Position(s, key), Position(s', key);
    assert forall x :: 0 <= x < |s'| ==> s'[x] == s[Up(i, x)];
    if r.Some? {
      var x := if r.value < i then r.value else r.value - 1;
      assert s'[x].fileName == key;
      assert forall y :: 0 <= y < x ==> s'[y].fileName != key;
    }
  }

  // ----- the blocks given back

  function ZeroOnes(blocks: seq<Block>, ps: seq<U64>): (r: seq<U64>)
    requires forall j :: 0 <= j < |ps| ==> ps[j] < |blocks|
    ensures forall b :: b in r <==> b in ps && blocks[b] == ZERO_BLOCK
  {
    if ps == [] then []
    else (if blocks[ps[0]] == ZERO_BLOCK then [ps[0]] else []) + ZeroOnes(blocks, ps[1..])
  }

  lemma {:induction false} ZeroOnesCount(blocks: seq<Block>, ps: seq<U64>)
    requires forall j :: 0 <= j < |ps| ==> ps[j] < |blocks|
    requires Distinct(ps)
    ensures Distinct(ZeroOnes(blocks, ps))
    ensures |ZeroOnes(blocks, ps)| == M.ZeroCount(BlocksAt(blocks, ps))
  {
    if ps != [] {
      ZeroOnesCount(blocks, ps[1..]);
      assert BlocksAt(blocks, ps)[1..] == BlocksAt(blocks, ps[1..]);
      assert ps[0] !in ps[1..];
    }
  }

  function Released(blocks: seq<Block>, ino: Inode): seq<U64>
    requires ino.numDataBlocks <= Held(ino)
    requires forall j :: 0 <= j < Held(ino) ==> ino.pointers[j] < |blocks|
  {
    ino.pointers[..ino.numDataBlocks] + ZeroOnes(blocks, ino.pointers[ino.numDataBlocks..Held(ino)])
  }

  function Deleted(img: Image, i: nat): Image
    requires i < |img.inodes| && img.inodes[i].numDataBlocks <= 12
    requires forall j :: 0 <= j < img.inodes[i].numDataBlocks ==> img.inodes[i].pointers[j] < |img.blocks|
  {
    var ino := img.inodes[i];
    Image(img.sb, Without(img.inodes, i), ZeroAll(img.blocks, ino.pointers[..ino.numDataBlocks]))
  }

  lemma OwnPointersDistinct(img: Image, i: nat)
    requires Inv(img) && i < |img.inodes| && Live(img.inodes[i])
    ensures InodeInv(img.inodes[i], |img.blocks|)
    ensures Distinct(img.inodes[i].pointers[..Held(img.inodes[i])])
  {
    var ps := img.inodes[i].pointers;
    forall x, y | 0 <= x < y < Held(img.inodes[i]) ensures ps[x] != ps[y] {
      assert Ptr(img.inodes, i, x) == ps[x] && Ptr(img.inodes, i, y) == ps[y];
    }
  }

  lemma ZeroAllEffect(img: Image, i: nat)
    requires Inv(img) && i < |img.inodes| && Live(img.inodes[i])
    ensures InodeInv(img.inodes[i], |img.blocks|)
    ensures var ps := img.inodes[i].pointers[..img.inodes[i].numDataBlocks];
            && (forall b :: b in ps ==> Deleted(img, i).blocks[b] == ZERO_BLOCK)
            && (forall b :: 0 <= b < |img.blocks| && b !in ps ==> Deleted(img, i).blocks[b] == img.blocks[b])
  {
    OwnPointersDistinct(img, i);
    var ino := img.inodes[i];
    var ps := ino.pointers[..ino.numDataBlocks];
    assert forall j :: 0 <= j < |ps| ==> ps[j] == ino.pointers[..Held(ino)][j];
    StoreAllEffect(img.blocks, ps, seq(|ps|, _ => ZERO_BLOCK));
  }

  lemma DeletedInv(img: Image, i: nat)
    requires Inv(img) && i < |img.inodes| && Live(img.inodes[i])
    ensures InodeInv(img.inodes[i], |img.blocks|) && Inv(Deleted(img, i))
  {
    assert InodeInv(img.inodes[i], |img.blocks|);
    WithoutKeepsInodes(img.inodes, i);
    var s' := Without(img.inodes, i);
    forall x | 0 <= x < |s'| ensures InodeInv(s'[x], |img.blocks|) {
      assert s'[x] == img.inodes[Up(i, x)];
    }
  }

  lemma DeletedReferences(img: Image, i: nat, b: nat)
    requires Inv(img) && i < |img.inodes| && b != 0
    ensures Referenced(Without(img.inodes, i), b) <==> Referenced(img.inodes, b) && b !in img.inodes[i].pointers
  {
    hide UniqueNames, InodeInv;
    var s, s' := img.inodes, Without(img.inodes, i);
    WithoutKeepsInodes(s, i);
    if Referenced(s', b) {
      var x :| 0 <= x < |s'| && b in s'[x].pointers;
      assert b in s[Up(i, x)].pointers;
      var j := Slot(s, Up(i, x), b);
      if b in s[i].pointers {
        var j' := Slot(s, i, b);
        assert false;
      }
    }
    if Referenced(s, b) && b !in s[i].pointers {
      var x :| 0 <= x < |s| && b in s[x].pointers;
      assert b in s'[if x < i then x else x - 1].pointers;
    }
  }

  lemma DeletedFree(img: Image, i: nat)
    requires Inv(img) && i < |img.inodes| && Live(img.inodes[i])
    ensures InodeInv(img.inodes[i], |img.blocks|)
    ensures FreeSet(Deleted(img, i)) == FreeSet(img) + Elems(Released(img.blocks, img.inodes[i]))
    ensures FreeSet(img) !! Elems(Released(img.blocks, img.inodes[i]))
  {
    hide NoSharing, UniqueNames, Run, StoreAll, Released, Free;
    ZeroAllEffect(img, i);
    ReleasedInRange(img, i);
    forall c: nat | 1 <= c < |img.blocks|
      ensures Free(Deleted(img, i), c) <==> Free(img, c) || c in Released(img.blocks, img.inodes[i])
      ensures Free(img, c) ==> c !in Released(img.blocks, img.inodes[i])
    {
      DeletedFreeAt(img, i, c);
    }
  }

  lemma ReleasedInRange(img: Image, i: nat)
    requires Inv(img) && i < |img.inodes| && Live(img.inodes[i]) && InodeInv(img.inodes[i], |img.blocks|)
    ensures forall c :: c in Released(img.blocks, img.inodes[i]) ==> 1 <= c < |img.blocks|
  {
    hide NoSharing, UniqueNames, Run;
  }

  lemma DeletedFreeAt(img: Image, i: nat, c: nat)
    requires Inv(img) && i < |img.inodes| && Live(img.inodes[i]) && InodeInv(img.inodes[i], |img.blocks|)
    requires 1 <= c < |img.blocks|
    ensures Free(Deleted(img, i), c) <==> Free(img, c) || c in Released(img.blocks, img.inodes[i])
    ensures Free(img, c) ==> c !in Released(img.blocks, img.inodes[i])
  {
    hide NoSharing, UniqueNames, Run, StoreAll;
    ZeroAllEffect(img, i);
    var ino := img.inodes[i];
    var n, k := ino.numDataBlocks, Held(ino);
    assert ino.pointers == ino.pointers[..n] + ino.pointers[n..k] + ino.pointers[k..];
    DeletedReferences(img, i, c);
    assert c !in ino.pointers[k..];
    assert c in ino.pointers <==> c in ino.pointers[..n] || c in ino.pointers[n..k];
    if c in ino.pointers {
      var j := Slot(img.inodes, i, c);
      HeldIsReferenced(img.inodes, i, j);
      DistinctHalves(img, i, c);
    }
  }

  lemma DistinctHalves(img: Image, i: nat, c: nat)
    requires Inv(img) && i < |img.inodes| && Live(img.inodes[i])
    requires InodeInv(img.inodes[i], |img.blocks|)
    ensures var ino := img.inodes[i];
            !(c in ino.pointers[..ino.numDataBlocks] && c in ino.pointers[ino.numDataBlocks..Held(ino)])
  {
    OwnPointersDistinct(img, i);
    var ino := img.inodes[i];
    var ps, n := ino.pointers[..Held(ino)], ino.numDataBlocks;
    assert ps[..n] == ino.pointers[..n] && ps[n..] == ino.pointers[n..Held(ino)];
    assert forall x, y :: 0 <= x < n <= y < |ps| ==> ps[x] != ps[y];
  }

  lemma ReleasedCount(img: Image, i: nat)
    requires Inv(img) && i < |img.inodes| && Live(img.inodes[i])
    ensures InodeInv(img.inodes[i], |img.blocks|)
    ensures var f := FileAt(img.blocks, img.inodes[i]);
            |Elems(Released(img.blocks, img.inodes[i]))| == 1 + |f.bytes| / 512 + M.ZeroCount(f.spare)
  {
    OwnPointersDistinct(img, i);
    var ino := img.inodes[i];
    var n, k := ino.numDataBlocks, Held(ino);
    var ps := ino.pointers[..k];
    assert ps[..n] == ino.pointers[..n] && ps[n..] == ino.pointers[n..k];
    assert Distinct(ps[n..]) && Distinct(ps[..n]);
    ZeroOnesCount(img.blocks, ps[n..]);
    var a, z := ino.pointers[..n], ZeroOnes(img.blocks, ino.pointers[n..k]);
    forall x, y | 0 <= x < |a| && 0 <= y < |z| ensures a[x] != z[y] {
      DistinctHalves(img, i, a[x]);
      assert a[x] in a && z[y] in z;
    }
    SizeOfDistinct(a + z);
  }

  lemma DeletedFreeCount(img: Image, i: nat)
    requires Inv(img) && i < |img.inodes| && Live(img.inodes[i])
    ensures InodeInv(img.inodes[i], |img.blocks|)
    ensures var f := FileAt(img.blocks, img.inodes[i]);
            |FreeSet(Deleted(img, i))| == |FreeSet(img)| + 1 + |f.bytes| / 512 + M.ZeroCount(f.spare)
  {
    hide Inv, FreeSet, FileAt, Deleted;
    DeletedFree(img, i);
    ReleasedCount(img, i);
  }

  lemma DeletedOthers(img: Image, i: nat, name: Name)
    requires Inv(img) && i < |img.inodes| && Live(img.inodes[i])
    requires Pad(name) != img.inodes[i].fileName
    ensures InodeInv(img.inodes[i], |img.blocks|) && Inv(Deleted(img, i))
    ensures Lookup(Deleted(img, i), name) == Lookup(img, name)
  {
    DeletedInv(img, i);
    ZeroAllEffect(img, i);
    var img' := Deleted(img, i);
    PositionWithout(img.inodes, i, Pad(name));
    var r := Position(img.inodes, Pad(name));
    if r.Some? {
      FoundIsLive(img, name);
      var ino := img.inodes[r.value];
      assert InodeInv(ino, |img.blocks|);
      forall j | 0 <= j < Held(ino) ensures img'.blocks[ino.pointers[j]] == img.blocks[ino.pointers[j]] {
        assert Ptr(img.inodes, r.value, j) == ino.pointers[j];
        if ino.pointers[j] in img.inodes[i].pointers[..img.inodes[i].numDataBlocks] {
          assert ino.pointers[j] in img.inodes[i].pointers;
          var j' := Slot(img.inodes, i, ino.pointers[j]);
          assert false;
        }
      }
      FileFrame(img.blocks, img'.blocks, ino);
    }
  }

  lemma DeleteIs(img: Image, i: nat, name: Name)
    requires Inv(img) && Position(img.inodes, Pad(name)) == Some(i)
    ensures Live(img.inodes[i]) && InodeInv(img.inodes[i], |img.blocks|)
    ensures Delete(img, name) == (Deleted(img, i), Ok(()))
  {
    hide NoSharing, StoreAll, Run;
    LookupAt(img, i, name);
    RetainOne(img.inodes, i, Pad(name));
  }

  lemma DeletedRefines(img: Image, m: M.Store, i: nat, name: Name)
    requires M.Implements(img, m) && Position(img.inodes, Pad(name)) == Some(i)
    ensures name in m.files && Live(img.inodes[i]) && InodeInv(img.inodes[i], |img.blocks|)
    ensures M.Implements(Deleted(img, i), M.DeleteFile(m, name).0)
  {
    hide NoSharing, UniqueNames, FreeSet, StoreAll, Run, Lookup;
    StoreFacts(img, m, name);
    DeletedInv(img, i);
    DeletedFreeCount(img, i);
    DeletedCount(img.inodes, i);
    DeletedLookups(img, m, i, name);
  }

  /** delete: the name goes, every other file stays, and the free count rises as the store says. */
  lemma DeleteRefines(img: Image, m: M.Store, name: Name)
    requires M.Implements(img, m)
    ensures var (img', r) := Delete(img, name);
            var (m', r') := M.DeleteFile(m, name);
            r == r' && M.Implements(img', m')
  {
    hide M.Implements, Inv, Position, InodeInv, Deleted;
    StoreFacts(img, m, name);
    if name in m.files {
      var i := Position(img.inodes, Pad(name)).value;
      DeletedRefines(img, m, i, name);
      DeleteIs(img, i, name);
    }
  }

  lemma DeletedCount(s: seq<Inode>, i: nat)
    requires i < |s| && Live(s[i])
    ensures EmptyCount(Without(s, i)) == EmptyCount(s)
  {
    EmptyCountConcat(s[..i], s[i..]);
    EmptyCountConcat(s[..i], s[i + 1..]);
    assert s == s[..i] + s[i..];
    assert s[i..][1..] == s[i + 1..];
  }

  lemma DeletedLookups(img: Image, m: M.Store, i: nat, name: Name)
    requires M.Implements(img, m) && name in m.files
    requires i < |img.inodes| && img.inodes[i].fileName == Pad(name)
    ensures Live(img.inodes[i]) && InodeInv(img.inodes[i], |img.blocks|) && Inv(Deleted(img, i))
    ensures forall n: Name :: Lookup(Deleted(img, i), n) == M.Get(M.DeleteFile(m, name).0, n)
  {
    hide NoSharing, UniqueNames, Run, StoreAll, Free, FreeSet, Deleted, Pad;
    LookupAt(img, i, name);
    DeletedInv(img, i);
    forall n: Name ensures Lookup(Deleted(img, i), n) == M.Get(M.DeleteFile(m, name).0, n) {
      if n == name {
        NameGone(img, i, name);
      } else {
        PadInjective(n, name);
        DeletedOthers(img, i, n);
        assert Lookup(img, n) == M.Get(m, n);
      }
    }
  }

  lemma NameGone(img: Image, i: nat, name: Name)
    requires Inv(img) && i < |img.inodes| && Live(img.inodes[i]) && img.inodes[i].fileName == Pad(name)
    requires InodeInv(img.inodes[i], |img.blocks|) && Inv(Deleted(img, i))
    ensures Lookup(Deleted(img, i), name) == None
  {
    hide NoSharing, Run, StoreAll, Pad;
    WithoutKeepsInodes(img.inodes, i);
    assert forall x :: 0 <= x < |img.inodes| && x != i ==> img.inodes[x].fileName != Pad(name);
  }
}
