/** What leaves other files alone: lookups, contents and free blocks across an update of one inode. */
module FsFrames {
  import opened Common
  import opened FsTypes
  import opened FsImage

  lemma PositionUpdate(inodes: seq<Inode>, i: nat, ino: Inode, key: NameField)
    requires i < |inodes| && inodes[i].fileName != key && ino.fileName != key
    ensures Position(inodes[i := ino], key) == Position(inodes, key)
  {
    var r, r' := Position(inodes, key), Position(inodes[i := ino], key);
    assert forall j :: 0 <= j < |inodes| ==> (inodes[i := ino][j].fileName == key <==> inodes[j].fileName == key);
    if r.Some? && r'.Some? {
      assert !(r.value < r'.value) && !(r'.value < r.value);
    }
  }

  lemma PositionUnique(inodes: seq<Inode>, i: nat)
    requires UniqueNames(inodes) && i < |inodes| && Live(inodes[i])
    ensures Position(inodes, inodes[i].fileName) == Some(i)
  {
  }

  /** A file is determined by the blocks its inode holds. */
  lemma FileFrame(blocks: seq<Block>, blocks': seq<Block>, ino: Inode)
    requires |blocks| == |blocks'|
    requires Live(ino) && InodeInv(ino, |blocks|)
    requires forall j :: 0 <= j < Held(ino) ==> blocks'[ino.pointers[j]] == blocks[ino.pointers[j]]
    ensures FileAt(blocks', ino) == FileAt(blocks, ino)
  {
    var n, k := ino.numDataBlocks, Held(ino);
    assert BlocksAt(blocks', ino.pointers[1..n]) == BlocksAt(blocks, ino.pointers[1..n]);
    assert BlocksAt(blocks', ino.pointers[n..k]) == BlocksAt(blocks, ino.pointers[n..k]);
  }

  /** Blocks outside `touched` are the same, and no inode but the ith holds a touched block. */
  ghost predicate Confined(img: Image, blocks': seq<Block>, i: nat, touched: set<nat>) {
    && |blocks'| == |img.blocks|
    && (forall b :: 0 <= b < |img.blocks| && b !in touched ==> blocks'[b] == img.blocks[b])
    && (forall x, j {:trigger Ptr(img.inodes, x, j)} ::
          0 <= x < |img.inodes| && x != i && 0 <= j < 12 && Ptr(img.inodes, x, j) != 0
          ==> Ptr(img.inodes, x, j) !in touched)
  }

  lemma OtherFilesKept(img: Image, img': Image, i: nat, touched: set<nat>, name: Name)
    requires Inv(img) && Inv(img')
    requires i < |img.inodes| == |img'.inodes| && img'.inodes == img.inodes[i := img'.inodes[i]]
    requires Confined(img, img'.blocks, i, touched)
    requires Pad(name) != img.inodes[i].fileName && Pad(name) != img'.inodes[i].fileName
    ensures Lookup(img', name) == Lookup(img, name)
  {
    PositionUpdate(img.inodes, i, img'.inodes[i], Pad(name));
    var r := Position(img.inodes, Pad(name));
    if r.Some? {
      FoundIsLive(img, name);
      var ino := img.inodes[r.value];
      assert InodeInv(ino, |img.blocks|);
      forall j | 0 <= j < Held(ino) ensures img'.blocks[ino.pointers[j]] == img.blocks[ino.pointers[j]] {
        assert Ptr(img.inodes, r.value, j) == ino.pointers[j];
      }
      FileFrame(img.blocks, img'.blocks, ino);
    }
  }

  lemma {:induction false} EmptyCountConcat(a: seq<Inode>, b: seq<Inode>)
    ensures EmptyCount(a + b) == EmptyCount(a) + EmptyCount(b)
  {
    if a == [] {
      assert a + b == b;
    } else {
      EmptyCountConcat(a[1..], b);
      assert (a + b)[1..] == a[1..] + b;
    }
  }

  lemma EmptyCountUpdate(s: seq<Inode>, i: nat, x: Inode)
    requires i < |s|
    ensures EmptyCount(s[i := x]) == EmptyCount(s) - (if Live(s[i]) then 0 else 1) + (if Live(x) then 0 else 1)
  {
    EmptyCountConcat(s[..i], s[i..]);
    EmptyCountConcat(s[..i], [x] + s[i + 1..]);
    assert s == s[..i] + s[i..];
    assert s[i := x] == s[..i] + ([x] + s[i + 1..]);
    assert s[i..][1..] == s[i + 1..];
    assert ([x] + s[i + 1..])[1..] == s[i + 1..];
  }

  lemma {:induction false} EmptyCountZero(s: seq<Inode>)
    ensures EmptyCount(s) == 0 <==> EmptyFrom(s, 0) == None
  {
    if EmptyFrom(s, 0).Some? {
      var i := EmptyFrom(s, 0).value;
      EmptyCountConcat(s[..i], s[i..]);
      assert s == s[..i] + s[i..];
    } else if s != [] {
      EmptyCountZero(s[1..]);
    }
  }

  /** A block is referenced after an update iff the new inode or an untouched one holds it. */
  lemma ReferencedUpdate(inodes: seq<Inode>, i: nat, ino: Inode, b: nat)
    requires i < |inodes|
    ensures Referenced(inodes[i := ino], b)
       <==> b in ino.pointers || exists x :: 0 <= x < |inodes| && x != i && b in inodes[x].pointers
  {
    var s := inodes[i := ino];
    if b in ino.pointers {
      assert b in s[i].pointers;
    }
    forall x | 0 <= x < |inodes| && x != i && b in inodes[x].pointers ensures Referenced(s, b) {
      assert b in s[x].pointers;
    }
  }

  /** A pointer found in an inode is at some slot of it. */
  lemma Slot(inodes: seq<Inode>, x: nat, b: nat) returns (j: nat)
    requires x < |inodes| && b in inodes[x].pointers
    ensures j < 12 && Ptr(inodes, x, j) == b
  {
    j :| 0 <= j < 12 && inodes[x].pointers[j] == b;
  }

  lemma HeldIsReferenced(inodes: seq<Inode>, x: nat, j: nat)
    requires x < |inodes| && j < 12
    ensures Referenced(inodes, Ptr(inodes, x, j))
  {
    assert Ptr(inodes, x, j) in inodes[x].pointers;
  }

  /** Putting an inode with pointers of its own in the table shares nothing. */
  lemma SharingUpdate(s: seq<Inode>, i: nat, ino: Inode)
    requires NoSharing(s) && i < |s|
    requires forall j, j' :: 0 <= j < j' < 12 && ino.pointers[j] != 0 ==> ino.pointers[j] != ino.pointers[j']
    requires forall x, j {:trigger Ptr(s, x, j)} ::
               0 <= x < |s| && x != i && 0 <= j < 12 && Ptr(s, x, j) != 0 ==> Ptr(s, x, j) !in ino.pointers
    ensures NoSharing(s[i := ino])
  {
    var s' := s[i := ino];
    forall x, j, x', j' |
      0 <= x < |s'| && 0 <= j < 12 && 0 <= x' < |s'| && 0 <= j' < 12
      && Ptr(s', x, j) != 0 && !(x == x' && j == j')
      ensures Ptr(s', x, j) != Ptr(s', x', j')
    {
      if x == i {
        assert Ptr(s', x, j) in ino.pointers;
        assert x' != i ==> Ptr(s', x', j') == Ptr(s, x', j');
      } else {
        assert Ptr(s', x, j) == Ptr(s, x, j);
        assert x' == i ==> Ptr(s', x', j') in ino.pointers;
        assert x' != i ==> Ptr(s', x', j') == Ptr(s, x', j');
      }
    }
  }
}
