/** Whole runs of the image operations, and what they guarantee however long they are. */
module FsRuns {
  import opened Common
  import opened Bytes
  import opened FsTypes
  import opened FsImage
  import opened FsRefine
  import opened FsDelete
  import M = FsModel

  datatype Op =
    | CreateOp(name: Name, perms: Perms, owner: U64, times: Times)
    | WriteOp(name: Name, data: seq<Byte>, newPerms: Option<Perms>, newOwner: Option<U64>, now: U64)
    | ChmodOp(name: Name, perms: Perms)
    | ChownOp(name: Name, owner: U64)
    | DeleteOp(name: Name)

  /** What callers owe: names are created once, and writes stay in the direct range. */
  predicate Proper(m: M.Store, op: Op) {
    match op
    case CreateOp(name, _, _, _) => name !in m.files
    case WriteOp(_, data, _, _, _) => |data| < DIRECT_LIMIT
    case _ => true
  }

  function StoreStep(m: M.Store, op: Op): (M.Store, Result<()>) {
    match op
    case CreateOp(name, perms, owner, times) => M.CreateFile(m, name, perms, owner, times)
    case WriteOp(name, data, perms, owner, now) => M.WriteFile(m, name, data, perms, owner, now)
    case ChmodOp(name, perms) => M.ChangeMeta(m, name, WithPerms(perms))
    case ChownOp(name, owner) => M.ChangeMeta(m, name, WithOwner(owner))
    case DeleteOp(name) => M.DeleteFile(m, name)
  }

  ghost function ImageStep(img: Image, op: Op): (Image, Result<()>)
    requires Inv(img) && (op.WriteOp? ==> |op.data| < DIRECT_LIMIT)
  {
    match op
    case CreateOp(name, perms, owner, times) => Create(img, name, perms, owner, times)
    case WriteOp(name, data, perms, owner, now) => Write(img, name, data, perms, owner, now)
    case ChmodOp(name, perms) => SetMeta(img, name, WithPerms(perms))
    case ChownOp(name, owner) => SetMeta(img, name, WithOwner(owner))
    case DeleteOp(name) => Delete(img, name)
  }

  lemma StepRefines(img: Image, m: M.Store, op: Op)
    requires M.Implements(img, m) && Proper(m, op)
    ensures var (img', r) := ImageStep(img, op);
            var (m', r') := StoreStep(m, op);
            r == r' && M.Implements(img', m')
  {
    hide M.Implements, Inv, M.CreateFile, M.WriteFile, M.DeleteFile, M.ChangeMeta, Create, Write, Delete, SetMeta;
    ImplementsInv(img, m);
    match op
    case CreateOp(name, perms, owner, times) => CreateRefines(img, m, name, perms, owner, times);
    case WriteOp(name, data, perms, owner, now) => WriteRefines(img, m, name, data, perms, owner, now);
    case ChmodOp(name, perms) => SetMetaRefines(img, m, name, WithPerms(perms));
    case ChownOp(name, owner) => SetMetaRefines(img, m, name, WithOwner(owner));
    case DeleteOp(name) => DeleteRefines(img, m, name);
  }

  /** The store after a run and the result of every operation; a panic ends the run. */
  function StoreRun(m: M.Store, ops: seq<Op>): (M.Store, seq<Result<()>>)
    decreases |ops|
  {
    if ops == [] then (m, [])
    else
      var (m', r) := StoreStep(m, ops[0]);
      if r.Panic? then (m', [r])
      else
        var (m'', rs) := StoreRun(m', ops[1..]);
        (m'', [r] + rs)
  }

  predicate ProperRun(m: M.Store, ops: seq<Op>)
    decreases |ops|
  {
    ops == [] ||
    (Proper(m, ops[0])
     && (StoreStep(m, ops[0]).1.Panic? || ProperRun(StoreStep(m, ops[0]).0, ops[1..])))
  }

  /** img, followed through ops, ends in img' having answered rs. */
  ghost predicate ImageRun(img: Image, ops: seq<Op>, img': Image, rs: seq<Result<()>>)
    requires Inv(img)
    decreases |ops|
  {
    if ops == [] then img' == img && rs == []
    else
      && (ops[0].WriteOp? ==> |ops[0].data| < DIRECT_LIMIT)
      && var (img1, r) := ImageStep(img, ops[0]);
      && Inv(img1) && |rs| > 0 && rs[0] == r
      && if r.Panic? then img' == img1 && |rs| == 1 else ImageRun(img1, ops[1..], img', rs[1..])
  }

  /**
   * Every run: there is one, it answers exactly what the map from names to files answers, and the
   * image at its end still implements that map (so the invariant holds throughout).
   */
  lemma {:induction false} RunRefines(img: Image, m: M.Store, ops: seq<Op>) returns (img': Image)
    requires M.Implements(img, m) && ProperRun(m, ops)
    ensures Inv(img) && ImageRun(img, ops, img', StoreRun(m, ops).1)
    ensures M.Implements(img', StoreRun(m, ops).0)
    decreases |ops|
  {
    hide M.Implements, Inv, StoreStep, ImageStep;
    ImplementsInv(img, m);
    img' := img;
    if ops != [] {
      StepRefines(img, m, ops[0]);
      var (img1, r) := ImageStep(img, ops[0]);
      ImplementsInv(img1, StoreStep(m, ops[0]).0);
      img' := img1;
      if !r.Panic? {
        img' := RunRefines(img1, StoreStep(m, ops[0]).0, ops[1..]);
        assert StoreRun(m, ops).1[1..] == StoreRun(StoreStep(m, ops[0]).0, ops[1..]).1;
      }
    }
  }

  /** A run has one outcome. */
  lemma {:induction false} RunUnique(img: Image, ops: seq<Op>, a: Image, b: Image,
                                     rs: seq<Result<()>>, ss: seq<Result<()>>)
    requires Inv(img) && ImageRun(img, ops, a, rs) && ImageRun(img, ops, b, ss)
    ensures a == b && rs == ss
    decreases |ops|
  {
    hide Inv, ImageStep;
    if ops != [] {
      var (img1, r) := ImageStep(img, ops[0]);
      if !r.Panic? {
        RunUnique(img1, ops[1..], a, b, rs[1..], ss[1..]);
        assert rs == [rs[0]] + rs[1..] && ss == [ss[0]] + ss[1..];
      }
    }
  }

  /** How many of the answered operations were deletions that succeeded. */
  function Deletions(ops: seq<Op>, rs: seq<Result<()>>): nat
    requires |rs| <= |ops|
  {
    if rs == [] then 0
    else (if ops[0].DeleteOp? && rs[0].Ok? then 1 else 0) + Deletions(ops[1..], rs[1..])
  }

  /**
   * Inodes are conserved: every table entry is a file or an unused slot, and each successful deletion
   * shortens the table by one for good.
   */
  lemma {:induction false} InodesConserved(m: M.Store, ops: seq<Op>)
    requires |m.files| + m.slots == m.inodes
    requires ProperRun(m, ops)
    ensures var (m', rs) := StoreRun(m, ops);
            && |rs| <= |ops|
            && |m'.files| + m'.slots == m'.inodes
            && m'.inodes + Deletions(ops, rs) == m.inodes
            && m'.capacity == m.capacity
    decreases |ops|
  {
    if ops != [] {
      StepConserves(m, ops[0]);
      var (m1, r) := StoreStep(m, ops[0]);
      if !r.Panic? {
        InodesConserved(m1, ops[1..]);
        var (m', rs) := StoreRun(m, ops);
        assert rs[1..] == StoreRun(m1, ops[1..]).1;
      } else {
        assert [r][1..] == [];
      }
    }
  }

  /** On images: every step keeps the superblock, and only a successful deletion shortens the table. */
  lemma StepTables(img: Image, op: Op)
    requires Inv(img) && (op.WriteOp? ==> |op.data| < DIRECT_LIMIT)
    ensures var (img', r) := ImageStep(img, op);
            && img'.sb == img.sb
            && |img'.inodes| + (if op.DeleteOp? && r.Ok? then 1 else 0) == |img.inodes|
  {
    hide NoSharing, UniqueNames, FreeFrom, FreeSet, EmptyCount, Padded, Chunks, MetaBlock, StoreAll, Retain, Repointed;
    if op.DeleteOp? && Position(img.inodes, Pad(op.name)).Some? {
      var m := StoreExists(img);
      assert Lookup(img, op.name) == M.Get(m, op.name);
      DeleteRefines(img, m, op.name);
      TableAccounted(img, m);
    }
  }

  lemma {:induction false} RunTables(img: Image, ops: seq<Op>, img': Image, rs: seq<Result<()>>)
    requires Inv(img) && ImageRun(img, ops, img', rs)
    ensures Inv(img') && img'.sb == img.sb && |rs| <= |ops|
    ensures |img'.inodes| + Deletions(ops, rs) == |img.inodes|
    decreases |ops|
  {
    hide Inv, ImageStep;
    if ops != [] {
      StepTables(img, ops[0]);
      var (img1, r) := ImageStep(img, ops[0]);
      if r.Panic? {
        assert rs[1..] == [];
      } else {
        RunTables(img1, ops[1..], img', rs[1..]);
      }
    }
  }

  /** Block 0 is never handed out, so no step writes it. */
  lemma StepKeepsFirst(img: Image, op: Op)
    requires Inv(img) && (op.WriteOp? ==> |op.data| < DIRECT_LIMIT)
    ensures var img' := ImageStep(img, op).0;
            |img'.blocks| == |img.blocks| && (|img.blocks| > 0 ==> img'.blocks[0] == img.blocks[0])
  {
    hide NoSharing, UniqueNames, Run, StoreAll, MetaBlock, Padded, Chunks, Pad, Retain, Repointed;
    FoundIsLive(img, op.name);
    var pos := Position(img.inodes, Pad(op.name));
    if pos.Some? {
      assert InodeInv(img.inodes[pos.value], |img.blocks|);
      assert 0 < img.inodes[pos.value].pointers[0] < |img.blocks|;
    }
    if op.CreateOp? && FreeList(img) != [] {
      assert FreeList(img)[0] in FreeList(img);
    } else if op.WriteOp? && pos.Some? {
      WriteKeepsFirst(img, pos.value, op);
    } else if op.DeleteOp? && pos.Some? {
      var ps := img.inodes[pos.value].pointers[..img.inodes[pos.value].numDataBlocks];
      ZeroAllKeepsFirst(img.blocks, ps);
    }
  }

  lemma WriteKeepsFirst(img: Image, i: nat, op: Op)
    requires Inv(img) && op.WriteOp? && |op.data| < DIRECT_LIMIT && Position(img.inodes, Pad(op.name)) == Some(i)
    ensures var img' := Write(img, op.name, op.data, op.newPerms, op.newOwner, op.now).0;
            |img'.blocks| == |img.blocks| && (|img.blocks| > 0 ==> img'.blocks[0] == img.blocks[0])
  {
    hide NoSharing, UniqueNames, Run, StoreAll, MetaBlock, Pad, Position, FreeFrom, Repointed;
    FoundIsLive(img, op.name);
    var ino, bs := img.inodes[i], Chunks(Padded(op.data));
    assert InodeInv(ino, |img.blocks|);
    var meta := WrittenMeta(ReadMeta(img.blocks[ino.pointers[0]]), op.newPerms, op.newOwner, op.now);
    if Extra(Held(ino) - 1, |bs|) <= |FreeList(img)| {
      WritePointersOk(img, i, |bs|);
      var ps := WritePointers(ino, FreeList(img), |bs|);
      StoreAllKeepsFirst(MetaWritten(img, ino.pointers[0], meta).blocks, ps[..|bs|], bs);
    }
  }

  lemma {:induction false} StoreAllKeepsFirst(blocks: seq<Block>, ps: seq<U64>, bs: seq<Block>)
    requires |ps| == |bs| && blocks != [] && forall j :: 0 <= j < |ps| ==> 1 <= ps[j] < |blocks|
    ensures StoreAll(blocks, ps, bs)[0] == blocks[0]
    decreases |ps|
  {
    if ps != [] {
      StoreAllKeepsFirst(blocks, ps[..|ps| - 1], bs[..|ps| - 1]);
    }
  }

  lemma ZeroAllKeepsFirst(blocks: seq<Block>, ps: seq<U64>)
    requires blocks != [] && forall j :: 0 <= j < |ps| ==> 1 <= ps[j] < |blocks|
    ensures |ZeroAll(blocks, ps)| == |blocks| && ZeroAll(blocks, ps)[0] == blocks[0]
  {
    StoreAllKeepsFirst(blocks, ps, seq(|ps|, _ => ZERO_BLOCK));
  }

  lemma {:induction false} RunKeepsFirst(img: Image, ops: seq<Op>, img': Image, rs: seq<Result<()>>)
    requires Inv(img) && ImageRun(img, ops, img', rs) && img.blocks != []
    ensures img'.blocks != [] && img'.blocks[0] == img.blocks[0]
    decreases |ops|
  {
    hide Inv, ImageStep;
    if ops != [] {
      StepKeepsFirst(img, ops[0]);
      var (img1, r) := ImageStep(img, ops[0]);
      if !r.Panic? {
        RunKeepsFirst(img1, ops[1..], img', rs[1..]);
      }
    }
  }

  lemma StepConserves(m: M.Store, op: Op)
    requires |m.files| + m.slots == m.inodes && Proper(m, op)
    ensures var (m', r) := StoreStep(m, op);
            && |m'.files| + m'.slots == m'.inodes
            && m'.inodes + (if op.DeleteOp? && r.Ok? then 1 else 0) == m.inodes
            && m'.capacity == m.capacity
  {
    hide Padded, Chunks, MetaBlock, WrittenMeta, M.Retained, M.ZeroCount;
    if op.DeleteOp? {
      if op.name in m.files {
        assert (m.files - {op.name}).Keys == m.files.Keys - {op.name};
        assert |m.files.Keys| == |m.files.Keys - {op.name}| + 1;
      }
    } else if op.name in StoreStep(m, op).0.files {
      AddSize(m.files, op.name, StoreStep(m, op).0.files[op.name]);
    }
  }

  lemma AddSize(files: map<Name, File>, name: Name, f: File)
    ensures |files[name := f]| == |files| + if name in files then 0 else 1
  {
    assert files[name := f].Keys == files.Keys + {name};
  }
}
