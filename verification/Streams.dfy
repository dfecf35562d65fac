/** Open files as the reference model sees them: byte arrays in the store, one cursor per handle. */
module Streams {
  import opened Common
  import opened Bytes
  import opened FsTypes
  import opened FsImage
  import M = FsModel

  const READ: bv8 := 1
  const WRITE: bv8 := 2
  const APPEND: bv8 := 4
  const CREATE: bv8 := 8

  datatype Handle = Handle(name: Name, flags: bv8, pos: nat)

  datatype Reply =
    | Done | Opened(handle: nat) | Data(bytes: seq<Byte>) | Count(n: nat)
    | OwnerIs(owner: U64) | PermsAre(perms: Perms) | Exists(found: bool)
    | Denied | Failed(error: FsError) | Panicked

  function FromResult(r: Result<()>): Reply {
    match r
    case Ok(_) => Done
    case Err(e) => Failed(e)
    case Panic => Panicked
  }

  function Max(a: nat, b: nat): nat {
    if a < b then b else a
  }

  function Min(a: nat, b: nat): nat {
    if a < b then a else b
  }

  /** data, zero-extended as needed, with buf laid over [pos, pos + |buf|). */
  function Overlay(data: seq<Byte>, pos: nat, buf: seq<Byte>): (r: seq<Byte>)
    ensures |r| == Max(|data|, pos + |buf|)
    ensures forall i :: 0 <= i < |r| ==>
              r[i] == if pos <= i < pos + |buf| then buf[i - pos] else if i < |data| then data[i] else 0
  {
    Splice(data + Zeros(Max(|data|, pos + |buf|) - |data|), pos, buf)
  }

  function ReadHandle(m: M.Store, h: Handle, len: nat): (Handle, Reply) {
    if h.flags & READ == 0 then (h, Denied)
    else if h.name !in m.files then (h, Failed(FileNotFound))
    else
      var bytes := m.files[h.name].bytes;
      if h.pos > |bytes| then (h, Panicked)
      else
        var n := Min(len, |bytes| - h.pos);
        (h.(pos := h.pos + n), Data(bytes[h.pos..h.pos + n]))
  }

  /** The length a write through h would have to store. */
  function WriteExtent(m: M.Store, h: Handle, buf: seq<Byte>): nat {
    if h.name in m.files then Max(|m.files[h.name].bytes|, h.pos + |buf|) else 0
  }

  function WriteHandle(m: M.Store, h: Handle, buf: seq<Byte>, now: U64): (M.Store, Handle, Reply) {
    if h.flags & WRITE == 0 then (m, h, Denied)
    else if h.name !in m.files then (m, h, Failed(FileNotFound))
    else
      var (m', r) := M.WriteFile(m, h.name, Overlay(m.files[h.name].bytes, h.pos, buf), None, None, now);
      if r.Ok? then (m', h.(pos := h.pos + |buf|), Count(|buf|)) else (m', h, FromResult(r))
  }

  /** open: creates the file if asked to and it is missing; append starts at the end. */
  function OpenFile(m: M.Store, name: Name, flags: bv8, t: Times): (M.Store, Option<Handle>, Reply) {
    var (m', r) :=
      if name in m.files then (m, Ok(()))
      else if flags & CREATE != 0 then M.CreateFile(m, name, Perms(6, 6, 6), 0, t)
      else (m, Err(FileNotFound));
    if r.Ok? && name in m'.files then
      var pos := if flags & APPEND != 0 then |m'.files[name].bytes| else 0;
      (m', Some(Handle(name, flags, pos)), Done)
    else (m', None, FromResult(r))
  }

  // ----- systems of handles

  datatype World = World(store: M.Store, handles: seq<Handle>)

  datatype Call =
    | Open(name: Name, flags: bv8, times: Times)
    | Read(h: nat, len: nat)
    | Write(h: nat, buf: seq<Byte>, now: U64)
    | Seek(h: nat, pos: nat)
    | Delete(name: Name)
    | Chmod(name: Name, perms: Perms)
    | Chown(name: Name, owner: U64)
    | GetOwner(name: Name)
    | GetPerms(name: Name)
    | Stat(name: Name)

  /** Handles are ones that were opened, and writes stay in the direct range. */
  predicate Proper(w: World, c: Call) {
    match c
    case Read(h, _) => h < |w.handles|
    case Seek(h, _) => h < |w.handles|
    case Write(h, buf, _) => h < |w.handles| && WriteExtent(w.store, w.handles[h], buf) < DIRECT_LIMIT
    case _ => true
  }

  function Answer(w: World, c: Call): (World, Reply)
    requires Proper(w, c)
  {
    match c
    case Open(name, flags, t) =>
      var (m, h, r) := OpenFile(w.store, name, flags, t);
      if h.Some? then (World(m, w.handles + [h.value]), Opened(|w.handles|)) else (World(m, w.handles), r)
    case Read(h, len) =>
      var (h', r) := ReadHandle(w.store, w.handles[h], len);
      (w.(handles := w.handles[h := h']), r)
    case Write(h, buf, now) =>
      var (m, h', r) := WriteHandle(w.store, w.handles[h], buf, now);
      (World(m, w.handles[h := h']), r)
    case Seek(h, pos) => (w.(handles := w.handles[h := w.handles[h].(pos := pos)]), Count(pos))
    case Delete(name) =>
      var (m, r) := M.DeleteFile(w.store, name);
      (w.(store := m), FromResult(r))
    case Chmod(name, perms) =>
      var (m, r) := M.ChangeMeta(w.store, name, WithPerms(perms));
      (w.(store := m), FromResult(r))
    case Chown(name, owner) =>
      var (m, r) := M.ChangeMeta(w.store, name, WithOwner(owner));
      (w.(store := m), FromResult(r))
    case GetOwner(name) =>
      (w, if name in w.store.files then OwnerIs(w.store.files[name].meta.owner) else Failed(FileNotFound))
    case GetPerms(name) =>
      (w, if name in w.store.files then PermsAre(WordPerms(w.store.files[name].meta.permissions))
          else Failed(FileNotFound))
    case Stat(name) => (w, Exists(name in w.store.files))
  }

  predicate ProperCalls(w: World, calls: seq<Call>)
    decreases |calls|
  {
    calls == [] ||
    (Proper(w, calls[0])
     && (Answer(w, calls[0]).1.Panicked? || ProperCalls(Answer(w, calls[0]).0, calls[1..])))
  }

  /** The whole conversation; a panic ends it. */
  function AnswerAll(w: World, calls: seq<Call>): (World, seq<Reply>)
    requires ProperCalls(w, calls)
    decreases |calls|
  {
    if calls == [] then (w, [])
    else
      var (w', r) := Answer(w, calls[0]);
      if r.Panicked? then (w', [r])
      else
        var (w'', rs) := AnswerAll(w', calls[1..]);
        (w'', [r] + rs)
  }

  lemma AnswerAllUnfolds(w: World, calls: seq<Call>)
    requires ProperCalls(w, calls)
    ensures calls == [] ==> AnswerAll(w, calls) == (w, [])
    ensures calls != [] ==>
              && Proper(w, calls[0])
              && var (w', r) := Answer(w, calls[0]);
              && (r.Panicked? ==> AnswerAll(w, calls) == (w', [r]))
              && (!r.Panicked? ==>
                    && ProperCalls(w', calls[1..])
                    && AnswerAll(w, calls) == (AnswerAll(w', calls[1..]).0, [r] + AnswerAll(w', calls[1..]).1))
  {
    hide Answer, Proper;
  }

  // ----- what the model promises about streams

  /**
   * A successful write: the file becomes the overlay padded to whole blocks, strictly longer than
   * both the old contents and the end of the write; reading the written range gives the buffer back.
   */
  lemma WriteOverlays(m: M.Store, h: Handle, buf: seq<Byte>, now: U64)
    requires WriteHandle(m, h, buf, now).2.Count?
    ensures var (m', h', r) := WriteHandle(m, h, buf, now);
            && h.name in m.files && h.name in m'.files
            && var was, now' := m.files[h.name].bytes, m'.files[h.name].bytes;
            && |now'| == 512 * (Max(|was|, h.pos + |buf|) / 512 + 1)
            && |now'| > |was| && |now'| > h.pos + |buf|
            && (forall i :: 0 <= i < |now'| ==>
                  now'[i] == if h.pos <= i < h.pos + |buf| then buf[i - h.pos]
                            else if i < |was| then was[i] else 0)
            && now'[h.pos..h.pos + |buf|] == buf
            && h'.pos == h.pos + |buf|
            && m'.files == m.files[h.name := m'.files[h.name]]
  {
    var (m', h', r) := WriteHandle(m, h, buf, now);
    assert m'.files[h.name].bytes == Padded(Overlay(m.files[h.name].bytes, h.pos, buf));
  }

  /** Whoever reads the written range next, through whatever handle, gets the buffer. */
  lemma ReadYourWrites(m: M.Store, h: Handle, buf: seq<Byte>, now: U64, g: Handle)
    requires WriteHandle(m, h, buf, now).2.Count?
    requires g.name == h.name && g.pos == h.pos && g.flags & READ != 0
    ensures ReadHandle(WriteHandle(m, h, buf, now).0, g, |buf|) == (g.(pos := g.pos + |buf|), Data(buf))
  {
    WriteOverlays(m, h, buf, now);
  }

  function Sum(ns: seq<nat>): nat {
    if ns == [] then 0 else ns[0] + Sum(ns[1..])
  }

  /** The bytes successive reads of the given sizes return, joined. */
  function ReadAll(m: M.Store, h: Handle, ns: seq<nat>): (Handle, seq<Byte>)
    requires h.flags & READ != 0 && h.name in m.files && h.pos <= |m.files[h.name].bytes|
    decreases |ns|
  {
    if ns == [] then (h, [])
    else
      var (h', r) := ReadHandle(m, h, ns[0]);
      var (h'', rest) := ReadAll(m, h', ns[1..]);
      (h'', r.bytes + rest)
  }

  /** However reads are cut up, they return the file's bytes from the cursor on, up to its end. */
  lemma {:induction false} ReadsConcatenate(m: M.Store, h: Handle, ns: seq<nat>)
    requires h.flags & READ != 0 && h.name in m.files && h.pos <= |m.files[h.name].bytes|
    ensures var bytes := m.files[h.name].bytes;
            var end := Min(|bytes|, h.pos + Sum(ns));
            ReadAll(m, h, ns) == (h.(pos := end), bytes[h.pos..end])
    decreases |ns|
  {
    var bytes := m.files[h.name].bytes;
    var end := Min(|bytes|, h.pos + Sum(ns));
    if ns == [] {
      assert bytes[h.pos..end] == [] && h.(pos := end) == h;
    } else {
      var (h', r) := ReadHandle(m, h, ns[0]);
      ReadsConcatenate(m, h', ns[1..]);
      assert end == Min(|bytes|, h'.pos + Sum(ns[1..]));
      assert bytes[h.pos..h'.pos] + bytes[h'.pos..end] == bytes[h.pos..end];
    }
  }

  // ----- open, and when calls are refused

  /**
   * open: which names and flags give a handle, where its cursor starts, what is created, and every way
   * it fails.  Bit 4 is append, bit 8 create.
   */
  lemma OpenOutcome(m: M.Store, name: Name, flags: bv8, t: Times)
    ensures var (m', h, r) := OpenFile(m, name, flags, t);
            && (h.Some? <==> r == Done)
            && (h.Some? ==>
                  && h.value.name == name && h.value.flags == flags && name in m'.files
                  && h.value.pos == if flags & 4 != 0 then |m'.files[name].bytes| else 0)
            && (name in m.files ==> h.Some? && m' == m)
            && (name !in m.files && flags & 8 == 0 ==> h.None? && r == Failed(FileNotFound) && m' == m)
            && (name !in m.files && flags & 8 != 0 ==>
                  && (m.free == 0 ==> r == Failed(DiskFull) && m' == m)
                  && (m.free > 0 && m.slots == 0 ==>
                        && r == (if m.inodes < m.capacity then Panicked else Failed(OutOfInodes))
                        && m'.files == m.files && m.free - 1 <= m'.free <= m.free)
                  && (m.free > 0 && m.slots > 0 ==>
                        && h.Some? && m'.files == m.files[name := m'.files[name]]
                        && m'.files[name].bytes == [] && m'.files[name].spare == []
                        && M.MetaAsGiven(m'.files[name].meta, Perms(6, 6, 6), 0, t)
                        && m'.free == m.free - 1 && m'.slots == m.slots - 1))
  {
    hide NewMeta, MetaBlock;
    M.CreateSets(Perms(6, 6, 6), 0, t);
  }

  /**
   * Opening a file to write to it and writing: with append the file then starts with what it held before
   * followed by the buffer; without, it starts with the buffer, followed by the rest of what it held.
   */
  lemma OpenThenWrite(w: World, name: Name, flags: bv8, t: Times, buf: seq<Byte>, now: U64)
    requires name in w.store.files && Answer(w, Open(name, flags, t)).1.Opened?
    requires var w1 := Answer(w, Open(name, flags, t)).0;
             Proper(w1, Write(|w.handles|, buf, now)) && Answer(w1, Write(|w.handles|, buf, now)).1.Count?
    ensures var w1 := Answer(w, Open(name, flags, t)).0;
            var (w2, r) := Answer(w1, Write(|w.handles|, buf, now));
            && r == Count(|buf|) && name in w2.store.files
            && var was, bytes := w.store.files[name].bytes, w2.store.files[name].bytes;
            && |bytes| >= |buf| && |bytes| >= |was|
            && (flags & 4 != 0 ==> |bytes| >= |was| + |buf| && bytes[..|was| + |buf|] == was + buf)
            && (flags & 4 == 0 ==>
                  bytes[..|buf|] == buf && forall i :: |buf| <= i < |was| ==> bytes[i] == was[i])
  {
    OpenOutcome(w.store, name, flags, t);
    var w1 := Answer(w, Open(name, flags, t)).0;
    WriteOverlays(w1.store, w1.handles[|w.handles|], buf, now);
  }

  /** read: bit 1 is needed, the file must exist, and a cursor past its end panics. */
  lemma ReadOutcome(m: M.Store, h: Handle, len: nat)
    ensures var (h', r) := ReadHandle(m, h, len);
            && (h.flags & 1 == 0 ==> r == Denied && h' == h)
            && (h.flags & 1 != 0 && h.name !in m.files ==> r == Failed(FileNotFound) && h' == h)
            && (h.flags & 1 != 0 && h.name in m.files ==>
                  var bytes := m.files[h.name].bytes;
                  if h.pos > |bytes| then r == Panicked && h' == h
                  else
                    && r.Data? && |r.bytes| <= len && h.pos + |r.bytes| <= |bytes|
                    && (|r.bytes| == len || h.pos + |r.bytes| == |bytes|)
                    && r.bytes == bytes[h.pos..h.pos + |r.bytes|] && h' == h.(pos := h.pos + |r.bytes|))
  {
  }

  /**
   * write: bit 2 is needed, the file must exist, and it succeeds exactly when the free blocks cover what
   * the longer file takes; a failed one moves no cursor and changes no file's bytes.
   */
  lemma WriteOutcome(m: M.Store, h: Handle, buf: seq<Byte>, now: U64)
    ensures var (m', h', r) := WriteHandle(m, h, buf, now);
            && (h.flags & 2 == 0 ==> r == Denied && h' == h && m' == m)
            && (h.flags & 2 != 0 && h.name !in m.files ==> r == Failed(FileNotFound) && h' == h && m' == m)
            && (h.flags & 2 != 0 && h.name in m.files ==>
                  && var f := m.files[h.name];
                  var need := Max(|f.bytes|, h.pos + |buf|) / 512 + 1;
                  && (r == Count(|buf|) <==> need <= |f.bytes| / 512 + |f.spare| + m.free)
                  && (r != Count(|buf|) ==>
                        && r == Failed(DiskFull) && h' == h && m'.files.Keys == m.files.Keys && m'.free == m.free
                        && forall n :: n in m.files ==> m'.files[n].bytes == m.files[n].bytes)
                  && (r == Count(|buf|) ==>
                        h' == h.(pos := h.pos + |buf|)
                        && m'.free == Min(m.free, m.free + |f.bytes| / 512 + |f.spare| - need))
                  && h.name in m'.files
                  && var a, b := f.meta, m'.files[h.name].meta;
                  && b.modificationTime == now && b.owner == a.owner && b.permissions == a.permissions
                  && b.creationTime == a.creationTime && b.accessTime == a.accessTime)
  {
    hide Padded, Overlay;
  }

  /** The remaining calls: what they answer and what they leave alone. */
  lemma CallsByName(w: World, name: Name, perms: Perms, owner: U64)
    ensures var files := w.store.files;
            && (name !in files ==>
                  && Answer(w, GetOwner(name)) == (w, Failed(FileNotFound))
                  && Answer(w, GetPerms(name)) == (w, Failed(FileNotFound))
                  && Answer(w, Chmod(name, perms)) == (w, Failed(FileNotFound))
                  && Answer(w, Chown(name, owner)) == (w, Failed(FileNotFound))
                  && Answer(w, Delete(name)) == (w, Failed(FileNotFound))
                  && Answer(w, Stat(name)) == (w, Exists(false)))
            && (name in files ==>
                  && Answer(w, GetOwner(name)) == (w, OwnerIs(files[name].meta.owner))
                  && Answer(w, GetPerms(name)) == (w, PermsAre(WordPerms(files[name].meta.permissions)))
                  && Answer(w, Delete(name)).1 == Done
                  && Answer(w, Delete(name)).0.store.files == files - {name}
                  && Answer(w, Delete(name)).0.handles == w.handles
                  && Answer(w, Stat(name)) == (w, Exists(true)))
  {
    hide M.ZeroCount;
  }

  /** chmod then get_perms gives the digits set, and get_owner what it gave before; chown the other way round. */
  lemma ChangeThenGet(w: World, name: Name, perms: Perms, owner: U64)
    requires name in w.store.files
    ensures var (w', r) := Answer(w, Chmod(name, perms));
            && r == Done && w'.handles == w.handles && M.OnlyMeta(w.store, w'.store, name)
            && Answer(w', GetPerms(name)).1 == PermsAre(perms)
            && Answer(w', GetOwner(name)).1 == Answer(w, GetOwner(name)).1
    ensures var (w', r) := Answer(w, Chown(name, owner));
            && r == Done && w'.handles == w.handles && M.OnlyMeta(w.store, w'.store, name)
            && Answer(w', GetOwner(name)).1 == OwnerIs(owner)
            && Answer(w', GetPerms(name)).1 == Answer(w, GetPerms(name)).1
  {
    hide WithPerms, WithOwner, WordPerms;
    M.ChmodSets(w.store, name, perms);
    M.ChownSets(w.store, name, owner);
  }

  /** A call through one handle moves no other cursor; opening adds one handle at the end. */
  lemma OtherHandlesKept(w: World, c: Call)
    requires Proper(w, c)
    ensures var (w', r) := Answer(w, c);
            && (c.Read? || c.Write? || c.Seek? ==>
                  && |w'.handles| == |w.handles|
                  && (forall g :: 0 <= g < |w.handles| && g != c.h ==> w'.handles[g] == w.handles[g])
                  && w'.handles[c.h].name == w.handles[c.h].name && w'.handles[c.h].flags == w.handles[c.h].flags)
            && (c.Seek? ==> r == Count(c.pos) && w'.handles[c.h].pos == c.pos && w'.store == w.store)
            && (c.Read? ==> w'.store == w.store)
            && (c.Open? ==> w.handles <= w'.handles && |w'.handles| == |w.handles| + (if r.Opened? then 1 else 0))
            && (c.Open? && r.Opened? ==> r == Opened(|w.handles|))
  {
    hide M.WriteFile, M.CreateFile, Overlay;
  }
}
