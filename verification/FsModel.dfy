/**
 * The reference model: a plain map from names to files plus three counters, with no blocks, pointers
 * or inodes.  Every PhysFs operation is proved to refine its counterpart here, including which
 * error it returns.
 */
module FsModel {
  import opened Common
  import opened Bytes
  import opened FsTypes
  import opened FsImage

  datatype Store = Store(
    files: map<Name, File>,
    free: nat,      // blocks the allocator would accept
    slots: nat,     // unused inodes
    inodes: nat,    // current length of the inode table
    capacity: nat)  // the superblock's inode count

  function Get(m: Store, name: Name): Option<File> {
    if name in m.files then Some(m.files[name]) else None
  }

  /** Every data block a file holds, visible or spare. */
  function Retained(f: File): seq<Block> {
    Chunks(f.bytes) + f.spare
  }

  function Put(m: Store, name: Name, f: File, taken: nat): Store
    requires taken <= m.free
  {
    m.(files := m.files[name := f], free := m.free - taken)
  }

  function CreateFile(m: Store, name: Name, perms: Perms, owner: U64, t: Times): (Store, Result<()>) {
    var meta := NewMeta(perms, owner, t);
    if m.free == 0 then (m, Err(DiskFull))
    else if m.slots == 0 then
      (m.(free := m.free - if MetaBlock(meta) == ZERO_BLOCK then 0 else 1),
       if m.inodes < m.capacity then Panic else Err(OutOfInodes))
    else (Put(m.(slots := m.slots - 1), name, File([], [], meta), 1), Ok(()))
  }

  function WriteFile(m: Store, name: Name, data: seq<Byte>, perms: Option<Perms>, owner: Option<U64>, now: U64)
    : (Store, Result<()>)
  {
    if name !in m.files then (m, Err(FileNotFound))
    else
      var f := m.files[name];
      var meta := WrittenMeta(f.meta, perms, owner, now);
      var n, kept := |data| / 512 + 1, Retained(f);
      if m.free < Extra(|kept|, n) then (Put(m, name, f.(meta := meta), 0), Err(DiskFull))
      else
        var spare := if n <= |kept| then kept[n..] else [];
        (Put(m, name, File(Padded(data), spare, meta), Extra(|kept|, n)), Ok(()))
  }

  function ZeroCount(bs: seq<Block>): nat {
    if bs == [] then 0 else (if bs[0] == ZERO_BLOCK then 1 else 0) + ZeroCount(bs[1..])
  }

  /** Deleting frees the metadata and data blocks; of the spare blocks only those that are all zero. */
  function DeleteFile(m: Store, name: Name): (Store, Result<()>) {
    if name !in m.files then (m, Err(FileNotFound))
    else
      var f := m.files[name];
      (m.(files := m.files - {name},
          free := m.free + 1 + |f.bytes| / 512 + ZeroCount(f.spare),
          inodes := if m.inodes == 0 then 0 else m.inodes - 1),
       Ok(()))
  }

  function ChangeMeta(m: Store, name: Name, change: Metadata -> Metadata): (Store, Result<()>) {
    if name !in m.files then (m, Err(FileNotFound))
    else
      var f := m.files[name];
      (Put(m, name, f.(meta := change(f.meta)), 0), Ok(()))
  }

  /** A file with only its metadata changed. */
  ghost predicate OnlyMeta(m: Store, m': Store, name: Name) {
    && name in m.files && m'.files.Keys == m.files.Keys
    && (forall n :: n in m.files && n != name ==> m'.files[n] == m.files[n])
    && m'.files[name].bytes == m.files[name].bytes && m'.files[name].spare == m.files[name].spare
    && m'.free == m.free && m'.slots == m.slots && m'.inodes == m.inodes && m'.capacity == m.capacity
  }

  ghost predicate SameTimes(a: Metadata, b: Metadata) {
    a.creationTime == b.creationTime && a.modificationTime == b.modificationTime && a.accessTime == b.accessTime
  }

  /** chmod sets the three digits of one file and nothing else. */
  lemma ChmodSets(m: Store, name: Name, perms: Perms)
    ensures var (m', r) := ChangeMeta(m, name, WithPerms(perms));
            && (name !in m.files ==> m' == m && r == Err(FileNotFound))
            && (name in m.files ==>
                  && r == Ok(()) && OnlyMeta(m, m', name)
                  && var a, b := m.files[name].meta, m'.files[name].meta;
                  WordPerms(b.permissions) == perms && b.owner == a.owner && SameTimes(a, b))
  {
    hide PermsWord, WordPerms;
    PermsRoundTrip(perms);
  }

  /** chown sets the owner of one file and nothing else. */
  lemma ChownSets(m: Store, name: Name, owner: U64)
    ensures var (m', r) := ChangeMeta(m, name, WithOwner(owner));
            && (name !in m.files ==> m' == m && r == Err(FileNotFound))
            && (name in m.files ==>
                  && r == Ok(()) && OnlyMeta(m, m', name)
                  && var a, b := m.files[name].meta, m'.files[name].meta;
                  b.owner == owner && b.permissions == a.permissions && SameTimes(a, b))
  {
  }

  /** The metadata create_file is asked to store. */
  ghost predicate MetaAsGiven(meta: Metadata, perms: Perms, owner: U64, t: Times) {
    && meta.owner == owner && WordPerms(meta.permissions) == perms
    && meta.creationTime == t.created && meta.modificationTime == t.modified && meta.accessTime == t.accessed
  }

  lemma CreateSets(perms: Perms, owner: U64, t: Times)
    ensures MetaAsGiven(NewMeta(perms, owner, t), perms, owner, t)
  {
    PermsRoundTrip(perms);
  }

  /** The image implements the store. */
  ghost predicate Implements(img: Image, m: Store) {
    && Inv(img)
    && m.free == |FreeSet(img)|
    && m.slots == EmptyCount(img.inodes)
    && m.inodes == |img.inodes|
    && m.capacity == img.sb.numInodes
    && forall name: Name :: Lookup(img, name) == Get(m, name)
  }
}
