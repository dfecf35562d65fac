/** Physical frames handed out by a global counter, and page ranges mapped to them. */
module Memory {
  import opened Common

  datatype Region = Region(start: nat, end: nat, usable: bool)

  /** The boot loader's map: page-aligned regions that do not overlap. */
  ghost predicate WellFormed(regions: seq<Region>) {
    && (forall i :: 0 <= i < |regions| ==>
          regions[i].start % 4096 == 0 && regions[i].end % 4096 == 0 && regions[i].start <= regions[i].end)
    && (forall i, j :: 0 <= i < j < |regions| ==>
          regions[i].end <= regions[j].start || regions[j].end <= regions[i].start)
  }

  /** start, start + 4096, ... below end, each taken to the frame containing it. */
  function RegionFrames(r: Region): (fs: seq<nat>) {
    if !r.usable || r.end <= r.start then []
    else seq((r.end - r.start + 4095) / 4096, i requires 0 <= i => (r.start + 4096 * i) / 4096 * 4096)
  }

  /** usable_frames. */
  function UsableFrames(regions: seq<Region>): seq<nat> {
    if regions == [] then [] else RegionFrames(regions[0]) + UsableFrames(regions[1..])
  }

  function UsableBytes(regions: seq<Region>): nat {
    if regions == [] then 0
    else (if regions[0].usable && regions[0].start < regions[0].end then regions[0].end - regions[0].start else 0)
         + UsableBytes(regions[1..])
  }

  ghost predicate InUsable(regions: seq<Region>, f: nat) {
    exists i :: 0 <= i < |regions| && Covers(regions[i], f)
  }

  /** The whole frame at f lies in the usable region. */
  predicate Covers(r: Region, f: nat) {
    r.usable && f % 4096 == 0 && r.start <= f && f + 4096 <= r.end
  }

  lemma RegionFramesExact(r: Region)
    requires r.start % 4096 == 0 && r.end % 4096 == 0 && r.start <= r.end
    ensures Distinct(RegionFrames(r))
    ensures forall f: nat :: f in RegionFrames(r) <==> Covers(r, f)
    ensures 4096 * |RegionFrames(r)| == if r.usable then r.end - r.start else 0
  {
    var fs := RegionFrames(r);
    if r.usable && r.start < r.end {
      var a, b := r.start / 4096, r.end / 4096;
      assert r.start == 4096 * a && r.end == 4096 * b && |fs| == b - a;
      forall i | 0 <= i < |fs| ensures fs[i] == 4096 * (a + i) {
        assert r.start + 4096 * i == 4096 * (a + i);
      }
      forall f: nat | Covers(r, f) ensures f in fs {
        var k := f / 4096;
        assert f == 4096 * k && fs[k - a] == f;
      }
      forall f: nat | f in fs ensures Covers(r, f) {
        var i :| 0 <= i < |fs| && fs[i] == f;
      }
    }
  }

  /** Every usable frame is listed once, nothing else is, and the count is the usable memory. */
  lemma {:induction false} UsableFramesExact(regions: seq<Region>)
    requires WellFormed(regions)
    ensures Distinct(UsableFrames(regions))
    ensures forall f: nat :: f in UsableFrames(regions) <==> InUsable(regions, f)
    ensures 4096 * |UsableFrames(regions)| == UsableBytes(regions)
  {
    if regions != [] {
      var r, rest := regions[0], regions[1..];
      assert WellFormed(rest);
      RegionFramesExact(r);
      UsableFramesExact(rest);
      var a, b := RegionFrames(r), UsableFrames(rest);
      forall f | f in a ensures f !in b {
        OneRegion(regions, f);
      }
      DistinctConcat(a, b);
      forall f: nat ensures InUsable(regions, f) <==> Covers(r, f) || InUsable(rest, f) {
        UsableSplit(regions, f);
      }
    }
  }

  lemma OneRegion(regions: seq<Region>, f: nat)
    requires WellFormed(regions) && regions != [] && Covers(regions[0], f)
    ensures !InUsable(regions[1..], f)
  {
    forall i | 0 <= i < |regions[1..]| ensures !Covers(regions[1..][i], f) {
      assert regions[1..][i] == regions[i + 1];
    }
  }

  lemma DistinctConcat(a: seq<nat>, b: seq<nat>)
    requires Distinct(a) && Distinct(b) && forall f :: f in a ==> f !in b
    ensures Distinct(a + b)
  {
    assert forall i, j :: 0 <= i < |a| && 0 <= j < |b| ==> a[i] in a && b[j] in b;
  }

  lemma UsableSplit(regions: seq<Region>, f: nat)
    requires regions != []
    ensures InUsable(regions, f) <==> Covers(regions[0], f) || InUsable(regions[1..], f)
  {
    var rest := regions[1..];
    if InUsable(regions, f) {
      var i :| 0 <= i < |regions| && Covers(regions[i], f);
      assert i > 0 ==> Covers(rest[i - 1], f);
    }
    if InUsable(rest, f) {
      var i :| 0 <= i < |rest| && Covers(rest[i], f);
      assert Covers(regions[i + 1], f);
    }
  }

  // ----- allocate_frame

  function Nth(frames: seq<nat>, n: nat): Option<nat> {
    if n < |frames| then Some(frames[n]) else None
  }

  /** The static ALLOCATED_FRAMES, shared by all allocators. */
  class FrameCounter {
    var count: nat

    constructor ()
      ensures count == 0
    {
      count := 0;
    }
  }

  class BootInfoFrameAllocator {
    const memoryMap: seq<Region>
    const counter: FrameCounter

    constructor (memoryMap: seq<Region>, counter: FrameCounter)
      ensures this.memoryMap == memoryMap && this.counter == counter
    {
      this.memoryMap, this.counter := memoryMap, counter;
    }

    method AllocateFrame() returns (frame: Option<nat>)
      modifies counter
      ensures counter.count == old(counter.count) + 1
      ensures frame == Nth(UsableFrames(memoryMap), old(counter.count))
    {
      var next := counter.count;
      counter.count := next + 1;
      frame := Nth(UsableFrames(memoryMap), next);
    }
  }

  /** What n calls return when the counter starts at `from`. */
  function Answers(frames: seq<nat>, from: nat, n: nat): (r: seq<Option<nat>>)
    ensures |r| == n
    ensures forall i :: 0 <= i < n ==> r[i] == Nth(frames, from + i)
  {
    seq(n, i requires 0 <= i => Nth(frames, from + i))
  }

  /** Any schedule of calls through any allocators on the same map, however many were made. */
  method AllocateBy(allocators: seq<BootInfoFrameAllocator>, regions: seq<Region>, counter: FrameCounter,
                    schedule: seq<nat>)
    returns (answers: seq<Option<nat>>)
    requires forall i :: 0 <= i < |allocators| ==>
               allocators[i].memoryMap == regions && allocators[i].counter == counter
    requires forall k :: 0 <= k < |schedule| ==> schedule[k] < |allocators|
    modifies counter
    ensures answers == Answers(UsableFrames(regions), old(counter.count), |schedule|)
    ensures counter.count == old(counter.count) + |schedule|
  {
    answers := [];
    for k := 0 to |schedule|
      invariant counter.count == old(counter.count) + k
      invariant answers == Answers(UsableFrames(regions), old(counter.count), k)
    {
      var frame := allocators[schedule[k]].AllocateFrame();
      answers := answers + [frame];
    }
  }

  /**
   * From boot on: no frame is handed out twice, each lies in usable memory, exactly as many calls
   * succeed as there are usable frames, and after that every call fails.
   */
  lemma AllocationsExact(regions: seq<Region>, n: nat)
    requires WellFormed(regions)
    ensures var frames := UsableFrames(regions);
            var answers := Answers(frames, 0, n);
            && 4096 * |frames| == UsableBytes(regions)
            && (forall i :: 0 <= i < n ==> (answers[i].Some? <==> i < |frames|))
            && (forall i :: 0 <= i < n && answers[i].Some? ==> InUsable(regions, answers[i].value))
            && (forall i, j :: 0 <= i < j < n && answers[i].Some? ==> answers[i] != answers[j])
  {
    UsableFramesExact(regions);
  }

  // ----- alloc_pages and free_pages

  /** The mapper as a map from page numbers to frames, together with the frame counter. */
  datatype State = State(next: nat, pages: map<nat, nat>)

  /** Allocate n frames for page tables, stopping at the first failure. */
  function TakeTables(frames: seq<nat>, next: nat, n: nat): (nat, bool)
    decreases n
  {
    if n == 0 then (next, true)
    else if next >= |frames| then (next + 1, false)
    else TakeTables(frames, next + 1, n - 1)
  }

  /**
   * One page of alloc_pages: a frame for the page, then map_to, which first allocates the page tables
   * it misses (`tables` of them) and then refuses a page already mapped.
   */
  function MapOne(frames: seq<nat>, s: State, page: nat, tables: nat): (State, bool) {
    match Nth(frames, s.next)
    case None => (s.(next := s.next + 1), false)
    case Some(frame) =>
      var (next, ok) := TakeTables(frames, s.next + 1, tables);
      if !ok || page in s.pages then (s.(next := next), false)
      else (State(next, s.pages[page := frame]), true)
  }

  function MapRange(frames: seq<nat>, s: State, first: nat, end: nat, tables: nat -> nat): (State, bool)
    requires first <= end
    decreases end - first
  {
    if first == end then (s, true)
    else
      var (s', ok) := MapOne(frames, s, first, tables(first));
      if ok then MapRange(frames, s', first + 1, end, tables) else (s', false)
  }

  /** Frames needed for pages [first, end) and the tables they miss. */
  function Demand(first: nat, end: nat, tables: nat -> nat): nat
    requires first <= end
    decreases end - first
  {
    if first == end then 0 else 1 + tables(first) + Demand(first + 1, end, tables)
  }

  lemma {:induction false} TakeTablesExact(frames: seq<nat>, next: nat, n: nat)
    requires next <= |frames|
    ensures TakeTables(frames, next, n)
         == if next + n <= |frames| then (next + n, true) else (|frames| + 1, false)
    decreases n
  {
    if n > 0 && next < |frames| {
      TakeTablesExact(frames, next + 1, n - 1);
    }
  }

  /** Page p holds a frame handed out in calls number lo to hi - 1. */
  ghost predicate FreshFrame(frames: seq<nat>, s: State, p: nat, lo: nat, hi: nat)
    requires p in s.pages
  {
    exists k :: lo <= k < hi && k < |frames| && frames[k] == s.pages[p]
  }

  /** Success: exactly the pages of the range become mapped, to distinct frames of this call alone. */
  lemma {:induction false} MapRangeMaps(frames: seq<nat>, s: State, first: nat, end: nat, tables: nat -> nat)
    requires first <= end && Distinct(frames)
    requires MapRange(frames, s, first, end, tables).1
    ensures var s' := MapRange(frames, s, first, end, tables).0;
            && s'.next == s.next + Demand(first, end, tables)
            && (forall p :: p in s'.pages <==> p in s.pages || first <= p < end)
            && (forall p :: first <= p < end ==> p !in s.pages)
            && (forall p :: p in s.pages ==> s'.pages[p] == s.pages[p])
            && (forall p :: first <= p < end ==> FreshFrame(frames, s', p, s.next, s'.next))
            && (forall p, q :: first <= p < q < end ==> s'.pages[p] != s'.pages[q])
    decreases end - first
  {
    if first < end {
      var s1 := MapOne(frames, s, first, tables(first)).0;
      TakeTablesExact(frames, s.next + 1, tables(first));
      MapRangeMaps(frames, s1, first + 1, end, tables);
      var s' := MapRange(frames, s, first, end, tables).0;
      assert frames[s.next] == s'.pages[first];
      assert FreshFrame(frames, s', first, s.next, s'.next);
      forall q | first < q < end ensures s'.pages[first] != s'.pages[q] && FreshFrame(frames, s', q, s.next, s'.next) {
        assert FreshFrame(frames, s', q, s1.next, s'.next);
      }
    }
  }

  /** Which frame each page gets: frames are drawn in order, for every page first its own, then its tables'. */
  lemma {:induction false} MapRangeFrames(frames: seq<nat>, s: State, first: nat, end: nat, tables: nat -> nat)
    requires first <= end && MapRange(frames, s, first, end, tables).1
    ensures var s' := MapRange(frames, s, first, end, tables).0;
            && (forall p :: p in s.pages ==> p in s'.pages && s'.pages[p] == s.pages[p])
            && forall p :: first <= p < end ==>
                 p in s'.pages && Nth(frames, s.next + Demand(first, p, tables)) == Some(s'.pages[p])
    decreases end - first
  {
    hide MapOne;
    if first < end {
      MapOneIs(frames, s, first, tables(first));
      var s1 := MapOne(frames, s, first, tables(first)).0;
      MapRangeFrames(frames, s1, first + 1, end, tables);
      assert Demand(first, first, tables) == 0;
      forall p | first < p < end ensures s.next + Demand(first, p, tables) == s1.next + Demand(first + 1, p, tables) {
      }
    }
  }

  /** Success exactly when no page of the range was mapped and the frames suffice. */
  lemma {:induction false} MapRangeSucceedsIff(frames: seq<nat>, s: State, first: nat, end: nat, tables: nat -> nat)
    requires first <= end
    ensures MapRange(frames, s, first, end, tables).1 <==>
              && (forall p :: first <= p < end ==> p !in s.pages)
              && (first < end ==> s.next + Demand(first, end, tables) <= |frames|)
    decreases end - first
  {
    if first < end && s.next < |frames| {
      TakeTablesExact(frames, s.next + 1, tables(first));
      var (s1, ok) := MapOne(frames, s, first, tables(first));
      if ok {
        MapRangeSucceedsIff(frames, s1, first + 1, end, tables);
        assert s1.next == s.next + 1 + tables(first);
        assert forall p :: first < p < end ==> (p in s1.pages <==> p in s.pages);
      }
    }
  }

  /** The loop stops at page p: it was mapped already, or the frames do not reach through it. */
  ghost predicate Stops(frames: seq<nat>, s: State, first: nat, p: nat, tables: nat -> nat)
    requires first <= p
  {
    p in s.pages || s.next + Demand(first, p + 1, tables) > |frames|
  }

  /** Failure: `stop` is the first page that cannot be had; those before it stay mapped, nothing else changes. */
  lemma {:induction false} MapRangeFails(frames: seq<nat>, s: State, first: nat, end: nat, tables: nat -> nat)
    returns (stop: nat)
    requires first <= end && !MapRange(frames, s, first, end, tables).1
    ensures first <= stop < end
    ensures Stops(frames, s, first, stop, tables)
    ensures forall p :: first <= p < stop ==> !Stops(frames, s, first, p, tables)
    ensures var s' := MapRange(frames, s, first, end, tables).0;
            && (forall p :: p in s'.pages <==> p in s.pages || first <= p < stop)
            && (forall p :: p in s.pages ==> s'.pages[p] == s.pages[p])
            && var q := s.next + Demand(first, stop, tables);
            s'.next == if q + 1 + tables(stop) <= |frames| then q + 1 + tables(stop)
                       else (if q < |frames| then |frames| else q) + 1
    decreases end - first
  {
    hide MapOne, TakeTables;
    stop := first;
    MapOneIs(frames, s, first, tables(first));
    var (s1, ok) := MapOne(frames, s, first, tables(first));
    assert Demand(first, first, tables) == 0 && Demand(first, first + 1, tables) == 1 + tables(first);
    if ok {
      stop := MapRangeFails(frames, s1, first + 1, end, tables);
      assert Demand(first, stop, tables) == 1 + tables(first) + Demand(first + 1, stop, tables);
      forall p | first < p < end
        ensures Stops(frames, s, first, p, tables) <==> Stops(frames, s1, first + 1, p, tables)
      {
        assert Demand(first, p + 1, tables) == 1 + tables(first) + Demand(first + 1, p + 1, tables);
      }
    }
  }

  /** One page: when it is had, and what either way costs. */
  lemma MapOneIs(frames: seq<nat>, s: State, page: nat, tables: nat)
    ensures var (s', ok) := MapOne(frames, s, page, tables);
            && (ok <==> page !in s.pages && s.next + 1 + tables <= |frames|)
            && (ok ==> s.next < |frames| && s' == State(s.next + 1 + tables, s.pages[page := frames[s.next]]))
            && (!ok ==> s'.pages == s.pages)
            && s'.next == if s.next + 1 + tables <= |frames| then s.next + 1 + tables
                          else (if s.next < |frames| then |frames| else s.next) + 1
  {
    if s.next < |frames| {
      TakeTablesExact(frames, s.next + 1, tables);
    }
  }

  /** The pages containing a byte of [addr, addr + size), or of the one byte at addr if size is 0. */
  function FirstPage(addr: nat): nat {
    addr / 4096
  }

  function EndPage(addr: nat, size: nat): (e: nat)
    ensures e > FirstPage(addr)
  {
    (addr + if size == 0 then 0 else size - 1) / 4096 + 1
  }

  /** Page p contains a byte of [addr, addr + size). */
  ghost predicate Overlaps(addr: nat, size: nat, p: nat) {
    exists a :: addr <= a < addr + size && a / 4096 == p
  }

  lemma PagesOverlap(addr: nat, size: nat, p: nat)
    requires size >= 1
    ensures FirstPage(addr) <= p < EndPage(addr, size) <==> Overlaps(addr, size, p)
  {
    if FirstPage(addr) <= p < EndPage(addr, size) {
      var a := if p == FirstPage(addr) then addr else 4096 * p;
      assert addr <= a < addr + size && a / 4096 == p;
    }
  }

  /** Page p was not mapped before the call and is after it. */
  predicate NewlyMapped(s: State, s': State, p: nat) {
    p in s'.pages && p !in s.pages
  }

  /**
   * alloc_pages, when it succeeds: the pages that become mapped are those containing a byte of
   * [addr, addr + size) exactly when size is at least 1; with size 0 it is the page of addr all the
   * same.  All other mappings stay.
   */
  lemma AllocPagesExact(frames: seq<nat>, s: State, addr: nat, size: nat, tables: nat -> nat)
    requires Distinct(frames)
    requires MapRange(frames, s, FirstPage(addr), EndPage(addr, size), tables).1
    ensures var s' := MapRange(frames, s, FirstPage(addr), EndPage(addr, size), tables).0;
            && ((forall p: nat :: NewlyMapped(s, s', p) <==> Overlaps(addr, size, p)) <==> size >= 1)
            && (size == 0 ==> forall p: nat :: NewlyMapped(s, s', p) <==> p == FirstPage(addr))
            && (forall p :: p in s.pages ==> p in s'.pages && s'.pages[p] == s.pages[p])
  {
    MapRangeMaps(frames, s, FirstPage(addr), EndPage(addr, size), tables);
    if size >= 1 {
      forall p: nat ensures FirstPage(addr) <= p < EndPage(addr, size) <==> Overlaps(addr, size, p) {
        PagesOverlap(addr, size, p);
      }
    } else {
      assert NewlyMapped(s, MapRange(frames, s, FirstPage(addr), EndPage(addr, size), tables).0, FirstPage(addr));
    }
  }

  function RemoveRange(pages: map<nat, nat>, first: nat, end: nat): map<nat, nat> {
    map p | p in pages && !(first <= p < end) :: pages[p]
  }

  /** free_pages over the range of a successful alloc_pages restores the mapping. */
  lemma FreeUndoesAlloc(frames: seq<nat>, s: State, addr: nat, size: nat, tables: nat -> nat)
    requires Distinct(frames)
    requires MapRange(frames, s, FirstPage(addr), EndPage(addr, size), tables).1
    ensures RemoveRange(MapRange(frames, s, FirstPage(addr), EndPage(addr, size), tables).0.pages,
                        FirstPage(addr), EndPage(addr, size)) == s.pages
  {
    MapRangeMaps(frames, s, FirstPage(addr), EndPage(addr, size), tables);
  }

  /** free_pages unmaps the pages containing a byte of [addr, addr + size) and changes nothing else. */
  lemma FreePagesExact(pages: map<nat, nat>, addr: nat, size: nat)
    requires size >= 1
    ensures var left := RemoveRange(pages, FirstPage(addr), EndPage(addr, size));
            && (forall p: nat :: p in left <==> p in pages && !Overlaps(addr, size, p))
            && (forall p :: p in left ==> left[p] == pages[p])
  {
    forall p: nat ensures FirstPage(addr) <= p < EndPage(addr, size) <==> Overlaps(addr, size, p) {
      PagesOverlap(addr, size, p);
    }
  }

  class Mapper {
    var pages: map<nat, nat>

    constructor ()
      ensures pages == map[]
    {
      pages := map[];
    }

    /** map_to of the paging library, with the page tables it finds missing as a parameter. */
    method MapTo(page: nat, frame: nat, allocator: BootInfoFrameAllocator, tables: nat) returns (ok: bool)
      modifies this, allocator.counter
      ensures var (next, taken) := TakeTables(UsableFrames(allocator.memoryMap), old(allocator.counter.count), tables);
              && allocator.counter.count == next
              && ok == (taken && page !in old(pages))
              && pages == if ok then old(pages)[page := frame] else old(pages)
    {
      var left := tables;
      while left > 0
        invariant pages == old(pages)
        invariant TakeTables(UsableFrames(allocator.memoryMap), old(allocator.counter.count), tables)
               == TakeTables(UsableFrames(allocator.memoryMap), allocator.counter.count, left)
      {
        var table := allocator.AllocateFrame();
        if table.None? {
          return false;
        }
        left := left - 1;
      }
      if page in pages {
        return false;
      }
      pages := pages[page := frame];
      return true;
    }

    method AllocPages(allocator: BootInfoFrameAllocator, addr: nat, size: nat, tables: nat -> nat) returns (ok: bool)
      modifies this, allocator.counter
      ensures (State(allocator.counter.count, pages), ok)
           == MapRange(UsableFrames(allocator.memoryMap), State(old(allocator.counter.count), old(pages)),
                       FirstPage(addr), EndPage(addr, size), tables)
    {
      var page, end := FirstPage(addr), EndPage(addr, size);
      ghost var frames := UsableFrames(allocator.memoryMap);
      ghost var target := MapRange(frames, State(allocator.counter.count, pages), page, end, tables);
      while page < end
        invariant page <= end
        invariant target == MapRange(frames, State(allocator.counter.count, pages), page, end, tables)
      {
        var frame := allocator.AllocateFrame();
        if frame.None? {
          return false;
        }
        var mapped := MapTo(page, frame.value, allocator, tables(page));
        if !mapped {
          return false;
        }
        page := page + 1;
      }
      return true;
    }

    /** Unmapping a page that is not mapped is not an error here. */
    method FreePages(addr: nat, size: nat)
      modifies this
      ensures pages == RemoveRange(old(pages), FirstPage(addr), EndPage(addr, size))
    {
      var page, end := FirstPage(addr), EndPage(addr, size);
      while page < end
        invariant FirstPage(addr) <= page <= end
        invariant pages == RemoveRange(old(pages), FirstPage(addr), page)
      {
        if page in pages {
          pages := pages - {page};
        }
        page := page + 1;
      }
    }
  }
}
