/** `FreeList::pop` with the mapping of large blocks (kernel/src/mm.rs): a fresh region of virtual addresses gets
    physical pages behind it, from the same free lists. Every such pop is a run of steps of `HeapMemories`. */
module KernelMaps {
  import opened Machine
  import opened MemoryMap
  import opened Ranges
  import opened Allocation
  import opened RangeSets
  import opened PageWalks
  import opened FreeLists
  import opened KernelHeaps
  import opened HeapMemories
  import opened HeapTracking
  import opened KernelAllocs

  /** The kernel's table, page by page: which page of the window is behind each page outside of it. */
  class KernelTable {
    var backing: map<int, int>

    constructor ()
      ensures backing == map[]
    {
      backing := map[];
    }
  }

  /** What a list of pages may write while pages are taken: its own pages, and pages of free memory. */
  ghost predicate PageWrites(blocks: seq<int>, free: seq<Range>, a: int) {
    InSome(blocks, 0x1000, a) || Covers(free, a - WINDOW_BASE)
  }

  ghost predicate SameElsewhere(w: Words, w': Words, blocks: seq<int>, free: seq<Range>) {
    forall a :: !PageWrites(blocks, free, a) ==> w'(a) == w(a)
  }

  /** The list and the free memory have only shrunk. */
  ghost predicate Shrunk(blocks: seq<int>, free: seq<Range>, blocks': seq<int>, free': seq<Range>) {
    && (forall b :: b in blocks' ==> b in blocks)
    && (forall x :: Covers(free', x) ==> Covers(free, x))
  }

  /** `a` is a page that could be taken: on the list, or wholly free memory. */
  ghost predicate InStock(blocks: seq<int>, free: seq<Range>, a: int) {
    a in blocks || (a % 0x1000 == 0 && forall y :: InBlock(a - WINDOW_BASE, 0x1000, y) ==> Covers(free, y))
  }

  /* ---- Following a pop as steps --------------------------------------------------------------------------- */

  /** The list object is the list of this core and class. */
  ghost predicate Held(m: Store, core: nat, class_: nat, list: FreeList)
    reads list
  {
    list.size == BlockSize(class_) && list.blocks == ListOf(m.h, core, class_) && list.head == HeadOf(m, core, class_)
  }

  /** `m` is the state that these objects are in. */
  ghost predicate Tracked(m: Store, core: nat, pages: FreeList, free: RangeSet, space: VirtualSpace)
    reads pages, pages.mem, free, free.ranges, space
  {
    && MemoryInv(m) && Agrees(m, pages.mem.words) && Held(m, core, 9, pages)
    && free.Valid() && m.h.free == free.Entries() && m.h.nextVirt == space.next
  }

  /** The first state of a run is the one that empty lists are in. */
  lemma StartIsTracked(m: Store, core: nat, pages: FreeList, free: RangeSet, space: VirtualSpace)
    requires pages.size == 0x1000 && pages.head == 0 && pages.blocks == [] && free.Valid() && space.next == VMEM_BASE
    requires m == Store(Heap(map[], map[], free.Entries(), VMEM_BASE), m.phys, map[], map[])
    ensures Tracked(m, core, pages, free, space) && MemoryRun([m])
  {
    hide MemoryInv;
    PageSize();
    EmptyMemory(m);
  }

  /** The allocator has gone on without giving up a block, and only this list has changed. */
  ghost predicate Onward(m: Store, m': Store, core: nat, class_: nat) {
    Leads(m, m') && LiveKept(m.h, m'.h) && OtherListsSame(m, m', core, class_) && m'.h.nextVirt == m.h.nextVirt
  }

  /** A block was handed out: it is live, has memory behind all of it, and is not behind a mapping. */
  ghost predicate Got(m': Store, x: int, class_: nat) {
    Live(m'.h, x, class_) && Whole(m', x, class_) && x !in m'.backing.Values
  }

  lemma OnwardNowhere(m: Store, core: nat, class_: nat)
    ensures Onward(m, m, core, class_)
  {
    LeadsNowhere(m);
  }

  lemma OnwardTrans(m: Store, m1: Store, m2: Store, core: nat, class_: nat)
    requires Onward(m, m1, core, class_) && Onward(m1, m2, core, class_)
    ensures Onward(m, m2, core, class_)
  {
    hide Leads;
    LeadsTrans(m, m1, m2);
  }

  /** A pop from a list, after a refill if need be, is followed by one or two steps. */
  lemma FollowPop(m: Store, core: nat, class_: nat, regions: seq<Range>, source: Source, x: u64, blocks': seq<int>, free': seq<Range>,
                  words: Words, refilled: Moment, words': Words, head': u64) returns (m': Store)
    requires MemoryInv(m) && Agrees(m, words) && class_ < CLASSES && BlockSize(class_) <= U64_MAX && AllValid(m.h.free) && AllValid(regions)
    requires !source.FromVirtual?
    requires PopPost(BlockSize(class_), ListOf(m.h, core, class_), m.h.free, m.h.nextVirt, regions, source, x, blocks', free', m.h.nextVirt)
    requires Represents(words', head', BlockSize(class_), blocks')
    requires source.FromList? ==> TouchesOnly(words, words', ListOf(m.h, core, class_), BlockSize(class_))
    requires source.FromPage? ==>
      && Represents(refilled.words, refilled.head, BlockSize(class_), [x] + blocks')
      && (forall a :: !InBlock(WINDOW_BASE + source.page, 0x1000, a) ==> refilled.words(a) == words(a))
      && TouchesOnly(refilled.words, words', [x] + blocks', BlockSize(class_))
    ensures MemoryInv(m') && Onward(m, m', core, class_) && Agrees(m', words') && Got(m', x, class_)
    ensures ListOf(m'.h, core, class_) == blocks' && HeadOf(m', core, class_) == head'
    ensures m'.h.free == free' && m'.h.nextVirt == m.h.nextVirt && m'.backing == m.backing
    ensures x !in LivePages(m.h) && LivePages(m'.h) == LivePages(m.h) + if class_ == 9 then {x} else {}
  {
    hide MemoryInv, Represents, TouchesOnly, BlockSize, Agrees, Leads, Whole, AllocPost, PageBlocks, InBlock, HeadOf, ListOf, LiveKept,
         LivePages;
    assert ([x] + blocks')[1..] == blocks' && ([x] + blocks')[0] == x;
    if source.FromList? {
      m' := TrackPop(m, core, class_, words, words', head');
    } else {
      var m1 := TrackRefill(m, core, class_, source.page, regions, free', words, refilled.words, refilled.head);
      m' := TrackPop(m1, core, class_, refilled.words, words', head');
      OnwardTrans(m, m1, m', core, class_);
    }
  }

  lemma PageSize()
    ensures BlockSize(9) == 0x1000
  {
    Pow2Values();
  }

  /** What a list is in memory makes it valid. */
  lemma HeldIsValid(m: Store, core: nat, class_: nat, list: FreeList)
    requires MemoryInv(m) && Agrees(m, list.mem.words) && Held(m, core, class_, list) && class_ < CLASSES
    ensures list.Valid()
  {
    hide Inv, Backed, AllWhole, AllRepresented, Agrees, Represents, BlockSize, BlocksDisjoint;
    ClassSizes(class_);
    RepresentedInWords(m, list.mem.words, core, class_);
    ListsAreDisjoint(m.h, core, class_, 0);
  }

  /** The memory behind pages outside of the window: each has a page of the window of its own, which is neither
      on the list of pages nor free. */
  ghost predicate PagesApart(backing: map<int, int>, blocks: seq<int>, free: seq<Range>) {
    && (forall v :: v in backing ==> WINDOW_BASE <= backing[v] && backing[v] + 0x1000 <= WINDOW_BASE + WINDOW_SIZE
                                     && backing[v] % 0x1000 == 0 && backing[v] !in blocks)
    && (forall v, y :: v in backing && InBlock(backing[v] - WINDOW_BASE, 0x1000, y) ==> !Covers(free, y))
    && (forall v, u :: v in backing && u in backing && v != u ==> backing[v] != backing[u])
  }

  lemma BackedPagesApart(m: Store, core: nat)
    requires Inv(m.h) && Backed(m)
    ensures PagesApart(m.backing, ListOf(m.h, core, 9), m.h.free)
  {
    hide Inv, Covers;
    InvLists(m.h);
    ListedHomes(m.h, core, 9);
    forall v | v in m.backing
      ensures WINDOW_BASE <= m.backing[v] && m.backing[v] + 0x1000 <= WINDOW_BASE + WINDOW_SIZE && m.backing[v] % 0x1000 == 0
      ensures m.backing[v] !in ListOf(m.h, core, 9)
      ensures forall y :: InBlock(m.backing[v] - WINDOW_BASE, 0x1000, y) ==> !Covers(m.h.free, y)
    {
      PagesAreInWindow(m.h, m.backing[v]);
    }
  }

  /* ---- Taking pages and mapping them ---------------------------------------------------------------------- */

  /** `alloc_phys` of one page. If `m` is the state before, then `m'` is one that steps of the allocator lead to. */
  method TakeOnePage(pages: FreeList, free: RangeSet, regions: seq<Range>, space: VirtualSpace, ghost core: nat, ghost m: Store)
    returns (page: Option<u64>, ghost m': Store)
    requires pages.Valid() && pages.size == 0x1000 && free.Valid() && AllValid(regions)
    modifies pages, pages.mem, free, free.ranges, space
    ensures free.Valid()
    ensures page.None? <==> PopFails(0x1000, old(pages.blocks), old(free.Entries()), 0, regions)
    ensures page.Some? ==> pages.Valid() && space.next == old(space.next)
    ensures page.Some? ==> Shrunk(old(pages.blocks), old(free.Entries()), pages.blocks, free.Entries())
    ensures page.Some? ==> SameElsewhere(old(pages.mem.words), pages.mem.words, old(pages.blocks), old(free.Entries()))
    ensures page.Some? ==> InStock(old(pages.blocks), old(free.Entries()), page.value)
    ensures page.Some? && old(Tracked(m, core, pages, free, space)) ==>
      && Tracked(m', core, pages, free, space) && Onward(m, m', core, 9) && m'.backing == m.backing && Got(m', page.value, 9)
      && |LivePages(m'.h)| == |LivePages(m.h)| + 1
  {
    hide IsPow2, Represents, BlocksDisjoint, AllocPost, Shrunk, SameElsewhere, MayWrite, CannotServe, BeyondWindow, InStock;
    hide MemoryInv, Agrees, BlockSize, ListOf, HeadOf, Onward, Got, TouchesOnly, LivePages;
    PageAlign();
    PageSize();
    ghost var w, b, f, followed := pages.mem.words, pages.blocks, free.Entries(), Tracked(m, core, pages, free, space);
    ghost var source, refilled;
    page, source, refilled := PopOrReserve(pages, free, regions, space);
    m' := m;
    if page.Some? {
      OnePageTaken(b, f, regions, source, page.value, pages.blocks, free.Entries(), w, pages.mem.words);
      if followed {
        AllowedTouches(source, w, pages.mem.words, b, 0x1000);
        m' := FollowPop(m, core, 9, regions, source, page.value, pages.blocks, free.Entries(), w, refilled, pages.mem.words, pages.head);
      }
    }
  }

  lemma AllowedTouches(source: Source, w: Words, w': Words, blocks: seq<int>, size: u64)
    requires forall a :: !MayWrite(source, blocks, size, a) ==> w'(a) == w(a)
    ensures source.FromList? ==> TouchesOnly(w, w', blocks, size)
  {
  }

  lemma OnePageTaken(blocks: seq<int>, free: seq<Range>, regions: seq<Range>, source: Source, x: u64, blocks': seq<int>, free': seq<Range>,
                     w: Words, w': Words)
    requires AllValid(free) && AllValid(regions)
    requires exists next :: PopPost(0x1000, blocks, free, next, regions, source, x, blocks', free', next)
    requires forall a :: !MayWrite(source, blocks, 0x1000, a) ==> w'(a) == w(a)
    ensures Shrunk(blocks, free, blocks', free') && SameElsewhere(w, w', blocks, free)
    ensures InStock(blocks, free, x)
  {
    hide AllocPost, Covers;
    match source
    case FromList =>
      assert blocks == [x] + blocks';
    case FromPage(page) =>
      RefillCarves(free, free', page, regions);
      var cut := PageBlocks(WINDOW_BASE + page, 0x1000, PerPage(0x1000));
      assert PerPage(0x1000) == 1 && |cut| == 1 && cut[0] == WINDOW_BASE + page;
      assert ([x] + blocks')[0] == x && |blocks'| == 0;
    case FromVirtual => assert false;
  }

  /** The pages for missing tables. */
  method TakePages(pages: FreeList, free: RangeSet, regions: seq<Range>, space: VirtualSpace, n: nat, ghost core: nat, ghost m: Store)
    returns (ok: bool, ghost asked: seq<Range>, ghost m': Store)
    requires pages.Valid() && pages.size == 0x1000 && free.Valid() && AllValid(regions)
    modifies pages, pages.mem, free, free.ranges, space
    ensures AllValid(asked) && (!ok ==> PopFails(0x1000, [], asked, 0, regions))
    ensures ok ==> pages.Valid() && free.Valid() && space.next == old(space.next)
    ensures ok ==> Shrunk(old(pages.blocks), old(free.Entries()), pages.blocks, free.Entries())
    ensures ok ==> SameElsewhere(old(pages.mem.words), pages.mem.words, old(pages.blocks), old(free.Entries()))
    ensures ok && old(Tracked(m, core, pages, free, space)) ==>
      && Tracked(m', core, pages, free, space) && Onward(m, m', core, 9) && m'.backing == m.backing
      && |LivePages(m'.h)| == |LivePages(m.h)| + n
  {
    hide Represents, BlocksDisjoint, SameElsewhere, Shrunk, CannotServe, BeyondWindow, InStock;
    hide MemoryInv, Agrees, BlockSize, Held, Onward, Got, LivePages;
    ghost var w, b, f, followed := pages.mem.words, pages.blocks, free.Entries(), Tracked(m, core, pages, free, space);
    asked, m' := f, m;
    TakenNothing(w, b, f);
    OnwardNowhere(m, core, 9);
    for i := 0 to n
      invariant pages.Valid() && free.Valid() && space.next == old(space.next) && AllValid(asked)
      invariant Shrunk(b, f, pages.blocks, free.Entries()) && SameElsewhere(w, pages.mem.words, b, f)
      invariant followed ==> Tracked(m', core, pages, free, space) && Onward(m, m', core, 9) && m'.backing == m.backing
      invariant followed ==> |LivePages(m'.h)| == |LivePages(m.h)| + i
    {
      asked := free.Entries();
      ghost var w1, b1, m1 := pages.mem.words, pages.blocks, m';
      var taken;
      taken, m' := TakeOnePage(pages, free, regions, space, core, m1);
      if taken.None? {
        return false, asked, m';
      }
      if followed { OnwardTrans(m, m1, m', core, 9); }
      TakenMore(w, w1, pages.mem.words, b, f, b1, asked, pages.blocks, free.Entries());
    }
    ok := true;
  }

  /** One page of `map`: a page is taken to be put behind `v`, the table is looked at, `n` pages for missing
      tables are taken, and the entry is written. */
  method MapOnePage(pages: FreeList, free: RangeSet, regions: seq<Range>, space: VirtualSpace, table: KernelTable, v: u64, n: nat,
                    ghost core: nat, ghost m: Store, ghost block: int)
    returns (ok: bool, ghost asked: seq<Range>, ghost m': Store)
    requires pages.Valid() && pages.size == 0x1000 && free.Valid() && AllValid(regions)
    modifies pages, pages.mem, free, free.ranges, space, table
    ensures AllValid(asked)
    ensures TableRefuses(old(table.backing), v) ==> !ok
    ensures !ok ==> TableRefuses(old(table.backing), v) || PopFails(0x1000, [], asked, 0, regions)
    ensures ok ==> pages.Valid() && free.Valid() && space.next == old(space.next)
    ensures ok ==> v !in old(table.backing) && v in table.backing && table.backing == old(table.backing)[v := table.backing[v]]
    ensures ok ==> Shrunk(old(pages.blocks), old(free.Entries()), pages.blocks, free.Entries())
    ensures ok ==> SameElsewhere(old(pages.mem.words), pages.mem.words, old(pages.blocks), old(free.Entries()))
    ensures ok ==> InStock(old(pages.blocks), old(free.Entries()), table.backing[v])
    ensures ok && old(Tracked(m, core, pages, free, space)) && m.backing == old(table.backing) && Unbacked(m, block, v) ==>
      && Tracked(m', core, pages, free, space) && Onward(m, m', core, 9) && m'.backing == table.backing
      && |LivePages(m'.h)| == |LivePages(m.h)| + (1 + n)
  {
    hide Represents, BlocksDisjoint, SameElsewhere, Shrunk, CannotServe, BeyondWindow, Canonical, InWindow, InStock;
    hide MemoryInv, Agrees, BlockSize, ListOf, HeadOf, Onward, Got, Unbacked, LivePages;
    ghost var w, b, f := pages.mem.words, pages.blocks, free.Entries();
    ghost var followed := Tracked(m, core, pages, free, space) && m.backing == table.backing && Unbacked(m, block, v);
    asked := f;
    var page;
    ghost var m1;
    page, m1 := TakeOnePage(pages, free, regions, space, core, m);
    if page.None? || v in table.backing || InWindow(v) || !Canonical(v) {
      return false, asked, m1;
    }
    ghost var w1, b1, f1 := pages.mem.words, pages.blocks, free.Entries();
    ok, asked, m' := TakePages(pages, free, regions, space, n, core, m1);
    if ok {
      TakenMore(w, w1, pages.mem.words, b, f, b1, f1, pages.blocks, free.Entries());
      table.backing := table.backing[v := page.value];
      if followed {
        m' := FollowMapping(m, m1, m', core, block, v, page.value, pages.mem.words);
      }
    }
  }

  /** The page that was taken for `v` is put behind it. */
  lemma FollowMapping(m: Store, m1: Store, m2: Store, core: nat, block: int, v: u64, page: u64, words: Words) returns (m': Store)
    requires Unbacked(m, block, v) && Onward(m, m1, core, 9) && m1.backing == m.backing && Got(m1, page, 9)
    requires Onward(m1, m2, core, 9) && m2.backing == m1.backing && MemoryInv(m2) && Agrees(m2, words)
    ensures MemoryInv(m') && Agrees(m', words) && Onward(m, m', core, 9) && m' == m2.(backing := m.backing[v := page])
    ensures HeadOf(m', core, 9) == HeadOf(m2, core, 9)
    ensures LivePages(m'.h) == LivePages(m2.h)
  {
    hide MemoryInv, Agrees, BlockSize, Leads, OtherListsSame, Whole;
    OnwardTrans(m, m1, m2, core, 9);
    StillUnbacked(m, m2, block, v);
    assert Live(m2.h, page, 9);
    m' := TrackBack(m2, block, v, page, words);
    SameLists(m2, m', core, 9);
    assert Onward(m2, m', core, 9);
    OnwardTrans(m, m2, m', core, 9);
  }

  lemma StillUnbacked(m: Store, m': Store, block: int, v: int)
    requires Unbacked(m, block, v) && LiveKept(m.h, m'.h) && m'.backing == m.backing
    ensures Unbacked(m', block, v)
  {
    hide BlockSize;
    assert Live(m.h, block, m.h.blocks[block].class_);
  }

  lemma SameLists(m: Store, m': Store, core: nat, class_: nat)
    requires m'.h == m.h && m'.heads == m.heads
    ensures OtherListsSame(m, m', core, class_)
  {
  }

  /** `map` of a region by the kernel; `tables` says how many tables are missing for a page. Fails where the
      source does; `asked` is the free memory when a page was asked for last. */
  method MapRegion(pages: FreeList, free: RangeSet, regions: seq<Range>, space: VirtualSpace, table: KernelTable,
                   at: u64, size: u64, tables: int -> nat, ghost core: nat, ghost m: Store, ghost class_: nat)
    returns (ok: bool, ghost asked: seq<Range>, ghost m': Store)
    requires pages.Valid() && pages.size == 0x1000 && free.Valid() && AllValid(regions)
    requires at % 0x1000 == 0 && size % 0x1000 == 0 && at + size <= U64_MAX
    modifies pages, pages.mem, free, free.ranges, space, table
    ensures AllValid(asked)
    ensures ok ==> pages.Valid() && free.Valid() && space.next == old(space.next)
    ensures ok ==> Extended(old(table.backing), table.backing, at, size)
    ensures ok ==> SameElsewhere(old(pages.mem.words), pages.mem.words, old(pages.blocks), old(free.Entries()))
    ensures RegionRefused(old(table.backing), at, size) ==> !ok
    ensures !ok ==> RegionRefused(old(table.backing), at, size) || PopFails(0x1000, [], asked, 0, regions)
    ensures ok ==> NewFromStock(old(table.backing), table.backing, old(pages.blocks), old(free.Entries()))
    ensures ok && old(Tracked(m, core, pages, free, space)) && m.backing == old(table.backing) && IsRegion(m, at, size, class_) ==>
      && Tracked(m', core, pages, free, space) && Onward(m, m', core, 9) && m'.backing == table.backing
      && PagesApart(table.backing, pages.blocks, free.Entries())
      && |LivePages(m'.h)| == |LivePages(m.h)| + PagesFor(tables, at, size / 0x1000)
  {
    hide Represents, BlocksDisjoint, SameElsewhere, Shrunk, CannotServe, BeyondWindow, Extended, RegionRefused, TableRefuses;
    hide Tracked, BlockSize, Onward, InStock, PagesApart, IsRegion, NewFromStock, Unbacked, LivePages, PagesFor;
    ghost var w, b, f, before := pages.mem.words, pages.blocks, free.Entries(), table.backing;
    ghost var followed := Tracked(m, core, pages, free, space) && m.backing == table.backing && IsRegion(m, at, size, class_);
    asked, m' := f, m;
    TakenNothing(w, b, f);
    NoPagesYet(table.backing, at);
    PagesForNone(tables, at);
    NothingNew(table.backing, b, f);
    OnwardNowhere(m, core, 9);
    var v: int := at;
    while v < at + size
      invariant at <= v <= at + size && v % 0x1000 == 0 && AllValid(asked)
      invariant pages.Valid() && free.Valid() && space.next == old(space.next)
      invariant Shrunk(b, f, pages.blocks, free.Entries()) && SameElsewhere(w, pages.mem.words, b, f)
      invariant Extended(before, table.backing, at, v - at) && !RegionRefused(before, at, v - at)
      invariant NewFromStock(before, table.backing, b, f)
      invariant followed ==> Tracked(m', core, pages, free, space) && Onward(m, m', core, 9) && m'.backing == table.backing
      invariant followed ==> |LivePages(m'.h)| == |LivePages(m.h)| + PagesFor(tables, at, (v - at) / 0x1000)
      decreases at + size - v
    {
      ghost var w1, b1, f1, t1, m1 := pages.mem.words, pages.blocks, free.Entries(), table.backing, m';
      NextPage(before, t1, at, size, v);
      PagesForNext(tables, at, v);
      if followed { NextUnbacked(m, m1, core, at, size, class_, v); }
      ok, asked, m' := MapOnePage(pages, free, regions, space, table, v, tables(v), core, m1, at);
      if !ok {
        return;
      }
      if followed { OnwardTrans(m, m1, m', core, 9); }
      StockGrows(before, t1, table.backing, b, f, b1, f1, v);
      TakenMore(w, w1, pages.mem.words, b, f, b1, f1, pages.blocks, free.Entries());
      ExtendedNext(before, t1, table.backing, at, v);
      v := v + 0x1000;
    }
    ok := true;
    if followed { TrackedPagesApart(m', core, pages, free, space); }
  }

  lemma TrackedPagesApart(m: Store, core: nat, pages: FreeList, free: RangeSet, space: VirtualSpace)
    requires free.Valid() && Tracked(m, core, pages, free, space)
    ensures PagesApart(m.backing, pages.blocks, free.Entries())
  {
    hide Inv, Backed, AllRepresented, AllWhole, PagesApart, BlockSize, Agrees, HeadOf;
    BackedPagesApart(m, core);
  }

  /** The pages that mapping the first `k` pages of a region takes: one to put behind each, and the missing tables. */
  function PagesFor(tables: int -> nat, at: int, k: nat): nat {
    if k == 0 then 0 else PagesFor(tables, at, k - 1) + (1 + tables(at + (k - 1) * 0x1000))
  }

  lemma PagesForNone(tables: int -> nat, at: int)
    ensures PagesFor(tables, at, (at - at) / 0x1000) == 0
  {
  }

  lemma PagesForNext(tables: int -> nat, at: int, v: int)
    requires at % 0x1000 == 0 && v % 0x1000 == 0 && at <= v
    ensures PagesFor(tables, at, (v + 0x1000 - at) / 0x1000) == PagesFor(tables, at, (v - at) / 0x1000) + (1 + tables(v))
  {
    var k := (v - at) / 0x1000;
    DivModUnique(v - at, v / 0x1000 - at / 0x1000, 0, 0x1000);
    DivModUnique(v + 0x1000 - at, k + 1, 0, 0x1000);
    assert at + k * 0x1000 == v;
  }

  /** The region is a live block of this class. */
  ghost predicate IsRegion(m: Store, at: int, size: int, class_: nat) {
    Live(m.h, at, class_) && size == BlockSize(class_) && size > 0x1000
  }

  /** The next page of the region is a page of its block that has nothing behind it. */
  lemma NextUnbacked(m: Store, m1: Store, core: nat, at: int, size: int, class_: nat, v: int)
    requires IsRegion(m, at, size, class_) && Onward(m, m1, core, 9) && at <= v < at + size && v % 0x1000 == 0 && (at + size) % 0x1000 == 0
    ensures v !in m1.backing ==> Unbacked(m1, at, v)
  {
    hide BlockSize, Leads, OtherListsSame;
    assert Live(m1.h, at, class_);
    assert v + 0x1000 <= at + size;
  }

  /** Pages that were put behind addresses came from the list or from free memory. */
  ghost predicate NewFromStock(backing: map<int, int>, backing': map<int, int>, blocks: seq<int>, free: seq<Range>) {
    forall v :: v in backing' && v !in backing ==> InStock(blocks, free, backing'[v])
  }

  lemma NothingNew(backing: map<int, int>, blocks: seq<int>, free: seq<Range>)
    ensures NewFromStock(backing, backing, blocks, free)
  {
  }

  lemma StockGrows(backing: map<int, int>, t: map<int, int>, t': map<int, int>, b: seq<int>, f: seq<Range>, b1: seq<int>, f1: seq<Range>, v: int)
    requires NewFromStock(backing, t, b, f) && Shrunk(b, f, b1, f1) && v in t' && t' == t[v := t'[v]] && InStock(b1, f1, t'[v])
    ensures NewFromStock(backing, t', b, f)
  {
    hide Covers, InBlock;
    assert InStock(b, f, t'[v]);
  }

  /** The pages of the region, and no others, have been added. */
  ghost predicate Extended(backing: map<int, int>, backing': map<int, int>, at: int, size: int) {
    && (forall v :: v in backing' <==> v in backing || PageOfRegion(at, size, v))
    && (forall v :: v in backing ==> v in backing' && backing'[v] == backing[v])
  }

  lemma NoPagesYet(backing: map<int, int>, at: int)
    ensures Extended(backing, backing, at, 0) && !RegionRefused(backing, at, 0)
  {
  }

  /** The next page is refused now exactly when it was in the beginning, and then the region is. */
  lemma NextPage(backing: map<int, int>, backing': map<int, int>, at: int, size: int, v: int)
    requires v % 0x1000 == 0 && at <= v < at + size && Extended(backing, backing', at, v - at) && !RegionRefused(backing, at, v - at)
    ensures TableRefuses(backing', v) <==> TableRefuses(backing, v)
    ensures TableRefuses(backing, v) ==> RegionRefused(backing, at, size)
    ensures !TableRefuses(backing, v) ==> !RegionRefused(backing, at, v + 0x1000 - at) && (v + 0x1000) % 0x1000 == 0
    ensures (at + size) % 0x1000 == 0 ==> v + 0x1000 <= at + size
  {
    hide Canonical, InWindow;
    ModAddMultiple(v, 1, 0x1000);
    var now, next := v - at, v + 0x1000 - at;
    assert !PageOfRegion(at, now, v) && PageOfRegion(at, size, v);
    forall u | PageOfRegion(at, next, u) ensures PageOfRegion(at, now, u) || u == v {
      OnePageApart(u, v);
    }
  }

  lemma OnePageApart(u: int, v: int)
    requires u % 0x1000 == 0 && v % 0x1000 == 0
    ensures v <= u < v + 0x1000 ==> u == v
  {
  }

  lemma ExtendedNext(backing: map<int, int>, t: map<int, int>, t': map<int, int>, at: int, v: int)
    requires v % 0x1000 == 0 && at <= v && Extended(backing, t, at, v - at) && v !in t && v in t' && t' == t[v := t'[v]]
    ensures Extended(backing, t', at, v + 0x1000 - at)
  {
    var now, next := v - at, v + 0x1000 - at;
    forall u ensures PageOfRegion(at, next, u) <==> PageOfRegion(at, now, u) || u == v {
      if u % 0x1000 == 0 { OnePageApart(u, v); }
    }
  }

  lemma TakenNothing(w: Words, blocks: seq<int>, free: seq<Range>)
    ensures Shrunk(blocks, free, blocks, free) && SameElsewhere(w, w, blocks, free)
  {
  }

  lemma InsideBefore(blocks: seq<int>, blocks': seq<int>, a: int)
    requires forall e :: e in blocks' ==> e in blocks
    ensures InSome(blocks', 0x1000, a) ==> InSome(blocks, 0x1000, a)
  {
    if InSome(blocks', 0x1000, a) {
      var i :| 0 <= i < |blocks'| && InBlock(blocks'[i], 0x1000, a);
      var e := blocks'[i];
      assert e in blocks';
      var j :| 0 <= j < |blocks| && blocks[j] == e;
      assert InBlock(blocks[j], 0x1000, a);
    }
  }

  lemma TakenMore(w: Words, w1: Words, w2: Words, b: seq<int>, f: seq<Range>, b1: seq<int>, f1: seq<Range>, b2: seq<int>, f2: seq<Range>)
    requires Shrunk(b, f, b1, f1) && SameElsewhere(w, w1, b, f) && Shrunk(b1, f1, b2, f2) && SameElsewhere(w1, w2, b1, f1)
    ensures Shrunk(b, f, b2, f2) && SameElsewhere(w, w2, b, f)
  {
    hide Covers;
    forall a | !PageWrites(b, f, a) ensures w2(a) == w(a) {
      InsideBefore(b, b1, a);
      assert !PageWrites(b1, f1, a);
    }
  }

  /** The whole of `pop`. A large block comes with memory behind every page of it. It fails, where the source
      panics, if the list is empty and virtual addresses or pages have run out, or the region is refused. If `m` is
      the state before, then steps of the allocator lead to the state after, in which the block is handed out. */
  method Pop(list: FreeList, pages: FreeList, free: RangeSet, regions: seq<Range>, space: VirtualSpace, table: KernelTable,
             tables: int -> nat, ghost core: nat, ghost class_: nat, ghost m: Store)
    returns (x: Option<u64>, ghost source: Source, ghost asked: seq<Range>, ghost m': Store)
    requires list.Valid() && IsPow2(list.size) && free.Valid() && AllValid(regions)
    requires pages.Valid() && pages.size == 0x1000 && pages.mem == list.mem && space.next % 0x1000 == 0
    modifies list, pages, list.mem, free, free.ranges, space, table
    ensures AllValid(asked)
    ensures PopFails(list.size, old(list.blocks), old(free.Entries()), old(space.next), regions) ==> x.None?
    ensures old(list.blocks) == [] && list.size > 0x1000 && RegionRefused(old(table.backing), old(space.next), list.size) ==> x.None?
    ensures x.None? ==>
      || PopFails(list.size, old(list.blocks), old(free.Entries()), old(space.next), regions)
      || (old(list.blocks) == [] && list.size > 0x1000
          && (RegionRefused(old(table.backing), old(space.next), list.size) || PopFails(0x1000, [], asked, 0, regions)))
    ensures x.Some? ==> list.Valid() && free.Valid()
    ensures x.Some? && !source.FromVirtual? ==>
      && table.backing == old(table.backing)
      && PopPost(list.size, old(list.blocks), old(free.Entries()), old(space.next), regions, source, x.value,
                 list.blocks, free.Entries(), space.next)
      && forall a :: !MayWrite(source, old(list.blocks), list.size, a) ==> list.mem.words(a) == old(list.mem.words)(a)
    ensures x.Some? && source.FromVirtual? ==>
      && old(list.blocks) == list.blocks == [] && list.size > 0x1000
      && x.value == old(space.next) && space.next == x.value + (GUARD + list.size)
      && Extended(old(table.backing), table.backing, x.value, list.size)
      && NewFromStock(old(table.backing), table.backing, old(pages.blocks), old(free.Entries()))
      && SameElsewhere(old(list.mem.words), list.mem.words, old(pages.blocks), old(free.Entries()))
    ensures x.Some? && old(Ready(m, core, class_, list, pages, free, space, table)) ==>
      && Ready(m', core, class_, list, pages, free, space, table) && pages.Valid()
      && Leads(m, m') && LiveKept(m.h, m'.h) && Got(m', x.value, class_)
      && PagesApart(table.backing, pages.blocks, free.Entries())
      && (source.FromVirtual? ==> |LivePages(m'.h)| == |LivePages(m.h)| + PagesFor(tables, x.value, list.size / 0x1000))
  {
    hide Represents, BlocksDisjoint, SameElsewhere, CannotServe, BeyondWindow, IsPow2, AllocPost, MayWrite, RegionRefused, Extended;
    hide MemoryInv, Agrees, BlockSize, ListOf, HeadOf, Leads, LiveKept, Got, Onward, PagesApart, NewFromStock, IsRegion, TouchesOnly,
         LivePages, PagesFor;
    asked, m' := free.Entries(), m;
    PageSizeMultiple(list.size);
    HeadIsZero(list);
    var large := list.head == 0 && list.size > 0x1000;
    ghost var ready := Ready(m, core, class_, list, pages, free, space, table);
    ghost var w, b, before := list.mem.words, list.blocks, table.backing;
    ghost var refilled;
    x, source, refilled := PopOrReserve(list, free, regions, space);
    if x.Some? && large {
      HeadIsZero(list);
      ghost var m1 := m;
      if ready && !RegionRefused(before, x.value, list.size) {
        m1 := FollowReserve(m, core, class_, before, w);
      }
      var ok;
      ok, asked, m' := MapRegion(pages, free, regions, space, table, x.value, list.size, tables, core, m1, class_);
      EmptyRepresented(list.mem.words, list.size);
      if !ok {
        x := None;
      } else if ready {
        LargeFollowed(m, m1, m', core, class_, x.value);
        RegionIsWhole(m', before, x.value, class_);
      }
    } else if x.Some? && ready {
      AllowedTouches(source, w, list.mem.words, b, list.size);
      m' := FollowPop(m, core, class_, regions, source, x.value, list.blocks, free.Entries(), w, refilled, list.mem.words, list.head);
      OthersFollowed(m, m', core, class_);
    }
    if x.Some? && ready {
      HeldIsValid(m', core, 9, pages);
      TrackedPagesApart(m', core, pages, free, space);
    }
  }

  /** `m` is the state that the objects are in, and `list` is the list of this core and class. */
  ghost predicate Ready(m: Store, core: nat, class_: nat, list: FreeList, pages: FreeList, free: RangeSet, space: VirtualSpace, table: KernelTable)
    reads list, pages, pages.mem, free, free.ranges, space, table
  {
    && Tracked(m, core, pages, free, space) && m.backing == table.backing
    && class_ < CLASSES && Held(m, core, class_, list) && (class_ == 9 <==> list == pages)
  }

  /** After a pop of another class the list of pages is where it was. */
  lemma OthersFollowed(m: Store, m': Store, core: nat, class_: nat)
    requires Onward(m, m', core, class_)
    ensures Leads(m, m') && LiveKept(m.h, m'.h)
    ensures class_ != 9 ==> ListOf(m'.h, core, 9) == ListOf(m.h, core, 9) && HeadOf(m', core, 9) == HeadOf(m, core, 9)
  {
    hide Leads, LiveKept, ListOf, HeadOf;
  }

  /** A region that the table does not refuse becomes a block. */
  lemma FollowReserve(m: Store, core: nat, class_: nat, backing: map<int, int>, words: Words) returns (m': Store)
    requires MemoryInv(m) && class_ < CLASSES && ListOf(m.h, core, class_) == [] && BlockSize(class_) > 0x1000 && Agrees(m, words)
    requires m.h.nextVirt + (GUARD + BlockSize(class_)) <= U64_MAX && !RegionRefused(backing, m.h.nextVirt, BlockSize(class_))
    ensures MemoryInv(m') && Leads(m, m') && LiveKept(m.h, m'.h) && Agrees(m', words) && IsRegion(m', m.h.nextVirt, BlockSize(class_), class_)
    ensures m'.h.lists == m.h.lists && m'.heads == m.heads && m'.backing == m.backing && m'.h.free == m.h.free
    ensures m'.h.nextVirt == m.h.nextVirt + (GUARD + BlockSize(class_)) && class_ != 9
    ensures ListOf(m'.h, core, 9) == ListOf(m.h, core, 9) && HeadOf(m', core, 9) == HeadOf(m, core, 9)
    ensures LivePages(m'.h) == LivePages(m.h)
  {
    hide LivePages, MemoryInv, BlockSize, Agrees, Leads, MapAccepts, RegionRefused;
    PageSize();
    NotRefusedIsAccepted(backing, m.h.nextVirt, BlockSize(class_));
    m' := TrackVirtual(m, core, class_, words);
  }

  /** A new region, and then pages that are taken and put behind it. */
  lemma LargeFollowed(m: Store, m1: Store, m': Store, core: nat, class_: nat, x: int)
    requires Leads(m, m1) && LiveKept(m.h, m1.h) && m1.h.lists == m.h.lists && m1.heads == m.heads && IsRegion(m1, x, BlockSize(class_), class_)
    requires Onward(m1, m', core, 9) && class_ != 9
    ensures Leads(m, m') && LiveKept(m.h, m'.h) && Live(m'.h, x, class_)
    ensures ListOf(m'.h, core, class_) == ListOf(m.h, core, class_) && HeadOf(m', core, class_) == HeadOf(m, core, class_)
  {
    hide Leads, BlockSize;
    LeadsTrans(m, m1, m');
  }

  lemma NotRefusedIsAccepted(backing: map<int, int>, at: int, size: int)
    requires !RegionRefused(backing, at, size)
    ensures MapAccepts(at, size)
  {
    hide Canonical, InWindow;
  }

  /** A region all of whose pages are mapped is whole, and it is never behind a mapping itself. */
  lemma RegionIsWhole(m: Store, before: map<int, int>, at: int, class_: nat)
    requires MemoryInv(m) && Live(m.h, at, class_) && BlockSize(class_) > 0x1000 && Extended(before, m.backing, at, BlockSize(class_))
    requires at % 0x1000 == 0
    ensures Got(m, at, class_)
  {
    hide Inv, AllRepresented, AllWhole, BlockSize;
    PageSize();
    forall x | InBlock(at, BlockSize(class_), x) ensures Mapped(m, x) {
      assert PageOfRegion(at, BlockSize(class_), x - x % 0x1000);
    }
    forall v | v in m.backing ensures m.backing[v] != at {}
  }

  lemma EmptyRepresented(w: Words, size: int)
    ensures Represents(w, 0, size, []) && BlocksDisjoint([], size)
  {
  }
}
