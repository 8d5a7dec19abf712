/** The kernel's global allocator: per-core free lists of power-of-two size classes, refilled from
    physical pages or guarded virtual regions (kernel/src/core_locals.rs, kernel/src/mm.rs), and
    what holds over every run of allocations and matching frees. */
module KernelHeaps {
  import opened Machine
  import opened MemoryMap
  import opened Ranges
  import opened Allocation
  import opened RangeSets
  import opened PageEdits
  import opened FreeLists
  import PageWalks
  import Loading
  import KernelSpace

  /* ---- Size classes ------------------------------------------------------------------------- */

  const CLASSES := 61

  /** `64 - leading_zeros(x)`. */
  function BitLength(x: nat): nat {
    if x == 0 then 0 else 1 + BitLength(x / 2)
  }

  /** The binary logarithm, rounded up, that `free_list` computes for a request. */
  function IndexOf(size: nat): nat { BitLength(Max(size, 8) - 1) }

  /** The alignment that the blocks of a list are known to have. */
  function ListAlign(index: nat): nat { Pow2(Min(index, 12)) }

  lemma {:induction false} BitLengthIs(x: nat)
    ensures x < Pow2(BitLength(x))
    ensures x > 0 ==> Pow2(BitLength(x) - 1) <= x
  {
    if x > 0 {
      BitLengthIs(x / 2);
      assert x / 2 > 0 ==> Pow2(BitLength(x / 2)) == 2 * Pow2(BitLength(x / 2) - 1);
    }
  }

  lemma {:induction false} Pow2Monotone(m: nat, n: nat)
    requires m <= n
    ensures Pow2(m) <= Pow2(n)
  {
    if m < n { Pow2Monotone(m, n - 1); }
  }

  /** A request gets a block that is large enough and less than twice as large as needed. */
  lemma ClassFits(size: nat)
    ensures IndexOf(size) >= 3
    ensures size <= Pow2(IndexOf(size)) < 2 * Max(size, 8)
  {
    var n := Max(size, 8);
    BitLengthIs(n - 1);
    hide BitLength;
    Pow2Values();
    if IndexOf(size) < 3 { Pow2Monotone(IndexOf(size), 2); }
    assert Pow2(IndexOf(size)) == 2 * Pow2(IndexOf(size) - 1);
  }

  lemma Pow2Divides(a: int, m: nat, n: nat)
    requires m <= n && a % Pow2(n) == 0
    ensures a % Pow2(m) == 0
  {
    Pow2Add(m, n - m);
    hide Pow2;
    FactorDivides(a, Pow2(m), Pow2(n - m));
  }

  lemma FactorDivides(a: int, p: int, d: int)
    requires p > 0 && d > 0 && p * d > 0 && a % (p * d) == 0
    ensures a % p == 0
  {
    var q := a / (p * d);
    assert a == q * (p * d);
    assert q * (p * d) == (q * d) * p;
    DivModUnique(a, q * d, 0, p);
  }

  /** Power-of-two alignments that are not larger divide the list's alignment. */
  lemma AlignDivides(a: int, align: int, index: nat)
    requires IsPow2(align) && align <= ListAlign(index) && a % ListAlign(index) == 0
    ensures a % align == 0
  {
    var k: nat :| k < 64 && align == Pow2(k);
    var n := Min(index, 12);
    if k > n {
      Pow2Monotone(n + 1, k);
    } else {
      Pow2Divides(a, k, n);
    }
  }

  /* ---- Address spaces -------------------------------------------------------------------------- */

  function BlockSize(class_: nat): nat { Pow2(class_ + 3) }

  /** The blocks that a physical page is cut into, as addresses in the window. */
  function CutPage(page: int, class_: nat): seq<int> {
    PageBlocks(WINDOW_BASE + page, BlockSize(class_), PerPage(BlockSize(class_)))
  }

  function PerPage(size: nat): nat
    requires size > 0
  {
    0x1000 / size
  }

  /** Where a block is: handed out, or in the list of its class on some core. */
  datatype Home = Home(class_: nat, core: Option<nat>)

  /** `lists` are the stacks that the free lists represent, `blocks` all blocks ever cut. */
  datatype Heap = Heap(lists: map<(nat, nat), seq<int>>, blocks: map<int, Home>, free: seq<Range>, nextVirt: int)

  function ListOf(h: Heap, core: nat, class_: nat): seq<int> {
    if (core, class_) in h.lists then h.lists[(core, class_)] else []
  }

  ghost predicate Live(h: Heap, a: int, class_: nat) {
    a in h.blocks && h.blocks[a] == Home(class_, None)
  }

  /* ---- Steps -------------------------------------------------------------------------------------- */

  /** The request passes the assertions of `free_list`. */
  ghost predicate Served(size: nat, align: nat) {
    IsPow2(align) && align <= ListAlign(IndexOf(size)) && IndexOf(size) - 3 < CLASSES
  }

  /** `pop` of a list that has a block. */
  ghost predicate PopStep(h: Heap, h': Heap, core: nat, class_: nat, a: int) {
    && class_ < CLASSES
    && ListOf(h, core, class_) != [] && a == ListOf(h, core, class_)[0]
    && h' == h.(lists := h.lists[(core, class_) := ListOf(h, core, class_)[1..]],
                blocks := h.blocks[a := Home(class_, None)])
  }

  /** `allocate_page_for_blocks`: an empty list takes a physical page and cuts it into blocks. */
  ghost predicate RefillStep(h: Heap, h': Heap, core: nat, class_: nat, page: u64, regions: seq<Range>) {
    && class_ < CLASSES && ListOf(h, core, class_) == [] && BlockSize(class_) <= 0x1000
    && AllValid(h.free) && AllValid(regions)
    && AllocPost(h.free, regions, 0x1000, 0x1000, CAPACITY, Allocated(page), h'.free)
    && page + 0x1000 <= WINDOW_SIZE
    && h'.lists == h.lists[(core, class_) := CutPage(page, class_)]
    && h'.blocks == h.blocks + (map a | a in CutPage(page, class_) :: Home(class_, Some(core)))
    && h'.nextVirt == h.nextVirt
  }

  /** `v` is the start of a page of the region. */
  ghost predicate PageOfRegion(at: int, size: int, v: int) { at <= v < at + size && v % 0x1000 == 0 }

  /** `map_raw` refuses this page of 4 KiB, in a kernel table that has the window in it and these pages. */
  ghost predicate TableRefuses(backing: map<int, int>, v: int) {
    v in backing || InWindow(v) || !(0 <= v <= U64_MAX) || !PageWalks.Canonical(v)
  }

  ghost predicate RegionRefused(backing: map<int, int>, at: int, size: int) {
    exists v :: PageOfRegion(at, size, v) && TableRefuses(backing, v)
  }

  /** No page of the region is one that every kernel table refuses. */
  ghost predicate MapAccepts(a: int, size: int) { !RegionRefused(map[], a, size) }

  /** Such a region does not reach into the window. */
  lemma AcceptedIsOutside(a: int, size: int)
    requires MapAccepts(a, size) && a % 0x1000 == 0 && size > 0
    ensures a + size <= WINDOW_BASE || WINDOW_BASE + WINDOW_SIZE <= a
  {
    var v := Max(a, WINDOW_BASE);
    if a < WINDOW_BASE + WINDOW_SIZE && WINDOW_BASE < a + size {
      assert PageOfRegion(a, size, v) && TableRefuses(map[], v);
    }
  }

  /** The tables themselves: where the window is mapped and `map` refuses no page of the region, it is accepted. */
  lemma TableAccepts(words: seq<u64>, root: int, pageType: PageWalks.PageType, a: u64, size: u64)
    requires KernelSpace.WindowMapped(words, root, pageType, WINDOW_SIZE)
    requires a % 0x1000 == 0 && size > 0 && a + size - 1 <= U64_MAX && !Loading.SomePageRefused(words, root, a, size, PageWalks.Page4K)
    ensures MapAccepts(a, size)
  {
    hide PageWalks.Canonical, KernelSpace.WindowMapped, Loading.PageRefused;
    forall v | PageOfRegion(a, size, v) ensures !TableRefuses(map[], v) {
      if InWindow(v) { KernelSpace.WindowIsTaken(words, root, pageType, a, size); }
      var k := (v - a) / 0x1000;
      DivModUnique(v - a, v / 0x1000 - a / 0x1000, 0, 0x1000);
      assert Loading.PageStart(a, PageWalks.Page4K, k) == v;
      NotRefused(words, root, a, size, k, v);
    }
  }

  lemma NotRefused(words: seq<u64>, root: int, a: u64, size: u64, k: nat, v: u64)
    requires !Loading.SomePageRefused(words, root, a, size, PageWalks.Page4K)
    requires v == Loading.PageStart(a, PageWalks.Page4K, k) && a <= v < a + size
    ensures PageWalks.Canonical(v)
  {
    hide PageWalks.Canonical, Loading.PageStart;
    assert !Loading.PageRefused(words, root, a, size, PageWalks.Page4K, k);
  }

  /** `allocate_virt_block`: a fresh guarded virtual region, which could be mapped. */
  ghost predicate VirtStep(h: Heap, h': Heap, core: nat, class_: nat, a: int) {
    && class_ < CLASSES && ListOf(h, core, class_) == [] && BlockSize(class_) > 0x1000
    && a == h.nextVirt
    && a + GUARD + BlockSize(class_) <= U64_MAX
    && MapAccepts(a, BlockSize(class_))
    && h'.blocks == h.blocks[a := Home(class_, None)]
    && h'.nextVirt == a + GUARD + BlockSize(class_)
    && h'.lists == h.lists && h'.free == h.free
  }

  /** Other users of `receive_vaddr_4k` take whole pages of virtual addresses, and so does an allocation whose
      mapping fails. */
  ghost predicate ReceiveStep(h: Heap, h': Heap, n: nat) {
    n % 0x1000 == 0 && h.nextVirt + n <= U64_MAX && h' == h.(nextVirt := h.nextVirt + n)
  }

  /** `push` of a block that was handed out for the same class, on any core. */
  ghost predicate FreeStep(h: Heap, h': Heap, core: nat, class_: nat, a: int) {
    && Live(h, a, class_)
    && h' == h.(lists := h.lists[(core, class_) := [a] + ListOf(h, core, class_)],
                blocks := h.blocks[a := Home(class_, Some(core))])
  }

  /** Other users take physical memory directly. */
  ghost predicate TakeStep(h: Heap, h': Heap) {
    && h' == h.(free := h'.free) && Sorted(h'.free)
    && forall x :: Covers(h'.free, x) ==> Covers(h.free, x)
  }

  ghost predicate Step(h: Heap, h': Heap) {
    || (exists core, class_, a :: PopStep(h, h', core, class_, a))
    || (exists core, class_, page, regions :: RefillStep(h, h', core, class_, page, regions))
    || (exists core, class_, a :: VirtStep(h, h', core, class_, a))
    || (exists core, class_, a :: FreeStep(h, h', core, class_, a))
    || (exists n :: ReceiveStep(h, h', n))
    || TakeStep(h, h')
  }

  ghost predicate Run(states: seq<Heap>) {
    && |states| > 0 && states[0] == Heap(map[], map[], states[0].free, VMEM_BASE) && Sorted(states[0].free)
    && forall i :: 0 <= i < |states| - 1 ==> Step(states[i], states[i + 1])
  }

  /* ---- The invariant -------------------------------------------------------------------------------- */

  /** A block of a small class is a piece of the window backed by memory that is no longer free; a
      large one is a piece of virtual memory that has been passed. */
  ghost predicate Placed(a: int, class_: nat, free: seq<Range>, nextVirt: int) {
    var size := BlockSize(class_);
    && class_ < CLASSES && a > 0 && a % ListAlign(class_ + 3) == 0
    && (if size <= 0x1000
        then WINDOW_BASE <= a && a + size <= WINDOW_BASE + WINDOW_SIZE
             && forall x :: a - WINDOW_BASE <= x < a + size - WINDOW_BASE ==> !Covers(free, x)
        else VMEM_BASE <= a && a + size + GUARD <= nextVirt && (a + size <= WINDOW_BASE || WINDOW_BASE + WINDOW_SIZE <= a))
  }

  ghost predicate AllPlaced(blocks: map<int, Home>, free: seq<Range>, nextVirt: int) {
    forall a :: a in blocks ==> Placed(a, blocks[a].class_, free, nextVirt)
  }

  ghost predicate Separate(a: int, m: nat, b: int, n: nat) { a + BlockSize(m) <= b || b + BlockSize(n) <= a }

  ghost predicate AllSeparate(blocks: map<int, Home>) {
    forall a, b :: a in blocks && b in blocks && a != b ==> Separate(a, blocks[a].class_, b, blocks[b].class_)
  }

  ghost predicate NoDuplicates(s: seq<int>) { forall i, j :: 0 <= i < j < |s| ==> s[i] != s[j] }

  /** The lists hold exactly the blocks that are not handed out, each once. */
  ghost predicate ListsMatch(h: Heap) {
    && (forall core, class_ :: NoDuplicates(ListOf(h, core, class_)))
    && (forall core, class_, a :: a in ListOf(h, core, class_) <==> a in h.blocks && h.blocks[a] == Home(class_, Some(core)))
  }

  ghost predicate Inv(h: Heap) {
    && Sorted(h.free) && VMEM_BASE <= h.nextVirt && h.nextVirt % 0x1000 == 0
    && AllPlaced(h.blocks, h.free, h.nextVirt) && AllSeparate(h.blocks) && ListsMatch(h)
  }

  lemma PopKeeps(h: Heap, h': Heap, core: nat, class_: nat, a: int)
    requires Inv(h) && PopStep(h, h', core, class_, a)
    ensures Inv(h')
  {
    hide Placed, Separate, Covers, Sorted;
    var s := ListOf(h, core, class_);
    assert a in s && h.blocks[a] == Home(class_, Some(core));
    assert s == [a] + s[1..] && a !in s[1..];
    forall c, k ensures ListOf(h', c, k) == if c == core && k == class_ then s[1..] else ListOf(h, c, k) {}
  }

  lemma FreeKeeps(h: Heap, h': Heap, core: nat, class_: nat, a: int)
    requires Inv(h) && FreeStep(h, h', core, class_, a)
    ensures Inv(h')
  {
    hide Placed, Separate, Covers, Sorted;
    var s := ListOf(h, core, class_);
    forall c, k ensures ListOf(h', c, k) == if c == core && k == class_ then [a] + s else ListOf(h, c, k) {}
    forall c, k ensures a !in ListOf(h, c, k) {}
  }

  lemma PageClass(class_: nat)
    ensures BlockSize(class_) <= 0x1000 <==> class_ <= 9
    ensures class_ <= 9 ==> ListAlign(class_ + 3) == BlockSize(class_) && 0x1000 % BlockSize(class_) == 0
    ensures class_ > 9 ==> ListAlign(class_ + 3) == 0x1000 && BlockSize(class_) % 0x1000 == 0
  {
    Pow2Values();
    hide Pow2;
    if class_ <= 9 {
      Pow2Monotone(class_ + 3, 12);
      Pow2Divides(Pow2(12), class_ + 3, 12);
    } else {
      Pow2Monotone(13, class_ + 3);
      Pow2Add(12, 1);
      Pow2Divides(Pow2(class_ + 3), 12, class_ + 3);
    }
  }

  /** Removing free memory keeps blocks placed, and so does moving on in virtual memory. */
  lemma PlacedMonotone(a: int, class_: nat, free: seq<Range>, nextVirt: int, free': seq<Range>, nextVirt': int)
    requires Placed(a, class_, free, nextVirt) && nextVirt <= nextVirt'
    requires forall x :: Covers(free', x) ==> Covers(free, x)
    ensures Placed(a, class_, free', nextVirt')
  {
    hide Covers, Pow2;
  }

  lemma TakeKeeps(h: Heap, h': Heap)
    requires Inv(h) && TakeStep(h, h')
    ensures Inv(h')
  {
    hide Covers, Sorted, Placed, Separate;
    forall a | a in h'.blocks ensures Placed(a, h'.blocks[a].class_, h'.free, h'.nextVirt) {
      PlacedMonotone(a, h.blocks[a].class_, h.free, h.nextVirt, h'.free, h'.nextVirt);
    }
    forall c, k ensures ListOf(h', c, k) == ListOf(h, c, k) {}
  }

  lemma ReceiveKeeps(h: Heap, h': Heap, n: nat)
    requires Inv(h) && ReceiveStep(h, h', n)
    ensures Inv(h')
  {
    hide Covers, Sorted, Placed, Separate;
    forall a | a in h'.blocks ensures Placed(a, h'.blocks[a].class_, h'.free, h'.nextVirt) {
      PlacedMonotone(a, h.blocks[a].class_, h.free, h.nextVirt, h'.free, h'.nextVirt);
    }
    forall c, k ensures ListOf(h', c, k) == ListOf(h, c, k) {}
    ModAddMultiple(h.nextVirt, n / 0x1000, 0x1000);
  }

  lemma VirtKeeps(h: Heap, h': Heap, core: nat, class_: nat, a: int)
    requires Inv(h) && VirtStep(h, h', core, class_, a)
    ensures Inv(h')
  {
    hide Covers, Sorted, Pow2, Placed, MapAccepts;
    PageClass(class_);
    AcceptedIsOutside(a, BlockSize(class_));
    assert h'.nextVirt % 0x1000 == 0;
    forall b | b in h.blocks ensures b != a && Separate(a, class_, b, h.blocks[b].class_) && Separate(b, h.blocks[b].class_, a, class_) {
      PlacedAway(b, h.blocks[b].class_, h.free, a, class_);
    }
    VirtPlaced(a, class_, h.free);
    forall b | b in h.blocks ensures Placed(b, h.blocks[b].class_, h.free, h'.nextVirt) {
      PlacedMonotone(b, h.blocks[b].class_, h.free, h.nextVirt, h.free, h'.nextVirt);
    }
    assert AllPlaced(h'.blocks, h'.free, h'.nextVirt) && AllSeparate(h'.blocks);
    assert a !in h.blocks;
    forall c, k ensures ListOf(h', c, k) == ListOf(h, c, k) {}
  }

  lemma VirtPlaced(a: int, class_: nat, free: seq<Range>)
    requires class_ < CLASSES && BlockSize(class_) > 0x1000 && VMEM_BASE <= a && a % 0x1000 == 0
    requires a + BlockSize(class_) <= WINDOW_BASE || WINDOW_BASE + WINDOW_SIZE <= a
    ensures Placed(a, class_, free, a + GUARD + BlockSize(class_))
  {
    hide Covers, Pow2;
    PageClass(class_);
  }

  lemma PlacedAway(b: int, n: nat, free: seq<Range>, a: int, m: nat)
    requires Placed(b, n, free, a) && (a + BlockSize(m) <= WINDOW_BASE || WINDOW_BASE + WINDOW_SIZE <= a)
    ensures b != a && Separate(a, m, b, n) && Separate(b, n, a, m)
  {
    hide Covers, Pow2;
  }

  /** The page taken by a refill was free and is no longer. */
  lemma RefillCarves(free: seq<Range>, free': seq<Range>, page: u64, regions: seq<Range>)
    requires AllValid(free) && AllValid(regions)
    requires AllocPost(free, regions, 0x1000, 0x1000, CAPACITY, Allocated(page), free')
    ensures Carved(free, free', page, 0x1000) && page % 0x1000 == 0 && Sorted(free')
  {
    hide Chosen, GivesUp, SomeFits, IsPow2;
    var b :| Chosen(free, regions, 0x1000, 0x1000, b) && b.ptr == page && Takes(free, b, free');
    ChosenIsFree(free, regions, 0x1000, 0x1000, b);
    forall x | page <= x < page + 0x1000 ensures Covers(free, x) && !Covers(free', x) {
      assert Range(b.start, b.end).Has(x);
    }
  }

  /** Block `i` of a cut page: inside the page, aligned, in order. */
  lemma CutBlock(page: int, class_: nat, i: nat)
    requires class_ <= 9 && page % 0x1000 == 0 && i < |CutPage(page, class_)|
    ensures var size := BlockSize(class_); var b := CutPage(page, class_)[i];
      && b == WINDOW_BASE + page + (0x1000 / size - 1 - i) * size
      && WINDOW_BASE + page <= b && b + size <= WINDOW_BASE + page + 0x1000 && b % size == 0
  {
    PageClass(class_);
    hide Pow2;
    var size := BlockSize(class_);
    var n := 0x1000 / size;
    assert n * size == 0x1000;
    BlockInPage(WINDOW_BASE + page, size, n, i);
    var q := (WINDOW_BASE + page) / 0x1000;
    assert WINDOW_BASE + page == q * (n * size);
    MultipleOf(q, n, size, n - 1 - i);
  }

  lemma MultipleOf(q: int, n: int, size: int, k: int)
    requires size > 0
    ensures (q * (n * size) + k * size) % size == 0
  {
    assert q * (n * size) + k * size == (q * n + k) * size;
    DivModUnique((q * n + k) * size, q * n + k, 0, size);
  }

  /** Distinct blocks of a cut page do not overlap. */
  lemma CutSeparate(page: int, class_: nat, i: nat, j: nat)
    requires class_ <= 9 && page % 0x1000 == 0 && i < j < |CutPage(page, class_)|
    ensures CutPage(page, class_)[j] + BlockSize(class_) <= CutPage(page, class_)[i]
  {
    hide Pow2, CutPage;
    CutBlock(page, class_, i);
    CutBlock(page, class_, j);
    var size := BlockSize(class_);
    var n := 0x1000 / size;
    MulMonotone(n - j, n - 1 - i, size);
    assert (n - j) * size == (n - 1 - j) * size + size;
  }

  lemma CutPlaced(free: seq<Range>, free': seq<Range>, page: u64, class_: nat, i: nat, nextVirt: int)
    requires class_ <= 9 && page % 0x1000 == 0 && i < |CutPage(page, class_)| && page + 0x1000 <= WINDOW_SIZE
    requires Carved(free, free', page, 0x1000)
    ensures Placed(CutPage(page, class_)[i], class_, free', nextVirt)
  {
    hide Pow2, CutPage, Covers;
    PageClass(class_);
    CutBlock(page, class_, i);
  }

  /** No block placed before a refill overlaps a block of the new page. */
  lemma OldAway(b: int, n: nat, free: seq<Range>, free': seq<Range>, nextVirt: int, page: u64, class_: nat, i: nat)
    requires Placed(b, n, free, nextVirt) && Carved(free, free', page, 0x1000)
    requires class_ <= 9 && page % 0x1000 == 0 && i < |CutPage(page, class_)| && page + 0x1000 <= WINDOW_SIZE
    ensures var a := CutPage(page, class_)[i]; b != a && Separate(a, class_, b, n) && Separate(b, n, a, class_)
  {
    hide Pow2, CutPage, Covers;
    CutBlock(page, class_, i);
    var a := CutPage(page, class_)[i];
    var x := Max(a, b) - WINDOW_BASE;
    assert page <= x < page + 0x1000 ==> Covers(free, x);
    assert BlockSize(n) <= 0x1000 && b - WINDOW_BASE <= x < b - WINDOW_BASE + BlockSize(n) ==> !Covers(free, x);
  }

  lemma RefillKeeps(h: Heap, h': Heap, core: nat, class_: nat, page: u64, regions: seq<Range>)
    requires Inv(h) && RefillStep(h, h', core, class_, page, regions)
    ensures Inv(h')
  {
    hide Covers, Sorted, Pow2, Placed, CutPage, AllocPost, Separate, Carved;
    PageClass(class_);
    RefillCarves(h.free, h'.free, page, regions);
    var cut := CutPage(page, class_);
    RefillPlaces(h, h', core, class_, page);
    forall i, j | 0 <= i < j < |cut| ensures cut[i] != cut[j] { CutSeparate(page, class_, i, j); }
    forall a | a in cut ensures a !in h.blocks {
      var i :| 0 <= i < |cut| && cut[i] == a;
      if a in h.blocks { OldAway(a, h.blocks[a].class_, h.free, h'.free, h.nextVirt, page, class_, i); }
    }
    forall c, k ensures ListOf(h', c, k) == if c == core && k == class_ then cut else ListOf(h, c, k) {}
  }

  lemma RefillPlaces(h: Heap, h': Heap, core: nat, class_: nat, page: u64)
    requires Inv(h) && class_ <= 9 && page % 0x1000 == 0 && page + 0x1000 <= WINDOW_SIZE
    requires Carved(h.free, h'.free, page, 0x1000) && h'.nextVirt == h.nextVirt
    requires h'.blocks == h.blocks + map a | a in CutPage(page, class_) :: Home(class_, Some(core))
    ensures AllPlaced(h'.blocks, h'.free, h'.nextVirt) && AllSeparate(h'.blocks)
  {
    hide Pow2, Placed, CutPage, Separate, ListsMatch;
    var cut := CutPage(page, class_);
    forall a | a in h'.blocks ensures Placed(a, h'.blocks[a].class_, h'.free, h'.nextVirt) {
      if a in cut {
        var i :| 0 <= i < |cut| && cut[i] == a;
        CutPlaced(h.free, h'.free, page, class_, i, h.nextVirt);
      } else {
        PlacedMonotone(a, h.blocks[a].class_, h.free, h.nextVirt, h'.free, h'.nextVirt);
      }
    }
    forall a, b | a in h'.blocks && b in h'.blocks && a != b ensures Separate(a, h'.blocks[a].class_, b, h'.blocks[b].class_) {
      RefillSeparates(h, h', core, class_, page, a, b);
    }
  }

  lemma RefillSeparates(h: Heap, h': Heap, core: nat, class_: nat, page: u64, a: int, b: int)
    requires Inv(h) && class_ <= 9 && page % 0x1000 == 0 && page + 0x1000 <= WINDOW_SIZE
    requires Carved(h.free, h'.free, page, 0x1000)
    requires h'.blocks == h.blocks + map a | a in CutPage(page, class_) :: Home(class_, Some(core))
    requires a in h'.blocks && b in h'.blocks && a != b
    ensures Separate(a, h'.blocks[a].class_, b, h'.blocks[b].class_)
  {
    hide Pow2, Placed, CutPage, ListsMatch, Carved;
    var cut := CutPage(page, class_);
    if a in cut {
      var i :| 0 <= i < |cut| && cut[i] == a;
      if b in cut {
        var j :| 0 <= j < |cut| && cut[j] == b;
        CutSeparate(page, class_, Min(i, j), Max(i, j));
      } else {
        OldAway(b, h.blocks[b].class_, h.free, h'.free, h.nextVirt, page, class_, i);
      }
    } else if b in cut {
      var j :| 0 <= j < |cut| && cut[j] == b;
      OldAway(a, h.blocks[a].class_, h.free, h'.free, h.nextVirt, page, class_, j);
    }
  }

  /* ---- Whole runs ------------------------------------------------------------------------------------ */

  /** Every step of the heap keeps blocks apart, placed and accounted for. */
  lemma StepKeepsInv(h: Heap, h': Heap)
    requires Inv(h) && Step(h, h')
    ensures Inv(h')
  {
    hide Inv, PopStep, RefillStep, VirtStep, FreeStep, ReceiveStep, TakeStep;
    if core, class_, a :| PopStep(h, h', core, class_, a) {
      PopKeeps(h, h', core, class_, a);
    } else if core, class_, page, regions :| RefillStep(h, h', core, class_, page, regions) {
      RefillKeeps(h, h', core, class_, page, regions);
    } else if core, class_, a :| VirtStep(h, h', core, class_, a) {
      VirtKeeps(h, h', core, class_, a);
    } else if core, class_, a :| FreeStep(h, h', core, class_, a) {
      FreeKeeps(h, h', core, class_, a);
    } else if n :| ReceiveStep(h, h', n) {
      ReceiveKeeps(h, h', n);
    } else {
      TakeKeeps(h, h');
    }
  }

  lemma {:induction false} RunKeepsInv(states: seq<Heap>, k: nat)
    requires Run(states) && k < |states|
    ensures Inv(states[k])
  {
    hide Inv, Step;
    if k == 0 {
      EmptyInv(states[0]);
    } else {
      RunKeepsInv(states, k - 1);
      assert Step(states[k - 1], states[k - 1 + 1]);
      StepKeepsInv(states[k - 1], states[k]);
    }
  }

  lemma EmptyInv(h: Heap)
    requires h == Heap(map[], map[], h.free, VMEM_BASE) && Sorted(h.free)
    ensures Inv(h)
  {
  }

  /** What a client may rely on: at any point of any run, a block handed out for (size, align) is
      large enough, less than twice too large, aligned, and overlaps no other block, live or free. */
  lemma LiveBlocksAreSafe(states: seq<Heap>, k: nat, a: int, size: nat, align: nat)
    requires Run(states) && k < |states| && Served(size, align) && IndexOf(size) >= 3
    requires Live(states[k], a, IndexOf(size) - 3)
    ensures size <= BlockSize(IndexOf(size) - 3) < 2 * Max(size, 8) && a % align == 0
    ensures forall b :: b in states[k].blocks && b != a ==>
      a + BlockSize(IndexOf(size) - 3) <= b || b + BlockSize(states[k].blocks[b].class_) <= a
  {
    hide Pow2, IndexOf, ListsMatch, Covers, Sorted;
    RunKeepsInv(states, k);
    ClassFits(size);
    AlignDivides(a, align, IndexOf(size));
    assert forall b :: b in states[k].blocks && b != a ==> Separate(a, IndexOf(size) - 3, b, states[k].blocks[b].class_);
  }

  lemma ListedIsBlock(h: Heap, core: nat, class_: nat, x: int)
    requires ListsMatch(h) && x in ListOf(h, core, class_)
    ensures x in h.blocks && h.blocks[x] == Home(class_, Some(core))
  {
  }

  /** The invariant is what the free lists ask of their callers: the blocks of a list are disjoint,
      and a live block of the same class may be pushed. */
  lemma ListsAreDisjoint(h: Heap, core: nat, class_: nat, a: int)
    requires Inv(h)
    ensures BlocksDisjoint(ListOf(h, core, class_), BlockSize(class_))
    ensures Live(h, a, class_) ==> a != 0 && DisjointFrom(a, ListOf(h, core, class_), BlockSize(class_))
  {
    hide Pow2, Covers, Sorted, ListOf;
    var s := ListOf(h, core, class_);
    forall i | 0 <= i < |s| ensures s[i] in h.blocks && h.blocks[s[i]] == Home(class_, Some(core)) {
      ListedIsBlock(h, core, class_, s[i]);
    }
    forall i, j | 0 <= i < j < |s| ensures s[i] + BlockSize(class_) <= s[j] || s[j] + BlockSize(class_) <= s[i] {
      assert NoDuplicates(s);
      assert Separate(s[i], class_, s[j], class_);
    }
    if Live(h, a, class_) {
      assert Placed(a, class_, h.free, h.nextVirt);
      forall i | 0 <= i < |s| ensures s[i] + BlockSize(class_) <= a || a + BlockSize(class_) <= s[i] {
        assert Separate(s[i], class_, a, class_);
      }
    }
  }

  /** A 4-KiB page obtained from its free list always lies in the physical window, so `alloc_phys`
      may turn it back into a physical address, and that page is not free memory. */
  lemma PagesAreInWindow(h: Heap, a: int)
    requires Inv(h) && Live(h, a, 9)
    ensures WINDOW_BASE <= a && a + 0x1000 <= WINDOW_BASE + WINDOW_SIZE && (a - WINDOW_BASE) % 0x1000 == 0
    ensures forall x :: a - WINDOW_BASE <= x < a - WINDOW_BASE + 0x1000 ==> !Covers(h.free, x)
  {
    hide Pow2, Covers, Sorted, ListsMatch;
    PageClass(9);
    assert Placed(a, 9, h.free, h.nextVirt);
    Pow2Values();
  }
}
