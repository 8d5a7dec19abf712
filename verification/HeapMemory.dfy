/** The kernel heap together with the memory it lives in (kernel/src/mm.rs): all free lists of all cores keep
    their bookkeeping in one physical memory, between blocks that belong to clients. Small blocks are seen
    through the linear window; large blocks are virtual regions backed by pages from the free list of that
    size, so that the same words can be seen at two addresses.

    The steps are those of the heap, each with the effect on memory that the free list operations promise.
    Translations change only by mapping a page; nobody else writes to the page tables. */
module HeapMemories {
  import opened Machine
  import opened MemoryMap
  import opened Ranges
  import opened Allocation
  import opened RangeSets
  import opened PageEdits
  import opened FreeLists
  import opened KernelHeaps

  /** `phys` is physical memory, `heads` are the head pointers of the lists, and `backing` is the page that each
      page of a large block is mapped to, as an address in the window. */
  datatype Store = Store(h: Heap, phys: Words, heads: map<(nat, nat), u64>, backing: map<int, int>)

  function HeadOf(m: Store, core: nat, class_: nat): u64 {
    if (core, class_) in m.heads then m.heads[(core, class_)] else 0
  }

  predicate Mapped(m: Store, x: int) { InWindow(x) || x - x % 0x1000 in m.backing }

  /** Where an address is in physical memory: the window is linear, other pages have a page of the window
      behind them. */
  function Physical(m: Store, x: int): int
    requires Mapped(m, x)
  {
    if InWindow(x) then x - WINDOW_BASE else m.backing[x - x % 0x1000] + x % 0x1000 - WINDOW_BASE
  }

  /** The word that code finds at an address, through the translation. */
  function WordAt(m: Store, x: int): u64 { if Mapped(m, x) then m.phys(Physical(m, x)) else 0 }

  /** Memory as code sees it. */
  ghost function View(m: Store): Words { (x: int) => WordAt(m, x) }

  /** The words of memory represent this list. */
  ghost predicate ListRepresented(m: Store, core: nat, class_: nat) {
    Represents(View(m), HeadOf(m, core, class_), BlockSize(class_), ListOf(m.h, core, class_))
  }

  /** All lists are represented in the one memory at the same time. */
  ghost predicate AllRepresented(m: Store) {
    forall core: nat, class_: nat :: class_ < CLASSES ==> ListRepresented(m, core, class_)
  }

  /** The address belongs to a block on some free list. */
  ghost predicate OnSomeList(h: Heap, x: int) {
    exists a :: a in h.blocks && h.blocks[a].core.Some? && InBlock(a, BlockSize(h.blocks[a].class_), x)
  }

  /** Every address of the block has memory behind it. */
  ghost predicate Whole(m: Store, a: int, class_: nat) {
    forall x :: InBlock(a, BlockSize(class_), x) ==> Mapped(m, x)
  }

  /** The physical word at `p` is seen at address `x` of one of the blocks. */
  ghost predicate BehindAt(m: Store, blocks: seq<int>, size: int, p: int, x: int) {
    InSome(blocks, size, x) && Mapped(m, x) && Physical(m, x) == p
  }

  ghost predicate Behind(m: Store, blocks: seq<int>, size: int, p: int) {
    exists x :: BehindAt(m, blocks, size, p, x)
  }

  /** Only physical words behind these blocks may differ. */
  ghost predicate ChangesOnlyBehind(m: Store, phys': Words, blocks: seq<int>, size: int) {
    forall p :: !Behind(m, blocks, size, p) ==> phys'(p) == m.phys(p)
  }

  /* ---- Steps ------------------------------------------------------------------------------------------ */

  /** Only the head of this list may move. */
  ghost predicate OtherHeadsSame(m: Store, m': Store, core: nat, class_: nat) {
    forall c, k :: c != core || k != class_ ==> HeadOf(m', c, k) == HeadOf(m, c, k)
  }

  /** `push` of a block that its client gives back; pages behind a mapping are never given back. */
  ghost predicate Push(m: Store, m': Store, core: nat, class_: nat, a: int) {
    && class_ < CLASSES && FreeStep(m.h, m'.h, core, class_, a) && a !in m.backing.Values && Whole(m, a, class_)
    && m'.backing == m.backing
    && ListRepresented(m', core, class_) && OtherHeadsSame(m, m', core, class_)
    && ChangesOnlyBehind(m, m'.phys, ListOf(m'.h, core, class_), BlockSize(class_))
  }

  /** `pop` of a list that has a block. */
  ghost predicate Pop(m: Store, m': Store, core: nat, class_: nat, a: int) {
    && PopStep(m.h, m'.h, core, class_, a) && m'.backing == m.backing
    && ListRepresented(m', core, class_) && OtherHeadsSame(m, m', core, class_)
    && ChangesOnlyBehind(m, m'.phys, ListOf(m.h, core, class_), BlockSize(class_))
  }

  /** `v` is a page of a large block that was handed out, and it has no memory behind it yet. */
  ghost predicate Unbacked(m: Store, b: int, v: int) {
    && b in m.h.blocks && m.h.blocks[b].core.None? && BlockSize(m.h.blocks[b].class_) > 0x1000
    && b <= v && v + 0x1000 <= b + BlockSize(m.h.blocks[b].class_) && v % 0x1000 == 0 && v !in m.backing
  }

  /** An entry of `map`, which `allocate_virt_block` calls: a page that was popped before is put behind `v`. */
  ghost predicate Back(m: Store, m': Store, b: int, v: int, a: int) {
    Unbacked(m, b, v) && Live(m.h, a, 9) && a !in m.backing.Values && m' == m.(backing := m.backing[v := a])
  }

  /** `allocate_page_for_blocks`. */
  ghost predicate Refill(m: Store, m': Store, core: nat, class_: nat, page: u64, regions: seq<Range>) {
    && RefillStep(m.h, m'.h, core, class_, page, regions) && m'.backing == m.backing
    && ListRepresented(m', core, class_) && OtherHeadsSame(m, m', core, class_)
    && forall p :: !InBlock(page, 0x1000, p) ==> m'.phys(p) == m.phys(p)
  }

  /** New virtual regions, or other users that take physical memory: no word changes. */
  ghost predicate Reserve(m: Store, m': Store) {
    && ((exists core, class_, a :: VirtStep(m.h, m'.h, core, class_, a))
        || (exists n :: ReceiveStep(m.h, m'.h, n)) || TakeStep(m.h, m'.h))
    && m'.phys == m.phys && m'.heads == m.heads && m'.backing == m.backing
  }

  /** Clients write any physical word but those behind blocks that are on a free list. */
  ghost predicate ClientWrite(m: Store, m': Store) {
    && m' == m.(phys := m'.phys)
    && forall x :: OnSomeList(m.h, x) && Mapped(m, x) ==> m'.phys(Physical(m, x)) == m.phys(Physical(m, x))
  }

  /** A step of the allocator. */
  ghost predicate AllocatorStep(m: Store, m': Store) {
    || (exists core, class_, a :: Push(m, m', core, class_, a))
    || (exists core, class_, a :: Pop(m, m', core, class_, a))
    || (exists b, v, a :: Back(m, m', b, v, a))
    || (exists core, class_, page, regions :: Refill(m, m', core, class_, page, regions))
    || Reserve(m, m')
  }

  ghost predicate MemoryRun(states: seq<Store>) {
    && |states| > 0 && Sorted(states[0].h.free)
    && states[0] == Store(Heap(map[], map[], states[0].h.free, VMEM_BASE), states[0].phys, map[], map[])
    && forall i :: 0 <= i < |states| - 1 ==> AllocatorStep(states[i], states[i + 1]) || ClientWrite(states[i], states[i + 1])
  }

  /* ---- Physical memory behind blocks ---------------------------------------------------------------------- */

  /** Pages behind mappings are live and distinct. */
  ghost predicate Backed(m: Store) {
    && (forall v :: v in m.backing ==> Live(m.h, m.backing[v], 9) && v % 0x1000 == 0)
    && (forall v, u :: v in m.backing && u in m.backing && v != u ==> m.backing[v] != m.backing[u])
  }

  /** `x` is an address of block `a`, which is not itself behind a mapping, with memory behind it. */
  ghost predicate Usable(m: Store, a: int, x: int) {
    a in m.h.blocks && a !in m.backing.Values && InBlock(a, BlockSize(m.h.blocks[a].class_), x) && Mapped(m, x)
  }

  /** The page that an address outside of the window lies on. */
  lemma PageBehind(m: Store, x: int)
    requires Inv(m.h) && Backed(m) && x - x % 0x1000 in m.backing
    ensures var p := m.backing[x - x % 0x1000];
      && p in m.h.blocks && m.h.blocks[p].class_ == 9 && BlockSize(9) == 0x1000
      && WINDOW_BASE <= p && p + 0x1000 <= WINDOW_BASE + WINDOW_SIZE
      && forall y :: p - WINDOW_BASE <= y < p + 0x1000 - WINDOW_BASE ==> !Covers(m.h.free, y)
  {
    hide ListsMatch, Covers, Sorted, AllSeparate;
    PagesAreInWindow(m.h, m.backing[x - x % 0x1000]);
    PageClass(9);
    Pow2Values();
  }

  /** Distinct addresses of blocks are distinct physical addresses: no two blocks, small or large, free or
      live, share memory, although large blocks and the window map the same pages. */
  lemma PhysicallyApart(m: Store, a: int, x: int, b: int, y: int)
    requires Inv(m.h) && Backed(m) && Usable(m, a, x) && Usable(m, b, y) && x != y
    ensures Physical(m, x) != Physical(m, y)
  {
    hide Inv, Covers, BlockSize, Backed;
    if InWindow(x) && InWindow(y) {
    } else if InWindow(x) {
      WindowAndMapped(m, a, x, b, y);
    } else if InWindow(y) {
      WindowAndMapped(m, b, y, a, x);
    } else {
      BothMapped(m, x, y);
    }
  }

  lemma WindowAndMapped(m: Store, a: int, x: int, b: int, y: int)
    requires Inv(m.h) && Backed(m) && Usable(m, a, x) && InWindow(x) && Usable(m, b, y) && !InWindow(y)
    ensures Physical(m, x) != Physical(m, y)
  {
    PageBehind(m, y);
    hide ListsMatch, Covers, Sorted, Placed, BlockSize;
    var p := m.backing[y - y % 0x1000];
    assert p in m.backing.Values;
    assert Separate(a, m.h.blocks[a].class_, p, 9);
  }

  lemma BothMapped(m: Store, x: int, y: int)
    requires Inv(m.h) && Backed(m) && x != y && !InWindow(x) && !InWindow(y)
    requires x - x % 0x1000 in m.backing && y - y % 0x1000 in m.backing
    ensures Physical(m, x) != Physical(m, y)
  {
    PageBehind(m, x);
    PageBehind(m, y);
    hide ListsMatch, Covers, Sorted, Placed, BlockSize;
    var v, u := x - x % 0x1000, y - y % 0x1000;
    if v != u {
      assert m.backing[v] != m.backing[u];
      assert Separate(m.backing[v], 9, m.backing[u], 9);
    }
  }

  /** ... and none of them is free memory. */
  lemma PhysicallyTaken(m: Store, a: int, x: int)
    requires Inv(m.h) && Backed(m) && Usable(m, a, x)
    ensures 0 <= Physical(m, x) < WINDOW_SIZE && !Covers(m.h.free, Physical(m, x))
  {
    if InWindow(x) {
      hide ListsMatch, Covers, Sorted, AllSeparate, Pow2;
      assert Placed(a, m.h.blocks[a].class_, m.h.free, m.h.nextVirt);
    } else {
      PageBehind(m, x);
    }
  }

  /* ---- Nobody else's words ------------------------------------------------------------------------------ */

  lemma ClassSizes(class_: nat)
    ensures BlockSize(class_) >= 8 && BlockSize(class_) % 8 == 0
  {
    Pow2Values();
    Pow2Add(class_, 3);
    hide Pow2;
    MulMonotone(1, Pow2(class_), 8);
    DivModUnique(BlockSize(class_), Pow2(class_), 0, 8);
  }

  /** Blocks of this class that are not themselves behind a mapping. */
  ghost predicate BlocksOf(m: Store, touched: seq<int>, class_: nat) {
    forall t :: t in touched ==> t in m.h.blocks && m.h.blocks[t].class_ == class_ && t !in m.backing.Values
  }

  /** A change behind some blocks leaves the physical words behind every other block as they were. */
  lemma OtherWordKept(m: Store, phys': Words, touched: seq<int>, class_: nat, b: int, x: int)
    requires Inv(m.h) && Backed(m) && ChangesOnlyBehind(m, phys', touched, BlockSize(class_)) && BlocksOf(m, touched, class_)
    requires Usable(m, b, x) && b !in touched
    ensures phys'(Physical(m, x)) == m.phys(Physical(m, x))
  {
    hide Inv, BlockSize, Backed, Mapped, Physical;
    var p := Physical(m, x);
    if Behind(m, touched, BlockSize(class_), p) {
      var y :| BehindAt(m, touched, BlockSize(class_), p, y);
      var i :| 0 <= i < |touched| && InBlock(touched[i], BlockSize(class_), y);
      DifferentBlocks(m.h, b, x, touched[i], y);
      PhysicallyApart(m, b, x, touched[i], y);
    }
  }

  lemma DifferentBlocks(h: Heap, a: int, x: int, b: int, y: int)
    requires Inv(h) && a in h.blocks && b in h.blocks && a != b
    requires InBlock(a, BlockSize(h.blocks[a].class_), x) && InBlock(b, BlockSize(h.blocks[b].class_), y)
    ensures x != y
  {
    hide ListsMatch, Placed, Sorted, BlockSize;
    assert Separate(a, h.blocks[a].class_, b, h.blocks[b].class_);
  }

  /** Translations that are there stay when more pages are mapped. */
  ghost predicate Extends(m: Store, m': Store) {
    forall v :: v in m.backing ==> v in m'.backing && m'.backing[v] == m.backing[v]
  }

  lemma ViewKept(m: Store, m': Store, x: int)
    requires Extends(m, m') && Mapped(m, x) && m'.phys(Physical(m, x)) == m.phys(Physical(m, x))
    ensures Mapped(m', x) && View(m')(x) == View(m)(x)
  {
  }

  /** A list none of whose words changed is still represented. */
  lemma ListKept(m: Store, m': Store, core: nat, class_: nat)
    requires ListRepresented(m, core, class_) && ListsMatch(m.h)
    requires HeadOf(m', core, class_) == HeadOf(m, core, class_) && ListOf(m'.h, core, class_) == ListOf(m.h, core, class_)
    requires forall b, x :: b in m.h.blocks && m.h.blocks[b] == Home(class_, Some(core)) && InBlock(b, BlockSize(class_), x) ==>
      View(m')(x) == View(m)(x)
    ensures ListRepresented(m', core, class_)
  {
    hide Represents, BlockSize, InBlock, ListsMatch, ListOf, HeadOf, View;
    ClassSizes(class_);
    var s := ListOf(m.h, core, class_);
    forall i, x | 0 <= i < |s| && InBlock(s[i], BlockSize(class_), x) ensures View(m')(x) == View(m)(x) {
      ListedIsBlock(m.h, core, class_, s[i]);
    }
    RepresentsFrame(View(m), View(m'), HeadOf(m, core, class_), BlockSize(class_), s);
  }

  /** Listed blocks have their list as home. */
  lemma ListedHomes(h: Heap, core: nat, class_: nat)
    requires ListsMatch(h)
    ensures forall t :: t in ListOf(h, core, class_) ==> t in h.blocks && h.blocks[t] == Home(class_, Some(core))
  {
  }

  lemma InvLists(h: Heap)
    requires Inv(h)
    ensures ListsMatch(h)
  {
  }

  /** Blocks on free lists are whole. */
  ghost predicate AllWhole(m: Store) {
    forall a :: a in m.h.blocks && m.h.blocks[a].core.Some? ==> Whole(m, a, m.h.blocks[a].class_)
  }

  /** A listed block is never one behind a mapping, and every address of it can be used. */
  lemma ListedIsUsable(m: Store, b: int, x: int)
    requires Backed(m) && AllWhole(m) && b in m.h.blocks && m.h.blocks[b].core.Some?
    requires InBlock(b, BlockSize(m.h.blocks[b].class_), x)
    ensures Usable(m, b, x)
  {
    hide BlockSize, Mapped, InBlock;
    NotBehind(m, b);
    assert Whole(m, b, m.h.blocks[b].class_);
  }

  lemma NotBehind(m: Store, b: int)
    requires Backed(m) && b in m.h.blocks && m.h.blocks[b].core.Some?
    ensures b !in m.backing.Values
  {
    forall v | v in m.backing ensures m.backing[v] != b {
      assert Live(m.h, m.backing[v], 9);
    }
  }

  /** A list is kept by a change behind blocks with other homes. */
  lemma OtherListKept(m: Store, m': Store, core: nat, class_: nat, touched: seq<int>, touchedClass: nat)
    requires MemoryInv(m) && ListRepresented(m, core, class_) && Extends(m, m')
    requires HeadOf(m', core, class_) == HeadOf(m, core, class_) && ListOf(m'.h, core, class_) == ListOf(m.h, core, class_)
    requires ChangesOnlyBehind(m, m'.phys, touched, BlockSize(touchedClass)) && BlocksOf(m, touched, touchedClass)
    requires forall t :: t in touched ==> t in m.h.blocks && m.h.blocks[t] != Home(class_, Some(core))
    ensures ListRepresented(m', core, class_)
  {
    hide Inv, ListRepresented, BlockSize, ChangesOnlyBehind, BlocksOf, InBlock, ListOf, HeadOf, View, Extends, Usable, Backed, AllWhole;
    InvLists(m.h);
    forall b, x | b in m.h.blocks && m.h.blocks[b] == Home(class_, Some(core)) && InBlock(b, BlockSize(class_), x)
      ensures View(m')(x) == View(m)(x)
    {
      ListedIsUsable(m, b, x);
      OtherWordKept(m, m'.phys, touched, touchedClass, b, x);
      UsableKept(m, m', b, x);
    }
    ListKept(m, m', core, class_);
  }

  lemma UsableKept(m: Store, m': Store, b: int, x: int)
    requires Usable(m, b, x) && Extends(m, m') && m'.phys(Physical(m, x)) == m.phys(Physical(m, x))
    ensures Mapped(m', x) && View(m')(x) == View(m)(x)
  {
    ViewKept(m, m', x);
  }

  /* ---- The steps keep everything -------------------------------------------------------------------------- */

  /** Blocks are kept apart, every free list of every core is intact in memory, the pages behind large blocks are
      live and distinct, and listed blocks are whole. */
  ghost predicate MemoryInv(m: Store) { Inv(m.h) && AllRepresented(m) && Backed(m) && AllWhole(m) }

  lemma ListedNotBehind(m: Store, core: nat, class_: nat)
    requires Inv(m.h) && Backed(m)
    ensures BlocksOf(m, ListOf(m.h, core, class_), class_)
  {
    hide Inv, Backed;
    InvLists(m.h);
    ListedHomes(m.h, core, class_);
    forall t | t in ListOf(m.h, core, class_) ensures t !in m.backing.Values { NotBehind(m, t); }
  }

  lemma PushTouches(h: Heap, h': Heap, core: nat, class_: nat, a: int)
    requires Inv(h) && FreeStep(h, h', core, class_, a)
    ensures ListOf(h', core, class_) == [a] + ListOf(h, core, class_)
    ensures forall c, k :: c != core || k != class_ ==> ListOf(h', c, k) == ListOf(h, c, k)
    ensures forall t :: t in ListOf(h', core, class_) ==> t in h.blocks && (h.blocks[t] == Home(class_, Some(core)) || t == a)
    ensures h.blocks[a] == Home(class_, None)
  {
    hide Placed, Separate, Sorted;
    ListedHomes(h, core, class_);
  }

  lemma PushRepresents(m: Store, m': Store, core: nat, class_: nat, a: int)
    requires MemoryInv(m) && Push(m, m', core, class_, a)
    ensures AllRepresented(m')
  {
    hide Inv, ListRepresented, BlockSize, ChangesOnlyBehind, InBlock, Backed, AllWhole, Whole;
    var touched := ListOf(m'.h, core, class_);
    PushTouches(m.h, m'.h, core, class_, a);
    ListedNotBehind(m, core, class_);
    forall c: nat, k: nat | k < CLASSES ensures ListRepresented(m', c, k) {
      if c != core || k != class_ {
        OtherListKept(m, m', c, k, touched, class_);
      }
    }
  }

  lemma PopRepresents(m: Store, m': Store, core: nat, class_: nat, a: int)
    requires MemoryInv(m) && Pop(m, m', core, class_, a)
    ensures AllRepresented(m')
  {
    hide Inv, ListRepresented, BlockSize, ChangesOnlyBehind, InBlock, Backed, AllWhole, BlocksOf;
    var touched := ListOf(m.h, core, class_);
    InvLists(m.h);
    ListedHomes(m.h, core, class_);
    ListedNotBehind(m, core, class_);
    forall c: nat, k: nat | k < CLASSES ensures ListRepresented(m', c, k) {
      if c != core || k != class_ {
        OtherListKept(m, m', c, k, touched, class_);
      }
    }
  }

  /** The page of a refill was free, so nothing is behind any block there. */
  lemma UsableOffPage(m: Store, h': Heap, core: nat, class_: nat, page: u64, regions: seq<Range>, b: int, x: int)
    requires Inv(m.h) && Backed(m) && RefillStep(m.h, h', core, class_, page, regions) && Usable(m, b, x)
    ensures !InBlock(page, 0x1000, Physical(m, x))
  {
    PhysicallyTaken(m, b, x);
    hide Inv, Backed, Usable, Covers, Sorted, AllocPost, BlockSize, Physical;
    RefillCarves(m.h.free, h'.free, page, regions);
    var p := Physical(m, x);
    assert page <= p < page + 0x1000 ==> Covers(m.h.free, p);
  }

  lemma RefillRepresents(m: Store, m': Store, core: nat, class_: nat, page: u64, regions: seq<Range>)
    requires MemoryInv(m) && Refill(m, m', core, class_, page, regions)
    ensures AllRepresented(m')
  {
    hide Inv, ListRepresented, BlockSize, InBlock, AllocPost, CutPage, View, Usable, Backed, AllWhole;
    InvLists(m.h);
    forall c: nat, k: nat | k < CLASSES ensures ListRepresented(m', c, k) {
      if c != core || k != class_ {
        forall b, x | b in m.h.blocks && m.h.blocks[b] == Home(k, Some(c)) && InBlock(b, BlockSize(k), x)
          ensures View(m')(x) == View(m)(x)
        {
          ListedIsUsable(m, b, x);
          UsableOffPage(m, m'.h, core, class_, page, regions, b, x);
          UsableKept(m, m', b, x);
        }
        ListKept(m, m', c, k);
      }
    }
  }

  /** A new mapping is not noticed by blocks that have memory behind them already. */
  lemma BackRepresents(m: Store, m': Store, b: int, v: int, a: int)
    requires MemoryInv(m) && Back(m, m', b, v, a)
    ensures AllRepresented(m')
  {
    hide Inv, ListRepresented, BlockSize, InBlock, View, Usable, Backed, AllWhole;
    InvLists(m.h);
    forall c: nat, k: nat | k < CLASSES ensures ListRepresented(m', c, k) {
      forall d, x | d in m.h.blocks && m.h.blocks[d] == Home(k, Some(c)) && InBlock(d, BlockSize(k), x)
        ensures View(m')(x) == View(m)(x)
      {
        ListedIsUsable(m, d, x);
        UsableKept(m, m', d, x);
      }
      ListKept(m, m', c, k);
    }
  }

  lemma ReserveRepresents(m: Store, m': Store)
    requires MemoryInv(m) && Reserve(m, m')
    ensures AllRepresented(m')
  {
    hide Inv, ListRepresented, BlockSize, InBlock, MapAccepts, Backed, AllWhole;
    InvLists(m.h);
    forall x ensures View(m')(x) == View(m)(x) {}
    forall c: nat, k: nat | k < CLASSES ensures ListRepresented(m', c, k) {
      ListKept(m, m', c, k);
    }
  }

  lemma ClientRepresents(m: Store, m': Store)
    requires MemoryInv(m) && ClientWrite(m, m')
    ensures AllRepresented(m')
  {
    hide Inv, ListRepresented, BlockSize, InBlock, View, Usable, Backed, AllWhole;
    InvLists(m.h);
    forall c: nat, k: nat | k < CLASSES ensures ListRepresented(m', c, k) {
      forall b, x | b in m.h.blocks && m.h.blocks[b] == Home(k, Some(c)) && InBlock(b, BlockSize(k), x)
        ensures View(m')(x) == View(m)(x)
      {
        ListedIsUsable(m, b, x);
        ClientLeaves(m, m', b, x);
        UsableKept(m, m', b, x);
      }
      ListKept(m, m', c, k);
    }
  }

  lemma ClientLeaves(m: Store, m': Store, b: int, x: int)
    requires ClientWrite(m, m') && Usable(m, b, x) && m.h.blocks[b].core.Some?
    ensures m'.phys(Physical(m, x)) == m.phys(Physical(m, x))
  {
    assert OnSomeList(m.h, x);
  }

  /** No step of the allocator changes what is seen in a block that is live before and after, unless it is a page
      behind a large block. */
  lemma LiveWordsKept(m: Store, m': Store, b: int, class_: nat, x: int)
    requires MemoryInv(m) && AllocatorStep(m, m') && Live(m.h, b, class_) && Live(m'.h, b, class_)
    requires Usable(m, b, x)
    ensures Mapped(m', x) && View(m')(x) == View(m)(x)
  {
    hide Inv, BlockSize, ChangesOnlyBehind, ListRepresented, AllocPost, CutPage, View, Usable, Backed, AllWhole, BlocksOf, Whole, Unbacked;
    InvLists(m.h);
    if core, k, a :| Push(m, m', core, k, a) {
      PushTouches(m.h, m'.h, core, k, a);
      PushNotBehind(m, m', core, k, a);
      OtherWordKept(m, m'.phys, ListOf(m'.h, core, k), k, b, x);
    } else if core, k, a :| Pop(m, m', core, k, a) {
      ListedHomes(m.h, core, k);
      ListedNotBehind(m, core, k);
      OtherWordKept(m, m'.phys, ListOf(m.h, core, k), k, b, x);
    } else if core, k, page, regions :| Refill(m, m', core, k, page, regions) {
      UsableOffPage(m, m'.h, core, k, page, regions, b, x);
    }
    StepExtends(m, m');
    UsableKept(m, m', b, x);
  }

  lemma PushNotBehind(m: Store, m': Store, core: nat, class_: nat, a: int)
    requires Inv(m.h) && Backed(m) && Push(m, m', core, class_, a)
    ensures BlocksOf(m, ListOf(m'.h, core, class_), class_)
  {
    hide Inv;
    PushTouches(m.h, m'.h, core, class_, a);
    ListedNotBehind(m, core, class_);
  }

  lemma StepExtends(m: Store, m': Store)
    requires AllocatorStep(m, m')
    ensures Extends(m, m')
  {
    hide ListRepresented, ChangesOnlyBehind, OtherHeadsSame, FreeStep, PopStep, RefillStep, VirtStep, TakeStep, ReceiveStep, InBlock, Whole;
  }

  /** A page behind a mapping stays live: it is never given back. */
  lemma BackingStaysLive(m: Store, m': Store, b: int, class_: nat)
    requires Inv(m.h) && Live(m.h, b, class_) && b in m.backing.Values && AllocatorStep(m, m')
    ensures Live(m'.h, b, class_)
  {
    hide Inv, BlockSize, AllocPost, CutPage, FreeStep, ListRepresented, ChangesOnlyBehind, OtherHeadsSame, Unbacked, Whole, MapAccepts;
    InvLists(m.h);
    if core, k, a :| Push(m, m', core, k, a) {
      FreeChangesOne(m.h, m'.h, core, k, a);
    } else if core, k, a :| Pop(m, m', core, k, a) {
      ListedHomes(m.h, core, k);
      assert a in ListOf(m.h, core, k);
    } else if core, k, page, regions :| Refill(m, m', core, k, page, regions) {
      NotCutAgain(m.h, m'.h, core, k, page, regions, b);
    } else if core, k, a :| VirtStep(m.h, m'.h, core, k, a) {
      NotReservedAgain(m.h, m'.h, core, k, a, b);
    }
  }

  lemma FreeChangesOne(h: Heap, h': Heap, core: nat, class_: nat, a: int)
    requires FreeStep(h, h', core, class_, a)
    ensures forall b :: b != a && b in h.blocks ==> b in h'.blocks && h'.blocks[b] == h.blocks[b]
  {
  }

  lemma NotReservedAgain(h: Heap, h': Heap, core: nat, class_: nat, a: int, b: int)
    requires Inv(h) && VirtStep(h, h', core, class_, a) && b in h.blocks
    ensures b in h'.blocks && h'.blocks[b] == h.blocks[b]
  {
    hide Covers, Sorted, Pow2, BlockSize, ListsMatch, AllSeparate, MapAccepts;
    assert Placed(b, h.blocks[b].class_, h.free, h.nextVirt);
    AcceptedIsOutside(a, BlockSize(class_));
    PlacedAway(b, h.blocks[b].class_, h.free, a, class_);
  }

  lemma NotCutAgain(h: Heap, h': Heap, core: nat, class_: nat, page: u64, regions: seq<Range>, b: int)
    requires Inv(h) && RefillStep(h, h', core, class_, page, regions) && b in h.blocks
    ensures b in h'.blocks && h'.blocks[b] == h.blocks[b]
  {
    hide Covers, Sorted, Pow2, Placed, CutPage, AllocPost, Separate, Carved, ListsMatch;
    PageClass(class_);
    RefillCarves(h.free, h'.free, page, regions);
    var cut := CutPage(page, class_);
    if b in cut {
      var i :| 0 <= i < |cut| && cut[i] == b;
      OldAway(b, h.blocks[b].class_, h.free, h'.free, h.nextVirt, page, class_, i);
    }
  }

  lemma SameIsStep(h: Heap)
    requires Inv(h)
    ensures Step(h, h)
  {
    assert TakeStep(h, h);
  }

  /** The heap takes the step that the name says; a mapping leaves it as it is. */
  lemma HeapStep(m: Store, m': Store)
    requires Inv(m.h) && AllocatorStep(m, m')
    ensures Step(m.h, m'.h)
  {
    SameIsStep(m.h);
    hide PopStep, FreeStep, RefillStep, VirtStep, TakeStep, ReceiveStep, ListRepresented, ChangesOnlyBehind, InBlock, BlockSize;
  }

  lemma BackedStays(m: Store, m': Store)
    requires Inv(m.h) && Backed(m) && AllocatorStep(m, m')
    ensures Backed(m')
  {
    hide Inv, Push, Pop, Refill, Reserve, Live, Unbacked;
    forall v | v in m.backing ensures Live(m'.h, m.backing[v], 9) {
      hide AllocatorStep;
      BackingStaysLive(m, m', m.backing[v], 9);
    }
    if b, v, a :| Back(m, m', b, v, a) {
      NewBacking(m, m', b, v, a);
    } else {
      SameBacking(m, m');
    }
  }

  lemma SameBacking(m: Store, m': Store)
    requires AllocatorStep(m, m') && !(exists b, v, a :: Back(m, m', b, v, a))
    ensures m'.backing == m.backing
  {
    hide ListRepresented, ChangesOnlyBehind, OtherHeadsSame, FreeStep, PopStep, RefillStep, VirtStep, TakeStep, ReceiveStep, Back, InBlock, Whole;
  }

  lemma NewBacking(m: Store, m': Store, b: int, v: int, a: int)
    requires Backed(m) && Back(m, m', b, v, a)
    ensures m'.backing == m.backing[v := a] && v !in m.backing && v % 0x1000 == 0 && Live(m'.h, a, 9)
    ensures forall u :: u in m.backing ==> m.backing[u] != a
  {
    hide BlockSize;
    forall u | u in m.backing ensures m.backing[u] != a { assert m.backing[u] in m.backing.Values; }
  }

  /** Listed blocks stay whole: a freed one was, and a cut page is in the window. */
  lemma WholeStays(m: Store, m': Store)
    requires MemoryInv(m) && AllocatorStep(m, m') && Inv(m'.h)
    ensures AllWhole(m')
  {
    hide Inv, AllRepresented, Backed, AllocatorStep, Whole;
    StepExtends(m, m');
    forall a | a in m'.h.blocks && m'.h.blocks[a].core.Some? ensures Whole(m', a, m'.h.blocks[a].class_) {
      if Whole(m, a, m'.h.blocks[a].class_) {
        WholeExtends(m, m', a, m'.h.blocks[a].class_);
      } else {
        NewlyListed(m, m', a);
        SmallIsWhole(m', a);
      }
    }
  }

  lemma WholeExtends(m: Store, m': Store, a: int, class_: nat)
    requires Extends(m, m') && Whole(m, a, class_)
    ensures Whole(m', a, class_)
  {
    hide BlockSize, InBlock;
  }

  lemma SmallIsWhole(m: Store, a: int)
    requires Inv(m.h) && a in m.h.blocks && BlockSize(m.h.blocks[a].class_) <= 0x1000
    ensures Whole(m, a, m.h.blocks[a].class_)
  {
    hide ListsMatch, AllSeparate, Covers, Sorted, Pow2;
    assert Placed(a, m.h.blocks[a].class_, m.h.free, m.h.nextVirt);
  }

  /** A listed block that was not whole before comes from a page that was just cut. */
  lemma NewlyListed(m: Store, m': Store, a: int)
    requires AllWhole(m) && AllocatorStep(m, m') && a in m'.h.blocks && m'.h.blocks[a].core.Some?
    requires !Whole(m, a, m'.h.blocks[a].class_)
    ensures BlockSize(m'.h.blocks[a].class_) <= 0x1000
  {
    hide Whole, ListRepresented, ChangesOnlyBehind, OtherHeadsSame, BlockSize, AllocPost, CutPage, InBlock, Unbacked, MapAccepts;
    assert !(a in m.h.blocks && m.h.blocks[a] == m'.h.blocks[a]);
  }

  /* ---- Whole runs -------------------------------------------------------------------------------------- */

  lemma AllocatorKeeps(m: Store, m': Store)
    requires MemoryInv(m) && AllocatorStep(m, m')
    ensures MemoryInv(m')
  {
    hide Inv, AllRepresented, Backed, AllWhole, Push, Pop, Refill, Reserve, Unbacked, Step, Extends;
    HeapStep(m, m');
    StepKeepsInv(m.h, m'.h);
    BackedStays(m, m');
    WholeStays(m, m');
    StepExtends(m, m');
    if core, k, a :| Push(m, m', core, k, a) {
      PushRepresents(m, m', core, k, a);
    } else if core, k, a :| Pop(m, m', core, k, a) {
      PopRepresents(m, m', core, k, a);
    } else if core, k, page, regions :| Refill(m, m', core, k, page, regions) {
      RefillRepresents(m, m', core, k, page, regions);
    } else if b, v, a :| Back(m, m', b, v, a) {
      BackRepresents(m, m', b, v, a);
    } else {
      ReserveRepresents(m, m');
    }
  }

  /** In every state of every run, with clients writing into their blocks at any time, each free list of each
      core is intact in memory, seen through the translation. */
  lemma {:induction false} RunKeepsMemory(states: seq<Store>, k: nat)
    requires MemoryRun(states) && k < |states|
    ensures MemoryInv(states[k])
  {
    hide MemoryInv, AllocatorStep, ClientWrite;
    if k == 0 {
      EmptyMemory(states[0]);
    } else {
      RunKeepsMemory(states, k - 1);
      var m, m' := states[k - 1], states[k];
      assert AllocatorStep(m, states[k - 1 + 1]) || ClientWrite(m, states[k - 1 + 1]);
      if AllocatorStep(m, m') {
        AllocatorKeeps(m, m');
      } else {
        ClientKeeps(m, m');
      }
    }
  }

  lemma ClientKeeps(m: Store, m': Store)
    requires MemoryInv(m) && ClientWrite(m, m')
    ensures MemoryInv(m')
  {
    hide Inv, OnSomeList, AllRepresented;
    ClientRepresents(m, m');
  }

  lemma EmptyMemory(m: Store)
    requires Sorted(m.h.free) && m == Store(Heap(map[], map[], m.h.free, VMEM_BASE), m.phys, map[], map[])
    ensures MemoryInv(m)
  {
    EmptyInv(m.h);
    hide Inv;
    forall core: nat, k: nat | k < CLASSES ensures ListRepresented(m, core, k) {
      assert ListOf(m.h, core, k) == [] && HeadOf(m, core, k) == 0;
    }
  }

  /** Over every run, distinct addresses of blocks are distinct words of physical memory that is not free. */
  lemma RunKeepsApart(states: seq<Store>, k: nat, a: int, x: int, b: int, y: int)
    requires MemoryRun(states) && k < |states| && Usable(states[k], a, x) && Usable(states[k], b, y) && x != y
    ensures Physical(states[k], x) != Physical(states[k], y) && !Covers(states[k].h.free, Physical(states[k], x))
  {
    hide MemoryRun, Inv, AllRepresented, AllWhole, Backed, Usable, Physical;
    RunKeepsMemory(states, k);
    PhysicallyApart(states[k], a, x, b, y);
    PhysicallyTaken(states[k], a, x);
  }

  /** The word at an address of a large block is also seen in the window, in the page behind it. */
  lemma SeenTwice(m: Store, x: int)
    requires Inv(m.h) && Backed(m) && !InWindow(x) && Mapped(m, x)
    ensures var y := m.backing[x - x % 0x1000] + x % 0x1000; InWindow(y) && Physical(m, y) == Physical(m, x) && View(m)(y) == View(m)(x)
  {
    hide Inv;
    PageBehind(m, x);
  }

  /** What a client sees: from one state of a run to the next, the words of a block that it keeps change only
      if clients change them. */
  lemma ClientsOwnTheirBlocks(states: seq<Store>, k: nat, b: int, class_: nat, x: int)
    requires MemoryRun(states) && k + 1 < |states| && AllocatorStep(states[k], states[k + 1])
    requires Live(states[k].h, b, class_) && Live(states[k + 1].h, b, class_) && Usable(states[k], b, x)
    ensures Mapped(states[k + 1], x) && View(states[k + 1])(x) == View(states[k])(x)
  {
    hide AllocatorStep, MemoryRun, MemoryInv, Live, Usable, View;
    RunKeepsMemory(states, k);
    LiveWordsKept(states[k], states[k + 1], b, class_, x);
  }

  /** A client may write to its own live block: that is never behind a listed block, it changes what is seen
      there, and nothing that is seen in any other word of a block. */
  lemma OwnWordIsOwn(m: Store, a: int, x: int, val: u64, b: int, y: int)
    requires MemoryInv(m) && Usable(m, a, x) && m.h.blocks[a].core.None?
    ensures var m' := m.(phys := Written(m.phys, Physical(m, x), val));
      && ClientWrite(m, m') && View(m')(x) == val
      && (Usable(m, b, y) && y != x ==> View(m')(y) == View(m)(y))
  {
    hide Inv, AllRepresented, Backed, AllWhole, BlockSize, Physical;
    forall z | OnSomeList(m.h, z) && Mapped(m, z) ensures Physical(m, z) != Physical(m, x) {
      var c :| c in m.h.blocks && m.h.blocks[c].core.Some? && InBlock(c, BlockSize(m.h.blocks[c].class_), z);
      ListedIsUsable(m, c, z);
      DifferentBlocks(m.h, c, z, a, x);
      PhysicallyApart(m, c, z, a, x);
    }
    if Usable(m, b, y) && y != x { PhysicallyApart(m, b, y, a, x); }
    SameTranslation(m, m.(phys := Written(m.phys, Physical(m, x), val)), x);
    SameTranslation(m, m.(phys := Written(m.phys, Physical(m, x), val)), y);
  }

  lemma SameTranslation(m: Store, m': Store, x: int)
    requires m'.backing == m.backing
    ensures Mapped(m', x) == Mapped(m, x) && (Mapped(m, x) ==> Physical(m', x) == Physical(m, x))
  {
  }

  /* ---- What the operations promise is such a step --------------------------------------------------------- */

  /** An address at which the blocks show the physical word at `p`. */
  ghost function ShownAt(m: Store, blocks: seq<int>, size: int, p: int): (x: int)
    requires Behind(m, blocks, size, p)
    ensures BehindAt(m, blocks, size, p, x)
  {
    var x :| BehindAt(m, blocks, size, p, x); x
  }

  ghost function PhysicalWord(m: Store, blocks: seq<int>, size: int, words: Words, p: int): u64 {
    if Behind(m, blocks, size, p) then words(ShownAt(m, blocks, size, p)) else m.phys(p)
  }

  /** Physical memory after an operation that left `words` to be seen in its blocks. */
  ghost function StoredBehind(m: Store, blocks: seq<int>, size: int, words: Words): Words {
    (p: int) => PhysicalWord(m, blocks, size, words, p)
  }

  /** The blocks show exactly what was written: no two of their addresses share a word. */
  lemma ShowsWritten(m: Store, m': Store, blocks: seq<int>, class_: nat, words: Words, x: int)
    requires Inv(m.h) && Backed(m) && BlocksOf(m, blocks, class_) && m'.backing == m.backing
    requires m'.phys == StoredBehind(m, blocks, BlockSize(class_), words)
    requires InSome(blocks, BlockSize(class_), x) && Mapped(m, x)
    ensures View(m')(x) == words(x)
  {
    hide Inv, Backed, BlockSize, Mapped, Physical;
    SameTranslation(m, m', x);
    var size, p := BlockSize(class_), Physical(m, x);
    assert BehindAt(m, blocks, size, p, x);
    var y := ShownAt(m, blocks, size, p);
    if y != x {
      var i :| 0 <= i < |blocks| && InBlock(blocks[i], size, x);
      var j :| 0 <= j < |blocks| && InBlock(blocks[j], size, y);
      PhysicallyApart(m, blocks[i], x, blocks[j], y);
    }
  }

  /** A list that is represented in what was written is represented in memory. */
  lemma WrittenListRepresented(m: Store, m': Store, blocks: seq<int>, core: nat, class_: nat, words: Words)
    requires Inv(m.h) && Backed(m) && BlocksOf(m, blocks, class_) && m'.backing == m.backing
    requires m'.phys == StoredBehind(m, blocks, BlockSize(class_), words)
    requires forall t :: t in blocks ==> Whole(m, t, class_)
    requires forall t :: t in ListOf(m'.h, core, class_) ==> t in blocks
    requires Represents(words, HeadOf(m', core, class_), BlockSize(class_), ListOf(m'.h, core, class_))
    ensures ListRepresented(m', core, class_)
  {
    hide Inv, Backed, BlockSize, Represents, View, BlocksOf, Mapped, StoredBehind, ListOf, HeadOf, InBlock;
    ClassSizes(class_);
    var list := ListOf(m'.h, core, class_);
    forall i, x | 0 <= i < |list| && InBlock(list[i], BlockSize(class_), x) ensures View(m')(x) == words(x) {
      assert list[i] in blocks;
      var j :| 0 <= j < |blocks| && blocks[j] == list[i];
      assert InSome(blocks, BlockSize(class_), x) && Whole(m, blocks[j], class_);
      ShowsWritten(m, m', blocks, class_, words, x);
    }
    RepresentsFrame(words, View(m'), HeadOf(m', core, class_), BlockSize(class_), list);
  }

  lemma StoredOnlyBehind(m: Store, blocks: seq<int>, size: int, words: Words)
    ensures ChangesOnlyBehind(m, StoredBehind(m, blocks, size, words), blocks, size)
  {
    hide BehindAt;
  }

  lemma ListIsWhole(m: Store, core: nat, class_: nat)
    requires Inv(m.h) && AllWhole(m)
    ensures forall t :: t in ListOf(m.h, core, class_) ==> Whole(m, t, class_)
  {
    hide Inv, Whole;
    InvLists(m.h);
    ListedHomes(m.h, core, class_);
  }

  /** `FreeList.Push` leaves `words` to be seen, in which the longer stack is represented. */
  lemma PushIsMemoryStep(m: Store, core: nat, class_: nat, a: int, words: Words, head: u64) returns (m': Store)
    requires MemoryInv(m) && class_ < CLASSES && Live(m.h, a, class_) && a !in m.backing.Values && Whole(m, a, class_)
    requires Represents(words, head, BlockSize(class_), [a] + ListOf(m.h, core, class_))
    ensures Push(m, m', core, class_, a) && HeadOf(m', core, class_) == head
    ensures forall x :: InSome([a] + ListOf(m.h, core, class_), BlockSize(class_), x) ==> View(m')(x) == words(x)
  {
    hide Represents, BlockSize, Inv, AllRepresented, Backed, AllWhole, Whole, View, StoredBehind, ChangesOnlyBehind, BlocksOf;
    var list := [a] + ListOf(m.h, core, class_);
    var h := m.h.(lists := m.h.lists[(core, class_) := list], blocks := m.h.blocks[a := Home(class_, Some(core))]);
    m' := Store(h, StoredBehind(m, list, BlockSize(class_), words), m.heads[(core, class_) := head], m.backing);
    assert ListOf(h, core, class_) == list;
    ListIsWhole(m, core, class_);
    ListedNotBehind(m, core, class_);
    OneMoreBlock(m, a, ListOf(m.h, core, class_), class_);
    StoredOnlyBehind(m, list, BlockSize(class_), words);
    WrittenListRepresented(m, m', list, core, class_, words);
    ShowsAll(m, m', list, class_, words);
  }

  lemma OneMoreBlock(m: Store, a: int, list: seq<int>, class_: nat)
    requires BlocksOf(m, list, class_) && Live(m.h, a, class_) && a !in m.backing.Values
    ensures BlocksOf(m, [a] + list, class_)
  {
  }

  lemma ShowsAll(m: Store, m': Store, blocks: seq<int>, class_: nat, words: Words)
    requires Inv(m.h) && Backed(m) && BlocksOf(m, blocks, class_) && m'.backing == m.backing
    requires m'.phys == StoredBehind(m, blocks, BlockSize(class_), words) && forall t :: t in blocks ==> Whole(m, t, class_)
    ensures forall x :: InSome(blocks, BlockSize(class_), x) ==> View(m')(x) == words(x)
  {
    hide Inv, Backed, BlockSize, View, BlocksOf, Mapped, StoredBehind, InBlock;
    forall x | InSome(blocks, BlockSize(class_), x) ensures View(m')(x) == words(x) {
      var j :| 0 <= j < |blocks| && InBlock(blocks[j], BlockSize(class_), x);
      assert Whole(m, blocks[j], class_);
      ShowsWritten(m, m', blocks, class_, words, x);
    }
  }

  /** `FreeList.TakeTop` leaves `words` to be seen, in which the rest of the stack is represented. */
  lemma PopIsMemoryStep(m: Store, core: nat, class_: nat, words: Words, head: u64) returns (m': Store)
    requires MemoryInv(m) && class_ < CLASSES && ListOf(m.h, core, class_) != []
    requires Represents(words, head, BlockSize(class_), ListOf(m.h, core, class_)[1..])
    ensures Pop(m, m', core, class_, ListOf(m.h, core, class_)[0]) && HeadOf(m', core, class_) == head
    ensures forall x :: InSome(ListOf(m.h, core, class_), BlockSize(class_), x) ==> View(m')(x) == words(x)
  {
    hide Represents, BlockSize, Inv, AllRepresented, Backed, AllWhole, Whole, View, StoredBehind, ChangesOnlyBehind, BlocksOf;
    var list := ListOf(m.h, core, class_);
    var h := m.h.(lists := m.h.lists[(core, class_) := list[1..]], blocks := m.h.blocks[list[0] := Home(class_, None)]);
    m' := Store(h, StoredBehind(m, list, BlockSize(class_), words), m.heads[(core, class_) := head], m.backing);
    assert ListOf(h, core, class_) == list[1..];
    ListIsWhole(m, core, class_);
    ListedNotBehind(m, core, class_);
    StoredOnlyBehind(m, list, BlockSize(class_), words);
    WrittenListRepresented(m, m', list, core, class_, words);
    ShowsAll(m, m', list, class_, words);
  }

  /** Physical memory after a page of the window was written through its own addresses. */
  ghost function PageStored(m: Store, page: u64, words: Words): Words {
    (p: int) => PageWord(m, page, words, p)
  }

  ghost function PageWord(m: Store, page: u64, words: Words, p: int): u64 {
    if InBlock(page, 0x1000, p) then words(WINDOW_BASE + p) else m.phys(p)
  }

  /** `FreeList.AddPage` on an empty list leaves `words` to be seen in the page, in which the stack of its blocks
      is represented. */
  lemma RefillIsMemoryStep(m: Store, core: nat, class_: nat, page: u64, regions: seq<Range>, free': seq<Range>, words: Words, head: u64)
    returns (m': Store)
    requires MemoryInv(m) && class_ < CLASSES && ListOf(m.h, core, class_) == [] && BlockSize(class_) <= 0x1000
    requires AllValid(m.h.free) && AllValid(regions) && page + 0x1000 <= WINDOW_SIZE
    requires AllocPost(m.h.free, regions, 0x1000, 0x1000, CAPACITY, Allocated(page), free')
    requires Represents(words, head, BlockSize(class_), CutPage(page, class_))
    ensures Refill(m, m', core, class_, page, regions) && HeadOf(m', core, class_) == head && m'.h.free == free'
    ensures ListOf(m'.h, core, class_) == CutPage(page, class_)
    ensures forall x :: InBlock(WINDOW_BASE + page, 0x1000, x) ==> View(m')(x) == words(x)
  {
    hide Represents, BlockSize, Inv, AllRepresented, Backed, AllWhole, AllocPost, CutPage, View;
    var cut := CutPage(page, class_);
    var h := Heap(m.h.lists[(core, class_) := cut], m.h.blocks + (map a | a in cut :: Home(class_, Some(core))), free', m.h.nextVirt);
    m' := Store(h, PageStored(m, page, words), m.heads[(core, class_) := head], m.backing);
    assert ListOf(h, core, class_) == cut && RefillStep(m.h, h, core, class_, page, regions);
    forall x | InBlock(WINDOW_BASE + page, 0x1000, x) ensures View(m')(x) == words(x) { PageShows(m, m', page, words, x); }
    RefillCarves(m.h.free, free', page, regions);
    CutRepresented(m', page, class_, words, head);
  }

  lemma PageShows(m: Store, m': Store, page: u64, words: Words, x: int)
    requires page + 0x1000 <= WINDOW_SIZE && m'.phys == PageStored(m, page, words) && InBlock(WINDOW_BASE + page, 0x1000, x)
    ensures View(m')(x) == words(x)
  {
  }

  lemma CutRepresented(m': Store, page: u64, class_: nat, words: Words, head: u64)
    requires page % 0x1000 == 0 && BlockSize(class_) <= 0x1000 && Represents(words, head, BlockSize(class_), CutPage(page, class_))
    requires forall x :: InBlock(WINDOW_BASE + page, 0x1000, x) ==> View(m')(x) == words(x)
    ensures Represents(View(m'), head, BlockSize(class_), CutPage(page, class_))
  {
    hide Represents, BlockSize, CutPage, View;
    ClassSizes(class_);
    PageClass(class_);
    var cut := CutPage(page, class_);
    forall i, x | 0 <= i < |cut| && InBlock(cut[i], BlockSize(class_), x) ensures View(m')(x) == words(x) {
      CutBlock(page, class_, i);
    }
    RepresentsFrame(words, View(m'), head, BlockSize(class_), cut);
  }
}
