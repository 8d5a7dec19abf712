/** The kernel's address space as `load_kernel` leaves it (bootloader/src/main.rs): the segments of the
    image, the trampoline page and the linear window onto physical memory, in one table. */
module KernelSpace {
  import opened Machine
  import opened MemoryMap
  import opened Ranges
  import opened Allocation
  import opened PageWalks
  import opened PageTrees
  import opened PageEdits
  import opened PhysicalMemories
  import opened PageTables
  import opened Loading
  import opened KernelLoader

  /** The raw entry for a page of the window: writable, present and, for large pages, the size bit. */
  function WindowEntry(paddr: u64, pageType: PageType): u64
    requires paddr < WINDOW_SIZE
  {
    paddr + 3 + if pageType.Page4K? then 0 else 0x80
  }

  lemma WindowEntryFields(paddr: u64, pageType: PageType)
    requires paddr < WINDOW_SIZE && paddr % pageType.Size() == 0
    ensures var e := WindowEntry(paddr, pageType);
      Present(e) && (pageType != Page4K ==> Large(e)) && PageBase(e, pageType.Depth() - 1) == paddr
  {
    hide Present, Large, TableOf, Span;
    AlignedPage(paddr, pageType);
    LowEntryFields(paddr, 3 + if pageType.Page4K? then 0 else 0x80);
  }

  /** Address `u` of the window reaches the physical address at its offset. */
  ghost predicate Sees(w: seq<u64>, root: int, u: u64, pageType: PageType) {
    var page := Lookup(w, root, u);
    && page.Some? && page.value.base + page.value.offset == u - WINDOW_BASE
    && 0 <= page.value.base < WINDOW_SIZE && page.value.raw == WindowEntry(page.value.base, pageType)
    && Grants(page.value.raw, WindowRights)
  }

  /** The kernel, and only the kernel, may do anything with the window. */
  const WindowRights := Permissions(true, true, false, true)

  lemma WindowEntryGrants(paddr: u64, pageType: PageType)
    requires paddr < WINDOW_SIZE && paddr % pageType.Size() == 0
    ensures Grants(WindowEntry(paddr, pageType), WindowRights)
  {
    AlignedPage(paddr, pageType);
    var low := 3 + if pageType.Page4K? then 0 else 0x80;
    hide Span;
    var a := paddr / 0x1000;
    assert WindowEntry(paddr, pageType) == low + a * 0x1000;
    FlagBits(low, a);
    ModSmall(paddr + low, 0x8000_0000_0000_0000);
  }

  /** The first `n` bytes of the window are mapped. */
  ghost predicate WindowMapped(w: seq<u64>, root: int, pageType: PageType, n: int) {
    forall u: u64 :: WINDOW_BASE <= u < WINDOW_BASE + n ==> Sees(w, root, u, pageType)
  }

  lemma WindowCanonical(u: u64)
    requires u >= 0xFFFF_8000_0000_0000
    ensures Canonical(u)
  {
  }

  /** Mapping one more page of the window. */
  lemma WindowGrows(w: seq<u64>, w': seq<u64>, root: int, pageType: PageType, paddr: u64)
    requires paddr < WINDOW_SIZE && paddr % pageType.Size() == 0 && (WINDOW_BASE + paddr) % pageType.Size() == 0
    requires WindowMapped(w, root, pageType, paddr)
    requires MapsOnly(w, w', root, WINDOW_BASE + paddr, pageType, WindowEntry(paddr, pageType)) && KeepsMapped(w, w', root)
    ensures WindowMapped(w', root, pageType, paddr + pageType.Size())
  {
    WindowEntryGrants(paddr, pageType);
    hide Lookup, Canonical, Span, PageBase, WindowEntry, Grants;
    var v := WINDOW_BASE + paddr;
    WindowEntryFields(paddr, pageType);
    forall u: u64 | WINDOW_BASE <= u < WINDOW_BASE + paddr + pageType.Size() ensures Sees(w', root, u, pageType) {
      WindowCanonical(u);
      PageAddresses(v, u, pageType.Size());
      if u < v {
        assert Sees(w, root, u, pageType);
      }
    }
  }

  lemma WindowAlignment(pageType: PageType, k: nat)
    ensures k * pageType.Size() % pageType.Size() == 0 && (WINDOW_BASE + k * pageType.Size()) % pageType.Size() == 0
    ensures k * pageType.Size() < WINDOW_SIZE ==> (k + 1) * pageType.Size() <= WINDOW_SIZE
  {
    var unit := pageType.Size();
    ModAddMultiple(0, k, unit);
    ModAddMultiple(WINDOW_BASE, k, unit);
    var n := if pageType.Page4K? then 0x1000_0000 else if pageType.Page2M? then 0x8_0000 else 0x400;
    assert n * unit == WINDOW_SIZE;
    if k < n { MulMonotone(k + 1, n, unit); } else { MulMonotone(n, k, unit); }
  }

  /** The loop over the physical window; stops where the source panics. */
  method MapWindow(pt: PageTable, pm: PhysicalMemory, pageType: PageType) returns (failure: Option<LoadFailure>)
    requires pt.Valid(pm)
    modifies pt, pm, pm.free, pm.free.ranges
    ensures pt.Valid(pm) && KeepsMapped(old(pm.words), pm.words, pt.table)
    ensures Grows(old(pm.words), old(pt.tree), old(pm.free.Entries()), pm.words, pt.tree, pm.free.Entries())
    ensures Unavailable(old(pm.free.Entries()), 0x1000) ==> pm.free.Entries() == old(pm.free.Entries())
    ensures failure.None? ==> WindowMapped(pm.words, pt.table, pageType, WINDOW_SIZE)
    ensures failure.Some? ==> WindowFailure(old(pm.words), pt.table, pageType, pm.free.Entries(), failure.value)
    ensures failure.Some? ==> WindowFailure(pm.words, pt.table, pageType, pm.free.Entries(), failure.value)
  {
    hide IsTree, Apart, Grows, KeepsMapped, WindowMapped, MapsOnly, WindowEntry, Span, Walk, Canonical, PageBase, Present, Large,
         SameLookups, Unavailable, Refuses, AddedAbove, OthersKept;
    ghost var w, t, f, unit := pm.words, pt.tree, pm.free.Entries(), pageType.Size();
    GrowsRefl(w, t, f);
    KeepsMappedRefl(w, pt.table);
    NoWindow(w, pt.table, pageType);
    NothingAdded(t, pageType);
    OthersKeptRefl(w, pt.table, WINDOW_BASE, WINDOW_BASE);
    ghost var k := 0;
    var paddr := 0;
    while paddr < WINDOW_SIZE
      invariant paddr == k * unit <= WINDOW_SIZE && k >= 0
      invariant pt.Valid(pm) && AddedAbove(t, pt.tree, pageType.Depth())
      invariant Grows(w, t, f, pm.words, pt.tree, pm.free.Entries()) && KeepsMapped(w, pm.words, pt.table)
      invariant OthersKept(w, pm.words, pt.table, WINDOW_BASE, WINDOW_BASE + paddr)
      invariant WindowMapped(pm.words, pt.table, pageType, paddr)
      invariant Unavailable(f, 0x1000) ==> pm.free.Entries() == f
      decreases WINDOW_SIZE - paddr
    {
      ghost var w1, t1, f1 := pm.words, pt.tree, pm.free.Entries();
      WindowAlignment(pageType, k);
      WindowEntryFields(paddr, pageType);
      RefusedBefore(w, t, f, w1, t1, f1, WINDOW_BASE, WINDOW_SIZE, pageType, k, WINDOW_BASE + paddr);
      var r := pt.MapRaw(pm, WINDOW_BASE + paddr, pageType, WindowEntry(paddr, pageType));
      GrowsTrans(w, t, f, w1, t1, f1, pm.words, pt.tree, pm.free.Entries());
      if r.Panicked? {
        SameThenKept(w, w1, pm.words, pt.table);
        return Some(OutOfMemory);
      } else if r.Rejected? {
        return Some(WindowRefused(paddr));
      }
      KeepsMappedTrans(w, w1, pm.words, pt.table);
      AddedTrans(t, t1, pt.tree, pageType.Depth());
      WindowOthers(w, w1, pm.words, pt.table, pageType, paddr);
      WindowGrows(w1, pm.words, pt.table, pageType, paddr);
      assert (k + 1) * unit == k * unit + unit;
      paddr, k := paddr + pageType.Size(), k + 1;
    }
    failure := None;
  }

  /** The window cannot be mapped: no memory for tables, or a page of it was in use before. */
  ghost predicate WindowFailure(words: seq<u64>, root: int, pageType: PageType, free: seq<Range>, failure: LoadFailure)
    requires AllValid(free)
  {
    match failure
    case OutOfMemory => Unavailable(free, 0x1000)
    case WindowRefused(paddr) =>
      paddr < WINDOW_SIZE && paddr % pageType.Size() == 0 && Refuses(words, root, WINDOW_BASE + paddr, pageType)
    case _ => false
  }

  lemma OthersKeptRefl(w: seq<u64>, root: int, lo: int, hi: int)
    ensures OthersKept(w, w, root, lo, hi)
  {
  }

  lemma SameThenKept(w: seq<u64>, w1: seq<u64>, w2: seq<u64>, root: int)
    requires KeepsMapped(w, w1, root) && SameLookups(w1, w2, root)
    ensures KeepsMapped(w, w2, root)
  {
    hide Lookup, Canonical;
  }

  lemma WindowOthers(w: seq<u64>, w1: seq<u64>, w2: seq<u64>, root: int, pageType: PageType, paddr: u64)
    requires paddr < WINDOW_SIZE && (WINDOW_BASE + paddr) % pageType.Size() == 0
    requires OthersKept(w, w1, root, WINDOW_BASE, WINDOW_BASE + paddr)
    requires MapsOnly(w1, w2, root, WINDOW_BASE + paddr, pageType, WindowEntry(paddr, pageType))
    ensures OthersKept(w, w2, root, WINDOW_BASE, WINDOW_BASE + paddr + pageType.Size())
  {
    hide Lookup, Canonical, Span, PageBase, WindowEntry;
    forall u: u64 | Canonical(u) && !(WINDOW_BASE <= u < WINDOW_BASE + paddr + pageType.Size())
      ensures Lookup(w2, root, u) == Lookup(w, root, u)
    {
      PageAddresses(WINDOW_BASE + paddr, u, pageType.Size());
    }
  }

  lemma NoWindow(w: seq<u64>, root: int, pageType: PageType)
    ensures WindowMapped(w, root, pageType, 0)
  {
  }

  /** The window is taken: a region that reaches into it has a page that `map` refuses. */
  lemma WindowIsTaken(w: seq<u64>, root: int, pageType: PageType, vaddr: u64, size: u64)
    requires WindowMapped(w, root, pageType, WINDOW_SIZE) && vaddr % 0x1000 == 0
    requires size > 0 && vaddr < WINDOW_BASE + WINDOW_SIZE && WINDOW_BASE < vaddr + size
    ensures SomePageRefused(w, root, vaddr, size, Page4K)
  {
    hide Lookup, Canonical, WindowEntry, Walk, Grants;
    var v := Max(vaddr, WINDOW_BASE);
    var k := (v - vaddr) / 0x1000;
    DivModUnique(v - vaddr, v / 0x1000 - vaddr / 0x1000, 0, 0x1000);
    assert PageStart(vaddr, Page4K, k) == v;
    assert Sees(w, root, v, pageType);
    assert PageRefused(w, root, vaddr, size, Page4K, k);
  }

  /** `PageTable::new`. */
  method NewTable(pm: PhysicalMemory) returns (r: Option<PageTable>)
    requires pm.Valid()
    modifies pm, pm.free, pm.free.ranges
    ensures pm.Valid()
    ensures r.None? ==> pm.words == old(pm.words) && pm.free.Entries() == old(pm.free.Entries())
    ensures r.None? <==> Unavailable(old(pm.free.Entries()), 0x1000)
    ensures r.Some? ==> fresh(r.value) && r.value.Valid(pm) && Counted(pm.words, r.value.tree, None) && AllOpen(pm.words, r.value.tree)
    ensures r.Some? ==> forall v: u64 :: Lookup(pm.words, r.value.table, v) == None
  {
    hide IsTree, Counted, AllOpen, Lookup, Covers, Unavailable;
    var page := pm.AllocPageZeroed();
    if page.None? {
      return None;
    }
    forall j | 0 <= j < 512 ensures Read(pm.words, page.value + j * 8) == 0 {
      assert (page.value + j * 8) / 8 == page.value / 8 + j;
    }
    var pt := new PageTable(pm, page.value);
    r := Some(pt);
  }

  /** All of `load_kernel`. In the table it leaves, every segment whose mapping succeeded holds its
      bytes, the trampoline has its raw entry, the window is linear, and every reference count is right. It
      panics only for want of memory, for a bad segment, or where the trampoline or a page of the window
      finds its address taken. */
  method LoadKernel(file: seq<byte>, pm: PhysicalMemory, trampoline: u64, pageType: PageType)
    returns (r: Result<PageTable, LoadFailure>, results: map<nat, InitResult>, ghost root: int)
    requires pm.Valid()
    modifies pm, pm.free, pm.free.ranges
    ensures pm.Valid()
    ensures r.Ok? ==> fresh(r.value) && r.value.Valid(pm) && Counted(pm.words, r.value.tree, None) && AllOpen(pm.words, r.value.tree)
    ensures r == Err(BadImage) <==> !Elf.Parse(file).Parsed?
    ensures r.Ok? ==> |file| >= 0x3A && HeadersLoaded(file, results, pm.words, r.value.tree, pm.free.Entries())
    ensures r.Ok? && WellLaidOut(Elf.Parse(file).image) ==> AllMapped(results) || Unavailable(pm.free.Entries(), 0x1000)
    ensures r.Ok? ==> WindowMapped(pm.words, r.value.table, pageType, WINDOW_SIZE)
    ensures r.Ok? ==> Lookup(pm.words, r.value.table, TRAMPOLINE_ADDR) == Some(Page(PageBase(trampoline, 3), 0, trampoline))
    ensures r.Err? ==>
      match r.error
      case BadImage => true
      case NoTrampoline => trampoline == 0
      case TrampolineRefused => !Present(trampoline) || Lookup(pm.words, root, TRAMPOLINE_ADDR).Some?
      case WindowRefused(_) => WindowFailure(pm.words, root, pageType, pm.free.Entries(), r.error)
      case e => Elf.Parse(file).Parsed? && SegmentFailure(Elf.Parse(file).image, pm.free.Entries(), e)
  {
    hide IsTree, Counted, AllOpen, Apart, Grows, KeepsMapped, MapsOnly, WindowMapped, SegmentLoaded, SegmentAt, Lookup, PageBase, Present, Large,
         Walk, Canonical, Unavailable, SameLookups, AddedAbove, Elf.Parse, HeadersLoaded, WellLaidOut, NothingInTheWay, AllMapped;
    results, root := map[], 0;
    var parsed := Elf.Parse(file);
    if !parsed.Parsed? {
      return Err(BadImage), results, root;
    }
    var image := parsed.image;
    var created := NewTable(pm);
    if created.None? {
      return Err(OutOfMemory), results, root;
    }
    var pt := created.value;
    root := pt.table;
    ghost var w0, t0, f0 := pm.words, pt.tree, pm.free.Entries();
    EmptyTableIsFree(image, pm.words, pt.table);
    var failure;
    failure, results := LoadSegments(image, pt, pm);
    if failure.Some? {
      return Err(failure.value), results, root;
    }
    if trampoline == 0 {
      return Err(NoTrampoline), results, root;
    }
    ghost var w1, t1, f1 := pm.words, pt.tree, pm.free.Entries();
    var mapped := pt.MapRaw(pm, TRAMPOLINE_ADDR, Page4K, trampoline);
    if mapped.Panicked? {
      return Err(OutOfMemory), results, root;
    } else if mapped.Rejected? {
      AtMostFour(pm.words, pt.table, TRAMPOLINE_ADDR, 0);
      WindowCanonical(TRAMPOLINE_ADDR);
      return Err(TrampolineRefused), results, root;
    }
    ghost var w2, t2, f2 := pm.words, pt.tree, pm.free.Entries();
    TrampolineMapped(w1, w2, pt.table, trampoline);
    failure := MapWindow(pt, pm, pageType);
    if failure.Some? {
      return Err(failure.value), results, root;
    }
    GrowsTrans(w1, t1, f1, w2, t2, f2, pm.words, pt.tree, pm.free.Entries());
    KeepsMappedTrans(w1, w2, pm.words, pt.table);
    StillLoaded(image, results, w1, t1, f1, pm.words, pt.tree, pm.free.Entries());
    TriedHeadersLoaded(file, results, pm.words, pt.tree, pm.free.Entries());
    GrowsTrans(w0, t0, f0, w1, t1, f1, pm.words, pt.tree, pm.free.Entries());
    CountedAfterGrowth(w0, t0, f0, pm.words, pt.tree, pm.free.Entries());
    TrampolineKept(w2, pm.words, pt.table, trampoline);
    r := Ok(pt);
  }

  lemma TrampolineMapped(w: seq<u64>, w': seq<u64>, root: int, raw: u64)
    requires MapsOnly(w, w', root, TRAMPOLINE_ADDR, Page4K, raw)
    ensures Lookup(w', root, TRAMPOLINE_ADDR) == Some(Page(PageBase(raw, 3), 0, raw))
  {
    hide Lookup, PageBase, Canonical;
    WindowCanonical(TRAMPOLINE_ADDR);
  }

  lemma TrampolineKept(w: seq<u64>, w': seq<u64>, root: int, raw: u64)
    requires Lookup(w, root, TRAMPOLINE_ADDR) == Some(Page(PageBase(raw, 3), 0, raw)) && KeepsMapped(w, w', root)
    ensures Lookup(w', root, TRAMPOLINE_ADDR) == Some(Page(PageBase(raw, 3), 0, raw))
  {
    hide Lookup, PageBase, Canonical;
    WindowCanonical(TRAMPOLINE_ADDR);
  }
}
