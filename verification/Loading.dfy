/** Mapping whole regions with initial contents (`PageTable::map_init`, shared/page_table/src/lib.rs). */
module Loading {
  import opened Machine
  import opened Bytes
  import opened Ranges
  import opened Allocation
  import opened PageWalks
  import opened PageTrees
  import opened PageEdits
  import opened PhysicalMemories
  import opened PageTables

  datatype Permissions = Permissions(write: bool, execute: bool, user: bool, cache: bool)

  function PermissionBits(p: Permissions): int {
    (if p.write then 2 else 0) + (if p.user then 4 else 0)
    + (if p.execute then 0 else 0x8000_0000_0000_0000) + (if p.cache then 0 else 0x10)
  }

  /** The entry for a page: address, present bit, permissions and, for large pages, the size bit. */
  function PageEntry(page: u64, pageType: PageType, p: Permissions): u64
    requires page < COUNT_UNIT
  {
    page + 1 + PermissionBits(p) + if pageType.Page4K? then 0 else 0x80
  }

  /** The bits of an entry that hold access rights allow exactly this: bit 1 writing, bit 2 user access, bit 63
      forbids execution, and bit 4 is set unless `cache` is. */
  predicate Grants(e: u64, p: Permissions) {
    && (e / 2 % 2 == 1 <==> p.write) && (e / 4 % 2 == 1 <==> p.user)
    && (e / 0x8000_0000_0000_0000 == 1 <==> !p.execute) && (e / 0x10 % 2 == 1 <==> !p.cache)
  }

  /** The low twelve bits of a page entry. */
  function LowFlags(pageType: PageType, p: Permissions): int {
    1 + (if p.write then 2 else 0) + (if p.user then 4 else 0) + (if p.cache then 0 else 0x10) + if pageType.Page4K? then 0 else 0x80
  }

  lemma LowFlagValues(pageType: PageType, p: Permissions)
    ensures var low := LowFlags(pageType, p);
      && 0 < low < 0x1000 && low % 2 == 1 && (pageType != Page4K ==> low / 0x80 % 2 == 1) && (low / 2 % 2 == 1 <==> p.write) && (low / 4 % 2 == 1 <==> p.user) && (low / 0x10 % 2 == 1 <==> !p.cache)
  {
  }

  lemma PageEntryGrants(page: u64, pageType: PageType, p: Permissions)
    requires page % pageType.Size() == 0 && page < COUNT_UNIT
    ensures Grants(PageEntry(page, pageType, p), p)
  {
    AlignedPage(page, pageType);
    LowFlagValues(pageType, p);
    var low, top := LowFlags(pageType, p), if p.execute then 0 else 1;
    assert PageEntry(page, pageType, p) == page + low + top * 0x8000_0000_0000_0000;
    hide Span, LowFlags, PageEntry;
    var a := page / 0x1000;
    assert page + low + top * 0x8000_0000_0000_0000 == low + (a + top * 0x8_0000_0000_0000) * 0x1000;
    FlagBits(low, a + top * 0x8_0000_0000_0000);
    DivModUnique(page + low + top * 0x8000_0000_0000_0000, top, page + low, 0x8000_0000_0000_0000);
  }

  /** The low twelve bits do not notice what is above them. */
  lemma FlagBits(low: int, a: int)
    requires 0 <= low < 0x1000
    ensures var e := low + a * 0x1000; e / 2 % 2 == low / 2 % 2 && e / 4 % 2 == low / 4 % 2 && e / 0x10 % 2 == low / 0x10 % 2
  {
    ModAddMultiple(low, a * 0x800, 2);
    ModAddMultiple(low / 2, a * 0x400, 2);
    ModAddMultiple(low, a * 0x400, 4);
    ModAddMultiple(low / 4, a * 0x200, 2);
    ModAddMultiple(low, a * 0x100, 0x10);
    ModAddMultiple(low / 0x10, a * 0x80, 2);
  }

  lemma AlignedPage(page: u64, pageType: PageType)
    requires page % pageType.Size() == 0
    ensures page % 0x1000 == 0
  {
    if pageType.Page1G? {
      DivModUnique(page, 0x4_0000 * (page / 0x4000_0000), 0, 0x1000);
    } else if pageType.Page2M? {
      DivModUnique(page, 0x200 * (page / 0x20_0000), 0, 0x1000);
    }
  }

  lemma PageEntryFields(page: u64, pageType: PageType, p: Permissions)
    requires page % pageType.Size() == 0 && page < COUNT_UNIT
    ensures var e := PageEntry(page, pageType, p);
      && Present(e) && (pageType != Page4K ==> Large(e))
      && PageBase(e, pageType.Depth() - 1) == page
  {
    AlignedPage(page, pageType);
    LowFlagValues(pageType, p);
    var low, n := LowFlags(pageType, p), if p.execute then 0 else 0x800;
    assert PageEntry(page, pageType, p) == page + low + n * COUNT_UNIT;
    hide Present, Large, TableOf, Open, Span, LowFlags, PageEntry;
    LowEntryFields(page, low);
    LowBitsKept(page + low, n);
  }

  lemma LowEntryFields(page: u64, low: int)
    requires page % 0x1000 == 0 && page < COUNT_UNIT && 0 < low < 0x1000
    ensures Present(page + low) == (low % 2 == 1)
    ensures Large(page + low) == (low / 0x80 % 2 == 1)
    ensures TableOf(page + low) == page
  {
    var a := page / 0x1000;
    ModAddMultiple(low, 0x800 * a, 2);
    ModAddMultiple(low, 0x20 * a, 0x80);
    ModAddMultiple(low / 0x80, 0x10 * a, 2);
    DivModUnique(page + low, a, low, 0x1000);
    ModSmall(a, 0x100_0000_0000);
  }

  /** The walk of `v` finds a physical byte with value `b`, in memory that is neither free nor a table. */
  ghost predicate Holds(w: seq<u64>, t: Tree, free: seq<Range>, v: u64, b: byte)
    requires Root in t
  {
    var page := Lookup(w, t[Root], v);
    page.Some? &&
      var a := page.value.base + page.value.offset;
      0 <= a && a / 8 < |w| && ByteAt(w, a) == b && Elsewhere(t, free, a / 8)
  }

  /** A loaded byte survives everything that grows the tree and leaves its translation alone. */
  lemma HoldsStable(w: seq<u64>, t: Tree, free: seq<Range>, w': seq<u64>, t': Tree, free': seq<Range>, v: u64, b: byte)
    requires Root in t && Grows(w, t, free, w', t', free') && Holds(w, t, free, v, b)
    requires Lookup(w', t[Root], v) == Lookup(w, t[Root], v)
    ensures Root in t' && Holds(w', t', free', v, b)
  {
    hide IsTree, Counted, AllOpen, Lookup, GetByte;
  }

  /** Canonical addresses outside [lo, hi) translate as before. */
  ghost predicate OthersKept(w: seq<u64>, w': seq<u64>, root: int, lo: int, hi: int) {
    forall u: u64 :: Canonical(u) && !(lo <= u < hi) ==> Lookup(w', root, u) == Lookup(w, root, u)
  }

  /** Writing a data page taken from free memory is not noticed by the tree. */
  lemma DataPageGrows(w: seq<u64>, t: Tree, free: seq<Range>, free': seq<Range>, at: int, size: int, w': seq<u64>)
    requires IsTree(w, t) && Apart(t, free) && Carved(free, free', at, size) && |w'| == |w|
    requires at % 8 == 0 && size % 8 == 0
    requires forall a :: 0 <= a < |w| && !(at <= 8 * a < at + size) ==> w'[a] == w[a]
    ensures IsTree(w', t) && Apart(t, free') && Grows(w, t, free, w', t, free') && SamePages(w, t, w', t)
  {
    CarvedApart(t, free, free', at, size);
    assert forall a :: at <= 8 * a < at + size ==> Covers(free, 8 * a);
    forall p, a | p in t && t[p] <= 8 * a < t[p] + 0x1000 ensures w'[a] == w[a] {
      assert !Covers(free, 8 * a);
    }
    TablesSpared(w, w', t);
    hide Covers, EntryAt, Placed;
    SameEdgesKeepTree(w, w', t);
    if Counted(w, t, None) { CountedSame(w, w', t); }
    OpenEntries(w, w', t);
    forall v: u64 ensures PageAt(w', t, v, 0) == PageAt(w, t, v, 0) {
      SameEdgesKeepPages(w, w', t, v, 0);
    }
  }

  /** The byte loop of `map_init`. */
  method FillPage(pm: PhysicalMemory, page: u64, size: nat, base: int, init: int -> byte)
    requires page % 8 == 0 && page + size <= 8 * |pm.words|
    modifies pm`words
    ensures |pm.words| == |old(pm.words)|
    ensures forall a :: page <= a < page + size ==> ByteAt(pm.words, a) == init(base + (a - page))
    ensures forall a :: 0 <= a < |pm.words| && !(page <= 8 * a < page + size) ==> pm.words[a] == old(pm.words)[a]
  {
    hide GetByte, SetByte;
    for off := 0 to size
      invariant |pm.words| == |old(pm.words)|
      invariant forall a :: page <= a < page + off ==> ByteAt(pm.words, a) == init(base + (a - page))
      invariant forall a :: 0 <= a < |pm.words| && !(page <= 8 * a < page + size) ==> pm.words[a] == old(pm.words)[a]
    {
      ghost var before := pm.words;
      pm.words := PutByte(pm.words, page + off, init(base + off));
      forall a | page <= a <= page + off ensures ByteAt(pm.words, a) == init(base + (a - page)) {
        PutByteReads(before, page + off, init(base + off), a);
      }
    }
  }

  /* ---- One page -------------------------------------------------------------------------- */

  /** An aligned page consists of the addresses that share its page number, all of them canonical. */
  lemma PageAddresses(v: u64, u: u64, size: int)
    requires size > 0 && v % size == 0
    ensures u / size == v / size <==> v <= u < v + size
    ensures u / size == v / size ==> u % size == u - v
  {
    var q := v / size;
    assert v == q * size && (q + 1) * size == v + size;
    if v <= u < v + size {
      DivModUnique(u, q, u - v, size);
    }
  }

  lemma PageCanonical(v: u64, u: u64, pageType: PageType)
    requires Canonical(v) && u / pageType.Size() == v / pageType.Size()
    ensures Canonical(u)
  {
    var d := pageType.Depth() - 1;
    CanonicalHigh(v, d);
    CanonicalHigh(u, d);
  }

  /** An address is canonical when the bits above 46 all agree, which is visible in its page number. */
  lemma CanonicalHigh(v: u64, d: nat)
    requires 1 <= d < 4
    ensures Canonical(v) <==> v / Span(d) < 0x8000_0000_0000 / Span(d) || v / Span(d) >= 0xFFFF_8000_0000_0000 / Span(d)
  {
    assert Canonical(v) <==> v < 0x8000_0000_0000 || v >= 0xFFFF_8000_0000_0000;
    if d == 1 {} else if d == 2 {} else {}
  }

  ghost predicate HoldsInit(w: seq<u64>, t: Tree, free: seq<Range>, u: u64, first: u64, init: int -> byte)
    requires Root in t
  {
    Holds(w, t, free, u, init(u - first))
  }

  /** Every address of [lo, hi) finds a byte with its initial value. */
  ghost predicate RegionHolds(w: seq<u64>, t: Tree, free: seq<Range>, lo: int, hi: int, first: u64, init: int -> byte)
    requires Root in t
  {
    forall u: u64 :: lo <= u < hi ==> HoldsInit(w, t, free, u, first, init)
  }

  ghost predicate MappedAs(w: seq<u64>, root: int, u: u64, pageType: PageType, p: Permissions) {
    var page := Lookup(w, root, u);
    && page.Some? && page.value.base < COUNT_UNIT && page.value.offset == u % pageType.Size()
    && page.value.raw == PageEntry(page.value.base, pageType, p) && Grants(page.value.raw, p)
  }

  /** Every address of [lo, hi) is mapped by a page of the given size and permissions. */
  ghost predicate RegionMapped(w: seq<u64>, root: int, lo: int, hi: int, pageType: PageType, p: Permissions) {
    forall u: u64 :: lo <= u < hi ==> MappedAs(w, root, u, pageType, p)
  }

  ghost predicate RegionCanonical(lo: int, hi: int) {
    forall u: u64 :: lo <= u < hi ==> Canonical(u)
  }

  /** The freshly mapped page, seen through the walk. */
  lemma PageMapped(w: seq<u64>, w': seq<u64>, root: int, v: u64, pageType: PageType, p: Permissions, page: u64)
    requires v % pageType.Size() == 0 && page % pageType.Size() == 0 && page < COUNT_UNIT && Canonical(v)
    requires MapsOnly(w, w', root, v, pageType, PageEntry(page, pageType, p))
    ensures OthersKept(w, w', root, v, v + pageType.Size())
    ensures RegionMapped(w', root, v, v + pageType.Size(), pageType, p)
    ensures RegionCanonical(v, v + pageType.Size())
    ensures forall u: u64 :: v <= u < v + pageType.Size() ==>
      Lookup(w', root, u) == Some(Page(page, u - v, PageEntry(page, pageType, p)))
  {
    PageEntryGrants(page, pageType, p);
    hide Canonical, PageEntry, PageBase, Span, Lookup, MapsOnly, Grants;
    forall u: u64
      ensures Canonical(u) && !(v <= u < v + pageType.Size()) ==> Lookup(w', root, u) == Lookup(w, root, u)
      ensures v <= u < v + pageType.Size() ==>
        Canonical(u) && Lookup(w', root, u) == Some(Page(page, u - v, PageEntry(page, pageType, p))) && u % pageType.Size() == u - v
    {
      PageMappedAt(w, w', root, v, pageType, p, page, u);
    }
  }

  lemma PageMappedAt(w: seq<u64>, w': seq<u64>, root: int, v: u64, pageType: PageType, p: Permissions, page: u64, u: u64)
    requires v % pageType.Size() == 0 && page % pageType.Size() == 0 && page < COUNT_UNIT && Canonical(v)
    requires MapsOnly(w, w', root, v, pageType, PageEntry(page, pageType, p))
    ensures Canonical(u) && !(v <= u < v + pageType.Size()) ==> Lookup(w', root, u) == Lookup(w, root, u)
    ensures v <= u < v + pageType.Size() ==>
      Canonical(u) && Lookup(w', root, u) == Some(Page(page, u - v, PageEntry(page, pageType, p))) && u % pageType.Size() == u - v
  {
    hide Canonical, PageEntry, PageBase, Span, Lookup;
    PageEntryFields(page, pageType, p);
    PageAddresses(v, u, pageType.Size());
    if v <= u < v + pageType.Size() { PageCanonical(v, u, pageType); }
  }

  /** A filled page that was carved out of free memory and then mapped holds its contents. */
  lemma PageFilled(w: seq<u64>, t: Tree, before: seq<Range>, free: seq<Range>, w': seq<u64>, t': Tree, free': seq<Range>,
                   v: u64, size: int, page: u64, raw: u64, first: u64, init: int -> byte)
    requires Root in t && Grows(w, t, free, w', t', free') && page + size <= 8 * |w| && page % 8 == 0 && size > 0
    requires Apart(t, before) && Carved(before, free, page, size)
    requires forall a :: page <= a < page + size ==> ByteAt(w, a) == init(v - first + (a - page))
    requires forall u: u64 :: v <= u < v + size ==> Lookup(w', t[Root], u) == Some(Page(page, u - v, raw))
    ensures Root in t' && RegionHolds(w', t', free', v, v + size, first, init)
  {
    hide Grows, Carved, Apart, ByteAt, Lookup, Elsewhere;
    GrowsRoot(w, t, free, w', t', free');
    forall u: u64 | v <= u < v + size ensures HoldsInit(w', t', free', u, first, init) {
      var a := page + (u - v);
      FilledElsewhere(w, t, before, free, page, size, a);
      assert ByteAt(w, a) == init(u - first);
      KeptByGrowth(w, t, free, w', t', free', a);
    }
  }

  lemma FilledElsewhere(w: seq<u64>, t: Tree, before: seq<Range>, free: seq<Range>, page: u64, size: int, a: int)
    requires Apart(t, before) && Carved(before, free, page, size) && page % 8 == 0 && page <= a < page + size <= 8 * |w|
    ensures 0 <= a / 8 < |w| && Elsewhere(t, free, a / 8)
  {
    hide Covers;
    WordOf(page, size, a);
    assert Covers(before, 8 * (a / 8)) && !Covers(free, 8 * (a / 8));
  }

  lemma KeptByGrowth(w: seq<u64>, t: Tree, free: seq<Range>, w': seq<u64>, t': Tree, free': seq<Range>, a: nat)
    requires Grows(w, t, free, w', t', free') && a / 8 < |w| && Elsewhere(t, free, a / 8)
    ensures |w'| == |w| && ByteAt(w', a) == ByteAt(w, a) && Elsewhere(t', free', a / 8)
  {
    hide IsTree, Counted, AllOpen, GetByte, Covers;
    assert w'[a / 8] == w[a / 8];
  }

  lemma WordOf(page: int, size: int, a: int)
    requires page % 8 == 0 && page <= a < page + size && 0 <= page
    ensures page <= 8 * (a / 8) < page + size
  {
  }

  /* ---- Whole regions ----------------------------------------------------------------------- */

  /** `Option<()>` of the source, plus the panic when no table page is left. */
  datatype InitResult = Mapped | NotMapped | InitPanicked

  /** Allocates and initializes the page of one round of `map_init`. */
  method PreparePage(pt: PageTable, pm: PhysicalMemory, pageType: PageType, base: int, init: Option<int -> byte>)
    returns (page: Option<u64>)
    requires pt.Valid(pm)
    modifies pm, pm.free, pm.free.ranges
    ensures pt.Valid(pm)
    ensures Grows(old(pm.words), pt.tree, old(pm.free.Entries()), pm.words, pt.tree, pm.free.Entries())
    ensures SamePages(old(pm.words), pt.tree, pm.words, pt.tree)
    ensures page.Some? ==>
      && page.value % pageType.Size() == 0 && page.value + pageType.Size() <= 8 * |pm.words|
      && Carved(old(pm.free.Entries()), pm.free.Entries(), page.value, pageType.Size())
    ensures page.Some? && init.Some? ==>
      forall a :: page.value <= a < page.value + pageType.Size() ==> ByteAt(pm.words, a) == init.value(base + (a - page.value))
    ensures page.None? <==> Unavailable(old(pm.free.Entries()), pageType.Size())
    ensures page.None? ==> pm.words == old(pm.words) && pm.free.Entries() == old(pm.free.Entries())
  {
    hide IsTree, Apart, Grows, SamePages, Carved, Covers, CannotServe, IsPow2, ByteAt, Span;
    ghost var w, t, f := pm.words, pt.tree, pm.free.Entries();
    SizeFacts(pageType);
    page := pm.AllocPhys(pageType.Size(), pageType.Size());
    if page.None? {
      GrowsRefl(w, t, f);
      return None;
    }
    PageWordAligned(page.value, pageType);
    if init.Some? {
      FillPage(pm, page.value, pageType.Size(), base, init.value);
    }
    DataPageGrows(w, t, f, pm.free.Entries(), page.value, pageType.Size(), pm.words);
  }

  /** One round of `map_init`: prepare a page and map it. */
  method MapPage(pt: PageTable, pm: PhysicalMemory, v: u64, first: u64, pageType: PageType, p: Permissions,
                 init: Option<int -> byte>) returns (r: InitResult)
    requires pt.Valid(pm) && v % pageType.Size() == 0
    modifies pt, pm, pm.free, pm.free.ranges
    ensures pt.Valid(pm) && AddedAbove(old(pt.tree), pt.tree, pageType.Depth())
    ensures Grows(old(pm.words), old(pt.tree), old(pm.free.Entries()), pm.words, pt.tree, pm.free.Entries())
    ensures OthersKept(old(pm.words), pm.words, pt.table, v, if r.Mapped? then v + pageType.Size() else v)
    ensures KeepsMapped(old(pm.words), pm.words, pt.table)
    ensures r.NotMapped? <==> Unavailable(old(pm.free.Entries()), pageType.Size()) || Refuses(old(pm.words), pt.table, v, pageType)
    ensures r.NotMapped? && !Refuses(old(pm.words), pt.table, v, pageType) ==> Unavailable(pm.free.Entries(), pageType.Size())
    ensures Unavailable(old(pm.free.Entries()), pageType.Size()) ==> pm.free.Entries() == old(pm.free.Entries())
    ensures r.InitPanicked? ==> Unavailable(pm.free.Entries(), 0x1000)
    ensures r.Mapped? ==> RegionMapped(pm.words, pt.table, v, v + pageType.Size(), pageType, p)
    ensures r.Mapped? ==> RegionCanonical(v, v + pageType.Size())
    ensures r.Mapped? && init.Some? ==>
      RegionHolds(pm.words, pt.tree, pm.free.Entries(), v, v + pageType.Size(), first, init.value)
  {
    hide IsTree, Apart, Grows, SamePages, SameLookups, Carved, PageEntry, Present, Large, Canonical, MapsOnly, OthersKept, KeepsMapped,
         RegionMapped, RegionHolds, RegionCanonical, Covers, IsPow2, Lookup, ByteAt, PageBase, Span, Refuses, Unavailable;
    ghost var w, t, f := pm.words, pt.tree, pm.free.Entries();
    var page := PreparePage(pt, pm, pageType, v - first, init);
    ghost var w1, f1 := pm.words, pm.free.Entries();
    LookupsKept(w, t, w1, t, v);
    RefusesSame(w, w1, t, v, pageType);
    if page.None? {
      return NotMapped;
    }
    PageEntryFields(page.value, pageType, p);
    var entry := PageEntry(page.value, pageType, p);
    var m := pt.MapRaw(pm, v, pageType, entry);
    GrowsTrans(w, t, f, w1, t, f1, pm.words, pt.tree, pm.free.Entries());
    if m.Done? {
      PageDone(w, t, f, w1, f1, pm.words, pt.tree, pm.free.Entries(), v, pageType, p, page.value, first, init);
      r := Mapped;
    } else {
      if m.Panicked? { NothingChanged(w, w1, pm.words, pt.table, v); }
      r := if m.Panicked? then InitPanicked else NotMapped;
    }
  }

  /** Filling a data page changes nothing that `map_raw` looks at. */
  lemma RefusesSame(w: seq<u64>, w': seq<u64>, t: Tree, v: u64, pageType: PageType)
    requires IsTree(w, t) && IsTree(w', t) && SamePages(w, t, w', t)
    ensures Refuses(w', t[Root], v, pageType) <==> Refuses(w, t[Root], v, pageType)
  {
    hide Linked, Placed, Walk, PageAt, Canonical;
    WalkOnPath(w, t, v);
    WalkOnPath(w', t, v);
    SamePagesSameLookups(w, t, w', t);
  }

  lemma NothingChanged(w: seq<u64>, w1: seq<u64>, w2: seq<u64>, root: int, v: int)
    requires OthersKept(w, w1, root, v, v) && KeepsMapped(w, w1, root) && SameLookups(w1, w2, root)
    ensures OthersKept(w, w2, root, v, v) && KeepsMapped(w, w2, root)
  {
    hide Lookup, Canonical;
  }

  /** What the steps of one round add up to. */
  lemma PageDone(w: seq<u64>, t: Tree, f: seq<Range>, w1: seq<u64>, f1: seq<Range>, w2: seq<u64>, t2: Tree, f2: seq<Range>,
                 v: u64, pageType: PageType, p: Permissions, page: u64, first: u64, init: Option<int -> byte>)
    requires Root in t && Grows(w1, t, f1, w2, t2, f2) && Apart(t, f)
    requires OthersKept(w, w1, t[Root], v, v) && KeepsMapped(w, w1, t[Root]) && KeepsMapped(w1, w2, t[Root])
    requires v % pageType.Size() == 0 && Canonical(v)
    requires page % pageType.Size() == 0 && page < COUNT_UNIT && page + pageType.Size() <= 8 * |w1| && Carved(f, f1, page, pageType.Size())
    requires MapsOnly(w1, w2, t[Root], v, pageType, PageEntry(page, pageType, p))
    requires init.Some? ==> forall a :: page <= a < page + pageType.Size() ==> ByteAt(w1, a) == init.value(v - first + (a - page))
    ensures Root in t2 && KeepsMapped(w, w2, t[Root])
    ensures OthersKept(w, w2, t[Root], v, v + pageType.Size())
    ensures RegionMapped(w2, t[Root], v, v + pageType.Size(), pageType, p) && RegionCanonical(v, v + pageType.Size())
    ensures init.Some? ==> RegionHolds(w2, t2, f2, v, v + pageType.Size(), first, init.value)
  {
    hide Apart, Grows, Carved, PageEntry, Canonical, MapsOnly, OthersKept, KeepsMapped, RegionMapped, RegionHolds,
         RegionCanonical, Lookup, ByteAt, Span;
    GrowsRoot(w1, t, f1, w2, t2, f2);
    SizeFacts(pageType);
    PageMapped(w1, w2, t[Root], v, pageType, p, page);
    OthersKeptTrans(w, w1, w2, t[Root], v, v, v + pageType.Size());
    KeepsMappedTrans(w, w1, w2, t[Root]);
    if init.Some? {
      PageWordAligned(page, pageType);
      PageFilled(w1, t, f, f1, w2, t2, f2, v, pageType.Size(), page, PageEntry(page, pageType, p), first, init.value);
    }
  }

  lemma PageWordAligned(page: u64, pageType: PageType)
    requires page % pageType.Size() == 0
    ensures page % 8 == 0
  {
    AlignedPage(page, pageType);
    hide Span;
    DivModUnique(page, 512 * (page / 0x1000), 0, 8);
  }

  lemma SizeFacts(pageType: PageType)
    ensures IsPow2(pageType.Size()) && 0x1000 <= pageType.Size() <= U64_MAX && pageType.Size() % 8 == 0
  {
    hide IsPow2;
    PageSizesArePow2();
  }

  lemma CarvedApart(t: Tree, free: seq<Range>, free': seq<Range>, at: int, size: int)
    requires Apart(t, free) && Carved(free, free', at, size)
    ensures Apart(t, free')
  {
    hide Covers;
  }

  lemma LookupsKept(w: seq<u64>, t: Tree, w': seq<u64>, t': Tree, v: int)
    requires IsTree(w, t) && IsTree(w', t') && SamePages(w, t, w', t') && t[Root] == t'[Root]
    ensures OthersKept(w, w', t[Root], v, v) && KeepsMapped(w, w', t[Root])
  {
    hide Linked, Placed, Walk, PageAt, Canonical;
    SamePagesSameLookups(w, t, w', t');
  }

  lemma OthersKeptTrans(w: seq<u64>, w1: seq<u64>, w2: seq<u64>, root: int, lo: int, mid: int, hi: int)
    requires lo <= mid <= hi && OthersKept(w, w1, root, lo, mid)
    requires OthersKept(w1, w2, root, mid, hi)
    ensures OthersKept(w, w2, root, lo, hi)
  {
    hide Lookup, Canonical;
  }

  lemma RegionHoldsStable(w: seq<u64>, t: Tree, free: seq<Range>, w': seq<u64>, t': Tree, free': seq<Range>,
                          lo: int, hi: int, first: u64, init: int -> byte)
    requires Root in t && Grows(w, t, free, w', t', free') && RegionHolds(w, t, free, lo, hi, first, init)
    requires RegionCanonical(lo, hi) && KeepsMapped(w, w', t[Root])
    ensures Root in t' && RegionHolds(w', t', free', lo, hi, first, init)
  {
    hide Canonical, Lookup, Grows;
    GrowsRoot(w, t, free, w', t', free');
    forall u: u64 | lo <= u < hi ensures HoldsInit(w', t', free', u, first, init) {
      assert HoldsInit(w, t, free, u, first, init) && Canonical(u);
      HoldsStable(w, t, free, w', t', free', u, init(u - first));
    }
  }

  lemma GrowsRoot(w: seq<u64>, t: Tree, free: seq<Range>, w': seq<u64>, t': Tree, free': seq<Range>)
    requires Root in t && Grows(w, t, free, w', t', free')
    ensures Root in t' && t'[Root] == t[Root]
  {
  }

  lemma RegionMappedStable(w: seq<u64>, w': seq<u64>, root: int, lo: int, hi: int, pageType: PageType, p: Permissions)
    requires RegionMapped(w, root, lo, hi, pageType, p) && RegionCanonical(lo, hi) && KeepsMapped(w, w', root)
    ensures RegionMapped(w', root, lo, hi, pageType, p)
  {
    hide Canonical, Lookup, PageEntry;
    forall u: u64 | lo <= u < hi ensures MappedAs(w', root, u, pageType, p) {
      assert Canonical(u) && MappedAs(w, root, u, pageType, p);
    }
  }

  /** All of [lo, hi) is mapped with the given permissions and, if there is an initializer, filled. */
  ghost predicate Loaded(w: seq<u64>, t: Tree, free: seq<Range>, lo: int, hi: int, pageType: PageType, p: Permissions,
                         first: u64, init: Option<int -> byte>)
    requires Root in t
  {
    && RegionCanonical(lo, hi)
    && RegionMapped(w, t[Root], lo, hi, pageType, p)
    && (init.Some? ==> RegionHolds(w, t, free, lo, hi, first, init.value))
  }

  lemma LoadedJoin(w: seq<u64>, t: Tree, free: seq<Range>, lo: int, mid: int, hi: int, pageType: PageType, p: Permissions,
                   first: u64, init: Option<int -> byte>)
    requires Root in t && lo <= mid
    requires Loaded(w, t, free, lo, mid, pageType, p, first, init) && Loaded(w, t, free, mid, hi, pageType, p, first, init)
    ensures Loaded(w, t, free, lo, hi, pageType, p, first, init)
  {
    hide Canonical, MappedAs, HoldsInit;
  }

  lemma LoadedPart(w: seq<u64>, t: Tree, free: seq<Range>, lo: int, mid: int, hi: int, pageType: PageType, p: Permissions,
                   first: u64, init: Option<int -> byte>)
    requires Root in t && mid <= hi && Loaded(w, t, free, lo, hi, pageType, p, first, init)
    ensures Loaded(w, t, free, lo, mid, pageType, p, first, init)
  {
    hide Canonical, MappedAs, HoldsInit;
  }

  /** What is loaded stays loaded, whatever is mapped later. */
  lemma LoadedStable(w: seq<u64>, t: Tree, free: seq<Range>, w': seq<u64>, t': Tree, free': seq<Range>,
                     lo: int, hi: int, pageType: PageType, p: Permissions, first: u64, init: Option<int -> byte>)
    requires Root in t && Grows(w, t, free, w', t', free') && Loaded(w, t, free, lo, hi, pageType, p, first, init)
    requires KeepsMapped(w, w', t[Root])
    ensures Root in t' && t'[Root] == t[Root] && Loaded(w', t', free', lo, hi, pageType, p, first, init)
  {
    hide RegionCanonical, RegionMapped, RegionHolds, Grows, KeepsMapped;
    GrowsRoot(w, t, free, w', t', free');
    RegionMappedStable(w, w', t[Root], lo, hi, pageType, p);
    if init.Some? { RegionHoldsStable(w, t, free, w', t', free', lo, hi, first, init.value); }
  }

  lemma KeepsMappedTrans(w: seq<u64>, w1: seq<u64>, w2: seq<u64>, root: int)
    requires KeepsMapped(w, w1, root) && KeepsMapped(w1, w2, root)
    ensures KeepsMapped(w, w2, root)
  {
    hide Lookup, Canonical;
  }

  function RoundUp(size: int, unit: int): int
    requires unit > 0
  {
    (size + unit - 1) / unit * unit
  }

  lemma RoundUpStep(size: int, unit: int, k: int)
    requires unit > 0 && k * unit < size
    ensures (k + 1) * unit <= RoundUp(size, unit)
  {
    var n := (size + unit - 1) / unit;
    assert n * unit > size - 1 by { assert size + unit - 1 == n * unit + (size + unit - 1) % unit; }
    if n < k + 1 { MulMonotone(n, k, unit); }
    MulMonotone(k + 1, n, unit);
  }

  lemma NothingLoaded(w: seq<u64>, t: Tree, free: seq<Range>, v: u64, pageType: PageType, p: Permissions, init: Option<int -> byte>, hi: int)
    requires IsTree(w, t) && Apart(t, free) && v <= hi
    ensures Grows(w, t, free, w, t, free) && OthersKept(w, w, t[Root], v, hi) && KeepsMapped(w, w, t[Root])
    ensures Loaded(w, t, free, v, v, pageType, p, v, init)
  {
    GrowsRefl(w, t, free);
  }

  lemma OthersKeptWider(w: seq<u64>, w': seq<u64>, root: int, lo: int, hi: int, wider: int)
    requires OthersKept(w, w', root, lo, hi) && hi <= wider
    ensures OthersKept(w, w', root, lo, wider)
  {
    hide Lookup, Canonical;
  }

  /** The request itself is at fault: empty, not aligned, or beyond the last address. */
  ghost predicate BadRequest(vaddr: u64, size: u64, pageType: PageType) {
    size == 0 || vaddr % pageType.Size() != 0 || vaddr + size - 1 > U64_MAX
  }

  /** The start of page `k` of a region. */
  function PageStart(vaddr: u64, pageType: PageType, k: nat): int { vaddr + k * pageType.Size() }

  /** Page `k` of the region is one that `map_raw` refuses. */
  ghost predicate PageRefused(words: seq<u64>, root: int, vaddr: u64, size: u64, pageType: PageType, k: nat) {
    var v := PageStart(vaddr, pageType, k);
    vaddr <= v < vaddr + size && v <= U64_MAX && Refuses(words, root, v, pageType)
  }

  ghost predicate SomePageRefused(words: seq<u64>, root: int, vaddr: u64, size: u64, pageType: PageType) {
    exists k :: PageRefused(words, root, vaddr, size, pageType, k)
  }

  /** Maps [vaddr, vaddr + size), rounded up to whole pages, to newly allocated memory whose bytes
      are given by `init` applied to the offset from `vaddr`. Without a bad request and without a page that
      cannot be mapped, it fails only for want of memory. */
  method MapInit(pt: PageTable, pm: PhysicalMemory, vaddr: u64, size: u64, pageType: PageType, p: Permissions,
                 init: Option<int -> byte>) returns (r: InitResult)
    requires pt.Valid(pm)
    modifies pt, pm, pm.free, pm.free.ranges
    ensures pt.Valid(pm) && KeepsMapped(old(pm.words), pm.words, pt.table)
    ensures Grows(old(pm.words), old(pt.tree), old(pm.free.Entries()), pm.words, pt.tree, pm.free.Entries())
    ensures OthersKept(old(pm.words), pm.words, pt.table, vaddr, vaddr + RoundUp(size, pageType.Size()))
    ensures BadRequest(vaddr, size, pageType) ==> r.NotMapped?
    ensures r.NotMapped? ==> || BadRequest(vaddr, size, pageType) || Unavailable(pm.free.Entries(), pageType.Size())
                             || SomePageRefused(old(pm.words), pt.table, vaddr, size, pageType)
    ensures r.InitPanicked? ==> Unavailable(pm.free.Entries(), 0x1000)
    ensures Unavailable(old(pm.free.Entries()), pageType.Size()) ==> r.NotMapped? && pm.free.Entries() == old(pm.free.Entries())
    ensures r.Mapped? ==> !SomePageRefused(old(pm.words), pt.table, vaddr, size, pageType)
    ensures r.Mapped? ==> Loaded(pm.words, pt.tree, pm.free.Entries(), vaddr, vaddr + size, pageType, p, vaddr, init)
  {
    hide IsTree, Apart, Grows, OthersKept, KeepsMapped, RegionMapped, RegionHolds, RegionCanonical, Span, RoundUp, Loaded,
         Unavailable, Refuses, PageRefused, AddedAbove;
    ghost var w, t, f, unit := pm.words, pt.tree, pm.free.Entries(), pageType.Size();
    RoundUpBelow(size, unit);
    NothingLoaded(w, t, f, vaddr, pageType, p, init, vaddr + RoundUp(size, unit));
    if size == 0 || vaddr % pageType.Size() != 0 {
      return NotMapped;
    }
    var end := vaddr + (size - 1);
    if end > U64_MAX {
      return NotMapped;
    }
    NothingLoaded(w, t, f, vaddr, pageType, p, init, vaddr);
    NothingAdded(t, pageType);
    SizeFacts(pageType);
    ghost var k := 0;
    var v := vaddr;
    while v <= end
      invariant v == vaddr + k * unit <= vaddr + RoundUp(size, unit) && k >= 0
      invariant pt.Valid(pm) && AddedAbove(t, pt.tree, pageType.Depth())
      invariant Grows(w, t, f, pm.words, pt.tree, pm.free.Entries())
      invariant OthersKept(w, pm.words, pt.table, vaddr, v) && KeepsMapped(w, pm.words, pt.table)
      invariant Loaded(pm.words, pt.tree, pm.free.Entries(), vaddr, v, pageType, p, vaddr, init)
      invariant forall j: nat :: j < k ==> !PageRefused(w, pt.table, vaddr, size, pageType, j)
      invariant if k == 0 then pm.free.Entries() == f else !Unavailable(f, unit)
      decreases end + 1 - v
    {
      ghost var w1, t1, f1 := pm.words, pt.tree, pm.free.Entries();
      ModAddMultiple(vaddr, k, unit);
      MulMonotone(0, k, unit);
      RefusedBefore(w, t, f, w1, t1, f1, vaddr, size, pageType, k, v);
      r := MapPage(pt, pm, v, vaddr, pageType, p, init);
      GrowsTrans(w, t, f, w1, t1, f1, pm.words, pt.tree, pm.free.Entries());
      KeepsMappedTrans(w, w1, pm.words, pt.table);
      AddedTrans(t, t1, pt.tree, pageType.Depth());
      OthersKeptTrans(w, w1, pm.words, pt.table, vaddr, v, if r.Mapped? then v + unit else v);
      if !r.Mapped? {
        OthersKeptWider(w, pm.words, pt.table, vaddr, v, vaddr + RoundUp(size, unit));
        return;
      }
      LoadedStable(w1, t1, f1, pm.words, pt.tree, pm.free.Entries(), vaddr, v, pageType, p, vaddr, init);
      LoadedNext(pm.words, pt.tree, pm.free.Entries(), vaddr, v, v + unit, pageType, p, vaddr, init);
      RoundUpStep(size, unit, k);
      assert (k + 1) * unit == k * unit + unit;
      v, k := v + pageType.Size(), k + 1;
    }
    LoadedPart(pm.words, pt.tree, pm.free.Entries(), vaddr, vaddr + size, v, pageType, p, vaddr, init);
    OthersKeptWider(w, pm.words, pt.table, vaddr, v, vaddr + RoundUp(size, unit));
    NoneRefused(w, pt.table, vaddr, size, pageType, k);
    r := Mapped;
  }

  lemma NothingAdded(t: Tree, pageType: PageType)
    ensures AddedAbove(t, t, pageType.Depth())
  {
  }

  lemma AddedTrans(t: Tree, t1: Tree, t2: Tree, d: nat)
    requires AddedAbove(t, t1, d) && AddedAbove(t1, t2, d)
    ensures AddedAbove(t, t2, d)
  {
  }

  lemma LoadedNext(w: seq<u64>, t: Tree, free: seq<Range>, lo: int, mid: int, hi: int, pageType: PageType, p: Permissions,
                   first: u64, init: Option<int -> byte>)
    requires Root in t && lo <= mid && Loaded(w, t, free, lo, mid, pageType, p, first, init)
    requires RegionMapped(w, t[Root], mid, hi, pageType, p) && RegionCanonical(mid, hi)
    requires init.Some? ==> RegionHolds(w, t, free, mid, hi, first, init.value)
    ensures Loaded(w, t, free, lo, hi, pageType, p, first, init)
  {
    hide RegionMapped, RegionCanonical, RegionHolds;
    LoadedJoin(w, t, free, lo, mid, hi, pageType, p, first, init);
  }

  /** Whether the next page is refused does not depend on the pages mapped so far. */
  lemma RefusedBefore(w: seq<u64>, t: Tree, f: seq<Range>, w1: seq<u64>, t1: Tree, f1: seq<Range>, vaddr: u64, size: u64,
                      pageType: PageType, k: nat, v: u64)
    requires Root in t && IsTree(w, t) && Grows(w, t, f, w1, t1, f1) && AddedAbove(t, t1, pageType.Depth())
    requires v == PageStart(vaddr, pageType, k) && vaddr <= v < vaddr + size && OthersKept(w, w1, t[Root], vaddr, v)
    ensures PageRefused(w, t[Root], vaddr, size, pageType, k) <==> Refuses(w1, t[Root], v, pageType)
  {
    hide Placed, Walk, Canonical, Lookup, Levels, Counted, Elsewhere, Apart, Span, PageStart;
    WalkOnPath(w, t, v);
    WalkOnPath(w1, t1, v);
    PathStaysShort(w, t, w1, t1, v, pageType.Depth());
  }

  /** Pages behind the last one do not belong to the region. */
  lemma NoneRefused(w: seq<u64>, root: int, vaddr: u64, size: u64, pageType: PageType, k: nat)
    requires forall j: nat :: j < k ==> !PageRefused(w, root, vaddr, size, pageType, j)
    requires vaddr + k * pageType.Size() >= vaddr + size
    ensures forall j :: !PageRefused(w, root, vaddr, size, pageType, j)
  {
    hide Refuses, Span;
    forall j: nat | j >= k ensures !PageRefused(w, root, vaddr, size, pageType, j) {
      MulMonotone(k, j, pageType.Size());
    }
  }

  lemma RoundUpBelow(size: int, unit: int)
    requires unit > 0 && size >= 0
    ensures size <= RoundUp(size, unit)
  {
    var n := (size + unit - 1) / unit;
    assert size + unit - 1 == n * unit + (size + unit - 1) % unit;
  }
}
