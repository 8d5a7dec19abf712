/** Loading the kernel image (`load_kernel`, bootloader/src/main.rs): every loadable segment is mapped
    with its file bytes, and stays loaded while later segments are mapped. */
module KernelLoader {
  import opened Machine
  import opened Ranges
  import opened Allocation
  import opened PageWalks
  import opened PageTrees
  import opened PageEdits
  import opened PhysicalMemories
  import opened PageTables
  import opened Loading
  import Elf

  /** The initializer passed to `map_init`: file bytes from the segment's offset on, zero elsewhere. */
  function InitOf(s: Elf.Segment): int -> byte {
    (off: int) => if s.offset <= off < s.offset + |s.bytes| then s.bytes[off - s.offset] else 0
  }

  function PermissionsOf(s: Elf.Segment): Permissions {
    Permissions(s.flags.write, s.flags.execute, false, false)
  }

  /** The whole segment is mapped with its permissions and contents. */
  ghost predicate SegmentLoaded(w: seq<u64>, t: Tree, free: seq<Range>, s: Elf.Segment)
    requires Root in t
  {
    Loaded(w, t, free, s.vaddr, s.vaddr + s.offset + s.vsize, Page4K, PermissionsOf(s), s.vaddr, Some(InitOf(s)))
  }

  /** End to end: walking the table at p_vaddr + i finds file byte i of a loaded segment, and zero
      between p_filesz and p_memsz. */
  lemma LoadedSegmentBytes(file: seq<byte>, h: nat, vaddr: int, offset: int, filesz: int, memsz: int,
                           w: seq<u64>, t: Tree, free: seq<Range>, i: int)
    requires Elf.IsLoadHeader(file, h, vaddr, offset, filesz, memsz) && Elf.ReadHeader(file, h).Loadable?
    requires Root in t && SegmentLoaded(w, t, free, Elf.ReadHeader(file, h).segment)
    requires 0 <= i < memsz && vaddr + i <= U64_MAX
    ensures i < filesz ==> 0 <= offset + i < |file|
    ensures Holds(w, t, free, vaddr + i, if i < filesz then file[offset + i] else 0)
  {
    hide Elf.ReadHeader, Elf.IsLoadHeader, Elf.Field, SegmentLoaded, InitOf, Holds;
    var s := Elf.ReadHeader(file, h).segment;
    Elf.SegmentMatchesHeader(file, h, vaddr, offset, filesz, memsz);
    InitBytes(s, s.offset + i);
    HoldsAt(w, t, free, s, vaddr + i);
  }

  /** The access rights end to end: bits 0 and 1 of the p_flags word decide whether the addresses of the segment
      can be executed and written; user code never gets at them, and caching is off. */
  lemma LoadedSegmentRights(file: seq<byte>, h: nat, vaddr: int, offset: int, filesz: int, memsz: int, flags: int,
                            w: seq<u64>, t: Tree, free: seq<Range>, i: int)
    requires Elf.IsLoadHeader(file, h, vaddr, offset, filesz, memsz) && Elf.ReadHeader(file, h).Loadable?
    requires Elf.Field(file, h + 4, 4) == Some(flags)
    requires Root in t && SegmentLoaded(w, t, free, Elf.ReadHeader(file, h).segment)
    requires 0 <= i < memsz && 0 <= vaddr + i <= U64_MAX
    ensures var page := Lookup(w, t[Root], vaddr + i);
      && page.Some?
      && (page.value.raw / 0x8000_0000_0000_0000 == 1 <==> flags % 2 == 0)
      && (page.value.raw / 2 % 2 == 1 <==> flags / 2 % 2 == 1)
      && page.value.raw / 4 % 2 == 0 && page.value.raw / 0x10 % 2 == 1
  {
    Elf.SegmentMatchesHeader(file, h, vaddr, offset, filesz, memsz);
    Elf.SegmentFlags(file, h, flags);
    hide Elf.ReadHeader, Elf.IsLoadHeader, Elf.Field, Lookup, PageEntry, RegionCanonical, RegionHolds;
    var s := Elf.ReadHeader(file, h).segment;
    assert MappedAs(w, t[Root], vaddr + i, Page4K, PermissionsOf(s));
    BitIsZeroOrOne(flags, Lookup(w, t[Root], vaddr + i).value.raw);
  }

  lemma BitIsZeroOrOne(flags: int, raw: u64)
    ensures (flags % 2 == 0 || flags % 2 == 1) && (raw / 4 % 2 == 0 || raw / 4 % 2 == 1)
  {
  }

  lemma InitBytes(s: Elf.Segment, off: int)
    requires 0 <= s.offset
    ensures InitOf(s)(off) == if s.offset <= off < s.offset + |s.bytes| then s.bytes[off - s.offset] else 0
  {
  }

  lemma HoldsAt(w: seq<u64>, t: Tree, free: seq<Range>, s: Elf.Segment, u: u64)
    requires Root in t && SegmentLoaded(w, t, free, s) && s.vaddr <= u < s.vaddr + s.offset + s.vsize
    ensures Holds(w, t, free, u, InitOf(s)(u - s.vaddr))
  {
    hide Holds, InitOf;
    assert HoldsInit(w, t, free, u, s.vaddr, InitOf(s));
  }

  method LoadSegment(pt: PageTable, pm: PhysicalMemory, s: Elf.Segment) returns (r: InitResult)
    requires pt.Valid(pm) && s.vaddr % 0x1000 == 0 && 0 <= s.offset + s.vsize <= U64_MAX
    modifies pt, pm, pm.free, pm.free.ranges
    ensures pt.Valid(pm) && KeepsMapped(old(pm.words), pm.words, pt.table)
    ensures Grows(old(pm.words), old(pt.tree), old(pm.free.Entries()), pm.words, pt.tree, pm.free.Entries())
    ensures r.Mapped? ==> SegmentLoaded(pm.words, pt.tree, pm.free.Entries(), s)
    ensures r.NotMapped? ==> || s.offset + s.vsize == 0 || s.vaddr + s.offset + s.vsize - 1 > U64_MAX
                             || Unavailable(pm.free.Entries(), 0x1000)
                             || SomePageRefused(old(pm.words), pt.table, s.vaddr, s.offset + s.vsize, Page4K)
    ensures r.InitPanicked? ==> Unavailable(pm.free.Entries(), 0x1000)
    ensures Unavailable(old(pm.free.Entries()), 0x1000) ==> r.NotMapped? && pm.free.Entries() == old(pm.free.Entries())
    ensures OthersKept(old(pm.words), pm.words, pt.table, s.vaddr, s.vaddr + RoundUp(s.offset + s.vsize, 0x1000))
  {
    hide IsTree, Apart, Grows, OthersKept, KeepsMapped, Loaded, InitOf, Unavailable, SomePageRefused, RoundUp;
    r := MapInit(pt, pm, s.vaddr, s.offset + s.vsize, Page4K, PermissionsOf(s), Some(InitOf(s)));
  }

  lemma SegmentLoadedStable(w: seq<u64>, t: Tree, free: seq<Range>, w': seq<u64>, t': Tree, free': seq<Range>, s: Elf.Segment)
    requires Root in t && Grows(w, t, free, w', t', free') && KeepsMapped(w, w', t[Root]) && SegmentLoaded(w, t, free, s)
    ensures Root in t' && SegmentLoaded(w', t', free', s)
  {
    hide Grows, KeepsMapped, Loaded;
    LoadedStable(w, t, free, w', t', free', s.vaddr, s.vaddr + s.offset + s.vsize, Page4K, PermissionsOf(s), s.vaddr, Some(InitOf(s)));
  }

  /** The segment at program header `i`. */
  function SegmentAt(image: Elf.Image, i: nat): Elf.Item {
    Elf.ReadHeader(image.file, Elf.HeaderOffset(image, i))
  }

  /** For an accepted file, that is the header at e_phoff + i * e_phentsize. */
  lemma SegmentAtHeader(file: seq<byte>, i: nat)
    requires Elf.Parse(file).Parsed?
    ensures |file| >= 0x3A && Elf.Parse(file).image.phNum == Elf.PhNum(file)
    ensures SegmentAt(Elf.Parse(file).image, i) == Elf.ReadHeader(file, Elf.HeaderAt(file, i))
  {
    hide Elf.Parse, Elf.ReadHeader, Elf.PhOff, Elf.PhNum, Elf.PhEntSize, Elf.Field;
    Elf.ParsedFields(file);
    Elf.HeadersInFile(file, i);
  }

  /** No earlier header ends the iteration. */
  ghost predicate Reached(image: Elf.Image, i: nat) {
    forall j :: 0 <= j < i ==> !SegmentAt(image, j).Stop?
  }

  ghost predicate AllLoaded(image: Elf.Image, results: map<nat, InitResult>, w: seq<u64>, t: Tree, free: seq<Range>)
    requires Root in t
  {
    forall i :: i in results && results[i].Mapped? ==>
      SegmentAt(image, i).Loadable? && SegmentLoaded(w, t, free, SegmentAt(image, i).segment)
  }

  /** Why the source panics while loading. */
  datatype LoadFailure =
    | BadImage
    | OutOfMemory
    | BadHeader(index: nat)
    | SegmentTooLarge(index: nat)
    | NoTrampoline
    | TrampolineRefused
    | WindowRefused(paddr: u64)

  /** The header that the failure names is what the iterator or the request constructor choked on. */
  ghost predicate SegmentFailure(image: Elf.Image, free: seq<Range>, failure: LoadFailure)
    requires AllValid(free)
  {
    match failure
    case OutOfMemory => Unavailable(free, 0x1000)
    case BadHeader(i) => i < image.phNum && Reached(image, i) && SegmentAt(image, i).Bad?
    case SegmentTooLarge(i) =>
      && i < image.phNum && Reached(image, i) && SegmentAt(image, i).Loadable?
      && SegmentAt(image, i).segment.offset + SegmentAt(image, i).segment.vsize > U64_MAX
    case _ => false
  }

  /** No header of the file before number `i` ends the iteration. */
  ghost predicate HeaderReached(file: seq<byte>, i: nat)
    requires |file| >= 0x3A
  {
    forall j :: 0 <= j < i ==> !Elf.ReadHeader(file, Elf.HeaderAt(file, j)).Stop?
  }

  /** Read off the bytes of the file: every loadable header that the iteration reaches was tried, and holds what
      it asks for if its mapping succeeded. */
  ghost predicate HeadersLoaded(file: seq<byte>, results: map<nat, InitResult>, w: seq<u64>, t: Tree, free: seq<Range>)
    requires Root in t && |file| >= 0x3A
  {
    forall i: nat :: i < Elf.PhNum(file) && HeaderReached(file, i) && Elf.ReadHeader(file, Elf.HeaderAt(file, i)).Loadable? ==>
      && i in results
      && (results[i].Mapped? ==> SegmentLoaded(w, t, free, Elf.ReadHeader(file, Elf.HeaderAt(file, i)).segment))
  }

  lemma TriedHeadersLoaded(file: seq<byte>, results: map<nat, InitResult>, w: seq<u64>, t: Tree, free: seq<Range>)
    requires Elf.Parse(file).Parsed? && Root in t && AllLoaded(Elf.Parse(file).image, results, w, t, free)
    requires var m := Elf.Parse(file).image;
      forall i :: 0 <= i < m.phNum && Reached(m, i) && SegmentAt(m, i).Loadable? ==> i in results
    ensures |file| >= 0x3A && HeadersLoaded(file, results, w, t, free)
  {
    hide Elf.Parse, Elf.ReadHeader, Elf.HeaderAt, Elf.PhNum, SegmentAt, SegmentLoaded;
    var m := Elf.Parse(file).image;
    SegmentAtHeader(file, 0);
    forall i: nat | i < Elf.PhNum(file) && HeaderReached(file, i) && Elf.ReadHeader(file, Elf.HeaderAt(file, i)).Loadable?
      ensures i in results && (results[i].Mapped? ==> SegmentLoaded(w, t, free, Elf.ReadHeader(file, Elf.HeaderAt(file, i)).segment))
    {
      SegmentAtHeader(file, i);
      forall j | 0 <= j < i ensures !SegmentAt(m, j).Stop? { SegmentAtHeader(file, j); }
      assert Reached(m, i);
    }
  }

  /** The loadable segments are not empty, end below the last address, lie in canonical memory, and share no
      page with each other. */
  ghost predicate WellLaidOut(image: Elf.Image) {
    && (forall i :: 0 <= i < image.phNum && SegmentAt(image, i).Loadable? ==> WellPlaced(SegmentAt(image, i).segment))
    && (forall i, j :: 0 <= i < j < image.phNum && SegmentAt(image, i).Loadable? && SegmentAt(image, j).Loadable? ==>
          PagesApart(SegmentAt(image, i).segment, SegmentAt(image, j).segment))
  }

  ghost predicate WellPlaced(s: Elf.Segment) {
    var size := s.offset + s.vsize;
    0 < size <= U64_MAX && s.vaddr + size - 1 <= U64_MAX && RegionCanonical(s.vaddr, s.vaddr + size)
  }

  ghost predicate PagesApart(s: Elf.Segment, t: Elf.Segment) {
    || s.vaddr + RoundUp(s.offset + s.vsize, 0x1000) <= t.vaddr
    || t.vaddr + RoundUp(t.offset + t.vsize, 0x1000) <= s.vaddr
  }

  /** No page of the segment is refused. */
  ghost predicate Free(w: seq<u64>, root: int, s: Elf.Segment) {
    0 <= s.offset + s.vsize <= U64_MAX ==> !SomePageRefused(w, root, s.vaddr, s.offset + s.vsize, Page4K)
  }

  /** No page of any loadable segment from header `i` on is refused. */
  ghost predicate NothingInTheWay(image: Elf.Image, w: seq<u64>, root: int, i: nat) {
    forall j :: i <= j < image.phNum && SegmentAt(image, j).Loadable? ==> Free(w, root, SegmentAt(image, j).segment)
  }

  ghost predicate AllMapped(results: map<nat, InitResult>) { forall i :: i in results ==> results[i].Mapped? }

  /** In a table that translates nothing, nothing is in the way of segments in canonical memory. */
  lemma EmptyTableIsFree(image: Elf.Image, w: seq<u64>, root: int)
    requires forall v: u64 :: Lookup(w, root, v) == None
    ensures WellLaidOut(image) ==> NothingInTheWay(image, w, root, 0)
  {
    hide SegmentAt, Lookup, Canonical, Walk, RoundUp;
    if WellLaidOut(image) {
      forall j | 0 <= j < image.phNum && SegmentAt(image, j).Loadable? ensures Free(w, root, SegmentAt(image, j).segment) {
        FreshSegment(w, root, SegmentAt(image, j).segment);
      }
    }
  }

  lemma FreshSegment(w: seq<u64>, root: int, s: Elf.Segment)
    requires WellPlaced(s) && forall v: u64 :: Lookup(w, root, v) == None
    ensures Free(w, root, s)
  {
    hide Lookup, Canonical, Walk, PageStart;
    var size := s.offset + s.vsize;
    forall k ensures !PageRefused(w, root, s.vaddr, size, Page4K, k) {
      var v := PageStart(s.vaddr, Page4K, k);
      if s.vaddr <= v < s.vaddr + size && v <= U64_MAX { AtMostFour(w, root, v, 0); }
    }
  }

  /** Loading one segment leaves the pages of the others alone. */
  lemma StillFree(w: seq<u64>, w': seq<u64>, root: int, s: Elf.Segment, t: Elf.Segment)
    requires OthersKept(w, w', root, s.vaddr, s.vaddr + RoundUp(s.offset + s.vsize, 0x1000))
    requires PagesApart(s, t) || PagesApart(t, s)
    requires Free(w, root, t)
    ensures Free(w', root, t)
  {
    hide Lookup, Canonical, Walk, PageStart, RoundUp;
    var size := t.offset + t.vsize;
    if 0 <= size <= U64_MAX {
      RoundUpBelow(size, 0x1000);
      forall k ensures !PageRefused(w', root, t.vaddr, size, Page4K, k) {
        assert !PageRefused(w, root, t.vaddr, size, Page4K, k);
        var v := PageStart(t.vaddr, Page4K, k);
        if t.vaddr <= v < t.vaddr + size && v <= U64_MAX { AtMostFour(w', root, v, 0); }
      }
    }
  }

  lemma SkipFree(image: Elf.Image, w: seq<u64>, root: int, i: nat)
    ensures NothingInTheWay(image, w, root, i) ==> NothingInTheWay(image, w, root, i + 1)
  {
    hide SegmentAt, Free;
  }

  lemma NextFree(image: Elf.Image, w: seq<u64>, w': seq<u64>, root: int, i: nat)
    requires WellLaidOut(image) && NothingInTheWay(image, w, root, i) && i < image.phNum && SegmentAt(image, i).Loadable?
    requires var s := SegmentAt(image, i).segment; OthersKept(w, w', root, s.vaddr, s.vaddr + RoundUp(s.offset + s.vsize, 0x1000))
    ensures NothingInTheWay(image, w', root, i + 1)
  {
    hide SegmentAt, OthersKept, PagesApart, Free, WellPlaced, RoundUp;
    forall j | i + 1 <= j < image.phNum && SegmentAt(image, j).Loadable? ensures Free(w', root, SegmentAt(image, j).segment) {
      StillFree(w, w', root, SegmentAt(image, i).segment, SegmentAt(image, j).segment);
    }
  }

  /** A segment that is well placed and not in the way of anything is not mapped only for want of memory. */
  lemma OnlyMemoryIsMissing(image: Elf.Image, w: seq<u64>, root: int, i: nat)
    requires WellLaidOut(image) && NothingInTheWay(image, w, root, i) && i < image.phNum && SegmentAt(image, i).Loadable?
    ensures var s := SegmentAt(image, i).segment;
      && 0 < s.offset + s.vsize <= U64_MAX && s.vaddr + s.offset + s.vsize - 1 <= U64_MAX
      && !SomePageRefused(w, root, s.vaddr, s.offset + s.vsize, Page4K)
  {
    hide SegmentAt, SomePageRefused, RegionCanonical, PagesApart;
    assert WellPlaced(SegmentAt(image, i).segment) && Free(w, root, SegmentAt(image, i).segment);
  }

  /** The segment loop of `load_kernel`. If the segments are well laid out and nothing is in their way, all
      of them are loaded unless memory runs out. The results of `map_init`, which the source ignores, are
      returned by header index. */
  method LoadSegments(image: Elf.Image, pt: PageTable, pm: PhysicalMemory)
    returns (failure: Option<LoadFailure>, results: map<nat, InitResult>)
    requires pt.Valid(pm)
    modifies pt, pm, pm.free, pm.free.ranges
    ensures pt.Valid(pm) && AllLoaded(image, results, pm.words, pt.tree, pm.free.Entries())
    ensures failure.None? ==>
      forall i :: 0 <= i < image.phNum && Reached(image, i) && SegmentAt(image, i).Loadable? ==> i in results
    ensures WellLaidOut(image) && NothingInTheWay(image, old(pm.words), pt.table, 0) ==>
      AllMapped(results) || Unavailable(pm.free.Entries(), 0x1000)
    ensures failure.Some? ==> SegmentFailure(image, pm.free.Entries(), failure.value)
    ensures KeepsMapped(old(pm.words), pm.words, pt.table)
    ensures Grows(old(pm.words), old(pt.tree), old(pm.free.Entries()), pm.words, pt.tree, pm.free.Entries())
  {
    hide IsTree, Apart, Grows, KeepsMapped, SegmentLoaded, SegmentAt, Unavailable, SomePageRefused, OthersKept, WellLaidOut,
         NothingInTheWay, RoundUp;
    ghost var nice := WellLaidOut(image) && NothingInTheWay(image, pm.words, pt.table, 0);
    ghost var w, t, f := pm.words, pt.tree, pm.free.Entries();
    GrowsRefl(w, t, f);
    KeepsMappedRefl(w, pt.table);
    results := map[];
    for i := 0 to image.phNum
      invariant pt.Valid(pm) && AllLoaded(image, results, pm.words, pt.tree, pm.free.Entries())
      invariant forall j :: j in results ==> j < i
      invariant Reached(image, i)
      invariant forall j :: 0 <= j < i && SegmentAt(image, j).Loadable? ==> j in results
      invariant KeepsMapped(w, pm.words, pt.table)
      invariant Grows(w, t, f, pm.words, pt.tree, pm.free.Entries())
      invariant nice ==> NothingInTheWay(image, pm.words, pt.table, i)
      invariant nice ==> AllMapped(results) || Unavailable(pm.free.Entries(), 0x1000)
    {
      SkipFree(image, pm.words, pt.table, i);
      var item := SegmentAt(image, i);
      match item
      case Stop => return None, results;
      case Skipped =>
      case Bad(_) => return Some(BadHeader(i)), results;
      case Loadable(s) =>
        if s.offset + s.vsize > U64_MAX {
          return Some(SegmentTooLarge(i)), results;
        }
        SegmentShape(image, i);
        ghost var w1, t1, f1 := pm.words, pt.tree, pm.free.Entries();
        if nice { OnlyMemoryIsMissing(image, w1, pt.table, i); }
        var r := LoadSegment(pt, pm, s);
        if nice { NextFree(image, w1, pm.words, pt.table, i); }
        GrowsTrans(w, t, f, w1, t1, f1, pm.words, pt.tree, pm.free.Entries());
        KeepsMappedTrans(w, w1, pm.words, pt.table);
        StillLoaded(image, results, w1, t1, f1, pm.words, pt.tree, pm.free.Entries());
        if r.InitPanicked? {
          return Some(OutOfMemory), results;
        }
        results := results[i := r];
    }
    failure := None;
  }

  lemma StillLoaded(image: Elf.Image, results: map<nat, InitResult>, w: seq<u64>, t: Tree, f: seq<Range>,
                    w': seq<u64>, t': Tree, f': seq<Range>)
    requires Root in t && AllLoaded(image, results, w, t, f) && Grows(w, t, f, w', t', f') && KeepsMapped(w, w', t[Root])
    ensures Root in t' && AllLoaded(image, results, w', t', f')
  {
    hide Grows, KeepsMapped, SegmentLoaded, SegmentAt;
    GrowsRoot(w, t, f, w', t', f');
    forall i | i in results && results[i].Mapped?
      ensures SegmentAt(image, i).Loadable? && SegmentLoaded(w', t', f', SegmentAt(image, i).segment)
    {
      SegmentLoadedStable(w, t, f, w', t', f', SegmentAt(image, i).segment);
    }
  }

  lemma KeepsMappedRefl(w: seq<u64>, root: int)
    ensures KeepsMapped(w, w, root)
  {
  }

  lemma SegmentShape(image: Elf.Image, i: nat)
    requires SegmentAt(image, i).Loadable?
    ensures var s := SegmentAt(image, i).segment; s.vaddr % 0x1000 == 0 && 0 <= s.offset + s.vsize
  {
    Elf.SegmentAligned(image.file, Elf.HeaderOffset(image, i));
  }
}
