/** The page table operations (shared/page_table/src/lib.rs): translating an address, and mapping a
    raw entry while creating the tables on the way. */
module PageTables {
  import opened Machine
  import opened Ranges
  import opened PageWalks
  import opened PageTrees
  import opened PageEdits
  import opened PhysicalMemories

  datatype Error = InvalidPage | MappedAlready | SmallerPagesPresent | AddressNotCanonical | AddressUnaligned

  /** `Result<(), Error>` of the source, plus the panic when no table page is left. */
  datatype MapResult = Done | Rejected(error: Error) | Panicked

  lemma ConcatAssoc<T>(a: seq<T>, b: seq<T>, c: seq<T>)
    ensures (a + b) + c == a + (b + c)
  {
  }

  /** The page that a walk of `v` finds. */
  function Lookup(words: seq<u64>, root: int, v: u64): Option<Page> {
    Walk(words, root, v, 0).page
  }

  /** Exactly the addresses of the page of `vaddr` are mapped anew, to the raw entry. */
  ghost predicate MapsOnly(words: seq<u64>, words': seq<u64>, root: int, vaddr: u64, pageType: PageType, raw: u64) {
    forall v: u64 :: Canonical(v) ==>
      Lookup(words', root, v) ==
        if v / pageType.Size() == vaddr / pageType.Size()
        then Some(Page(PageBase(raw, pageType.Depth() - 1), v % pageType.Size(), raw))
        else Lookup(words, root, v)
  }

  /** No address that was mapped is translated differently. */
  ghost predicate KeepsMapped(words: seq<u64>, words': seq<u64>, root: int) {
    forall v: u64 :: Canonical(v) && Lookup(words, root, v).Some? ==> Lookup(words', root, v) == Lookup(words, root, v)
  }

  /** Every address is translated as before. */
  ghost predicate SameLookups(words: seq<u64>, words': seq<u64>, root: int) {
    forall v: u64 :: Lookup(words', root, v) == Lookup(words, root, v)
  }

  lemma SamePagesSameLookups(w: seq<u64>, t: Tree, w': seq<u64>, t': Tree)
    requires IsTree(w, t) && IsTree(w', t') && SamePages(w, t, w', t') && t[Root] == t'[Root]
    ensures SameLookups(w, w', t[Root])
  {
    hide Linked, Placed, Walk, PageAt;
    forall u: u64 ensures Lookup(w', t[Root], u) == Lookup(w, t[Root], u) {
      WalkIsPageAt(w, t, u, 0);
      WalkIsPageAt(w', t', u, 0);
    }
  }

  /** `map_raw` refuses this address: it is not canonical, mapped already, or has smaller pages below it. */
  ghost predicate Refuses(words: seq<u64>, root: int, v: u64, pageType: PageType) {
    || !Canonical(v) || Lookup(words, root, v).Some?
    || |Walk(words, root, v, 0).entries| > pageType.Depth()
  }

  /** A page is only written where nothing was mapped, so no earlier mapping is lost. */
  lemma NoneLost(w: seq<u64>, t: Tree, w': seq<u64>, vaddr: u64, pageType: PageType, raw: u64)
    requires IsTree(w, t) && Root in t && Canonical(vaddr) && Lookup(w, t[Root], vaddr) == None
    requires Levels(t, vaddr, 0) <= pageType.Depth() && MapsOnly(w, w', t[Root], vaddr, pageType, raw)
    ensures KeepsMapped(w, w', t[Root])
  {
    hide Index, Canonical, Span, PageBase, IsTree, Walk, PageAt, Levels;
    forall v: u64 | Canonical(v) && Lookup(w, t[Root], v).Some? ensures Lookup(w', t[Root], v) == Lookup(w, t[Root], v) {
      if v / pageType.Size() == vaddr / pageType.Size() {
        WalkIsPageAt(w, t, vaddr, 0);
        WalkIsPageAt(w, t, v, 0);
        SameIndices(v, vaddr, pageType.Depth() - 1);
        UnmappedTogether(w, t, vaddr, v, 0);
        assert false;
      }
    }
  }

  lemma {:induction false} PathsAgree(v: u64, w: u64, k: nat)
    requires k <= 4
    ensures PathTo(v, k) == PathTo(w, k) <==> forall j :: 0 <= j < k ==> Index(v, j) == Index(w, j)
  {
    hide Index;
    if k > 0 { PathsAgree(v, w, k - 1); }
  }

  /** A walk passes the new entry exactly for the addresses of the page. */
  lemma ThroughIsSamePage(v: u64, vaddr: u64, pageType: PageType)
    requires Canonical(v) && Canonical(vaddr)
    ensures var d := pageType.Depth() - 1;
      && PathTo(vaddr, d).Depth() == d
      && (Through(v, PathTo(vaddr, d), Index(vaddr, d)) <==> v / pageType.Size() == vaddr / pageType.Size())
  {
    hide Index, Canonical, Span;
    var d := pageType.Depth() - 1;
    PathDepth(vaddr, d);
    PathsAgree(v, vaddr, d);
    SameIndices(v, vaddr, d);
  }

  /** From the tree back to the walk over memory. */
  lemma MappedByTree(w: seq<u64>, t: Tree, w': seq<u64>, vaddr: u64, pageType: PageType, raw: u64)
    requires IsTree(w, t) && IsTree(w', t) && Canonical(vaddr)
    requires PathTo(vaddr, pageType.Depth() - 1).Depth() == pageType.Depth() - 1
    requires PageAdded(w, t, w', PathTo(vaddr, pageType.Depth() - 1), Index(vaddr, pageType.Depth() - 1), raw)
    ensures MapsOnly(w, w', t[Root], vaddr, pageType, raw)
  {
    assert Root in t;
    hide Index, Canonical, Span, PageBase, Linked, Placed, Walk, PageAt, Through;
    forall v: u64 | Canonical(v) ensures Lookup(w', t[Root], v) ==
      if v / pageType.Size() == vaddr / pageType.Size()
      then Some(Page(PageBase(raw, pageType.Depth() - 1), v % pageType.Size(), raw)) else Lookup(w, t[Root], v)
    {
      ThroughIsSamePage(v, vaddr, pageType);
      WalkIsPageAt(w, t, v, 0);
      WalkIsPageAt(w', t, v, 0);
    }
  }

  class PageTable {
    const table: u64
    ghost var tree: Tree

    /** The tables form a tree in memory, none of them in free memory. */
    ghost predicate Valid(pm: PhysicalMemory)
      reads this, pm, pm.free, pm.free.ranges
    {
      && pm.Valid()
      && IsTree(pm.words, tree) && Root in tree && tree[Root] == table
      && Apart(tree, pm.free.Entries())
    }

    /** An empty root table in a page that the caller has just allocated and zeroed. */
    constructor (pm: PhysicalMemory, page: u64)
      requires pm.Valid() && page % 0x1000 == 0 && page + 0x1000 <= 8 * |pm.words|
      requires forall j :: 0 <= j < 512 ==> Read(pm.words, page + j * 8) == 0
      requires forall x :: page <= x < page + 0x1000 ==> !Covers(pm.free.Entries(), x)
      ensures Valid(pm) && table == page && tree == map[Root := table]
      ensures Counted(pm.words, tree, None) && AllOpen(pm.words, tree)
      ensures forall v: u64 :: Lookup(pm.words, table, v) == None
    {
      table := page;
      tree := map[Root := page];
      new;
      forall i | 0 <= i < 512 ensures EntryAt(pm.words, tree, Root, i) == 0 {
        assert Slot(tree, Root, i) == page + i * 8;
      }
    }

    /** `components_inner`: the walk, as the source's loop over the four levels. */
    method Components(pm: PhysicalMemory, vaddr: u64) returns (r: Result<Mapping, Error>)
      ensures r == if Canonical(vaddr) then Ok(Walk(pm.words, table, vaddr, 0)) else Err(AddressNotCanonical)
    {
      hide Canonical, Walk, Read, Index, Span, Present, Large, TableOf, PageBase;
      if !Canonical(vaddr) {
        return Err(AddressNotCanonical);
      }
      var current := table;
      var entries: seq<int> := [];
      ghost var whole := Walk(pm.words, table, vaddr, 0);
      var depth := 0;
      while true
        invariant 0 <= depth < 4
        invariant var rest := Walk(pm.words, current, vaddr, depth);
                  whole.entries == entries + rest.entries && whole.page == rest.page
        decreases 4 - depth
      {
        WalkUnfolds(pm.words, current, vaddr, depth);
        var ptp := current + Index(vaddr, depth) * 8;
        var ent := Read(pm.words, ptp);
        ConcatAssoc(entries, [ptp], Walk(pm.words, TableOf(ent), vaddr, Min(depth + 1, 3)).entries);
        entries := entries + [ptp];
        if !Present(ent) {
          return Ok(Mapping(entries, None));
        }
        current := TableOf(ent);
        if depth == 3 || Large(ent) {
          if depth == 0 {
            return Ok(Mapping(entries, None));
          }
          return Ok(Mapping(entries, Some(Page(PageBase(ent, depth), vaddr % Span(depth), ent))));
        }
        depth := depth + 1;
      }
    }

    /** One round of the loop of `map_raw` that creates missing tables: a zeroed page is linked in
        at the last entry of the path, and the count of the edge above is bumped. */
    method AddTable(pm: PhysicalMemory, vaddr: u64, entries: seq<int>) returns (r: Option<int>)
      requires Valid(pm) && OnPath(tree, vaddr, entries) && |entries| < 4
      requires !Present(EntryAt(pm.words, tree, PathTo(vaddr, |entries| - 1), Index(vaddr, |entries| - 1)))
      modifies this, pm, pm.free, pm.free.ranges
      ensures Valid(pm)
      ensures r.None? <==> Unavailable(old(pm.free.Entries()), 0x1000)
      ensures r.None? ==> pm.words == old(pm.words) && tree == old(tree) && pm.free.Entries() == old(pm.free.Entries())
      ensures r.Some? ==>
        && OnPath(tree, vaddr, entries + [r.value])
        && !Present(EntryAt(pm.words, tree, PathTo(vaddr, |entries|), Index(vaddr, |entries|)))
        && Grows(old(pm.words), old(tree), old(pm.free.Entries()), pm.words, tree, pm.free.Entries())
        && SamePages(old(pm.words), old(tree), pm.words, tree)
        && AddedAbove(old(tree), tree, |entries| + 1)
    {
      hide IsTree, Apart, Carved, Grows, SamePages, Index, Bump, Zeroed, Unavailable;
      ghost var w, t, f := pm.words, tree, pm.free.Entries();
      var n := |entries|;
      ghost var p, i := PathTo(vaddr, n - 1), Index(vaddr, n - 1);
      PathDepth(vaddr, n - 1);
      var page := pm.AllocPageZeroed();
      if page.None? {
        return None;
      }
      GrowTree(w, t, f, pm.free.Entries(), p, i, page.value);
      TableEntryFields(page.value);
      if n >= 2 {
        var edge := entries[n - 2];
        assert p == Child(PathTo(vaddr, n - 2), Index(vaddr, n - 2));
        pm.WriteWord(edge, Bump(Read(pm.words, edge)));
      }
      pm.WriteWord(entries[n - 1], TableEntry(page.value));
      assert pm.words == WithTable(w, t, p, i, page.value);
      tree := tree[Child(p, i) := page.value];
      assert PathTo(vaddr, n) == Child(p, i);
      PathDepth(vaddr, n);
      r := Some(page.value + Index(vaddr, n) * 8);
    }

    /** The loop of `map_raw` that creates missing tables until the path has `depth` entries. */
    method CreateTables(pm: PhysicalMemory, vaddr: u64, depth: nat, path: seq<int>) returns (ok: bool, entries: seq<int>)
      requires Valid(pm) && OnPath(tree, vaddr, path) && |path| <= depth <= 4
      requires !Present(EntryAt(pm.words, tree, PathTo(vaddr, |path| - 1), Index(vaddr, |path| - 1)))
      modifies this, pm, pm.free, pm.free.ranges
      ensures Valid(pm)
      ensures Grows(old(pm.words), old(tree), old(pm.free.Entries()), pm.words, tree, pm.free.Entries())
      ensures SamePages(old(pm.words), old(tree), pm.words, tree) && AddedAbove(old(tree), tree, depth)
      ensures !ok ==> |path| < depth && Unavailable(pm.free.Entries(), 0x1000)
      ensures Unavailable(old(pm.free.Entries()), 0x1000) ==> pm.free.Entries() == old(pm.free.Entries())
      ensures ok ==> OnPath(tree, vaddr, entries) && |entries| == depth
      ensures ok ==> !Present(EntryAt(pm.words, tree, PathTo(vaddr, depth - 1), Index(vaddr, depth - 1)))
    {
      hide IsTree, Apart, Grows, SamePages, Index, EntryAt, Slot, Unavailable;
      ghost var w, t, f := pm.words, tree, pm.free.Entries();
      entries := path;
      GrowsRefl(w, t, f);
      for idx := 1 to depth
        invariant Valid(pm) && OnPath(tree, vaddr, entries) && idx <= |entries| <= depth
        invariant !Present(EntryAt(pm.words, tree, PathTo(vaddr, |entries| - 1), Index(vaddr, |entries| - 1)))
        invariant Grows(w, t, f, pm.words, tree, pm.free.Entries()) && SamePages(w, t, pm.words, tree)
        invariant AddedAbove(t, tree, depth) && |path| <= |entries|
        invariant Unavailable(f, 0x1000) ==> pm.free.Entries() == f
      {
        if idx < |entries| {
          continue;
        }
        ghost var w1, t1, f1 := pm.words, tree, pm.free.Entries();
        var slot := AddTable(pm, vaddr, entries);
        if slot.None? {
          return false, entries;
        }
        entries := entries + [slot.value];
        GrowsTrans(w, t, f, w1, t1, f1, pm.words, tree, pm.free.Entries());
        SamePagesTrans(w, t, w1, t1, pm.words, tree);
      }
      ok := true;
    }

    /** The end of `map_raw`: bump the count of the table and write the page entry. */
    method WriteMapping(pm: PhysicalMemory, vaddr: u64, pageType: PageType, raw: u64, entries: seq<int>)
      requires Valid(pm) && OnPath(tree, vaddr, entries) && |entries| == pageType.Depth() && Canonical(vaddr)
      requires !Present(EntryAt(pm.words, tree, PathTo(vaddr, |entries| - 1), Index(vaddr, |entries| - 1)))
      requires Present(raw) && (pageType == Page4K || Large(raw))
      modifies pm
      ensures Valid(pm) && MapsOnly(old(pm.words), pm.words, table, vaddr, pageType, raw)
      ensures Grows(old(pm.words), tree, pm.free.Entries(), pm.words, tree, pm.free.Entries())
    {
      hide IsTree, Apart, Grows, SamePages, Index, Bump, Large, Canonical, MapsOnly, PageBase;
      ghost var w, d := pm.words, |entries| - 1;
      ghost var p, i := PathTo(vaddr, d), Index(vaddr, d);
      PathDepth(vaddr, d);
      assert p == Child(PathTo(vaddr, d - 1), Index(vaddr, d - 1));
      GrowsRefl(w, tree, pm.free.Entries());
      PlacePage(w, tree, pm.free.Entries(), p, i, raw);
      var edge := entries[|entries| - 2];
      pm.WriteWord(edge, Bump(Read(pm.words, edge)));
      pm.WriteWord(entries[|entries| - 1], raw);
      assert pm.words == WithPage(w, tree, p, i, raw);
      MappedByTree(w, tree, pm.words, vaddr, pageType, raw);
    }

    /** Maps the page of `vaddr` to the raw entry. A rejected request changes nothing; an accepted
        one changes the walk of exactly the addresses of that page. */
    method MapRaw(pm: PhysicalMemory, vaddr: u64, pageType: PageType, raw: u64) returns (r: MapResult)
      requires Valid(pm)
      modifies this, pm, pm.free, pm.free.ranges
      ensures r == Rejected(InvalidPage) <==> !Present(raw) || (pageType != Page4K && !Large(raw))
      ensures r == Rejected(AddressNotCanonical) <==> r != Rejected(InvalidPage) && !Canonical(vaddr)
      ensures r == Rejected(MappedAlready) <==>
        r != Rejected(InvalidPage) && Canonical(vaddr) && Lookup(old(pm.words), table, vaddr).Some?
      ensures r == Rejected(SmallerPagesPresent) <==>
        r != Rejected(InvalidPage) && Canonical(vaddr) && Lookup(old(pm.words), table, vaddr).None?
        && |Walk(old(pm.words), table, vaddr, 0).entries| > pageType.Depth()
      ensures r.Rejected? <==> !Present(raw) || (pageType != Page4K && !Large(raw)) || Refuses(old(pm.words), table, vaddr, pageType)
      ensures Valid(pm) && AddedAbove(old(tree), tree, pageType.Depth())
      ensures r.Rejected? ==> pm.words == old(pm.words) && tree == old(tree) && pm.free.Entries() == old(pm.free.Entries())
      ensures r.Done? ==> MapsOnly(old(pm.words), pm.words, table, vaddr, pageType, raw)
      ensures r.Done? ==> KeepsMapped(old(pm.words), pm.words, table)
      ensures Grows(old(pm.words), old(tree), old(pm.free.Entries()), pm.words, tree, pm.free.Entries())
      ensures Counted(old(pm.words), old(tree), None) ==> Counted(pm.words, tree, None)
      ensures AllOpen(old(pm.words), old(tree)) ==> AllOpen(pm.words, tree)
      ensures Unavailable(old(pm.free.Entries()), 0x1000) ==> pm.free.Entries() == old(pm.free.Entries())
      ensures r.Panicked? ==> SameLookups(old(pm.words), pm.words, table) && Unavailable(pm.free.Entries(), 0x1000)
      ensures r.Panicked? ==> |Walk(old(pm.words), table, vaddr, 0).entries| < pageType.Depth()
    {
      hide IsTree, Apart, Grows, SamePages, Index, EntryAt, Slot, Large, Walk, Canonical, MapsOnly, KeepsMapped, PageBase, Counted, AllOpen,
           SameLookups, Unavailable;
      ghost var w, t, f := pm.words, tree, pm.free.Entries();
      GrowsRefl(w, t, f);
      if !Present(raw) || (pageType != Page4K && !Large(raw)) {
        return Rejected(InvalidPage);
      }
      var mapping := Components(pm, vaddr);
      if mapping.Err? {
        return Rejected(mapping.error);
      }
      if mapping.value.page.Some? {
        return Rejected(MappedAlready);
      }
      var depth := pageType.Depth();
      if |mapping.value.entries| > depth {
        return Rejected(SmallerPagesPresent);
      }
      WalkOnPath(w, t, vaddr);
      WalkIsPageAt(w, t, vaddr, 0);
      UnmappedEnd(w, t, vaddr, 0);
      var ok, entries := CreateTables(pm, vaddr, depth, mapping.value.entries);
      CountedAfterGrowth(w, t, f, pm.words, tree, pm.free.Entries());
      if !ok {
        SamePagesSameLookups(w, t, pm.words, tree);
        return Panicked;
      }
      ghost var w1, f1 := pm.words, pm.free.Entries();
      WriteMapping(pm, vaddr, pageType, raw, entries);
      MapsOnlyAfterGrowth(w, t, w1, tree, pm.words, vaddr, pageType, raw);
      NoneLost(w, t, pm.words, vaddr, pageType, raw);
      GrowsTrans(w, t, f, w1, tree, f1, pm.words, tree, f1);
      CountedAfterGrowth(w, t, f, pm.words, tree, f1);
      r := Done;
    }
  }

  lemma MapsOnlyAfterGrowth(w: seq<u64>, t: Tree, w1: seq<u64>, t1: Tree, w2: seq<u64>, vaddr: u64, pageType: PageType, raw: u64)
    requires IsTree(w, t) && IsTree(w1, t1) && SamePages(w, t, w1, t1) && t[Root] == t1[Root]
    requires MapsOnly(w1, w2, t[Root], vaddr, pageType, raw)
    ensures MapsOnly(w, w2, t[Root], vaddr, pageType, raw)
  {
    hide Linked, Placed, Walk, PageAt, PageBase, Canonical, Span;
    forall v: u64 ensures Lookup(w1, t[Root], v) == Lookup(w, t[Root], v) {
      WalkIsPageAt(w, t, v, 0);
      WalkIsPageAt(w1, t1, v, 0);
    }
  }
}