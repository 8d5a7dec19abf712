/** Reading a page's virtual base and size back from the entries of a walk (`Mapping::virt_base` and
    `Mapping::page_type`, shared/page_table/src/lib.rs). */
module PageMappings {
  import opened Machine
  import opened PageWalks
  import opened PageTrees
  import opened PageTables
  import opened Loading

  /** The index of the entry visited at level `j`, taken from its address. */
  function Part(m: Mapping, j: nat): int {
    if j < |m.entries| then m.entries[j] % 0x1000 / 8 else 0
  }

  function VirtBase(m: Mapping): Option<u64> {
    if m.page.None? then None
    else Some(Canonicalize(Part(m, 0) * 0x80_0000_0000 + Part(m, 1) * 0x4000_0000 + Part(m, 2) * 0x20_0000 + Part(m, 3) * 0x1000))
  }

  function PageTypeOf(m: Mapping): Option<PageType> {
    if m.page.None? then None
    else if |m.entries| <= 2 then Some(Page1G)
    else if |m.entries| <= 3 then Some(Page2M)
    else Some(Page4K)
  }

  /** A walk that finds a page has visited two to four entries, and its offset belongs to that level. */
  lemma {:induction false} WalkOffset(words: seq<u64>, table: int, v: u64, depth: nat)
    requires depth < 4
    ensures var m := Walk(words, table, v, depth);
      m.page.Some? ==> 2 <= depth + |m.entries| <= 4 && m.page.value.offset == v % Span(depth + |m.entries| - 1)
    decreases 4 - depth
  {
    hide Walk, Index, Span, PageBase, TableOf, Read, Present, Large;
    WalkUnfolds(words, table, v, depth);
    if depth < 3 { WalkOffset(words, TableOf(Read(words, table + Index(v, depth) * 8)), v, depth + 1); }
  }

  /** The address made of the indices down to level `d`. */
  function FromIndices(v: u64, d: nat): (a: int)
    requires d < 4
    ensures a >= 0
  {
    if d == 0 then Index(v, 0) * Span(0) else FromIndices(v, d - 1) + Index(v, d) * Span(d)
  }

  lemma {:induction false} IndicesSum(v: u64, d: nat)
    requires d < 4
    ensures FromIndices(v, d) == v - v % Span(d) - v / 0x1_0000_0000_0000 * 0x1_0000_0000_0000
  {
    hide Index;
    if d == 0 {
      TopSplit(v);
    } else {
      IndicesSum(v, d - 1);
      IndexStep(v, d);
      var q := v / Span(d - 1);
      assert v == q * Span(d - 1) + v % Span(d - 1) && v == v / Span(d) * Span(d) + v % Span(d);
      assert Span(d - 1) == 512 * Span(d);
      assert (q * 512 + Index(v, d)) * Span(d) == q * (512 * Span(d)) + Index(v, d) * Span(d);
    }
  }

  lemma TopSplit(v: u64)
    ensures Index(v, 0) * Span(0) == v - v % Span(0) - v / 0x1_0000_0000_0000 * 0x1_0000_0000_0000
  {
    assert v / 0x1_0000_0000_0000 == v / 0x80_0000_0000 / 512;
  }

  /** The indices determine the start of the page. */
  lemma IndicesGiveBase(v: u64, pageType: PageType)
    requires Canonical(v)
    ensures var d := pageType.Depth() - 1;
      0 <= FromIndices(v, d) <= U64_MAX && Canonicalize(FromIndices(v, d)) == v - v % Span(d)
  {
    hide Canonicalize, FromIndices;
    var d := pageType.Depth() - 1;
    var b := v - v % Span(d);
    IndicesSum(v, d);
    DivModUnique(b, v / Span(d), 0, Span(d));
    PageCanonical(v, b, pageType);
    var q := v / 0x1_0000_0000_0000;
    ModAddMultiple(FromIndices(v, d), q, 0x1_0000_0000_0000);
    SameLowBits(FromIndices(v, d), b);
  }

  lemma SameLowBits(a: u64, b: u64)
    requires a % 0x1_0000_0000_0000 == b % 0x1_0000_0000_0000
    ensures Canonicalize(a) == Canonicalize(b)
  {
  }

  /** The size read back is that of the level at which the walk ended. */
  lemma SizeOfWalk(w: seq<u64>, root: int, v: u64)
    requires Lookup(w, root, v).Some?
    ensures var m := Walk(w, root, v, 0);
      && m.page.Some? && PageTypeOf(m).Some? && |m.entries| == PageTypeOf(m).value.Depth()
      && m.page.value.offset == v % PageTypeOf(m).value.Size()
  {
    hide Walk, Span;
    WalkOffset(w, root, v, 0);
  }

  /** For every mapped address, the base read back plus the offset of the walk is the address, and the
      base is aligned to the size read back. */
  lemma VirtBaseInverts(w: seq<u64>, t: Tree, v: u64)
    requires IsTree(w, t) && Root in t && Canonical(v) && Lookup(w, t[Root], v).Some?
    ensures var m := Walk(w, t[Root], v, 0);
      && PageTypeOf(m).Some? && m.page.Some?
      && VirtBase(m) == Some(v - v % PageTypeOf(m).value.Size()) && m.page.value.offset == v % PageTypeOf(m).value.Size()
  {
    hide Walk, IsTree, Canonical, Lookup, PageTypeOf, VirtBase, Part, FromIndices, Index, Span, Canonicalize;
    SizeOfWalk(w, t[Root], v);
    var m := Walk(w, t[Root], v, 0);
    var pageType := PageTypeOf(m).value;
    IndicesGiveBase(v, pageType);
    PartsAreIndices(w, t, v);
    PartsGiveBase(m, v, pageType);
  }

  lemma PartsAreIndices(w: seq<u64>, t: Tree, v: u64)
    requires IsTree(w, t) && Root in t
    ensures var m := Walk(w, t[Root], v, 0); |m.entries| <= 4 && forall j :: 0 <= j < |m.entries| ==> Part(m, j) == Index(v, j)
  {
    hide Walk, Index, IsTree, Slot, Part, PathTo;
    WalkOnPath(w, t, v);
    var m := Walk(w, t[Root], v, 0);
    forall j | 0 <= j < |m.entries| ensures Part(m, j) == Index(v, j) {
      EntryIndex(w, t, v, j);
      PartIs(m, j);
    }
  }

  lemma PartIs(m: Mapping, j: nat)
    requires j < |m.entries|
    ensures Part(m, j) == m.entries[j] % 0x1000 / 8
  {
  }

  lemma PartsGiveBase(m: Mapping, v: u64, pageType: PageType)
    requires m.page.Some? && |m.entries| == pageType.Depth() && FromIndices(v, pageType.Depth() - 1) <= U64_MAX
    requires forall j :: 0 <= j < |m.entries| ==> Part(m, j) == Index(v, j)
    ensures VirtBase(m) == Some(Canonicalize(FromIndices(v, pageType.Depth() - 1)))
  {
    hide Canonicalize, Index;
    assert FromIndices(v, 1) == Index(v, 0) * Span(0) + Index(v, 1) * Span(1);
    assert FromIndices(v, 2) == FromIndices(v, 1) + Index(v, 2) * Span(2);
  }

  lemma EntryIndex(w: seq<u64>, t: Tree, v: u64, j: nat)
    requires IsTree(w, t) && j < 4 && PathTo(v, j) in t
    ensures Slot(t, PathTo(v, j), Index(v, j)) % 0x1000 / 8 == Index(v, j)
  {
    hide Linked, Index;
    var at, i := t[PathTo(v, j)], Index(v, j);
    DivModUnique(at + i * 8, at / 0x1000, i * 8, 0x1000);
  }
}
