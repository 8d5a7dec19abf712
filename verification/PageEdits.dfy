/** The two edits of `map_raw` on values: growing the tree by one level, and writing the page.
    Each allocates from free memory, writes one or two entries, and says what became of the walk of
    every address, of the reference counts, and of all other memory. */
module PageEdits {
  import opened Machine
  import opened Ranges
  import opened PageWalks
  import opened PageTrees

  /** No byte of a table is free memory. */
  ghost predicate Apart(t: Tree, free: seq<Range>) {
    forall p, x :: p in t && t[p] <= x < t[p] + 0x1000 ==> !Covers(free, x)
  }

  /** [at, at + size) was free and no longer is; nothing else became free. */
  ghost predicate Carved(free: seq<Range>, free': seq<Range>, at: int, size: int) {
    && (forall x :: at <= x < at + size ==> Covers(free, x) && !Covers(free', x))
    && (forall x :: Covers(free', x) ==> Covers(free, x))
  }

  /** The word at index `a` belongs to no table and to no free memory. */
  ghost predicate Elsewhere(t: Tree, free: seq<Range>, a: int) {
    && !Covers(free, 8 * a)
    && forall p :: p in t ==> !(t[p] <= 8 * a < t[p] + 0x1000)
  }

  /** The tree and memory after some tables were added below it: every old table is where it was,
      new tables come from free memory, and memory elsewhere is untouched. */
  ghost predicate Grows(w: seq<u64>, t: Tree, free: seq<Range>, w': seq<u64>, t': Tree, free': seq<Range>) {
    && |w'| == |w| && IsTree(w', t') && Apart(t', free')
    && (forall p :: p in t ==> p in t' && t'[p] == t[p])
    && (forall p, x :: p in t' && p !in t && t'[p] <= x < t'[p] + 0x1000 ==> Covers(free, x))
    && (forall x :: Covers(free', x) ==> Covers(free, x))
    && (forall a :: 0 <= a < |w| && Elsewhere(t, free, a) ==> w'[a] == w[a])
    && (Counted(w, t, None) ==> Counted(w', t', None))
    && (AllOpen(w, t) ==> AllOpen(w', t'))
  }

  ghost predicate SamePages(w: seq<u64>, t: Tree, w': seq<u64>, t': Tree) {
    Root in t && Root in t' && forall v: u64 :: PageAt(w', t', v, 0) == PageAt(w, t, v, 0)
  }

  lemma SamePagesTrans(w: seq<u64>, t: Tree, w1: seq<u64>, t1: Tree, w2: seq<u64>, t2: Tree)
    requires SamePages(w, t, w1, t1) && SamePages(w1, t1, w2, t2)
    ensures SamePages(w, t, w2, t2)
  {
    hide PageAt;
  }

  lemma GrowsRefl(w: seq<u64>, t: Tree, f: seq<Range>)
    requires IsTree(w, t) && Apart(t, f)
    ensures Grows(w, t, f, w, t, f) && SamePages(w, t, w, t)
  {
  }

  lemma GrowsTrans(w: seq<u64>, t: Tree, f: seq<Range>, w1: seq<u64>, t1: Tree, f1: seq<Range>, w2: seq<u64>, t2: Tree, f2: seq<Range>)
    requires Grows(w, t, f, w1, t1, f1) && Grows(w1, t1, f1, w2, t2, f2)
    ensures Grows(w, t, f, w2, t2, f2)
  {
    hide IsTree, Counted;
    forall a | 0 <= a < |w| && Elsewhere(t, f, a) ensures w2[a] == w[a] {
      assert Elsewhere(t1, f1, a);
    }
  }

  lemma CountedAfterGrowth(w: seq<u64>, t: Tree, f: seq<Range>, w': seq<u64>, t': Tree, f': seq<Range>)
    requires Grows(w, t, f, w', t', f')
    ensures Counted(w, t, None) ==> Counted(w', t', None)
    ensures AllOpen(w, t) ==> AllOpen(w', t')
  {
    hide Counted, IsTree, AllOpen;
  }

  /** Entries of every table are left alone by a change that spares the words of all tables. */
  lemma TablesSpared(w: seq<u64>, w': seq<u64>, t: Tree)
    requires Placed(w, t) && |w'| == |w|
    requires forall p, a :: p in t && t[p] <= 8 * a < t[p] + 0x1000 ==> w'[a] == w[a]
    ensures Placed(w', t)
    ensures forall p, i :: p in t && 0 <= i < 512 ==> EntryAt(w', t, p, i) == EntryAt(w, t, p, i)
  {
    forall p, i | p in t && 0 <= i < 512 ensures EntryAt(w', t, p, i) == EntryAt(w, t, p, i) {
      SlotsDistinct(w, t, p, i, p, i);
      var a := Slot(t, p, i) / 8;
      assert t[p] <= 8 * a < t[p] + 0x1000;
    }
  }

  /** `n` words from byte address `at` on cleared. */
  function Zeroed(w: seq<u64>, at: int, n: nat): (r: seq<u64>)
    requires 0 <= at && at % 8 == 0 && at / 8 + n <= |w|
    ensures |r| == |w|
    ensures forall a :: 0 <= a < |w| ==> r[a] == if at / 8 <= a < at / 8 + n then 0 else w[a]
  {
    w[..at / 8] + seq(n, _ => 0) + w[at / 8 + n..]
  }

  /** A zeroed page taken from free memory can become a table, and the tree does not notice it. */
  lemma ZeroFresh(w: seq<u64>, t: Tree, free: seq<Range>, free': seq<Range>, table: int)
    requires IsTree(w, t) && Apart(t, free) && Carved(free, free', table, 0x1000)
    requires table % 0x1000 == 0 && 0 <= table && table + 0x1000 <= 8 * |w| <= COUNT_UNIT
    ensures var w' := Zeroed(w, table, 512);
      && IsTree(w', t) && FreshTable(w', t, table)
      && (forall p, i :: p in t && 0 <= i < 512 ==> EntryAt(w', t, p, i) == EntryAt(w, t, p, i))
      && (forall a :: 0 <= a < |w| && !Covers(free, 8 * a) ==> w'[a] == w[a])
  {
    var w' := Zeroed(w, table, 512);
    assert forall a :: table <= 8 * a < table + 0x1000 ==> Covers(free, 8 * a);
    forall p, a | p in t && t[p] <= 8 * a < t[p] + 0x1000 ensures w'[a] == w[a] {
      assert !Covers(free, 8 * a);
    }
    TablesSpared(w, w', t);
    assert Covers(free, table);
    forall j | 0 <= j < 512 ensures Read(w', table + j * 8) == 0 {
      assert (table + j * 8) / 8 == table / 8 + j;
    }
    hide Placed, EntryAt;
    SameEdgesKeepTree(w, w', t);
  }

  /** Memory after the reference count of the edge to `p` was bumped; the root has no edge. */
  function Bumped(w: seq<u64>, t: Tree, p: Path): (r: seq<u64>)
    requires p in t && (p.Child? ==> p.parent in t && 0 <= Slot(t, p.parent, p.index) / 8 < |w|)
    ensures |r| == |w|
  {
    if p.Root? then w
    else Store(w, Slot(t, p.parent, p.index), Bump(EntryAt(w, t, p.parent, p.index)))
  }

  lemma BumpedKeeps(w: seq<u64>, t: Tree, p: Path)
    requires IsTree(w, t) && p in t
    ensures p.Child? ==> p.parent in t && p.index < 512 && 0 <= Slot(t, p.parent, p.index) / 8 < |w|
    ensures var w' := Bumped(w, t, p);
      && IsTree(w', t) && SameEdges(w, w', t)
      && (forall i :: 0 <= i < 512 ==> EntryAt(w', t, p, i) == EntryAt(w, t, p, i))
      && (Counted(w, t, None) ==> Counted(w', t, if p == Root then None else Some(p)))
      && (forall a :: 0 <= a < |w| && (forall q :: q in t ==> !(t[q] <= 8 * a < t[q] + 0x1000)) ==> w'[a] == w[a])
  {
    if p.Child? {
      var q, i := p.parent, p.index;
      BumpEdge(w, t, q, i);
      StoreEntry(w, t, q, i, Bump(EntryAt(w, t, q, i)));
      SlotsDistinct(w, t, q, i, q, i);
      assert q != p by { assert q.Depth() < p.Depth(); }
      var a := Slot(t, q, i) / 8;
      assert t[q] <= 8 * a < t[q] + 0x1000;
      if Counted(w, t, None) { BumpedAhead(w, t, q, i, Bumped(w, t, p)); }
    }
  }

  /** Memory after a fresh table was zeroed and linked in below entry `i` of the table at `p`. */
  function WithTable(w: seq<u64>, t: Tree, p: Path, i: nat, table: u64): (r: seq<u64>)
    requires table % 0x1000 == 0 && table + 0x1000 <= 8 * |w| <= COUNT_UNIT
    requires p in t && 0 <= Slot(t, p, i) / 8 < |w|
    requires p.Child? ==> p.parent in t && 0 <= Slot(t, p.parent, p.index) / 8 < |w|
    ensures |r| == |w|
  {
    Store(Bumped(Zeroed(w, table, 512), t, p), Slot(t, p, i), TableEntry(table))
  }

  /** One round of the table-creating loop of `map_raw`. */
  lemma GrowTree(w: seq<u64>, t: Tree, free: seq<Range>, free': seq<Range>, p: Path, i: nat, table: u64)
    requires IsTree(w, t) && Apart(t, free) && Carved(free, free', table, 0x1000)
    requires table % 0x1000 == 0 && table + 0x1000 <= 8 * |w| <= COUNT_UNIT
    requires p in t && i < 512 && p.Depth() < 3 && !Present(EntryAt(w, t, p, i))
    ensures 0 <= Slot(t, p, i) / 8 < |w| && (p.Child? ==> p.parent in t && 0 <= Slot(t, p.parent, p.index) / 8 < |w|)
    ensures var w', t' := WithTable(w, t, p, i, table), t[Child(p, i) := table];
      && Grows(w, t, free, w', t', free') && SamePages(w, t, w', t')
      && IsTree(w', t') && Apart(t', free')
      && forall j :: 0 <= j < 512 ==> EntryAt(w', t', Child(p, i), j) == 0
  {
    hide Present, EntryAt, Covers, Counted, AllOpen, SamePages, IsTree, Apart, Elsewhere, WithTable, Slot;
    GrowLinks(w, t, free, free', p, i, table);
    GrowUntouched(w, t, free, free', p, i, table);
  }

  /** The tree, its translations and its counts after that round. */
  lemma GrowLinks(w: seq<u64>, t: Tree, free: seq<Range>, free': seq<Range>, p: Path, i: nat, table: u64)
    requires IsTree(w, t) && Apart(t, free) && Carved(free, free', table, 0x1000)
    requires table % 0x1000 == 0 && table + 0x1000 <= 8 * |w| <= COUNT_UNIT
    requires p in t && i < 512 && p.Depth() < 3 && !Present(EntryAt(w, t, p, i))
    ensures 0 <= Slot(t, p, i) / 8 < |w| && (p.Child? ==> p.parent in t && 0 <= Slot(t, p.parent, p.index) / 8 < |w|)
    ensures var w', t' := WithTable(w, t, p, i, table), t[Child(p, i) := table];
      && IsTree(w', t') && SamePages(w, t, w', t') && Child(p, i) !in t
      && (Counted(w, t, None) ==> Counted(w', t', None)) && (AllOpen(w, t) ==> AllOpen(w', t'))
      && forall j :: 0 <= j < 512 ==> EntryAt(w', t', Child(p, i), j) == 0
  {
    hide Present, Large, TableOf, RefCount, Bump, Placed, Linked, EntryAt, Read, Covers, SameEdges, Counted, FreshTable, SamePages, AllOpen, Open,
         Apart, Carved, Store, Zeroed, Bumped, Slot, TableEntry;
    var w1 := Zeroed(w, table, 512);
    ZeroFresh(w, t, free, free', table);
    if Counted(w, t, None) { CountedSame(w, w1, t); }
    BumpedKeeps(w1, t, p);
    var w2 := Bumped(w1, t, p);
    BumpedStaysFresh(w1, t, p, table);
    LinkTable(w2, t, p, i, table);
    var w', t' := Store(w2, Slot(t, p, i), TableEntry(table)), t[Child(p, i) := table];
    if Counted(w, t, None) { LinkCatchesUp(w2, t, p, i, table, w', t'); }
    GrowKeepsPages(w, w1, w2, t, p, i, table, w', t');
    OpenEntries(w, w1, t);
    OpenSame(w1, w2, t);
    OpenLinked(w2, t, p, i, table, w', t');
  }

  /** The memory that the round leaves alone. */
  lemma GrowUntouched(w: seq<u64>, t: Tree, free: seq<Range>, free': seq<Range>, p: Path, i: nat, table: u64)
    requires IsTree(w, t) && Apart(t, free) && Carved(free, free', table, 0x1000)
    requires table % 0x1000 == 0 && table + 0x1000 <= 8 * |w| <= COUNT_UNIT
    requires p in t && i < 512 && p.Depth() < 3 && !Present(EntryAt(w, t, p, i))
    ensures 0 <= Slot(t, p, i) / 8 < |w| && (p.Child? ==> p.parent in t && 0 <= Slot(t, p.parent, p.index) / 8 < |w|)
    ensures var w', t' := WithTable(w, t, p, i, table), t[Child(p, i) := table];
      Apart(t', free') && forall a :: 0 <= a < |w| && Elsewhere(t, free, a) ==> w'[a] == w[a]
  {
    hide Present, Large, TableOf, RefCount, Bump, Placed, Linked, EntryAt, Read, Covers, SameEdges, Counted, FreshTable;
    var w1 := Zeroed(w, table, 512);
    ZeroFresh(w, t, free, free', table);
    BumpedKeeps(w1, t, p);
    SlotsDistinct(w, t, p, i, p, i);
    GrowFrame(w, Bumped(w1, t, p), t, free, free', p, i, table, WithTable(w, t, p, i, table), t[Child(p, i) := table]);
  }

  lemma OpenEntries(w: seq<u64>, w': seq<u64>, t: Tree)
    requires forall p, i :: p in t && 0 <= i < 512 ==> EntryAt(w', t, p, i) == EntryAt(w, t, p, i)
    ensures AllOpen(w, t) ==> AllOpen(w', t)
  {
    hide EntryAt, Open;
  }

  lemma CountedSame(w: seq<u64>, w': seq<u64>, t: Tree)
    requires Counted(w, t, None) && Linked(w, t)
    requires forall p, i :: p in t && 0 <= i < 512 ==> EntryAt(w', t, p, i) == EntryAt(w, t, p, i)
    ensures Counted(w', t, None)
  {
    hide EntryAt, RefCount;
    forall q | q in t && q.Child? && q.parent in t
      ensures RefCount(EntryAt(w', t, q.parent, q.index)) == CountPresent(w', t, q, 512)
    {
      CountSame(w, t, w', t, q, 512);
    }
  }

  lemma BumpedStaysFresh(w: seq<u64>, t: Tree, p: Path, table: int)
    requires IsTree(w, t) && p in t && FreshTable(w, t, table)
    ensures p.Child? ==> p.parent in t && 0 <= Slot(t, p.parent, p.index) / 8 < |w|
    ensures FreshTable(Bumped(w, t, p), t, table)
  {
    if p.Child? {
      var q, i := p.parent, p.index;
      SlotsDistinct(w, t, q, i, q, i);
      forall j | 0 <= j < 512 ensures Read(Bumped(w, t, p), table + j * 8) == 0 {
        var a, b := t[q] / 0x1000, table / 0x1000;
        assert t[q] == 0x1000 * a && table == 0x1000 * b && a != b;
        assert Slot(t, q, i) / 8 == 512 * a + i && (table + j * 8) / 8 == 512 * b + j;
      }
    }
  }

  lemma GrowKeepsPages(w: seq<u64>, w1: seq<u64>, w2: seq<u64>, t: Tree, p: Path, i: nat, table: int, w': seq<u64>, t': Tree)
    requires Linked(w, t) && Linked(w1, t) && Linked(w2, t) && Child(p, i) !in t
    requires forall q, j :: q in t && 0 <= j < 512 ==> EntryAt(w1, t, q, j) == EntryAt(w, t, q, j)
    requires SameEdges(w1, w2, t) && LinksTable(w2, t, p, i, table, w', t')
    ensures SamePages(w, t, w', t')
  {
    forall v: u64 ensures PageAt(w', t', v, 0) == PageAt(w, t, v, 0) {
      SameEdgesKeepPages(w, w1, t, v, 0);
      SameEdgesKeepPages(w1, w2, t, v, 0);
      LinkKeepsPages(w2, t, p, i, table, w', t', v, 0);
    }
  }

  lemma GrowFrame(w: seq<u64>, w2: seq<u64>, t: Tree, free: seq<Range>, free': seq<Range>, p: Path, i: nat, table: int, w': seq<u64>, t': Tree)
    requires Placed(w, t) && Apart(t, free) && Carved(free, free', table, 0x1000) && p in t && i < 512
    requires |w'| == |w2| == |w| && 0 <= Slot(t, p, i) / 8 < |w| && w' == w2[Slot(t, p, i) / 8 := w'[Slot(t, p, i) / 8]]
    requires forall a :: 0 <= a < |w| && Elsewhere(t, free, a) ==> w2[a] == w[a]
    requires t' == t[Child(p, i) := table]
    ensures Apart(t', free') && forall a :: 0 <= a < |w| && Elsewhere(t, free, a) ==> w'[a] == w[a]
  {
    SlotsDistinct(w, t, p, i, p, i);
    var b := Slot(t, p, i) / 8;
    assert t[p] <= 8 * b < t[p] + 0x1000;
  }

  /* ---- The page entry ---------------------------------------------------------------------- */

  function WithPage(w: seq<u64>, t: Tree, p: Path, i: nat, raw: u64): (r: seq<u64>)
    requires p in t && 0 <= Slot(t, p, i) / 8 < |w|
    requires p.Child? ==> p.parent in t && 0 <= Slot(t, p.parent, p.index) / 8 < |w|
    ensures |r| == |w|
  {
    Store(Bumped(w, t, p), Slot(t, p, i), raw)
  }

  /** Exactly the addresses whose walk passes entry `i` of the table at `p` find the new page. */
  ghost predicate PageAdded(w: seq<u64>, t: Tree, w': seq<u64>, p: Path, i: nat, raw: u64)
    requires p.Depth() < 4 && Root in t
  {
    forall v: u64 ::
      PageAt(w', t, v, 0) ==
      if Through(v, p, i) then Some(Page(PageBase(raw, p.Depth()), v % Span(p.Depth()), raw)) else PageAt(w, t, v, 0)
  }

  /** The last part of `map_raw`: exactly the addresses whose walk passes the new entry change. */
  lemma PlacePage(w: seq<u64>, t: Tree, free: seq<Range>, p: Path, i: nat, raw: u64)
    requires IsTree(w, t) && Apart(t, free)
    requires p in t && i < 512 && 1 <= p.Depth() <= 3 && !Present(EntryAt(w, t, p, i))
    requires Present(raw) && (p.Depth() == 3 || Large(raw))
    ensures 0 <= Slot(t, p, i) / 8 < |w| && p.parent in t && 0 <= Slot(t, p.parent, p.index) / 8 < |w|
    ensures var w' := WithPage(w, t, p, i, raw);
      && Grows(w, t, free, w', t, free) && IsTree(w', t)
      && PageAdded(w, t, w', p, i, raw)
  {
    assert Root in t;
    hide Present, Large, TableOf, RefCount, Bump, Placed, Linked, PageBase, Span, Index, EntryAt, Read, SameEdges, Counted, AllOpen, Open, PageAt, Through, Apart, Covers, Elsewhere, PageAdded;
    BumpedKeeps(w, t, p);
    var w1 := Bumped(w, t, p);
    WritePage(w1, t, p, i, raw);
    var w' := WithPage(w, t, p, i, raw);
    if Counted(w, t, None) { WriteCatchesUp(w1, t, p, i, raw, w'); }
    PlaceKeepsPages(w, w1, t, p, i, raw, w');
    OpenSame(w, w1, t);
    OpenWritten(w1, w', t, p, i);
    PageFrame(w, w1, t, free, p, i, raw);
  }

  lemma PlaceKeepsPages(w: seq<u64>, w1: seq<u64>, t: Tree, p: Path, i: nat, raw: u64, w': seq<u64>)
    requires Linked(w, t) && Linked(w1, t) && SameEdges(w, w1, t)
    requires p in t && i < 512 && Child(p, i) !in t && 1 <= p.Depth() <= 3 && Present(raw)
    requires forall q, j :: q in t && 0 <= j < 512 ==>
      EntryAt(w', t, q, j) == if q == p && j == i then raw else EntryAt(w1, t, q, j)
    ensures PageAdded(w, t, w', p, i, raw)
  {
    hide PageBase, Span, Index, EntryAt, SameEdges, PageAt, Through;
    forall v: u64 ensures PageAt(w', t, v, 0) ==
      if Through(v, p, i) then Some(Page(PageBase(raw, p.Depth()), v % Span(p.Depth()), raw)) else PageAt(w, t, v, 0)
    {
      SameEdgesKeepPages(w, w1, t, v, 0);
      PageWritten(w1, t, p, i, raw, w', v, 0);
    }
  }

  lemma PageFrame(w: seq<u64>, w1: seq<u64>, t: Tree, free: seq<Range>, p: Path, i: nat, raw: u64)
    requires Placed(w, t) && p in t && i < 512 && |w1| == |w| && 0 <= Slot(t, p, i) / 8 < |w|
    requires forall a :: 0 <= a < |w| && (forall q :: q in t ==> !(t[q] <= 8 * a < t[q] + 0x1000)) ==> w1[a] == w[a]
    ensures forall a :: 0 <= a < |w| && Elsewhere(t, free, a) ==> Store(w1, Slot(t, p, i), raw)[a] == w[a]
  {
    SlotsDistinct(w, t, p, i, p, i);
    var b := Slot(t, p, i) / 8;
    assert t[p] <= 8 * b < t[p] + 0x1000;
  }
}
