/** Page tables as a tree: which tables exist, what an address walk finds, and what each kind of
    write to a table entry does to the walk of every address. */
module PageTrees {
  import opened Machine
  import opened PageWalks

  /** Position of a table: the root, or the table that entry `index` of `parent` points to. */
  datatype Path = Root | Child(parent: Path, index: nat) {
    function Depth(): nat { if Root? then 0 else 1 + parent.Depth() }
  }

  /** Physical address of every table of the tree. */
  type Tree = map<Path, int>

  /** A mapped page as an address walk reports it: base, offset into it, and raw entry. */
  datatype Page = Page(base: u64, offset: int, raw: u64)

  /** `entries` are the addresses of the entries visited, the PML4 entry first. */
  datatype Mapping = Mapping(entries: seq<int>, page: Option<Page>)

  function Read(words: seq<u64>, a: int): u64 {
    if 0 <= a / 8 < |words| then words[a / 8] else 0
  }

  function PageBase(e: u64, depth: nat): u64
    requires depth < 4
  {
    TableOf(e) - TableOf(e) % Span(depth)
  }

  /** The walk of `components_inner` from `table` on. */
  function Walk(words: seq<u64>, table: int, v: u64, depth: nat): Mapping
    requires depth < 4
    decreases 4 - depth
  {
    var ptp := table + Index(v, depth) * 8;
    var ent := Read(words, ptp);
    if !Present(ent) then Mapping([ptp], None)
    else if depth == 3 || Large(ent) then
      if depth == 0 then Mapping([ptp], None)
      else Mapping([ptp], Some(Page(PageBase(ent, depth), v % Span(depth), ent)))
    else
      var rest := Walk(words, TableOf(ent), v, depth + 1);
      Mapping([ptp] + rest.entries, rest.page)
  }

  lemma WalkUnfolds(words: seq<u64>, table: int, v: u64, depth: nat)
    requires depth < 4
    ensures var ptp := table + Index(v, depth) * 8;
      var ent := Read(words, ptp);
      if !Present(ent) || (depth == 0 && Large(ent)) then Walk(words, table, v, depth) == Mapping([ptp], None)
      else if depth == 3 || Large(ent) then
        Walk(words, table, v, depth) == Mapping([ptp], Some(Page(PageBase(ent, depth), v % Span(depth), ent)))
      else
        var rest := Walk(words, TableOf(ent), v, depth + 1);
        Walk(words, table, v, depth) == Mapping([ptp] + rest.entries, rest.page)
  {
    hide Index, Span, Present, Large, TableOf, PageBase, Read;
  }

  lemma {:induction false} AtMostFour(w: seq<u64>, table: int, v: u64, depth: nat)
    requires depth < 4
    ensures depth + |Walk(w, table, v, depth).entries| <= 4
    decreases 4 - depth
  {
    hide Walk, Index, Span, PageBase, TableOf, Read, Present, Large;
    WalkUnfolds(w, table, v, depth);
    if depth < 3 { AtMostFour(w, TableOf(Read(w, table + Index(v, depth) * 8)), v, depth + 1); }
  }

  /** The table reached by the first `k` indices of `v`. */
  function PathTo(v: u64, k: nat): Path
    requires k <= 4
  {
    if k == 0 then Root else Child(PathTo(v, k - 1), Index(v, k - 1))
  }

  function Slot(t: Tree, p: Path, i: nat): int
    requires p in t
  {
    t[p] + i * 8
  }

  function EntryAt(words: seq<u64>, t: Tree, p: Path, i: nat): u64
    requires p in t
  {
    Read(words, Slot(t, p, i))
  }

  /** The tables lie in memory, are page aligned and distinct. */
  ghost predicate Placed(words: seq<u64>, t: Tree) {
    && (forall p :: p in t ==> t[p] % 0x1000 == 0 && 0 <= t[p] && t[p] + 0x1000 <= 8 * |words| && t[p] < COUNT_UNIT)
    && (forall p, q :: p in t && q in t && p != q ==> t[p] != t[q])
  }

  /** Exactly the entries that point to a table are the inner edges of the tree. */
  ghost predicate Linked(words: seq<u64>, t: Tree) {
    && Root in t
    && (forall p :: p in t ==> p.Depth() <= 3)
    && (forall p :: p in t && p.Child? ==> p.parent in t && p.index < 512)
    && (forall p, i :: p in t && 0 <= i < 512 ==>
          var e := EntryAt(words, t, p, i);
          && (Child(p, i) in t <==> Present(e) && !Large(e) && p.Depth() < 3)
          && (Child(p, i) in t ==> TableOf(e) == t[Child(p, i)])
          && (p == Root && Present(e) ==> !Large(e)))
  }

  ghost predicate IsTree(words: seq<u64>, t: Tree) {
    Placed(words, t) && Linked(words, t)
  }

  /** The page that a walk of `v` finds, read off the tree. */
  function PageAt(words: seq<u64>, t: Tree, v: u64, k: nat): Option<Page>
    requires k < 4 && PathTo(v, k) in t
    decreases 4 - k
  {
    var e := EntryAt(words, t, PathTo(v, k), Index(v, k));
    if k < 3 && PathTo(v, k + 1) in t then PageAt(words, t, v, k + 1)
    else if !Present(e) || k == 0 then None
    else Some(Page(PageBase(e, k), v % Span(k), e))
  }

  /** Number of tables on the path of `v`, from the one at level `k`. */
  function Levels(t: Tree, v: u64, k: nat): nat
    requires k < 4
    decreases 4 - k
  {
    if k < 3 && PathTo(v, k + 1) in t then Levels(t, v, k + 1) else k + 1
  }

  lemma {:induction false} PathDepth(v: u64, k: nat)
    requires k <= 4
    ensures PathTo(v, k).Depth() == k
  {
    if k > 0 { PathDepth(v, k - 1); }
  }

  lemma {:induction false} LevelsBound(t: Tree, v: u64, k: nat)
    requires k < 4
    ensures k < Levels(t, v, k) <= 4
    decreases 4 - k
  {
    if k < 3 { LevelsBound(t, v, k + 1); }
  }

  lemma {:induction false} LevelsPresent(words: seq<u64>, t: Tree, v: u64, k: nat, j: nat)
    requires k < 4 && PathTo(v, k) in t && k <= j < Levels(t, v, k)
    ensures Levels(t, v, k) <= 4 && PathTo(v, j) in t
    ensures Levels(t, v, k) < 4 ==> PathTo(v, Levels(t, v, k)) !in t
    decreases 4 - k
  {
    if k < 3 && PathTo(v, k + 1) in t && k < j { LevelsPresent(words, t, v, k + 1, j); }
    else if k < 3 && PathTo(v, k + 1) in t { LevelsPresent(words, t, v, k + 1, k + 1); }
  }

  /** One step of the walk, read off the tree. */
  lemma WalkStep(words: seq<u64>, t: Tree, v: u64, k: nat)
    requires IsTree(words, t) && k < 4 && PathTo(v, k) in t
    ensures var m, e := Walk(words, t[PathTo(v, k)], v, k), EntryAt(words, t, PathTo(v, k), Index(v, k));
      if k < 3 && PathTo(v, k + 1) in t then
        var rest := Walk(words, t[PathTo(v, k + 1)], v, k + 1);
        m == Mapping([Slot(t, PathTo(v, k), Index(v, k))] + rest.entries, rest.page)
      else
        m == Mapping([Slot(t, PathTo(v, k), Index(v, k))],
                     if !Present(e) || k == 0 then None else Some(Page(PageBase(e, k), v % Span(k), e)))
  {
    hide Placed, TableOf, PageBase, Index, Span, Walk, Read, Large, Present;
    PathDepth(v, k);
    var p, i := PathTo(v, k), Index(v, k);
    assert k < 3 ==> PathTo(v, k + 1) == Child(p, i);
    assert k == 3 ==> Child(p, i).Depth() == 4;
    WalkUnfolds(words, t[p], v, k);
    assert EntryAt(words, t, p, i) == Read(words, t[p] + i * 8);
  }

  /** The walk over memory and the walk over the tree find the same page. */
  lemma {:induction false} WalkIsPageAt(words: seq<u64>, t: Tree, v: u64, k: nat)
    requires IsTree(words, t) && k < 4 && PathTo(v, k) in t
    ensures Walk(words, t[PathTo(v, k)], v, k).page == PageAt(words, t, v, k)
    decreases 4 - k
  {
    hide IsTree, Walk, EntryAt, PathTo, PageBase, Index, Span;
    WalkStep(words, t, v, k);
    if k < 3 && PathTo(v, k + 1) in t { WalkIsPageAt(words, t, v, k + 1); }
  }

  /** The entries visited by the walk are the slots on the path of `v`, down to the last table. */
  lemma {:induction false} WalkEntries(words: seq<u64>, t: Tree, v: u64, k: nat, j: nat)
    requires IsTree(words, t) && k < 4 && PathTo(v, k) in t && k <= j < Levels(t, v, k)
    ensures var m := Walk(words, t[PathTo(v, k)], v, k);
      |m.entries| == Levels(t, v, k) - k && PathTo(v, j) in t && m.entries[j - k] == Slot(t, PathTo(v, j), Index(v, j))
    decreases 4 - k
  {
    hide IsTree, Walk, EntryAt, PathTo, PageBase, Index, Span, Slot;
    WalkStep(words, t, v, k);
    LevelsPresent(words, t, v, k, j);
    if k < 3 && PathTo(v, k + 1) in t { WalkEntries(words, t, v, k + 1, Max(j, k + 1)); }
  }

  /** Tables that were added lie above level `d`. */
  ghost predicate AddedAbove(t: Tree, t': Tree, d: nat) {
    forall p :: p in t' && p !in t ==> p.Depth() < d
  }

  /** The path of `v` has more than `d` tables exactly when its table at level `d` is there. */
  lemma {:induction false} LevelsIff(words: seq<u64>, t: Tree, v: u64, d: nat)
    requires Linked(words, t) && d < 4
    ensures Levels(t, v, 0) > d <==> PathTo(v, d) in t
  {
    hide Index, EntryAt;
    PathDepth(v, d);
    if PathTo(v, d) in t {
      PathUpTo(words, t, v, d);
      LevelsReach(t, v, 0, d);
    } else if Levels(t, v, 0) > d {
      LevelsPresent(words, t, v, 0, d);
    }
  }

  lemma {:induction false} PathUpTo(words: seq<u64>, t: Tree, v: u64, d: nat)
    requires Linked(words, t) && d < 4 && PathTo(v, d) in t
    ensures forall k :: 0 <= k <= d ==> PathTo(v, k) in t
  {
    hide Index, EntryAt;
    if d > 0 {
      assert PathTo(v, d) == Child(PathTo(v, d - 1), Index(v, d - 1));
      PathUpTo(words, t, v, d - 1);
    }
  }

  lemma {:induction false} LevelsReach(t: Tree, v: u64, k: nat, d: nat)
    requires k <= d < 4 && forall j :: 0 <= j <= d ==> PathTo(v, j) in t
    ensures Levels(t, v, k) > d
    decreases 4 - k
  {
    if k < d { LevelsReach(t, v, k + 1, d); }
  }

  /** Tables added above level `d` do not lengthen a path beyond that level. */
  lemma PathStaysShort(w: seq<u64>, t: Tree, w': seq<u64>, t': Tree, v: u64, d: nat)
    requires Linked(w, t) && Linked(w', t') && AddedAbove(t, t', d) && d < 5 && (forall p :: p in t ==> p in t')
    ensures Levels(t', v, 0) > d <==> Levels(t, v, 0) > d
  {
    hide Index, EntryAt, Linked;
    if d < 4 {
      PathDepth(v, d);
      LevelsIff(w, t, v, d);
      LevelsIff(w', t', v, d);
    } else {
      LevelsBound(t, v, 0);
      LevelsBound(t', v, 0);
    }
  }

  /** The entries listed are the slots on the path of `v`. */
  ghost predicate OnPath(t: Tree, v: u64, entries: seq<int>) {
    && 1 <= |entries| <= 4
    && forall j :: 0 <= j < |entries| ==> PathTo(v, j) in t && entries[j] == Slot(t, PathTo(v, j), Index(v, j))
  }

  lemma WalkOnPath(words: seq<u64>, t: Tree, v: u64)
    requires IsTree(words, t)
    ensures OnPath(t, v, Walk(words, t[Root], v, 0).entries)
    ensures |Walk(words, t[Root], v, 0).entries| == Levels(t, v, 0)
  {
    assert Root in t && PathTo(v, 0) == Root;
    LevelsBound(t, v, 0);
    hide Walk, Index, IsTree, Slot, PathTo, Levels;
    WalkEntries(words, t, v, 0, 0);
    forall j | 0 <= j < Levels(t, v, 0)
      ensures PathTo(v, j) in t && Walk(words, t[Root], v, 0).entries[j] == Slot(t, PathTo(v, j), Index(v, j))
    {
      WalkEntries(words, t, v, 0, j);
    }
  }

  /** Where no page is found, the walk ends at an entry that is not present. */
  lemma {:induction false} UnmappedEnd(words: seq<u64>, t: Tree, v: u64, k: nat)
    requires IsTree(words, t) && k < 4 && PathTo(v, k) in t && PageAt(words, t, v, k) == None
    ensures var n := Levels(t, v, k); 1 <= n <= 4 && PathTo(v, n - 1) in t && !Present(EntryAt(words, t, PathTo(v, n - 1), Index(v, n - 1)))
    decreases 4 - k
  {
    hide Index, Span, PageBase, EntryAt;
    if k < 3 && PathTo(v, k + 1) in t { UnmappedEnd(words, t, v, k + 1); }
    else if k == 0 { assert Child(Root, Index(v, 0)) !in t; }
  }

  /** Addresses that share all indices down to the last visited level share the missing entry. */
  lemma {:induction false} UnmappedTogether(words: seq<u64>, t: Tree, v: u64, u: u64, k: nat)
    requires k < 4 && PathTo(v, k) in t && PathTo(u, k) == PathTo(v, k) && PageAt(words, t, v, k) == None
    requires forall j :: k <= j < Levels(t, v, k) ==> Index(u, j) == Index(v, j)
    ensures PageAt(words, t, u, k) == None
    decreases 4 - k
  {
    hide Index, Span, PageBase, EntryAt;
    if k < 3 && PathTo(v, k + 1) in t { UnmappedTogether(words, t, v, u, k + 1); }
  }

  /* ---- Writing entries ------------------------------------------------------------------ */

  function Store(words: seq<u64>, a: int, w: u64): (r: seq<u64>)
    requires 0 <= a / 8 < |words|
    ensures |r| == |words|
  {
    words[a / 8 := w]
  }

  /** Slots of distinct tables never share a word. */
  lemma SlotsDistinct(words: seq<u64>, t: Tree, p: Path, i: nat, q: Path, j: nat)
    requires Placed(words, t) && p in t && q in t && i < 512 && j < 512
    ensures 0 <= Slot(t, p, i) / 8 < |words| && Slot(t, p, i) % 8 == 0
    ensures Slot(t, p, i) / 8 == Slot(t, q, j) / 8 ==> p == q && i == j
  {
    var a, b := t[p] / 0x1000, t[q] / 0x1000;
    assert t[p] == 0x1000 * a && t[q] == 0x1000 * b;
    assert Slot(t, p, i) / 8 == 512 * a + i && Slot(t, q, j) / 8 == 512 * b + j;
  }

  /** Storing to one slot changes that entry only. */
  lemma StoreEntry(words: seq<u64>, t: Tree, p: Path, i: nat, w: u64)
    requires Placed(words, t) && p in t && i < 512
    ensures 0 <= Slot(t, p, i) / 8 < |words|
    ensures var words' := Store(words, Slot(t, p, i), w);
      && Placed(words', t)
      && forall q, j :: q in t && 0 <= j < 512 ==>
           EntryAt(words', t, q, j) == if q == p && j == i then w else EntryAt(words, t, q, j)
  {
    SlotsDistinct(words, t, p, i, p, i);
    var words' := Store(words, Slot(t, p, i), w);
    forall q, j | q in t && 0 <= j < 512
      ensures EntryAt(words', t, q, j) == if q == p && j == i then w else EntryAt(words, t, q, j)
    {
      SlotsDistinct(words, t, p, i, q, j);
      SlotsDistinct(words, t, q, j, q, j);
    }
  }

  /** Two memories that agree on every entry, up to the reference counts of inner edges. */
  ghost predicate SameEdges(words: seq<u64>, words': seq<u64>, t: Tree) {
    forall p, i :: p in t && 0 <= i < 512 ==>
      var e, e' := EntryAt(words, t, p, i), EntryAt(words', t, p, i);
      && (Child(p, i) !in t ==> e' == e)
      && (Child(p, i) in t ==> Present(e') == Present(e) && Large(e') == Large(e) && TableOf(e') == TableOf(e) && Open(e') == Open(e))
  }

  lemma SameEdgesKeepTree(words: seq<u64>, words': seq<u64>, t: Tree)
    requires Linked(words, t) && SameEdges(words, words', t)
    ensures Linked(words', t)
  {
    forall p, i | p in t && 0 <= i < 512
      ensures var e := EntryAt(words', t, p, i);
        && (Child(p, i) in t <==> Present(e) && !Large(e) && p.Depth() < 3)
        && (Child(p, i) in t ==> TableOf(e) == t[Child(p, i)])
        && (p == Root && Present(e) ==> !Large(e))
    {
      assert EntryAt(words, t, p, i) == EntryAt(words, t, p, i);
    }
  }

  lemma {:induction false} SameEdgesKeepPages(words: seq<u64>, words': seq<u64>, t: Tree, v: u64, k: nat)
    requires Linked(words, t) && SameEdges(words, words', t) && k < 4 && PathTo(v, k) in t
    ensures PageAt(words', t, v, k) == PageAt(words, t, v, k)
    decreases 4 - k
  {
    hide Index, Span, PageBase, EntryAt;
    PathDepth(v, k);
    if k < 3 && PathTo(v, k + 1) in t {
      SameEdgesKeepPages(words, words', t, v, k + 1);
    } else {
      assert k == 3 ==> Child(PathTo(v, k), Index(v, k)).Depth() == 4;
      assert Child(PathTo(v, k), Index(v, k)) !in t;
    }
  }

  /** Bumping the reference count of an inner edge. */
  lemma BumpEdge(words: seq<u64>, t: Tree, p: Path, i: nat)
    requires IsTree(words, t) && p in t && i < 512 && Child(p, i) in t
    ensures 0 <= Slot(t, p, i) / 8 < |words|
    ensures var words' := Store(words, Slot(t, p, i), Bump(EntryAt(words, t, p, i)));
      IsTree(words', t) && SameEdges(words, words', t)
  {
    var e := EntryAt(words, t, p, i);
    StoreEntry(words, t, p, i, Bump(e));
    BumpKeepsMeaning(e);
    hide Bump, Present, Large, TableOf, RefCount, Placed, Linked, EntryAt;
    SameEdgesKeepTree(words, Store(words, Slot(t, p, i), Bump(e)), t);
  }

  /** A page-aligned zeroed page that is not yet a table. */
  ghost predicate FreshTable(words: seq<u64>, t: Tree, table: int) {
    && table % 0x1000 == 0 && 0 <= table && table + 0x1000 <= 8 * |words| && table < COUNT_UNIT
    && (forall p :: p in t ==> t[p] != table)
    && (forall j :: 0 <= j < 512 ==> Read(words, table + j * 8) == 0)
  }

  /** The effect of linking a fresh table in at an entry that was not present. */
  ghost predicate LinksTable(words: seq<u64>, t: Tree, p: Path, i: nat, table: int, words': seq<u64>, t': Tree)
  {
    && p in t && i < 512 && p.Depth() < 3
    && !Present(EntryAt(words, t, p, i))
    && t' == t[Child(p, i) := table]
    && (forall q, j :: q in t && 0 <= j < 512 && !(q == p && j == i) ==> EntryAt(words', t', q, j) == EntryAt(words, t, q, j))
    && (forall j :: 0 <= j < 512 ==> EntryAt(words', t', Child(p, i), j) == 0)
    && (var e := EntryAt(words', t', p, i);
        Present(e) && !Large(e) && TableOf(e) == table && RefCount(e) == 0 && Open(e))
  }

  lemma LinkedAfterLink(words: seq<u64>, t: Tree, p: Path, i: nat, table: int, words': seq<u64>, t': Tree)
    requires Linked(words, t) && Child(p, i) !in t && LinksTable(words, t, p, i, table, words', t')
    ensures Linked(words', t')
  {
    hide EntryAt, TableOf, RefCount;
    forall q, j | q in t' && 0 <= j < 512
      ensures var e := EntryAt(words', t', q, j);
        && (Child(q, j) in t' <==> Present(e) && !Large(e) && q.Depth() < 3)
        && (Child(q, j) in t' ==> TableOf(e) == t'[Child(q, j)])
        && (q == Root && Present(e) ==> !Large(e))
    {
      if q == Child(p, i) {
        assert Child(q, j) !in t && Child(q, j) !in t';
      } else {
        assert q in t;
        assert EntryAt(words, t, q, j) == EntryAt(words, t, q, j);
      }
    }
  }

  /** Linking in an empty table changes no page. */
  lemma {:induction false} LinkKeepsPages(words: seq<u64>, t: Tree, p: Path, i: nat, table: int, words': seq<u64>, t': Tree, v: u64, k: nat)
    requires Linked(words, t) && Child(p, i) !in t && LinksTable(words, t, p, i, table, words', t')
    requires k < 4 && PathTo(v, k) in t
    ensures PathTo(v, k) in t' && PageAt(words', t', v, k) == PageAt(words, t, v, k)
    decreases 4 - k
  {
    hide Index, Span, PageBase, EntryAt, TableOf, RefCount, Large;
    PathDepth(v, k);
    if k < 3 && PathTo(v, k + 1) in t {
      LinkKeepsPages(words, t, p, i, table, words', t', v, k + 1);
      assert Child(PathTo(v, k), Index(v, k)) != Child(p, i);
    } else if PathTo(v, k) == p && Index(v, k) == i {
      assert PathTo(v, k + 1) == Child(p, i);
      PathDepth(v, k + 1);
      assert k + 2 <= 4 ==> PathTo(v, k + 2) !in t;
      assert EntryAt(words', t', PathTo(v, k + 1), Index(v, k + 1)) == 0;
    }
  }

  lemma PlacedExtended(words: seq<u64>, t: Tree, q: Path, table: int)
    requires Placed(words, t) && q !in t && FreshTable(words, t, table)
    ensures var t' := t[q := table];
      && Placed(words, t')
      && (forall j :: 0 <= j < 512 ==> EntryAt(words, t', q, j) == 0)
      && (forall p, j :: p in t && 0 <= j < 512 ==> EntryAt(words, t', p, j) == EntryAt(words, t, p, j))
  {
    var t' := t[q := table];
    forall j | 0 <= j < 512 ensures EntryAt(words, t', q, j) == 0 {
      assert Slot(t', q, j) == table + j * 8;
    }
  }

  lemma LinkEntries(words: seq<u64>, t: Tree, p: Path, i: nat, table: u64)
    requires Placed(words, t) && p in t && i < 512 && p.Depth() < 3 && !Present(EntryAt(words, t, p, i))
    requires FreshTable(words, t, table) && Child(p, i) !in t
    ensures 0 <= Slot(t, p, i) / 8 < |words|
    ensures var words', t' := Store(words, Slot(t, p, i), TableEntry(table)), t[Child(p, i) := table];
      Placed(words', t') && LinksTable(words, t, p, i, table, words', t')
  {
    TableEntryFields(table);
    assert table < COUNT_UNIT;
    hide Present, Large, TableOf, RefCount, EntryAt, Read, Placed, FreshTable, TableEntry, Store;
    PlacedExtended(words, t, Child(p, i), table);
    var t' := t[Child(p, i) := table];
    assert Slot(t', p, i) == Slot(t, p, i);
    StoreEntry(words, t', p, i, TableEntry(table));
  }

  lemma LinkTable(words: seq<u64>, t: Tree, p: Path, i: nat, table: u64)
    requires IsTree(words, t) && p in t && i < 512 && p.Depth() < 3 && !Present(EntryAt(words, t, p, i))
    requires FreshTable(words, t, table)
    ensures 0 <= Slot(t, p, i) / 8 < |words| && Child(p, i) !in t
    ensures var words', t' := Store(words, Slot(t, p, i), TableEntry(table)), t[Child(p, i) := table];
      IsTree(words', t') && LinksTable(words, t, p, i, table, words', t')
  {
    assert Child(p, i) !in t;
    hide Present, EntryAt, Placed, Linked, LinksTable, TableEntry, Store, Slot;
    LinkEntries(words, t, p, i, table);
    LinkedAfterLink(words, t, p, i, table, Store(words, Slot(t, p, i), TableEntry(table)), t[Child(p, i) := table]);
  }

  /** The effect of writing a page entry at an entry that was not present. */
  lemma WritePage(words: seq<u64>, t: Tree, p: Path, i: nat, raw: u64)
    requires IsTree(words, t) && p in t && i < 512 && !Present(EntryAt(words, t, p, i))
    requires 1 <= p.Depth() && (p.Depth() == 3 || Large(raw)) && Present(raw)
    ensures 0 <= Slot(t, p, i) / 8 < |words| && Child(p, i) !in t
    ensures var words' := Store(words, Slot(t, p, i), raw);
      && IsTree(words', t)
      && forall q, j :: q in t && 0 <= j < 512 ==>
           EntryAt(words', t, q, j) == if q == p && j == i then raw else EntryAt(words, t, q, j)
  {
    assert Child(p, i) !in t;
    hide Store, Slot, Placed, TableOf, Read;
    StoreEntry(words, t, p, i, raw);
    var words' := Store(words, Slot(t, p, i), raw);
    hide EntryAt;
    forall q, j | q in t && 0 <= j < 512
      ensures var e := EntryAt(words', t, q, j);
        && (Child(q, j) in t <==> Present(e) && !Large(e) && q.Depth() < 3)
        && (Child(q, j) in t ==> TableOf(e) == t[Child(q, j)])
        && (q == Root && Present(e) ==> !Large(e))
    {
      assert EntryAt(words, t, q, j) == EntryAt(words, t, q, j);
    }
  }

  /** A walk passes through entry `i` of the table at `p`. */
  ghost predicate Through(v: u64, p: Path, i: nat)
    requires p.Depth() < 4
  {
    PathTo(v, p.Depth()) == p && Index(v, p.Depth()) == i
  }

  lemma {:induction false} PathPrefix(words: seq<u64>, t: Tree, v: u64, k: nat, d: nat)
    requires Linked(words, t) && k <= d <= 4 && PathTo(v, d) in t
    ensures PathTo(v, k) in t
  {
    if k < d { PathPrefix(words, t, v, k, d - 1); }
  }

  /** Writing one page entry maps exactly the addresses whose walk passes through it. */
  lemma {:induction false} PageWritten(words: seq<u64>, t: Tree, p: Path, i: nat, raw: u64, words': seq<u64>, v: u64, k: nat)
    requires Linked(words, t) && p in t && i < 512 && Child(p, i) !in t && 1 <= p.Depth() && Present(raw)
    requires forall q, j :: q in t && 0 <= j < 512 ==>
      EntryAt(words', t, q, j) == if q == p && j == i then raw else EntryAt(words, t, q, j)
    requires k < 4 && PathTo(v, k) in t
    ensures PageAt(words', t, v, k) ==
      if k <= p.Depth() && Through(v, p, i)
      then Some(Page(PageBase(raw, p.Depth()), v % Span(p.Depth()), raw))
      else PageAt(words, t, v, k)
    decreases 4 - k
  {
    hide Index, Span, PageBase, EntryAt, TableOf, Large;
    PathDepth(v, k);
    if k < 3 && PathTo(v, k + 1) in t {
      assert PathTo(v, k + 1) == Child(PathTo(v, k), Index(v, k));
      PageWritten(words, t, p, i, raw, words', v, k + 1);
    } else if k < p.Depth() && Through(v, p, i) {
      PathPrefix(words, t, v, k + 1, p.Depth());
    }
  }

  /* ---- Access through tables -------------------------------------------------------------------- */

  /** Every edge of the tree allows writing and user access, so that the page entry alone decides. */
  ghost predicate AllOpen(words: seq<u64>, t: Tree) {
    forall p :: p in t && p.Child? && p.parent in t && p.index < 512 ==> Open(EntryAt(words, t, p.parent, p.index))
  }

  lemma OpenSame(words: seq<u64>, words': seq<u64>, t: Tree)
    requires SameEdges(words, words', t)
    ensures AllOpen(words, t) ==> AllOpen(words', t)
  {
    hide EntryAt, Open, Present, Large, TableOf;
    forall p | AllOpen(words, t) && p in t && p.Child? && p.parent in t && p.index < 512
      ensures Open(EntryAt(words', t, p.parent, p.index))
    {
      assert p == Child(p.parent, p.index);
    }
  }

  lemma OpenLinked(words: seq<u64>, t: Tree, p: Path, i: nat, table: int, words': seq<u64>, t': Tree)
    requires Linked(words, t) && LinksTable(words, t, p, i, table, words', t')
    ensures AllOpen(words, t) ==> AllOpen(words', t')
  {
    hide EntryAt, Open, Present, Large, TableOf, RefCount;
    forall q | AllOpen(words, t) && q in t' && q.Child? && q.parent in t' && q.index < 512
      ensures Open(EntryAt(words', t', q.parent, q.index))
    {
      assert q == Child(q.parent, q.index);
      assert q.parent.Depth() < q.Depth();
    }
  }

  lemma OpenWritten(words: seq<u64>, words': seq<u64>, t: Tree, p: Path, i: nat)
    requires Child(p, i) !in t
    requires forall q, j :: q in t && 0 <= j < 512 && !(q == p && j == i) ==> EntryAt(words', t, q, j) == EntryAt(words, t, q, j)
    ensures AllOpen(words, t) ==> AllOpen(words', t)
  {
    hide EntryAt, Open;
    forall q | AllOpen(words, t) && q in t && q.Child? && q.parent in t && q.index < 512
      ensures Open(EntryAt(words', t, q.parent, q.index))
    {
      assert q == Child(q.parent, q.index);
    }
  }

  /** On the way to a mapped address, every entry but the last one is such an edge. */
  lemma PathIsOpen(words: seq<u64>, t: Tree, v: u64, j: nat)
    requires IsTree(words, t) && AllOpen(words, t) && j + 1 < |Walk(words, t[Root], v, 0).entries|
    ensures Open(Read(words, Walk(words, t[Root], v, 0).entries[j]))
  {
    hide Walk, Index, Open, Read, Placed;
    WalkOnPath(words, t, v);
    assert PathTo(v, j + 1) == Child(PathTo(v, j), Index(v, j));
  }

  /* ---- Reference counts -------------------------------------------------------------------- */

  /** Number of present entries among the first `n` of the table at `p`. */
  function CountPresent(words: seq<u64>, t: Tree, p: Path, n: nat): (c: nat)
    requires p in t
    ensures c <= n
  {
    if n == 0 then 0
    else CountPresent(words, t, p, n - 1) + if Present(EntryAt(words, t, p, n - 1)) then 1 else 0
  }

  /** Every edge of the tree counts the present entries of its table; the edge to `ahead` has
      already been bumped for an entry that is still to be written. */
  ghost predicate Counted(words: seq<u64>, t: Tree, ahead: Option<Path>) {
    forall p :: p in t && p.Child? && p.parent in t ==>
      RefCount(EntryAt(words, t, p.parent, p.index)) ==
        CountPresent(words, t, p, 512) + if ahead == Some(p) then 1 else 0
  }

  /** A correct count is at most 512, so bumping it adds exactly one in bits 52 to 61: it does not spill
      into bit 62 or 63, and the table address and flags stay. */
  lemma CountNeverSpills(words: seq<u64>, t: Tree, p: Path)
    requires IsTree(words, t) && Counted(words, t, None) && p in t && p.Child?
    ensures p.parent in t
    ensures var e := EntryAt(words, t, p.parent, p.index);
      && RefCount(e) <= 512 && RefCount(Bump(e)) == RefCount(e) + 1
      && Bump(e) / 0x4000_0000_0000_0000 == e / 0x4000_0000_0000_0000
      && Bump(e) % COUNT_UNIT == e % COUNT_UNIT && TableOf(Bump(e)) == t[p]
  {
    hide Placed, RefCount, TableOf, Present, Large, Bump, EntryAt, CountPresent;
    var e := EntryAt(words, t, p.parent, p.index);
    assert p == Child(p.parent, p.index);
    BumpCounts(e);
    BumpKeepsMeaning(e);
  }

  lemma {:induction false} CountSame(words: seq<u64>, t: Tree, words': seq<u64>, t': Tree, p: Path, n: nat)
    requires p in t && p in t' && n <= 512
    requires forall j :: 0 <= j < 512 ==> Present(EntryAt(words', t', p, j)) == Present(EntryAt(words, t, p, j))
    ensures CountPresent(words', t', p, n) == CountPresent(words, t, p, n)
  {
    if n > 0 { CountSame(words, t, words', t', p, n - 1); }
  }

  lemma {:induction false} CountOneMore(words: seq<u64>, t: Tree, words': seq<u64>, t': Tree, p: Path, i: nat, n: nat)
    requires p in t && p in t' && n <= 512
    requires i < 512 && !Present(EntryAt(words, t, p, i)) && Present(EntryAt(words', t', p, i))
    requires forall j :: 0 <= j < 512 && j != i ==> EntryAt(words', t', p, j) == EntryAt(words, t, p, j)
    ensures CountPresent(words', t', p, n) == CountPresent(words, t, p, n) + if i < n then 1 else 0
  {
    hide EntryAt, Present;
    if n > 0 { CountOneMore(words, t, words', t', p, i, n - 1); }
  }

  lemma {:induction false} CountNone(words: seq<u64>, t: Tree, p: Path, n: nat)
    requires p in t && n <= 512 && forall j :: 0 <= j < 512 ==> EntryAt(words, t, p, j) == 0
    ensures CountPresent(words, t, p, n) == 0
  {
    if n > 0 { CountNone(words, t, p, n - 1); }
  }

  /** Bumping the edge to a table whose count is right puts it one ahead. */
  lemma BumpedAhead(words: seq<u64>, t: Tree, p: Path, i: nat, words': seq<u64>)
    requires IsTree(words, t) && Counted(words, t, None) && p in t && i < 512 && Child(p, i) in t
    requires forall q, j :: q in t && 0 <= j < 512 ==>
      EntryAt(words', t, q, j) == if q == p && j == i then Bump(EntryAt(words, t, p, i)) else EntryAt(words, t, q, j)
    ensures RefCount(EntryAt(words, t, p, i)) <= 512
    ensures Counted(words', t, Some(Child(p, i)))
  {
    var e := EntryAt(words, t, p, i);
    assert RefCount(e) == CountPresent(words, t, Child(p, i), 512) by { assert Child(p, i).parent == p; }
    BumpKeepsMeaning(e);
    BumpCounts(e);
    hide EntryAt, Bump, RefCount, Present, Large, TableOf;
    forall q | q in t && q.Child? && q.parent in t
      ensures RefCount(EntryAt(words', t, q.parent, q.index)) ==
        CountPresent(words', t, q, 512) + if Some(Child(p, i)) == Some(q) then 1 else 0
    {
      assert q.index < 512;
      CountSame(words, t, words', t, q, 512);
    }
  }

  /** Writing a page entry makes the count of an edge that is ahead right again. */
  lemma WriteCatchesUp(words: seq<u64>, t: Tree, p: Path, i: nat, raw: u64, words': seq<u64>)
    requires Linked(words, t) && Counted(words, t, Some(p)) && p in t && p.Child? && i < 512
    requires !Present(EntryAt(words, t, p, i)) && Present(raw) && Child(p, i) !in t
    requires forall q, j :: q in t && 0 <= j < 512 ==>
      EntryAt(words', t, q, j) == if q == p && j == i then raw else EntryAt(words, t, q, j)
    ensures Counted(words', t, None)
  {
    hide EntryAt, RefCount, Present, Large, TableOf;
    forall q | q in t && q.Child? && q.parent in t
      ensures RefCount(EntryAt(words', t, q.parent, q.index)) == CountPresent(words', t, q, 512)
    {
      assert q.index < 512 && !(q.parent == p && q.index == i);
      if q == p { CountOneMore(words, t, words', t, p, i, 512); } else { CountSame(words, t, words', t, q, 512); }
    }
  }

  /** So does linking in an empty table, whose own edge starts with a count of zero. */
  lemma LinkCatchesUp(words: seq<u64>, t: Tree, p: Path, i: nat, table: int, words': seq<u64>, t': Tree)
    requires Linked(words, t) && Counted(words, t, if p == Root then None else Some(p))
    requires Child(p, i) !in t && LinksTable(words, t, p, i, table, words', t')
    ensures Counted(words', t', None)
  {
    hide EntryAt, RefCount, Present, Large, TableOf;
    forall q | q in t' && q.Child? && q.parent in t'
      ensures RefCount(EntryAt(words', t', q.parent, q.index)) == CountPresent(words', t', q, 512)
    {
      if q == Child(p, i) {
        CountNone(words', t', q, 512);
      } else {
        assert q in t && q.parent in t && q.index < 512;
        if q == p { CountOneMore(words, t, words', t', p, i, 512); } else { CountSame(words, t, words', t', q, 512); }
      }
    }
  }
}
