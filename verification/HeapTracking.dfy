/** Following the operations of the kernel heap (kernel/src/mm.rs) as steps on its memory: from what an operation
    leaves to be seen at virtual addresses to the state that the runs of `HeapMemories` reach. */
module HeapTracking {
  import opened Machine
  import opened MemoryMap
  import opened Ranges
  import opened Allocation
  import opened RangeSets
  import opened PageEdits
  import opened FreeLists
  import opened KernelHeaps
  import opened HeapMemories

  /** In every block that is on a free list, `words` is what code sees. */
  ghost predicate Agrees(m: Store, words: Words) {
    forall x :: OnSomeList(m.h, x) ==> View(m)(x) == words(x)
  }

  /** Steps of the allocator that lead from one state to another. */
  ghost predicate Path(states: seq<Store>, m: Store, m': Store) {
    && |states| > 0 && states[0] == m && states[|states| - 1] == m'
    && forall i :: 0 <= i < |states| - 1 ==> AllocatorStep(states[i], states[i + 1])
  }

  ghost predicate Leads(m: Store, m': Store) { exists states :: Path(states, m, m') }

  lemma LeadsNowhere(m: Store)
    ensures Leads(m, m)
  {
    assert Path([m], m, m);
  }

  lemma LeadsFurther(m: Store, m1: Store, m2: Store)
    requires Leads(m, m1) && AllocatorStep(m1, m2)
    ensures Leads(m, m2)
  {
    hide AllocatorStep;
    var states :| Path(states, m, m1);
    var all := states + [m2];
    forall i | 0 <= i < |all| - 1 ensures AllocatorStep(all[i], all[i + 1]) {
      if i < |states| - 1 { assert all[i] == states[i] && all[i + 1] == states[i + 1]; }
    }
    assert Path(all, m, m2);
  }

  lemma LeadsTrans(m: Store, m1: Store, m2: Store)
    requires Leads(m, m1) && Leads(m1, m2)
    ensures Leads(m, m2)
  {
    hide AllocatorStep;
    var s :| Path(s, m, m1);
    var t :| Path(t, m1, m2);
    var all := s + t[1..];
    forall i | 0 <= i < |all| - 1 ensures AllocatorStep(all[i], all[i + 1]) {
      if i < |s| - 1 {
        assert all[i] == s[i] && all[i + 1] == s[i + 1];
      } else {
        assert all[i] == t[i - (|s| - 1)] && all[i + 1] == t[i - (|s| - 1) + 1];
      }
    }
    assert all[|all| - 1] == m2;
    assert Path(all, m, m2);
  }

  /** Such steps continue every run. */
  lemma RunGoesOn(states: seq<Store>, m': Store) returns (all: seq<Store>)
    requires MemoryRun(states) && Leads(states[|states| - 1], m')
    ensures MemoryRun(all) && states <= all && all[|all| - 1] == m'
  {
    hide AllocatorStep, ClientWrite;
    var more :| Path(more, states[|states| - 1], m');
    all := states + more[1..];
    forall i | 0 <= i < |all| - 1 ensures AllocatorStep(all[i], all[i + 1]) || ClientWrite(all[i], all[i + 1]) {
      if i < |states| - 1 {
        assert all[i] == states[i] && all[i + 1] == states[i + 1];
      } else {
        assert all[i] == more[i - (|states| - 1)] && all[i + 1] == more[i - (|states| - 1) + 1];
      }
    }
  }

  /** Live blocks are still live. */
  ghost predicate LiveKept(h: Heap, h': Heap) {
    forall b, k :: Live(h, b, k) ==> Live(h', b, k)
  }

  /** The pages of 4 KiB that have been handed out, to clients or for mappings and tables. */
  ghost function LivePages(h: Heap): set<int> {
    set b | b in h.blocks && h.blocks[b] == Home(9, None)
  }

  /** Only the list of this core and class has changed. */
  ghost predicate OtherListsSame(m: Store, m': Store, core: nat, class_: nat) {
    && OtherHeadsSame(m, m', core, class_)
    && forall c, k :: c != core || k != class_ ==> ListOf(m'.h, c, k) == ListOf(m.h, c, k)
  }

  /* ---- Pop ------------------------------------------------------------------------------------------------ */

  lemma PopFrame(m: Store, m': Store, core: nat, class_: nat, a: int, b: int, x: int)
    requires MemoryInv(m) && HeapMemories.Pop(m, m', core, class_, a) && Usable(m, b, x) && b !in ListOf(m.h, core, class_)
    ensures Mapped(m', x) && View(m')(x) == View(m)(x)
  {
    hide Inv, AllRepresented, Backed, AllWhole, ListRepresented, ChangesOnlyBehind, BlocksOf, Usable, View, BlockSize;
    ListedNotBehind(m, core, class_);
    OtherWordKept(m, m'.phys, ListOf(m.h, core, class_), class_, b, x);
    UsableKept(m, m', b, x);
  }

  lemma PopAgrees(m: Store, m': Store, core: nat, class_: nat, a: int, words: Words, words': Words)
    requires MemoryInv(m) && HeapMemories.Pop(m, m', core, class_, a) && Agrees(m, words)
    requires TouchesOnly(words, words', ListOf(m.h, core, class_), BlockSize(class_))
    requires forall x :: InSome(ListOf(m.h, core, class_), BlockSize(class_), x) ==> View(m')(x) == words'(x)
    ensures Agrees(m', words')
  {
    hide Inv, AllRepresented, Backed, AllWhole, ListRepresented, ChangesOnlyBehind, Usable, View, BlockSize, InBlock, InSome;
    InvLists(m.h);
    ListedHomes(m.h, core, class_);
    var list := ListOf(m.h, core, class_);
    forall x | OnSomeList(m'.h, x) ensures View(m')(x) == words'(x) {
      var b :| b in m'.h.blocks && m'.h.blocks[b].core.Some? && InBlock(b, BlockSize(m'.h.blocks[b].class_), x);
      assert b in m.h.blocks && m.h.blocks[b] == m'.h.blocks[b];
      if b in list {
        InOne(list, BlockSize(class_), b, x);
      } else {
        assert OnSomeList(m.h, x);
        ListedIsUsable(m, b, x);
        PopFrame(m, m', core, class_, a, b, x);
        NotInOthers(m.h, list, class_, b, x);
      }
    }
  }

  lemma InOne(list: seq<int>, size: int, b: int, x: int)
    requires b in list && InBlock(b, size, x)
    ensures InSome(list, size, x)
  {
    var i :| 0 <= i < |list| && list[i] == b;
  }

  lemma NotInOthers(h: Heap, list: seq<int>, class_: nat, b: int, x: int)
    requires Inv(h) && b in h.blocks && b !in list && InBlock(b, BlockSize(h.blocks[b].class_), x)
    requires forall t :: t in list ==> t in h.blocks && h.blocks[t].class_ == class_
    ensures !InSome(list, BlockSize(class_), x)
  {
    hide Inv, BlockSize, InBlock;
    forall i | 0 <= i < |list| ensures !InBlock(list[i], BlockSize(class_), x) {
      assert list[i] in list;
      if InBlock(list[i], BlockSize(class_), x) { DifferentBlocks(h, b, x, list[i], x); }
    }
  }

  /** A list that is represented in memory is represented in what agrees with memory, and the other way round. */
  lemma RepresentedInWords(m: Store, words: Words, core: nat, class_: nat)
    requires MemoryInv(m) && Agrees(m, words) && class_ < CLASSES
    ensures Represents(words, HeadOf(m, core, class_), BlockSize(class_), ListOf(m.h, core, class_))
  {
    hide Inv, Backed, AllWhole, Represents, View, BlockSize, InBlock, HeadOf, ListOf;
    InvLists(m.h);
    ClassSizes(class_);
    var s := ListOf(m.h, core, class_);
    assert ListRepresented(m, core, class_);
    forall i, x | 0 <= i < |s| && InBlock(s[i], BlockSize(class_), x) ensures words(x) == View(m)(x) {
      ListedIsBlock(m.h, core, class_, s[i]);
      assert OnSomeList(m.h, x);
    }
    RepresentsFrame(View(m), words, HeadOf(m, core, class_), BlockSize(class_), s);
  }

  /** `TakeTop` of a list, followed as a step. */
  lemma TrackPop(m: Store, core: nat, class_: nat, words: Words, words': Words, head': u64) returns (m': Store)
    requires MemoryInv(m) && class_ < CLASSES && ListOf(m.h, core, class_) != [] && Agrees(m, words)
    requires Represents(words', head', BlockSize(class_), ListOf(m.h, core, class_)[1..])
    requires TouchesOnly(words, words', ListOf(m.h, core, class_), BlockSize(class_))
    ensures MemoryInv(m') && Leads(m, m') && LiveKept(m.h, m'.h) && Agrees(m', words') && OtherListsSame(m, m', core, class_)
    ensures ListOf(m'.h, core, class_) == ListOf(m.h, core, class_)[1..] && HeadOf(m', core, class_) == head'
    ensures m'.h.free == m.h.free && m'.h.nextVirt == m.h.nextVirt && m'.backing == m.backing
    ensures Live(m'.h, ListOf(m.h, core, class_)[0], class_) && Whole(m', ListOf(m.h, core, class_)[0], class_)
    ensures ListOf(m.h, core, class_)[0] !in m'.backing.Values
    ensures ListOf(m.h, core, class_)[0] !in LivePages(m.h)
    ensures LivePages(m'.h) == LivePages(m.h) + if class_ == 9 then {ListOf(m.h, core, class_)[0]} else {}
  {
    hide MemoryInv, Represents, TouchesOnly, BlockSize, View, Agrees, InSome, Leads, Whole, ListRepresented, ChangesOnlyBehind;
    m' := PopIsMemoryStep(m, core, class_, words', head');
    var a := ListOf(m.h, core, class_)[0];
    assert AllocatorStep(m, m') by { assert HeapMemories.Pop(m, m', core, class_, a); }
    AllocatorKeeps(m, m');
    LeadsNowhere(m);
    LeadsFurther(m, m, m');
    PopAgrees(m, m', core, class_, a, words, words');
    PoppedBlock(m, m', core, class_, a);
  }

  lemma PoppedBlock(m: Store, m': Store, core: nat, class_: nat, a: int)
    requires MemoryInv(m) && HeapMemories.Pop(m, m', core, class_, a)
    ensures LiveKept(m.h, m'.h) && OtherListsSame(m, m', core, class_) && Live(m'.h, a, class_)
    ensures Whole(m', a, class_) && a !in m'.backing.Values
    ensures a !in LivePages(m.h) && LivePages(m'.h) == LivePages(m.h) + if class_ == 9 then {a} else {}
  {
    hide Inv, AllRepresented, ListRepresented, ChangesOnlyBehind, BlockSize, Backed, Whole;
    InvLists(m.h);
    ListedHomes(m.h, core, class_);
    assert a in ListOf(m.h, core, class_);
    NotBehind(m, a);
    assert Whole(m, a, class_);
    WholeExtends(m, m', a, class_);
  }

  /* ---- Refill --------------------------------------------------------------------------------------------- */

  lemma RefillAgrees(m: Store, m': Store, core: nat, class_: nat, page: u64, regions: seq<Range>, words: Words, words': Words)
    requires MemoryInv(m) && Refill(m, m', core, class_, page, regions) && Agrees(m, words)
    requires forall x :: !InBlock(WINDOW_BASE + page, 0x1000, x) ==> words'(x) == words(x)
    requires forall x :: InBlock(WINDOW_BASE + page, 0x1000, x) ==> View(m')(x) == words'(x)
    ensures Agrees(m', words')
  {
    hide Inv, AllRepresented, Backed, AllWhole, ListRepresented, Usable, View, BlockSize, InBlock, AllocPost, CutPage, Physical;
    InvLists(m.h);
    forall x | OnSomeList(m'.h, x) ensures View(m')(x) == words'(x) {
      var b :| b in m'.h.blocks && m'.h.blocks[b].core.Some? && InBlock(b, BlockSize(m'.h.blocks[b].class_), x);
      if !InBlock(WINDOW_BASE + page, 0x1000, x) {
        CutIsInPage(m.h, m'.h, core, class_, page, regions, b, x);
        assert OnSomeList(m.h, x);
        ListedIsUsable(m, b, x);
        UsableOffPage(m, m'.h, core, class_, page, regions, b, x);
        UsableKept(m, m', b, x);
      }
    }
  }

  /** A block that reaches out of the new page was there before. */
  lemma CutIsInPage(h: Heap, h': Heap, core: nat, class_: nat, page: u64, regions: seq<Range>, b: int, x: int)
    requires Inv(h) && RefillStep(h, h', core, class_, page, regions) && b in h'.blocks
    requires InBlock(b, BlockSize(h'.blocks[b].class_), x) && !InBlock(WINDOW_BASE + page, 0x1000, x)
    ensures b in h.blocks && h.blocks[b] == h'.blocks[b]
  {
    hide Inv, Covers, Sorted, CutPage, AllocPost, BlockSize, Carved;
    PageClass(class_);
    RefillCarves(h.free, h'.free, page, regions);
    var cut := CutPage(page, class_);
    if b in cut {
      var i :| 0 <= i < |cut| && cut[i] == b;
      CutBlock(page, class_, i);
    }
  }

  /** `AddPage` to an empty list, followed as a step. */
  lemma TrackRefill(m: Store, core: nat, class_: nat, page: u64, regions: seq<Range>, free': seq<Range>, words: Words, words': Words,
                    head': u64) returns (m': Store)
    requires MemoryInv(m) && class_ < CLASSES && ListOf(m.h, core, class_) == [] && BlockSize(class_) <= 0x1000 && Agrees(m, words)
    requires AllValid(m.h.free) && AllValid(regions) && page + 0x1000 <= WINDOW_SIZE
    requires AllocPost(m.h.free, regions, 0x1000, 0x1000, CAPACITY, Allocated(page), free')
    requires Represents(words', head', BlockSize(class_), CutPage(page, class_))
    requires forall x :: !InBlock(WINDOW_BASE + page, 0x1000, x) ==> words'(x) == words(x)
    ensures MemoryInv(m') && Leads(m, m') && LiveKept(m.h, m'.h) && Agrees(m', words') && OtherListsSame(m, m', core, class_)
    ensures ListOf(m'.h, core, class_) == CutPage(page, class_) && HeadOf(m', core, class_) == head'
    ensures m'.h.free == free' && m'.h.nextVirt == m.h.nextVirt && m'.backing == m.backing && LivePages(m'.h) == LivePages(m.h)
  {
    hide MemoryInv, Represents, BlockSize, View, Agrees, InBlock, Leads, AllocPost, CutPage, ListRepresented;
    m' := RefillIsMemoryStep(m, core, class_, page, regions, free', words', head');
    assert AllocatorStep(m, m');
    AllocatorKeeps(m, m');
    LeadsNowhere(m);
    LeadsFurther(m, m, m');
    RefillAgrees(m, m', core, class_, page, regions, words, words');
    RefilledBlocks(m, m', core, class_, page, regions);
  }

  lemma RefilledBlocks(m: Store, m': Store, core: nat, class_: nat, page: u64, regions: seq<Range>)
    requires MemoryInv(m) && Refill(m, m', core, class_, page, regions)
    ensures LiveKept(m.h, m'.h) && OtherListsSame(m, m', core, class_) && LivePages(m'.h) == LivePages(m.h)
  {
    hide Inv, AllRepresented, ListRepresented, Backed, AllWhole, AllocPost, CutPage, BlockSize, InBlock;
    forall b | b in m.h.blocks ensures m'.h.blocks[b] == m.h.blocks[b] {
      NotCutAgain(m.h, m'.h, core, class_, page, regions, b);
    }
    forall b, k | Live(m.h, b, k) ensures Live(m'.h, b, k) {
      NotCutAgain(m.h, m'.h, core, class_, page, regions, b);
    }
  }

  /* ---- New regions and mappings --------------------------------------------------------------------------- */

  /** A region of virtual addresses becomes a live block without memory. */
  lemma TrackVirtual(m: Store, core: nat, class_: nat, words: Words) returns (m': Store)
    requires MemoryInv(m) && class_ < CLASSES && ListOf(m.h, core, class_) == [] && BlockSize(class_) > 0x1000 && Agrees(m, words)
    requires m.h.nextVirt + GUARD + BlockSize(class_) <= U64_MAX && MapAccepts(m.h.nextVirt, BlockSize(class_))
    ensures MemoryInv(m') && Leads(m, m') && LiveKept(m.h, m'.h) && Agrees(m', words)
    ensures m'.h.lists == m.h.lists && m'.heads == m.heads && m'.backing == m.backing && m'.h.free == m.h.free
    ensures m'.h.nextVirt == m.h.nextVirt + GUARD + BlockSize(class_) && Live(m'.h, m.h.nextVirt, class_)
    ensures LivePages(m'.h) == LivePages(m.h)
  {
    hide MemoryInv, BlockSize, View, Agrees, InBlock, Leads, MapAccepts;
    var a := m.h.nextVirt;
    var h := Heap(m.h.lists, m.h.blocks[a := Home(class_, None)], m.h.free, a + GUARD + BlockSize(class_));
    m' := m.(h := h);
    assert VirtStep(m.h, h, core, class_, a) && Reserve(m, m') && AllocatorStep(m, m');
    AllocatorKeeps(m, m');
    LeadsNowhere(m);
    LeadsFurther(m, m, m');
    VirtualAgrees(m, m', core, class_, a, words);
  }

  lemma VirtualAgrees(m: Store, m': Store, core: nat, class_: nat, a: int, words: Words)
    requires MemoryInv(m) && VirtStep(m.h, m'.h, core, class_, a) && Agrees(m, words) && m'.phys == m.phys && m'.backing == m.backing
    ensures Agrees(m', words) && LiveKept(m.h, m'.h) && LivePages(m'.h) == LivePages(m.h)
  {
    hide Inv, AllRepresented, Backed, AllWhole, BlockSize, InBlock, MapAccepts;
    PageClass(class_);
    forall b | b in m.h.blocks ensures b in m'.h.blocks && m'.h.blocks[b] == m.h.blocks[b] {
      NotReservedAgain(m.h, m'.h, core, class_, a, b);
    }
    forall x | OnSomeList(m'.h, x) ensures OnSomeList(m.h, x) {
      var b :| b in m'.h.blocks && m'.h.blocks[b].core.Some? && InBlock(b, BlockSize(m'.h.blocks[b].class_), x);
    }
    forall x ensures View(m')(x) == View(m)(x) {}
  }

  /** A page that was popped is put behind a page of a large block. */
  lemma TrackBack(m: Store, b: int, v: int, a: int, words: Words) returns (m': Store)
    requires MemoryInv(m) && Agrees(m, words) && Unbacked(m, b, v) && Live(m.h, a, 9) && a !in m.backing.Values
    ensures MemoryInv(m') && Leads(m, m') && Agrees(m', words) && m' == m.(backing := m.backing[v := a])
  {
    hide MemoryInv, BlockSize, View, Agrees, InBlock, Leads, Unbacked;
    m' := m.(backing := m.backing[v := a]);
    assert Back(m, m', b, v, a) && AllocatorStep(m, m');
    AllocatorKeeps(m, m');
    LeadsNowhere(m);
    LeadsFurther(m, m, m');
    BackAgrees(m, m', b, v, a, words);
  }

  lemma BackAgrees(m: Store, m': Store, b: int, v: int, a: int, words: Words)
    requires MemoryInv(m) && Back(m, m', b, v, a) && Agrees(m, words)
    ensures Agrees(m', words)
  {
    hide Inv, AllRepresented, Backed, AllWhole, BlockSize, InBlock, View, Usable;
    forall x | OnSomeList(m'.h, x) ensures View(m')(x) == words(x) {
      var d :| d in m.h.blocks && m.h.blocks[d].core.Some? && InBlock(d, BlockSize(m.h.blocks[d].class_), x);
      ListedIsUsable(m, d, x);
      UsableKept(m, m', d, x);
    }
  }
}
