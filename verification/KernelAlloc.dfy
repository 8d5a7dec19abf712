/** `FreeList::pop` as a whole (kernel/src/mm.rs): an empty list first gets a physical page, cut into
    blocks, or hands out a fresh region of virtual memory. */
module KernelAllocs {
  import opened Machine
  import opened MemoryMap
  import opened Ranges
  import opened Allocation
  import opened RangeSets
  import opened FreeLists
  import opened KernelHeaps
  import opened HeapMemories

  /** The counter behind `receive_vaddr_4k`. */
  class VirtualSpace {
    var next: u64

    constructor ()
      ensures next == VMEM_BASE
    {
      next := VMEM_BASE;
    }

    /** A region of its own, followed by a guard gap; nothing where the source panics. The atomic addition
        wraps around, and only then is the overflow noticed. */
    method Receive(size: u64) returns (r: Option<u64>)
      modifies this
      ensures r.Some? <==> size > 0 && size % 0x1000 == 0 && old(next) + (GUARD + size) <= U64_MAX
      ensures r.Some? ==> r.value == old(next) && next == r.value + (GUARD + size)
    {
      if size == 0 || size % 0x1000 != 0 {
        return None;
      }
      var reserve := GUARD + size;
      if reserve > U64_MAX {
        return None;
      }
      var ret := next;
      next := (next + reserve) % 0x1_0000_0000_0000_0000;
      if ret + reserve > U64_MAX {
        return None;
      }
      r := Some(ret);
    }
  }

  /** `allocate_page_for_blocks` and its `expect`: a page of free memory, taken preferably from `regions`. */
  method TakePage(free: RangeSet, regions: seq<Range>) returns (page: Option<u64>)
    requires free.Valid() && AllValid(regions)
    modifies free, free.ranges
    ensures free.Valid()
    ensures page.Some? ==> AllocPost(old(free.Entries()), regions, 0x1000, 0x1000, CAPACITY, Allocated(page.value), free.Entries())
    ensures page.None? ==> free.Entries() == old(free.Entries())
    ensures page.None? <==> CannotServe(old(free.Entries()), regions, 0x1000, 0x1000, CAPACITY)
  {
    hide AllocPost, CannotServe, IsPow2;
    ghost var s := free.Entries();
    var a := free.AllocatePrefer(0x1000, 0x1000, regions);
    PageAlign();
    ServedOrNot(s, regions, 0x1000, 0x1000, CAPACITY, a, free.Entries());
    NotTaken(s, regions, 0x1000, 0x1000, CAPACITY, a, free.Entries());
    page := if a.Allocated? then Some(a.ptr) else None;
  }

  lemma PageAlign()
    ensures IsPow2(0x1000)
  {
    Pow2Values();
  }

  /** Where a popped block comes from. */
  datatype Source = FromList | FromPage(page: u64) | FromVirtual

  /** What `pop` does to the stack of the list, the free memory and the next virtual address. */
  ghost predicate PopPost(size: u64, blocks: seq<int>, free: seq<Range>, next: int, regions: seq<Range>, source: Source, x: u64,
                          blocks': seq<int>, free': seq<Range>, next': int)
    requires size > 0 && AllValid(free) && AllValid(regions)
  {
    match source
    case FromList => blocks != [] && [x] + blocks' == blocks && free' == free && next' == next
    case FromPage(page) =>
      && blocks == [] && size <= 0x1000 && next' == next && page + 0x1000 <= WINDOW_SIZE
      && AllocPost(free, regions, 0x1000, 0x1000, CAPACITY, Allocated(page), free')
      && [x] + blocks' == PageBlocks(WINDOW_BASE + page, size, PerPage(size))
    case FromVirtual =>
      && blocks == [] && size > 0x1000 && blocks' == [] && free' == free
      && x == next && next' == x + (GUARD + size) <= U64_MAX
  }

  /** The words that `pop` may change: those of the list's own blocks, or of the new page. */
  ghost predicate MayWrite(source: Source, blocks: seq<int>, size: u64, a: int) {
    match source
    case FromList => InSome(blocks, size, a)
    case FromPage(page) => InBlock(WINDOW_BASE + page, 0x1000, a)
    case FromVirtual => false
  }

  /** The page that a refill would get is not covered by the physical window. */
  ghost predicate BeyondWindow(free: seq<Range>, regions: seq<Range>)
    requires AllValid(free) && AllValid(regions)
  {
    exists b :: Chosen(free, regions, 0x1000, 0x1000, b) && b.ptr + 0x1000 > WINDOW_SIZE
  }

  /** `pop` panics: the list is empty, and virtual addresses have run out or no usable page can be had. */
  ghost predicate PopFails(size: u64, blocks: seq<int>, free: seq<Range>, next: int, regions: seq<Range>)
    requires AllValid(free) && AllValid(regions)
  {
    && blocks == []
    && if size > 0x1000 then next + (GUARD + size) > U64_MAX
       else CannotServe(free, regions, 0x1000, 0x1000, CAPACITY) || BeyondWindow(free, regions)
  }

  lemma PageIsChosen(free: seq<Range>, regions: seq<Range>, page: u64, free': seq<Range>)
    requires AllValid(free) && AllValid(regions)
    requires AllocPost(free, regions, 0x1000, 0x1000, CAPACITY, Allocated(page), free')
    ensures BeyondWindow(free, regions) <==> page + 0x1000 > WINDOW_SIZE
  {
    hide Chosen, GivesUp, SomeFits, FromTheMiddle, IsPow2;
    var b :| Chosen(free, regions, 0x1000, 0x1000, b) && b.ptr == page && Takes(free, b, free');
    forall b' | Chosen(free, regions, 0x1000, 0x1000, b') ensures b' == b {
      ChosenUnique(free, regions, 0x1000, 0x1000, b, b');
    }
  }

  /** Memory and list head at some moment. */
  datatype Moment = Moment(words: Words, head: u64)

  /** `pop` without the mapping of a large block; nothing is returned exactly where the source panics before
      that. `refilled` is the moment between the refill and the pop proper. */
  method PopOrReserve(list: FreeList, free: RangeSet, regions: seq<Range>, space: VirtualSpace)
    returns (x: Option<u64>, ghost source: Source, ghost refilled: Moment)
    requires list.Valid() && IsPow2(list.size) && free.Valid() && AllValid(regions)
    modifies list, list.mem, free, free.ranges, space
    ensures free.Valid()
    ensures x.None? <==> PopFails(list.size, old(list.blocks), old(free.Entries()), old(space.next), regions)
    ensures x.None? && list.size <= 0x1000 ==> list.Valid() && list.mem.words == old(list.mem.words) && list.blocks == []
    ensures x.None? && list.size <= 0x1000 && CannotServe(old(free.Entries()), regions, 0x1000, 0x1000, CAPACITY) ==>
      free.Entries() == old(free.Entries())
    ensures x.Some? ==> list.Valid()
    ensures x.Some? ==> PopPost(list.size, old(list.blocks), old(free.Entries()), old(space.next), regions, source, x.value,
                                list.blocks, free.Entries(), space.next)
    ensures x.Some? ==> forall a :: !MayWrite(source, old(list.blocks), list.size, a) ==> list.mem.words(a) == old(list.mem.words)(a)
    ensures x.Some? && source.FromVirtual? ==> list.mem.words == old(list.mem.words)
    ensures x.Some? && source.FromPage? ==>
      && Represents(refilled.words, refilled.head, list.size, [x.value] + list.blocks)
      && (forall a :: !InBlock(WINDOW_BASE + source.page, 0x1000, a) ==> refilled.words(a) == old(list.mem.words)(a))
      && TouchesOnly(refilled.words, list.mem.words, [x.value] + list.blocks, list.size)
  {
    hide Represents, PageBlocks, AllocPost, TouchesOnly, MayWrite, BlocksDisjoint, IsPow2, CannotServe, BeyondWindow;
    HeadIsZero(list);
    refilled := Moment(list.mem.words, list.head);
    if list.head != 0 {
      var y := list.TakeTop();
      OnlyAsAllowed(FromList, old(list.mem.words), list.mem.words, old(list.blocks), list.size);
      return Some(y), FromList, refilled;
    }
    if list.size > 0x1000 {
      PageSizeMultiple(list.size);
      var v := space.Receive(list.size);
      OnlyAsAllowed(FromVirtual, list.mem.words, list.mem.words, [], list.size);
      return v, FromVirtual, refilled;
    }
    ghost var f := free.Entries();
    var page := TakePage(free, regions);
    if page.None? {
      return None, FromVirtual, refilled;
    }
    PageIsChosen(f, regions, page.value, free.Entries());
    if page.value + 0x1000 > WINDOW_SIZE {
      return None, FromVirtual, refilled;
    }
    source := FromPage(page.value);
    ghost var base := WINDOW_BASE + page.value;
    PageSizeMultiple(list.size);
    list.AddPage(WINDOW_BASE + page.value);
    RefilledList(base, list.size);
    refilled := Moment(list.mem.words, list.head);
    var y := list.TakeTop();
    OnlyInPage(refilled.words, list.mem.words, base, list.size);
    OnlyAsAllowed(source, old(list.mem.words), list.mem.words, [], list.size);
    x := Some(y);
  }

  lemma OnlyAsAllowed(source: Source, w: Words, w': Words, blocks: seq<int>, size: u64)
    requires match source
      case FromList => TouchesOnly(w, w', blocks, size)
      case FromPage(page) => forall a :: !InBlock(WINDOW_BASE + page, 0x1000, a) ==> w'(a) == w(a)
      case FromVirtual => w' == w
    ensures forall a :: !MayWrite(source, blocks, size, a) ==> w'(a) == w(a)
  {
    hide InSome, InBlock;
  }

  lemma HeadIsZero(list: FreeList)
    requires list.Valid()
    ensures list.head == 0 <==> list.blocks == []
  {
    RepresentsCases(list.mem.words, list.head, list.size, list.blocks);
  }

  lemma PageSizeMultiple(size: u64)
    requires IsPow2(size)
    ensures size <= 0x1000 ==> 0x1000 % size == 0
    ensures size > 0x1000 ==> size % 0x1000 == 0
  {
    var k: nat :| k < 64 && size == Pow2(k);
    Pow2Values();
    hide Pow2;
    if k <= 12 {
      Pow2Monotone(k, 12);
      Pow2Divides(Pow2(12), k, 12);
    } else {
      Pow2Monotone(13, k);
      Pow2Add(12, 1);
      Pow2Divides(Pow2(k), 12, k);
    }
  }

  lemma RefilledList(base: int, size: u64)
    requires 0 < size <= 0x1000 && 0x1000 % size == 0
    ensures PageBlocks(base, size, PerPage(size)) != [] && PageBlocks(base, size, PerPage(size)) + [] == PageBlocks(base, size, PerPage(size))
    ensures forall a :: !InBlock(base, 0x1000, a) ==> !InSome(PageBlocks(base, size, PerPage(size)), size, a)
  {
    hide InSome, InBlock;
    assert PerPage(size) * size == 0x1000;
    forall a | !InBlock(base, 0x1000, a) ensures !InSome(PageBlocks(base, size, PerPage(size)), size, a) {
      NothingInEmpty(size, a);
      OutsidePage(base, size, PerPage(size), [], a);
      assert PageBlocks(base, size, PerPage(size)) + [] == PageBlocks(base, size, PerPage(size));
    }
    assert PerPage(size) > 0;
  }

  lemma NothingInEmpty(size: int, a: int)
    ensures !InSome([], size, a)
  {
  }

  lemma OnlyInPage(w: Words, w': Words, base: int, size: u64)
    requires 0 < size <= 0x1000 && 0x1000 % size == 0 && TouchesOnly(w, w', PageBlocks(base, size, PerPage(size)), size)
    ensures forall a :: !InBlock(base, 0x1000, a) ==> w'(a) == w(a)
  {
    hide InSome, InBlock, PageBlocks;
    RefilledList(base, size);
  }

  /** Every `pop` is one or two steps of the heap whose runs keep blocks apart: a step of the list, after a
      refill if need be, or a step to a new virtual region. */
  lemma PopIsHeapStep(h: Heap, core: nat, class_: nat, regions: seq<Range>, source: Source, x: u64,
                      blocks': seq<int>, free': seq<Range>, next': int) returns (h1: Heap, h': Heap)
    requires class_ < CLASSES && BlockSize(class_) <= U64_MAX && AllValid(h.free) && AllValid(regions)
    requires PopPost(BlockSize(class_), ListOf(h, core, class_), h.free, h.nextVirt, regions, source, x, blocks', free', next')
    requires source.FromVirtual? ==> MapAccepts(x, BlockSize(class_))
    ensures h1 == h || Step(h, h1)
    ensures Step(h1, h') && Live(h', x, class_)
    ensures ListOf(h', core, class_) == blocks' && h'.free == free' && h'.nextVirt == next'
  {
    hide BlockSize, PageBlocks, AllocPost, MapAccepts;
    h1 := h;
    match source
    case FromVirtual =>
      h' := Heap(h.lists, h.blocks[x := Home(class_, None)], h.free, next');
      assert VirtStep(h, h', core, class_, x);
    case FromList =>
      h' := PopOf(h1, core, class_, x, blocks');
    case FromPage(page) =>
      h1 := Heap(h.lists[(core, class_) := CutPage(page, class_)],
                 h.blocks + (map a | a in CutPage(page, class_) :: Home(class_, Some(core))), free', h.nextVirt);
      assert RefillStep(h, h1, core, class_, page, regions);
      h' := PopOf(h1, core, class_, x, blocks');
  }

  lemma PopOf(h: Heap, core: nat, class_: nat, x: int, rest: seq<int>) returns (h': Heap)
    requires class_ < CLASSES && ListOf(h, core, class_) == [x] + rest
    ensures Step(h, h') && Live(h', x, class_) && ListOf(h', core, class_) == rest
    ensures h'.free == h.free && h'.nextVirt == h.nextVirt
  {
    assert ([x] + rest)[1..] == rest;
    h' := h.(lists := h.lists[(core, class_) := rest], blocks := h.blocks[x := Home(class_, None)]);
    assert PopStep(h, h', core, class_, x);
  }

  /** A pop that had to refill is two steps on memory: the page is cut into blocks, then the top is taken. */
  lemma PageIsMemorySteps(m: Store, core: nat, class_: nat, regions: seq<Range>, page: u64, free': seq<Range>, x: u64, rest: seq<int>,
                          refilled: Moment, words: Words, head: u64) returns (m1: Store, m2: Store)
    requires MemoryInv(m) && class_ < CLASSES && BlockSize(class_) <= U64_MAX && AllValid(m.h.free) && AllValid(regions)
    requires PopPost(BlockSize(class_), ListOf(m.h, core, class_), m.h.free, m.h.nextVirt, regions, FromPage(page), x, rest, free', m.h.nextVirt)
    requires Represents(refilled.words, refilled.head, BlockSize(class_), [x] + rest) && Represents(words, head, BlockSize(class_), rest)
    ensures Refill(m, m1, core, class_, page, regions) && HeapMemories.Pop(m1, m2, core, class_, x)
    ensures ListOf(m2.h, core, class_) == rest && HeadOf(m2, core, class_) == head && m2.h.free == free'
    ensures forall y :: InSome([x] + rest, BlockSize(class_), y) ==> View(m2)(y) == words(y)
  {
    hide BlockSize, PageBlocks, AllocPost, Represents, MemoryInv, View, Refill, Push, Back, Reserve, InSome;
    m1 := RefillIsMemoryStep(m, core, class_, page, regions, free', refilled.words, refilled.head);
    assert AllocatorStep(m, m1);
    AllocatorKeeps(m, m1);
    assert ([x] + rest)[1..] == rest;
    m2 := PopIsMemoryStep(m1, core, class_, words, head);
  }
}
