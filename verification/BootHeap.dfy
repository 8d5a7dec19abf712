/** The bootloader's global allocator over the range set (bootloader/src/mm.rs), and what every
    run of allocations and matching frees conserves. */
module BootHeaps {
  import opened Machine
  import opened Ranges
  import opened Allocation
  import opened RangeSets

  /** Free entries, blocks handed out and not yet returned, and alignment padding given away. */
  datatype HeapState = HeapState(free: seq<Range>, live: set<Range>, lost: set<Range>)

  ghost predicate Owned(blocks: set<Range>, x: int) {
    exists b :: b in blocks && b.Has(x)
  }

  ghost predicate Disjoint(a: Range, b: Range) { a.end < b.start || b.end < a.start }

  /** Every byte of the initial map is in exactly one place, and nothing else is anywhere. */
  ghost predicate Conserved(initial: seq<Range>, h: HeapState) {
    && Sorted(h.free)
    && (forall b :: b in h.live + h.lost ==> b.Valid())
    && (forall x :: Covers(initial, x) <==> Covers(h.free, x) || Owned(h.live + h.lost, x))
    && (forall x :: !(Covers(h.free, x) && Owned(h.live + h.lost, x)))
    && (forall b, c :: b in h.live + h.lost && c in h.live + h.lost && b != c ==> Disjoint(b, c))
    && h.live !! h.lost
  }

  /** The padding in front of a block, as a set of at most one range. */
  ghost function PaddingOf(b: Block): set<Range>
    requires b.start <= b.ptr
  {
    if b.start < b.ptr then {Range(b.start, b.ptr - 1)} else {}
  }

  /** A successful allocation: `b` leaves the free set, its padding is lost, the rest is live.
      Less than one alignment unit is lost. */
  ghost predicate AllocStep(h: HeapState, h': HeapState, size: u64, align: u64, b: Block) {
    && size > 0 && align > 0
    && b.start <= b.ptr < b.start + align && b.end == b.ptr + (size - 1) && b.ptr % align == 0
    && CoversAll(h.free, Range(b.start, b.end))
    && Takes(h.free, b, h'.free)
    && h'.live == h.live + {Range(b.ptr, b.end)}
    && h'.lost == h.lost + PaddingOf(b)
  }

  /** A matching free: a live block goes back to the free set. */
  ghost predicate FreeStep(h: HeapState, h': HeapState, block: Range) {
    && block in h.live
    && InsertPost(h.free, block, CAPACITY, true, h'.free)
    && h'.live == h.live - {block}
    && h'.lost == h.lost
  }

  ghost predicate Step(h: HeapState, h': HeapState) {
    || h' == h
    || (exists size, align, b :: AllocStep(h, h', size, align, b))
    || (exists block :: FreeStep(h, h', block))
  }

  /** A run starts with the memory map as free memory and nothing handed out. */
  ghost predicate Run(initial: seq<Range>, states: seq<HeapState>) {
    && |states| > 0 && Sorted(initial)
    && states[0] == HeapState(initial, {}, {})
    && forall i :: 0 <= i < |states| - 1 ==> Step(states[i], states[i + 1])
  }

  lemma AllocConserves(initial: seq<Range>, h: HeapState, h': HeapState, size: u64, align: u64, b: Block)
    requires Conserved(initial, h) && AllocStep(h, h', size, align, b)
    ensures Conserved(initial, h')
  {
    var old_, new_ := h.live + h.lost, h'.live + h'.lost;
    var block := Range(b.ptr, b.end);
    assert new_ == old_ + {block} + PaddingOf(b);
    forall x ensures Owned(new_, x) <==> Owned(old_, x) || (b.start <= x <= b.end) {
      if b.start <= x < b.ptr { assert Range(b.start, b.ptr - 1) in new_ && Range(b.start, b.ptr - 1).Has(x); }
      if b.ptr <= x <= b.end { assert block in new_ && block.Has(x); }
    }
    forall c | c in old_ ensures c.end < b.start || b.end < c.start {
      if c.start <= b.end && b.start <= c.end {
        var x := Max(c.start, b.start);
        assert c.Has(x) && Owned(old_, x) && Range(b.start, b.end).Has(x);
      }
    }
  }

  lemma FreeConserves(initial: seq<Range>, h: HeapState, h': HeapState, block: Range)
    requires Conserved(initial, h) && FreeStep(h, h', block)
    ensures Conserved(initial, h')
  {
    var old_, new_ := h.live + h.lost, h'.live + h'.lost;
    assert new_ == old_ - {block};
    forall x ensures Owned(old_, x) <==> Owned(new_, x) || block.Has(x) {
      if Owned(old_, x) {
        var b :| b in old_ && b.Has(x);
        assert b == block || b in new_;
      }
    }
    assert forall b :: b in new_ ==> Disjoint(b, block);
  }

  /** Safety over whole runs: in every state of every run, free ranges, live blocks and lost
      padding are pairwise disjoint and make up exactly the initial memory map. */
  lemma {:induction false} RunConserves(initial: seq<Range>, states: seq<HeapState>, k: nat)
    requires Run(initial, states) && k < |states|
    ensures Conserved(initial, states[k])
  {
    if k > 0 {
      RunConserves(initial, states, k - 1);
      var h, h' := states[k - 1], states[k];
      assert Step(h, states[k - 1 + 1]);
      if size, align, b :| AllocStep(h, h', size, align, b) {
        AllocConserves(initial, h, h', size, align, b);
      } else if block :| FreeStep(h, h', block) {
        FreeConserves(initial, h, h', block);
      }
    }
  }

  /** The global allocator. Blocks and padding are tracked for the proof only. */
  class BootHeap {
    const free: RangeSet
    ghost var live: set<Range>
    ghost var lost: set<Range>

    ghost predicate Valid()
      reads this, free, free.ranges
    {
      free.Valid()
    }

    ghost function State(): HeapState
      requires Valid()
      reads this, free, free.ranges
    {
      HeapState(free.Entries(), live, lost)
    }

    constructor (memory: RangeSet)
      requires memory.Valid()
      ensures Valid() && free == memory && State() == HeapState(memory.Entries(), {}, {})
    {
      free := memory;
      live, lost := {}, {};
    }

    /** Returns a null pointer when the request cannot be served; while the first page is not in the map, only then. */
    method Alloc(size: u64, align: u64) returns (ptr: u64, ghost served: bool)
      requires Valid()
      modifies this, free, free.ranges
      ensures Valid() && Step(old(State()), State())
      ensures served ==> size > 0 && IsPow2(align) && ptr % align == 0 && ptr + (size - 1) <= U64_MAX
                         && live == old(live) + {Range(ptr, ptr + (size - 1))}
      ensures !served ==> ptr == 0 && State() == old(State())
      ensures !Covers(old(free.Entries()), 0) ==> (served <==> ptr != 0)
      ensures served <==> size > 0 && IsPow2(align) && SomeFits(old(free.Entries()), size, align)
                          && !GivesUp(old(free.Entries()), [], size, align)
    {
      hide Chosen, GivesUp, SomeFits, Takes, Conserved;
      ghost var h := State();
      var r := free.AllocatePrefer(size, align, []);
      if r.Allocated? {
        ptr, served := r.ptr, true;
        ghost var b :| Chosen(h.free, [], size, align, b) && b.ptr == r.ptr && Takes(h.free, b, free.Entries());
        ChosenIsFree(h.free, [], size, align, b);
        ChosenPadding(h.free, size, align, b);
        assert Range(b.start, b.end).Has(b.ptr);
        live, lost := live + {Range(b.ptr, b.end)}, lost + PaddingOf(b);
        assert AllocStep(h, State(), size, align, b);
      } else {
        ptr, served := 0, false;
      }
    }

    /** `ok` is false when the source panics. */
    method Dealloc(ptr: u64, size: u64) returns (ok: bool)
      requires Valid()
      requires size > 0 && ptr + (size - 1) <= U64_MAX && Range(ptr, ptr + (size - 1)) in live
      modifies this, free, free.ranges
      ensures Valid()
      ensures ok ==> FreeStep(old(State()), State(), Range(ptr, ptr + (size - 1)))
      ensures ok <==> InsertWorks(old(free.Entries()), Range(ptr, ptr + (size - 1)), CAPACITY)
    {
      var range := Range(ptr, ptr + (size - 1));
      var r := free.Insert(range);
      ok := r.Ok?;
      if ok {
        live := live - {range};
      }
    }
  }

  /** Without preferred regions the padding is that of the chosen entry. */
  lemma ChosenPadding(s: seq<Range>, size: u64, align: u64, b: Block)
    requires size > 0 && align > 0 && AllValid(s) && Chosen(s, [], size, align, b)
    ensures b.ptr < b.start + align
  {
    hide Padding;
    var i: nat :| ChosenBest(s, [], size, align, b, i);
    PaddingAligns(s[i].start, align);
  }
}
