/** Physical memory as an array of 64-bit words together with the range set of what is free
    (the bootloader's `PhysMem` implementation, bootloader/src/mm.rs). */
module PhysicalMemories {
  import opened Machine
  import opened Ranges
  import opened Allocation
  import opened RangeSets
  import opened PageWalks
  import opened PageTrees
  import opened PageEdits

  /** No page of this size can be allocated. */
  ghost predicate Unavailable(free: seq<Range>, size: u64)
    requires AllValid(free) && size > 0
  {
    CannotServe(free, [], size, size, CAPACITY)
  }

  class PhysicalMemory {
    var words: seq<u64>
    const free: RangeSet

    /** Free memory exists, and physical addresses have at most 52 bits. */
    ghost predicate Valid()
      reads this, free, free.ranges
    {
      && free.Valid()
      && 8 * |words| <= COUNT_UNIT
      && forall x :: Covers(free.Entries(), x) ==> x < 8 * |words|
    }

    constructor (words: seq<u64>, free: RangeSet)
      requires free.Valid() && 8 * |words| <= COUNT_UNIT && forall x :: Covers(free.Entries(), x) ==> x < 8 * |words|
      ensures Valid() && this.words == words && this.free == free
    {
      this.words, this.free := words, free;
    }

    /** A block of free memory, or nothing exactly when no free range can serve it. */
    method AllocPhys(size: u64, align: u64) returns (r: Option<u64>)
      requires Valid() && size > 0 && IsPow2(align)
      modifies free, free.ranges
      ensures Valid()
      ensures r.Some? ==> r.value % align == 0 && r.value + size <= 8 * |words|
                          && Carved(old(free.Entries()), free.Entries(), r.value, size)
      ensures r.None? ==> free.Entries() == old(free.Entries())
      ensures r.None? <==> CannotServe(old(free.Entries()), [], size, align, CAPACITY)
    {
      hide Chosen, GivesUp, SomeFits, IsPow2, CannotServe, FromTheMiddle;
      ghost var s := free.Entries();
      var a := free.AllocatePrefer(size, align, []);
      ServedOrNot(s, [], size, align, CAPACITY, a, free.Entries());
      if a.NoMemory? {
        return None;
      }
      ghost var b :| Chosen(s, [], size, align, b) && b.ptr == a.ptr && Takes(s, b, free.Entries());
      ChosenIsFree(s, [], size, align, b);
      assert Range(b.start, b.end).Has(b.end) && Covers(s, b.end);
      forall x | b.ptr <= x < b.ptr + size ensures Covers(s, x) && !Covers(free.Entries(), x) {
        assert Range(b.start, b.end).Has(x);
      }
      r := Some(a.ptr);
    }

    /** A page of free memory, zeroed. */
    method AllocPageZeroed() returns (r: Option<u64>)
      requires Valid()
      modifies this, free, free.ranges
      ensures Valid()
      ensures r.Some? ==> r.value % 0x1000 == 0 && r.value + 0x1000 <= 8 * |words| == 8 * |old(words)|
                          && Carved(old(free.Entries()), free.Entries(), r.value, 0x1000)
                          && words == Zeroed(old(words), r.value, 512)
      ensures r.None? ==> free.Entries() == old(free.Entries()) && words == old(words)
      ensures r.None? <==> Unavailable(old(free.Entries()), 0x1000)
    {
      hide IsPow2, CannotServe, Covers;
      PageSizesArePow2();
      r := AllocPhys(0x1000, 0x1000);
      if r.Some? {
        words := Zeroed(words, r.value, 512);
      }
    }

    method WriteWord(a: int, w: u64)
      requires 0 <= a / 8 < |words|
      modifies this
      ensures words == Store(old(words), a, w)
    {
      words := words[a / 8 := w];
    }
  }

  lemma PageSizesArePow2()
    ensures IsPow2(0x1000) && IsPow2(0x20_0000) && IsPow2(0x4000_0000)
  {
    hide Pow2;
    Pow2Values();
  }
}
