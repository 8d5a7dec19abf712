/** What `RangeSet::allocate_prefer` computes (shared/rangeset/src/lib.rs), as relations on
    the entries of the set and of the preferred regions. */
module Allocation {
  import opened Machine
  import opened Ranges

  /** Bytes to skip so that `start` becomes a multiple of the power of two `align`. */
  function Padding(start: u64, align: u64): int
    requires align > 0
  {
    (align - start % align) % align
  }

  /** Rounds up by adding the mask (which may wrap around) and clearing the low bits. */
  function AlignUp(x: u64, align: u64): (r: u64)
    requires align > 0
  {
    var y := (x + (align - 1)) % 0x1_0000_0000_0000_0000;
    var low := y % align;
    y - low
  }

  /** A block to remove from the set: [start, end], of which [ptr, end] is handed out. */
  datatype Block = Block(start: u64, end: u64, ptr: u64)

  /** The last byte of a block placed at the first aligned address of `e`; may not fit 64 bits. */
  function EndIn(e: Range, size: u64, align: u64): int
    requires align > 0
  {
    e.start + (size - 1) + Padding(e.start, align)
  }

  predicate Overflows(e: Range, size: u64, align: u64)
    requires align > 0
  {
    EndIn(e, size, align) > U64_MAX
  }

  predicate Fits(e: Range, size: u64, align: u64)
    requires align > 0
  {
    EndIn(e, size, align) <= e.end
  }

  /** An aligned block of `size` bytes fits in what `e` and `region` have in common. */
  predicate FitsIn(e: Range, region: Range, size: u64, align: u64)
    requires align > 0 && e.Valid() && region.Valid()
  {
    var o := e.Overlaps(region);
    o.Some? &&
      var a := AlignUp(o.value.start, align);
      o.value.start <= a <= o.value.end && o.value.end - a >= size - 1
  }

  ghost predicate AllValid(s: seq<Range>) { forall i :: 0 <= i < |s| ==> s[i].Valid() }

  /** Entry `e` can serve the request from inside a preferred region. */
  ghost predicate Preferred(e: Range, regions: seq<Range>, size: u64, align: u64)
    requires align > 0 && e.Valid() && AllValid(regions)
  {
    exists j :: 0 <= j < |regions| && FitsIn(e, regions[j], size, align)
  }

  /** None of the first `k` entries can serve the request from a preferred region. */
  ghost predicate NonePreferred(s: seq<Range>, regions: seq<Range>, size: u64, align: u64, k: nat)
    requires align > 0 && AllValid(s) && AllValid(regions) && k <= |s|
  {
    forall i :: 0 <= i < k ==> !Preferred(s[i], regions, size, align)
  }

  /** The search meets an entry whose end computation overflows before a preferred fit. */
  ghost predicate GivesUp(s: seq<Range>, regions: seq<Range>, size: u64, align: u64)
    requires align > 0 && AllValid(s) && AllValid(regions)
  {
    exists i :: 0 <= i < |s| && Overflows(s[i], size, align) && NonePreferred(s, regions, size, align, i)
  }

  ghost predicate SomeFits(s: seq<Range>, size: u64, align: u64)
    requires align > 0
  {
    exists i :: 0 <= i < |s| && Fits(s[i], size, align)
  }

  /** `i` is the first of the fitting entries among the first `k` that needs the least padding. */
  ghost predicate LeastPadding(s: seq<Range>, size: u64, align: u64, k: nat, i: nat)
    requires align > 0 && k <= |s|
  {
    && i < k && Fits(s[i], size, align)
    && (forall j :: 0 <= j < k && Fits(s[j], size, align) ==> Padding(s[i].start, align) <= Padding(s[j].start, align))
    && (forall j :: 0 <= j < i && Fits(s[j], size, align) ==> Padding(s[i].start, align) < Padding(s[j].start, align))
  }

  /** Entry `e` can serve none of the first `j` regions. */
  ghost predicate NoneBefore(e: Range, regions: seq<Range>, size: u64, align: u64, j: nat)
    requires align > 0 && e.Valid() && AllValid(regions) && j <= |regions|
  {
    forall n :: 0 <= n < j ==> !FitsIn(e, regions[n], size, align)
  }

  /** `b` is the first aligned block that entry `i` and region `j` have in common, no earlier entry could
      serve a region, and this entry no earlier region. */
  ghost predicate ChosenInRegion(s: seq<Range>, regions: seq<Range>, size: u64, align: u64, b: Block, i: nat, j: nat)
    requires align > 0 && AllValid(s) && AllValid(regions)
  {
    && i < |s| && j < |regions|
    && NonePreferred(s, regions, size, align, i)
    && FitsIn(s[i], regions[j], size, align) && NoneBefore(s[i], regions, size, align, j)
    && b.ptr == AlignUp(s[i].Overlaps(regions[j]).value.start, align)
    && b.start == b.ptr && b.end == b.ptr + (size - 1)
    && s[i].start <= b.ptr && b.end <= s[i].end
    && regions[j].start <= b.ptr && b.end <= regions[j].end
    && b.ptr % align == 0
  }

  /** `b` is the padded start of entry `i`, the best one, and no entry could serve a region. */
  ghost predicate ChosenBest(s: seq<Range>, regions: seq<Range>, size: u64, align: u64, b: Block, i: nat)
    requires align > 0 && AllValid(s) && AllValid(regions)
  {
    && NonePreferred(s, regions, size, align, |s|)
    && LeastPadding(s, size, align, |s|, i)
    && b.start == s[i].start
    && b.ptr == s[i].start + Padding(s[i].start, align)
    && b.end == b.ptr + (size - 1) <= s[i].end
    && b.ptr % align == 0
  }

  ghost predicate Chosen(s: seq<Range>, regions: seq<Range>, size: u64, align: u64, b: Block)
    requires align > 0 && AllValid(s) && AllValid(regions)
  {
    || (exists i: nat, j: nat :: ChosenInRegion(s, regions, size, align, b, i, j))
    || (exists i: nat :: ChosenBest(s, regions, size, align, b, i))
  }

  /** The outcome of the search, in both directions. */
  ghost predicate SearchPost(s: seq<Range>, regions: seq<Range>, size: u64, align: u64, found: Option<Block>)
    requires align > 0 && AllValid(s) && AllValid(regions)
  {
    && (found.None? <==> GivesUp(s, regions, size, align) || !SomeFits(s, size, align))
    && (found.Some? ==> Chosen(s, regions, size, align, found.value))
  }

  /* ---- Arithmetic of alignment ----------------------------------------------------- */

  lemma PaddingAligns(start: u64, align: u64)
    requires align > 0
    ensures 0 <= Padding(start, align) < align
    ensures (start + Padding(start, align)) % align == 0
  {
    var q, r := start / align, start % align;
    assert start == q * align + r;
    if r == 0 {
      DivModUnique(align, 1, 0, align);
    } else {
      ModSmall(align - r, align);
      assert (q + 1) * align == q * align + align;
      DivModUnique(start + (align - r), q + 1, 0, align);
    }
  }

  /** The padded start is the first aligned address at or after `start`. */
  lemma PaddingIsLeast(start: u64, align: u64, x: int)
    requires align > 0 && start <= x && x % align == 0
    ensures start + Padding(start, align) <= x
  {
    PaddingAligns(start, align);
    var a, p := (start + Padding(start, align)) / align, x / align;
    assert start + Padding(start, align) == a * align && x == p * align;
    assert (a - 1) * align == a * align - align;
    if p < a {
      MulMonotone(p, a - 1, align);
    }
  }

  lemma AlignUpAligns(x: u64, align: u64)
    requires align > 0 && AlignUp(x, align) >= x
    ensures AlignUp(x, align) % align == 0
  {
    var y := (x + (align - 1)) % 0x1_0000_0000_0000_0000;
    assert y == (y / align) * align + y % align;
    DivModUnique(y - y % align, y / align, 0, align);
  }

  /** An entry that can serve a region can also serve the request from its padded start. */
  lemma PreferredFits(e: Range, region: Range, size: u64, align: u64)
    requires align > 0 && size > 0 && e.Valid() && region.Valid() && FitsIn(e, region, size, align)
    ensures Fits(e, size, align) && !Overflows(e, size, align)
  {
    var o := e.Overlaps(region).value;
    AlignUpAligns(o.start, align);
    PaddingIsLeast(e.start, align, AlignUp(o.start, align));
  }

  /** Rounding up gives the first aligned address, unless that does not fit 64 bits. */
  lemma AlignUpIsPadded(x: u64, align: u64)
    requires IsPow2(align)
    ensures AlignUp(x, align) >= x <==> x + Padding(x, align) <= U64_MAX
    ensures AlignUp(x, align) >= x ==> AlignUp(x, align) == x + Padding(x, align)
  {
    DividesWord(align);
    hide IsPow2;
    PaddingAligns(x, align);
    var p := Padding(x, align);
    var y := x + (align - 1);
    var a := (x + p) / align;
    assert x + p == a * align;
    if y <= U64_MAX {
      ModSmall(y, 0x1_0000_0000_0000_0000);
      DivModUnique(y, a, align - 1 - p, align);
    } else {
      DivModUnique(y, 1, y - 0x1_0000_0000_0000_0000, 0x1_0000_0000_0000_0000);
      ModSmall(y - 0x1_0000_0000_0000_0000, align);
      WordIsNext(x, align);
    }
  }

  /** Behind the last aligned address of 64 bits there is none. */
  lemma WordIsNext(x: u64, align: u64)
    requires align > 0 && 0x1_0000_0000_0000_0000 % align == 0 && x + (align - 1) > U64_MAX
    ensures x + Padding(x, align) > U64_MAX
  {
    PaddingAligns(x, align);
    var a, n := (x + Padding(x, align)) / align, 0x1_0000_0000_0000_0000 / align;
    assert x + Padding(x, align) == a * align && n * align == 0x1_0000_0000_0000_0000;
    assert (n - 1) * align == n * align - align;
    if a < n { MulMonotone(a, n - 1, align); } else { MulMonotone(n, a, align); }
  }

  /** An entry fits exactly when it holds some aligned block, and the padded start is where the first one begins. */
  lemma FitsIff(e: Range, size: u64, align: u64)
    requires align > 0 && size > 0 && e.Valid()
    ensures Fits(e, size, align) <==> exists p :: BlockInBoth(e, e, size, align, p)
    ensures Fits(e, size, align) ==>
      var a := e.start + Padding(e.start, align);
      BlockInBoth(e, e, size, align, a) && forall p :: BlockInBoth(e, e, size, align, p) ==> a <= p
  {
    PaddingAligns(e.start, align);
    hide Padding;
    if Fits(e, size, align) {
      assert BlockInBoth(e, e, size, align, e.start + Padding(e.start, align));
    }
    forall p | BlockInBoth(e, e, size, align, p) ensures Fits(e, size, align) && e.start + Padding(e.start, align) <= p {
      PaddingIsLeast(e.start, align, p);
    }
  }

  /** A block of `size` bytes at the aligned address `p` lies in both ranges. */
  predicate BlockInBoth(e: Range, region: Range, size: u64, align: u64, p: int)
    requires align > 0
  {
    p % align == 0 && e.Has(p) && e.Has(p + (size - 1)) && region.Has(p) && region.Has(p + (size - 1))
  }

  /** The region check accepts exactly when an aligned block fits into both, and then rounding up gives the
      first such block. */
  lemma FitsInIff(e: Range, region: Range, size: u64, align: u64)
    requires IsPow2(align) && size > 0 && e.Valid() && region.Valid()
    ensures FitsIn(e, region, size, align) <==> exists p :: BlockInBoth(e, region, size, align, p)
    ensures FitsIn(e, region, size, align) ==>
      var a := AlignUp(e.Overlaps(region).value.start, align);
      BlockInBoth(e, region, size, align, a) && forall p :: BlockInBoth(e, region, size, align, p) ==> a <= p
  {
    hide AlignUp, Padding, IsPow2;
    if FitsIn(e, region, size, align) {
      AlignUpAligns(e.Overlaps(region).value.start, align);
      assert BlockInBoth(e, region, size, align, AlignUp(e.Overlaps(region).value.start, align));
    }
    forall p | BlockInBoth(e, region, size, align, p)
      ensures FitsIn(e, region, size, align) && AlignUp(e.Overlaps(region).value.start, align) <= p
    {
      BlockMeansFit(e, region, size, align, p);
    }
  }

  lemma BlockMeansFit(e: Range, region: Range, size: u64, align: u64, p: int)
    requires IsPow2(align) && size > 0 && e.Valid() && region.Valid() && BlockInBoth(e, region, size, align, p)
    ensures e.Overlaps(region).Some? && FitsIn(e, region, size, align) && AlignUp(e.Overlaps(region).value.start, align) <= p
  {
    hide AlignUp, Padding, IsPow2;
    var o := e.Overlaps(region).value;
    assert o.Has(p) && o.Has(p + (size - 1));
    PaddingIsLeast(o.start, align, p);
    AlignUpIsPadded(o.start, align);
  }

  /** A block taken by the search was free, aligned and of the requested size. */
  lemma ChosenIsFree(s: seq<Range>, regions: seq<Range>, size: u64, align: u64, b: Block)
    requires size > 0 && align > 0 && AllValid(s) && AllValid(regions) && Chosen(s, regions, size, align, b)
    ensures b.start <= b.ptr && b.end == b.ptr + (size - 1) && b.ptr % align == 0
    ensures exists i :: 0 <= i < |s| && s[i].start <= b.start && b.end <= s[i].end
    ensures CoversAll(s, Range(b.start, b.end))
  {
    hide Preferred, NonePreferred, Padding, FitsIn;
    if i: nat, j: nat :| ChosenInRegion(s, regions, size, align, b, i, j) {
      CoversWithin(s, i, b);
    } else {
      var i: nat :| ChosenBest(s, regions, size, align, b, i);
      PaddingAligns(s[i].start, align);
      CoversWithin(s, i, b);
    }
  }

  lemma CoversWithin(s: seq<Range>, i: nat, b: Block)
    requires i < |s| && s[i].start <= b.start && b.end <= s[i].end
    ensures CoversAll(s, Range(b.start, b.end))
  {
    forall x | Range(b.start, b.end).Has(x) ensures Covers(s, x) { assert s[i].Has(x); }
  }

  /* ---- The whole operation ---------------------------------------------------------- */

  /** `Result<Option<u64>, Error>` of the source, plus the panic of its inner `unwrap`. */
  datatype AllocResult = Failed(error: Error) | NoMemory | Allocated(ptr: u64) | Panicked

  /** `t` is `s` without the block `b`. */
  ghost predicate Takes(s: seq<Range>, b: Block, t: seq<Range>) {
    Sorted(t) && forall x :: Covers(t, x) <==> Covers(s, x) && !(b.start <= x <= b.end)
  }

  /** What `allocate_prefer` promises about the entries before (`s`) and after (`t`). */
  ghost predicate AllocPost(s: seq<Range>, regions: seq<Range>, size: u64, align: u64, capacity: nat,
                            r: AllocResult, t: seq<Range>)
    requires AllValid(s) && AllValid(regions)
  {
    if size == 0 then r == Failed(ZeroSizedAllocation) && t == s
    else if !IsPow2(align) then r == Failed(WrongAlignment(align)) && t == s
    else
      && !r.Failed?
      && (r.NoMemory? <==> GivesUp(s, regions, size, align) || !SomeFits(s, size, align))
      && (r.Allocated? ==> exists b :: Chosen(s, regions, size, align, b) && b.ptr == r.ptr && Takes(s, b, t))
      && (!r.Allocated? ==> t == s)
      && (r.Panicked? <==> !r.NoMemory? && |s| >= capacity && FromTheMiddle(s, regions, size, align))
  }

  /** The request cannot be served: the search finds nothing, or taking what it finds would split an entry
      of a full set. */
  ghost predicate CannotServe(s: seq<Range>, regions: seq<Range>, size: u64, align: u64, capacity: nat)
    requires align > 0 && AllValid(s) && AllValid(regions)
  {
    || GivesUp(s, regions, size, align) || !SomeFits(s, size, align)
    || (|s| >= capacity && FromTheMiddle(s, regions, size, align))
  }

  /** A well-formed request gets a block exactly when it can be served. */
  lemma ServedOrNot(s: seq<Range>, regions: seq<Range>, size: u64, align: u64, capacity: nat, r: AllocResult, t: seq<Range>)
    requires AllValid(s) && AllValid(regions) && size > 0 && IsPow2(align) && AllocPost(s, regions, size, align, capacity, r, t)
    ensures r.Allocated? <==> !CannotServe(s, regions, size, align, capacity)
  {
    hide GivesUp, SomeFits, FromTheMiddle, Chosen, IsPow2;
  }

  lemma NotTaken(s: seq<Range>, regions: seq<Range>, size: u64, align: u64, capacity: nat, r: AllocResult, t: seq<Range>)
    requires AllValid(s) && AllValid(regions) && AllocPost(s, regions, size, align, capacity, r, t)
    ensures !r.Allocated? ==> t == s
  {
    hide GivesUp, SomeFits, FromTheMiddle, Chosen, IsPow2;
  }

  /** The request is served from a preferred region with free memory left on both sides. */
  ghost predicate FromTheMiddle(s: seq<Range>, regions: seq<Range>, size: u64, align: u64)
    requires align > 0 && AllValid(s) && AllValid(regions)
  {
    exists b, i: nat, j: nat :: ChosenInRegion(s, regions, size, align, b, i, j) && s[i].start < b.ptr && b.end < s[i].end
  }

  /** The search can find nothing although an entry fits: the first entry holds ten bytes, but a later one
      so close to the last address that the end of an eight-byte block would overflow stops the search. */
  lemma FittingEntryNotUsed() returns (s: seq<Range>)
    ensures Sorted(s) && SomeFits(s, 8, 1)
    ensures forall r, t :: AllocPost(s, [], 8, 1, 256, r, t) ==> r.NoMemory?
  {
    s := [Range(0, 9), Range(U64_MAX - 3, U64_MAX)];
    assert Fits(s[0], 8, 1) && Overflows(s[1], 8, 1);
    assert NonePreferred(s, [], 8, 1, 1);
    assert Pow2(0) == 1;
  }

  /** Loop invariant of the search: the best entry so far, if any fits. */
  ghost predicate BestSoFar(s: seq<Range>, size: u64, align: u64, k: nat, found: Option<Block>)
    requires align > 0 && size > 0 && k <= |s|
  {
    && (found.None? ==> forall i :: 0 <= i < k ==> !Fits(s[i], size, align))
    && (found.Some? ==> exists i: nat :: LeastPadding(s, size, align, k, i) && found.value == FitBlock(s[i], size, align))
  }

  /** The block at the padded start of an entry that fits. */
  function FitBlock(e: Range, size: u64, align: u64): Block
    requires align > 0 && size > 0 && Fits(e, size, align)
  {
    PaddingAligns(e.start, align);
    Block(e.start, EndIn(e, size, align), e.start + Padding(e.start, align))
  }

  /** Keeping the smaller of two candidates keeps the first entry of least padding. */
  lemma BestStep(s: seq<Range>, size: u64, align: u64, k: nat, found: Option<Block>)
    requires align > 0 && size > 0 && k < |s| && BestSoFar(s, size, align, k, found)
    ensures !Fits(s[k], size, align) ==> BestSoFar(s, size, align, k + 1, found)
    ensures Fits(s[k], size, align) ==>
      var b := FitBlock(s[k], size, align);
      if found.None? || found.value.end - found.value.start > b.end - b.start
      then BestSoFar(s, size, align, k + 1, Some(b)) else BestSoFar(s, size, align, k + 1, found)
  {
    hide Padding;
    if found.None? {
      if Fits(s[k], size, align) { assert LeastPadding(s, size, align, k + 1, k); }
    } else {
      var i: nat :| LeastPadding(s, size, align, k, i) && found.value == FitBlock(s[i], size, align);
      if Fits(s[k], size, align) && Padding(s[k].start, align) < Padding(s[i].start, align) {
        assert LeastPadding(s, size, align, k + 1, k);
      } else {
        assert LeastPadding(s, size, align, k + 1, i);
      }
    }
  }

  lemma SearchGaveUp(s: seq<Range>, regions: seq<Range>, size: u64, align: u64, k: nat)
    requires align > 0 && AllValid(s) && AllValid(regions) && k < |s|
    requires Overflows(s[k], size, align) && NonePreferred(s, regions, size, align, k)
    ensures SearchPost(s, regions, size, align, None)
  {
  }

  lemma SearchInRegion(s: seq<Range>, regions: seq<Range>, size: u64, align: u64, b: Block, k: nat, j: nat)
    requires align > 0 && size > 0 && AllValid(s) && AllValid(regions)
    requires ChosenInRegion(s, regions, size, align, b, k, j)
    requires forall i :: 0 <= i < k ==> !Overflows(s[i], size, align)
    ensures SearchPost(s, regions, size, align, Some(b))
  {
    PreferredFits(s[k], regions[j], size, align);
    assert Preferred(s[k], regions, size, align);
  }

  lemma SearchDone(s: seq<Range>, regions: seq<Range>, size: u64, align: u64, found: Option<Block>)
    requires align > 0 && size > 0 && AllValid(s) && AllValid(regions)
    requires forall i :: 0 <= i < |s| ==> !Overflows(s[i], size, align)
    requires NonePreferred(s, regions, size, align, |s|) && BestSoFar(s, size, align, |s|, found)
    ensures SearchPost(s, regions, size, align, found)
  {
    hide NonePreferred, Padding, Chosen;
    if found.Some? {
      var i: nat :| LeastPadding(s, size, align, |s|, i) && found.value == FitBlock(s[i], size, align);
      BestIsChosen(s, regions, size, align, i);
    }
  }

  lemma BestIsChosen(s: seq<Range>, regions: seq<Range>, size: u64, align: u64, i: nat)
    requires align > 0 && size > 0 && AllValid(s) && AllValid(regions)
    requires NonePreferred(s, regions, size, align, |s|) && LeastPadding(s, size, align, |s|, i)
    ensures Chosen(s, regions, size, align, FitBlock(s[i], size, align))
  {
    hide NonePreferred, Padding;
    PaddingAligns(s[i].start, align);
    assert ChosenBest(s, regions, size, align, FitBlock(s[i], size, align), i);
  }

  /** The region check of the source is `FitsIn`, and a hit gives a block in entry and region. */
  lemma RegionHit(s: seq<Range>, regions: seq<Range>, size: u64, align: u64, k: nat, j: nat, a: u64)
    requires align > 0 && size > 0 && AllValid(s) && AllValid(regions) && k < |s| && j < |regions|
    requires NonePreferred(s, regions, size, align, k)
    requires s[k].Overlaps(regions[j]).Some? && a == AlignUp(s[k].Overlaps(regions[j]).value.start, align)
    requires FitsIn(s[k], regions[j], size, align) && NoneBefore(s[k], regions, size, align, j)
    ensures a + (size - 1) <= U64_MAX
    ensures ChosenInRegion(s, regions, size, align, Block(a, a + (size - 1), a), k, j)
  {
    hide NonePreferred, NoneBefore, AlignUp;
    AlignUpAligns(s[k].Overlaps(regions[j]).value.start, align);
  }

  /** Taking the chosen block splits an entry exactly when it comes from the middle of a preferred region. */
  lemma SplitOnlyInRegion(s: seq<Range>, regions: seq<Range>, size: u64, align: u64, b: Block)
    requires Sorted(s) && align > 0 && size > 0 && AllValid(regions) && Chosen(s, regions, size, align, b)
    ensures Splits(s, Range(b.start, b.end)) <==> FromTheMiddle(s, regions, size, align)
  {
    hide NonePreferred, NoneBefore, Padding, FitsIn, AlignUp;
    if i: nat, j: nat :| ChosenInRegion(s, regions, size, align, b, i, j) {
      RegionBlockSplits(s, regions, size, align, b, i, j);
    } else {
      var i: nat :| ChosenBest(s, regions, size, align, b, i);
      BestNeverSplits(s, regions, size, align, b, i);
    }
  }

  lemma RegionBlockSplits(s: seq<Range>, regions: seq<Range>, size: u64, align: u64, b: Block, i: nat, j: nat)
    requires Sorted(s) && align > 0 && size > 0 && AllValid(regions) && ChosenInRegion(s, regions, size, align, b, i, j)
    ensures Splits(s, Range(b.start, b.end)) <==> FromTheMiddle(s, regions, size, align)
  {
    hide NonePreferred, NoneBefore, FitsIn, AlignUp;
    if Splits(s, Range(b.start, b.end)) {
      var n :| 0 <= n < |s| && s[n].start < b.start && b.end < s[n].end;
      assert i == n;
    }
    if b', i': nat, j': nat :| ChosenInRegion(s, regions, size, align, b', i', j') && s[i'].start < b'.ptr && b'.end < s[i'].end {
      ChosenOnce(s, regions, size, align, b, i, j, b', i', j');
      assert s[i].start < b.start && b.end < s[i].end;
    }
  }

  /** There is only one block to choose from the regions. */
  lemma ChosenOnce(s: seq<Range>, regions: seq<Range>, size: u64, align: u64, b: Block, i: nat, j: nat, b': Block, i': nat, j': nat)
    requires align > 0 && AllValid(s) && AllValid(regions)
    requires ChosenInRegion(s, regions, size, align, b, i, j) && ChosenInRegion(s, regions, size, align, b', i', j')
    ensures i == i' && j == j' && b == b'
  {
    hide FitsIn, AlignUp;
    assert Preferred(s[i], regions, size, align) && Preferred(s[i'], regions, size, align);
    assert i == i';
  }

  /** The padded start of an entry is its front: nothing is left before it. */
  lemma BestNeverSplits(s: seq<Range>, regions: seq<Range>, size: u64, align: u64, b: Block, i: nat)
    requires Sorted(s) && align > 0 && size > 0 && AllValid(regions) && ChosenBest(s, regions, size, align, b, i)
    ensures !Splits(s, Range(b.start, b.end)) && !FromTheMiddle(s, regions, size, align)
  {
    hide Padding, FitsIn, AlignUp;
    PaddingAligns(s[i].start, align);
    forall n | 0 <= n < |s| ensures !(s[n].start < b.start && b.end < s[n].end) {
      assert n == i || s[n].end < s[i].start || s[i].end < s[n].start;
    }
    forall b', i': nat, j': nat ensures !ChosenInRegion(s, regions, size, align, b', i', j') {
      if i' < |s| && j' < |regions| { NoneFits(s, regions, size, align, i', j'); }
    }
  }

  lemma NoneFits(s: seq<Range>, regions: seq<Range>, size: u64, align: u64, i: nat, j: nat)
    requires align > 0 && AllValid(s) && AllValid(regions) && NonePreferred(s, regions, size, align, |s|)
    requires i < |s| && j < |regions|
    ensures !FitsIn(s[i], regions[j], size, align)
  {
    hide FitsIn;
    assert !Preferred(s[i], regions, size, align);
  }

  /** The choice is determined by the entries and the request. */
  lemma ChosenUnique(s: seq<Range>, regions: seq<Range>, size: u64, align: u64, b: Block, b': Block)
    requires align > 0 && AllValid(s) && AllValid(regions)
    requires Chosen(s, regions, size, align, b) && Chosen(s, regions, size, align, b')
    ensures b == b'
  {
    hide NonePreferred, NoneBefore, FitsIn, AlignUp, Padding, Fits;
    if i: nat, j: nat :| ChosenInRegion(s, regions, size, align, b, i, j) {
      if i': nat, j': nat :| ChosenInRegion(s, regions, size, align, b', i', j') {
        ChosenOnce(s, regions, size, align, b, i, j, b', i', j');
      } else {
        NoneFits(s, regions, size, align, i, j);
      }
    } else {
      var i: nat :| ChosenBest(s, regions, size, align, b, i);
      if i': nat, j': nat :| ChosenInRegion(s, regions, size, align, b', i', j') {
        NoneFits(s, regions, size, align, i', j');
      } else {
        var i': nat :| ChosenBest(s, regions, size, align, b', i');
        assert i == i';
      }
    }
  }

  /** Some entry and some preferred region have room for the request in common. */
  ghost predicate RegionPossible(s: seq<Range>, regions: seq<Range>, size: u64, align: u64)
    requires align > 0
  {
    exists i, j, p :: 0 <= i < |s| && 0 <= j < |regions| && BlockInBoth(s[i], regions[j], size, align, p)
  }

  /** Where that is possible, the block lies in a preferred region, at the first aligned address that the two
      have in common; otherwise it is the padded start of an entry. */
  lemma PreferredIfPossible(s: seq<Range>, regions: seq<Range>, size: u64, align: u64, b: Block)
    requires IsPow2(align) && size > 0 && AllValid(s) && AllValid(regions) && Chosen(s, regions, size, align, b)
    ensures RegionPossible(s, regions, size, align) <==>
      exists i: nat, j: nat :: ChosenInRegion(s, regions, size, align, b, i, j)
    ensures forall i: nat, j: nat :: ChosenInRegion(s, regions, size, align, b, i, j) ==>
      BlockInBoth(s[i], regions[j], size, align, b.ptr) && forall p :: BlockInBoth(s[i], regions[j], size, align, p) ==> b.ptr <= p
  {
    hide AlignUp, Padding, IsPow2, NonePreferred, NoneBefore, FitsIn, BlockInBoth;
    forall i: nat, j: nat | ChosenInRegion(s, regions, size, align, b, i, j)
      ensures BlockInBoth(s[i], regions[j], size, align, b.ptr) && forall p :: BlockInBoth(s[i], regions[j], size, align, p) ==> b.ptr <= p
    {
      FitsInIff(s[i], regions[j], size, align);
    }
    if RegionPossible(s, regions, size, align) {
      var i, j, p :| 0 <= i < |s| && 0 <= j < |regions| && BlockInBoth(s[i], regions[j], size, align, p);
      FitsInIff(s[i], regions[j], size, align);
      if k: nat :| ChosenBest(s, regions, size, align, b, k) { NoneFits(s, regions, size, align, i, j); }
    }
  }

  lemma NoMiddle(s: seq<Range>, size: u64, align: u64)
    requires AllValid(s)
    ensures align > 0 ==> !FromTheMiddle(s, [], size, align)
  {
  }

  lemma SearchStart(s: seq<Range>, regions: seq<Range>, size: u64, align: u64)
    requires align > 0 && size > 0 && AllValid(s) && AllValid(regions)
    ensures NonePreferred(s, regions, size, align, 0) && BestSoFar(s, size, align, 0, None)
  {
  }

  /** An entry is passed over only when no region can be served from it. */
  lemma NotPreferred(s: seq<Range>, regions: seq<Range>, size: u64, align: u64, k: nat)
    requires align > 0 && size > 0 && AllValid(s) && AllValid(regions) && k < |s|
    requires NonePreferred(s, regions, size, align, k)
    requires !Fits(s[k], size, align) || forall j :: 0 <= j < |regions| ==> !FitsIn(s[k], regions[j], size, align)
    ensures NonePreferred(s, regions, size, align, k + 1)
  {
    if Preferred(s[k], regions, size, align) {
      var j :| 0 <= j < |regions| && FitsIn(s[k], regions[j], size, align);
      PreferredFits(s[k], regions[j], size, align);
    }
  }
}
