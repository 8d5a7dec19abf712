/** The fixed-capacity range set that serves as the physical memory allocator
    (shared/rangeset/src/lib.rs). */
module RangeSets {
  import opened Machine
  import opened Ranges
  import opened Allocation

  const CAPACITY := 256

  /** `Option<u64>` of the source, plus the overflow of its unchecked sum. */
  datatype LenResult = Length(len: u64) | TooLong | SumOverflow

  /** What `len` returns for these entries. There is no length exactly when all 2^64 addresses are covered: a
      single entry then fails the checked addition, several make the unchecked sum overflow. */
  ghost predicate LenPost(s: seq<Range>, r: LenResult) {
    match r
    case Length(len) => len == |Addresses(s)|
    case TooLong => s == [Range(0, U64_MAX)]
    case SumOverflow => |Addresses(s)| == U64_MAX + 1 && s != [Range(0, U64_MAX)]
  }

  /** Two entries that cover everything: the sum overflows. */
  lemma TwoEntriesOverflow() returns (s: seq<Range>)
    ensures Sorted(s) && |s| == 2 && forall r :: LenPost(s, r) ==> r.SumOverflow?
  {
    s := [Range(0, 9), Range(10, U64_MAX)];
    SumCountsAddresses(s);
    NothingSummed(s);
    SumStep(s, 0);
    SumStep(s, 1);
    assert s[..2] == s;
  }

  /** A range over all addresses leaves no room for another. */
  lemma FullIsAlone(s: seq<Range>, i: nat)
    requires Sorted(s) && i < |s| && s[i] == Range(0, U64_MAX)
    ensures s == [Range(0, U64_MAX)]
  {
    OnlyEntry(s, i, 0);
    OnlyEntry(s, i, |s| - 1);
  }

  lemma OnlyEntry(s: seq<Range>, i: nat, j: nat)
    requires Sorted(s) && i < |s| && s[i] == Range(0, U64_MAX) && j < |s|
    ensures j == i
  {
    var lower, upper := s[Min(i, j)], s[Max(i, j)];
    assert i != j ==> lower.end < upper.start;
  }

  class RangeSet {
    const ranges: array<Range>
    var inUse: nat

    ghost predicate Valid()
      reads this, ranges
    {
      && ranges.Length == CAPACITY
      && inUse <= CAPACITY
      && Sorted(ranges[..inUse])
    }

    /** The used entries, in order. */
    function Entries(): (s: seq<Range>)
      requires inUse <= ranges.Length
      reads this, ranges
    {
      ranges[..inUse]
    }

    constructor ()
      ensures Valid() && fresh(ranges) && Entries() == []
    {
      ranges := new Range[CAPACITY](_ => Range(0, 0));
      inUse := 0;
    }

    /** The number of free addresses; see `LenPost`. */
    method Len() returns (r: LenResult)
      requires Valid()
      ensures LenPost(Entries(), r)
    {
      hide Addresses, SumSizes, Sorted;
      ghost var s := Entries();
      SumCountsAddresses(s);
      NothingSummed(s);
      var acc := 0;
      for i := 0 to inUse
        invariant 0 <= acc == SumSizes(s[..i]) <= U64_MAX
        invariant s != [Range(0, U64_MAX)] || i == 0
      {
        SumStep(s, i);
        var size := ranges[i].end - ranges[i].start;
        if size + 1 > U64_MAX {
          FullIsAlone(s, i);
          return TooLong;
        }
        if acc + (size + 1) > U64_MAX {
          SumAtMost(s);
          return SumOverflow;
        }
        acc := acc + (size + 1);
      }
      assert s[..inUse] == s;
      r := Length(acc);
    }

    /** Drops the entry at `idx` by bubbling it to the end of the used part. */
    method Delete(idx: nat) returns (r: Result<(), Error>)
      requires ranges.Length == CAPACITY && inUse <= CAPACITY
      modifies this, ranges
      ensures inUse <= CAPACITY
      ensures r.Ok? <==> idx < old(inUse)
      ensures r.Ok? ==> inUse == old(inUse) - 1 && Entries() == old(Entries()[..idx] + Entries()[idx + 1..])
      ensures r.Err? ==> r.error == IndexOutOfBounds(idx) && inUse == old(inUse) && ranges[..] == old(ranges[..])
    {
      if idx >= inUse {
        return Err(IndexOutOfBounds(idx));
      }
      for i := idx to inUse - 1
        invariant inUse == old(inUse)
        invariant ranges[idx..i] == old(ranges[idx + 1..i + 1])
        invariant ranges[i] == old(ranges[idx])
        invariant forall j :: 0 <= j < idx || i < j < CAPACITY ==> ranges[j] == old(ranges[j])
      {
        ranges[i], ranges[i + 1] := ranges[i + 1], ranges[i];
      }
      inUse := inUse - 1;
      r := Ok(());
    }

    /** Writes `e` at `idx` after moving everything from `idx` on one place to the right. */
    method ShiftIn(idx: nat, e: Range)
      requires ranges.Length == CAPACITY && idx <= inUse < CAPACITY
      modifies this, ranges
      ensures inUse == old(inUse) + 1
      ensures Entries() == old(Entries()[..idx]) + [e] + old(Entries()[idx..])
    {
      forall i | idx < i <= inUse {
        ranges[i] := ranges[i - 1];
      }
      ranges[idx] := e;
      inUse := inUse + 1;
    }

    /** Adds `range`, merging it with the entries it touches; see `InsertPost`. */
    method Insert(range: Range) returns (r: Result<(), Error>)
      requires Valid() && range.Valid()
      modifies this, ranges
      ensures Valid()
      ensures InsertPost(old(Entries()), range, CAPACITY, r.Ok?, Entries())
      ensures r.Err? ==> r.error == RangeSetOverflow
    {
      hide Merged, Grown, InsertPost, Without;
      ghost var s := Entries();
      ghost var k := 0;
      var grown := range;
      var idx := 0;
      ScanStart(s, range);
      WithoutStep(s, 0, 0);
      while idx < inUse
        invariant idx <= k <= |s| && inUse == idx + |s| - k <= CAPACITY
        invariant Merged(s, range, idx, k)
        invariant Entries() == Without(s, idx, k)
        invariant grown == Grown(s, range, idx, k)
        decreases |s| - k
      {
        WithoutStep(s, idx, k);
        var entry := ranges[idx];
        assert entry == Entries()[idx];
        if entry.end == U64_MAX {
          BlockedInsert(s, range, CAPACITY, idx, k);
          return Err(RangeSetOverflow);
        }
        GrownStep(s, range, idx, k);
        if grown.start > entry.end + 1 {
          idx, k := idx + 1, k + 1;
          continue;
        }
        if grown.end < entry.start {
          break;
        }
        assert Touches(entry, grown);
        grown := Range(Min(entry.start, grown.start), Max(entry.end, grown.end));
        var _ := Delete(idx);
        k := k + 1;
      }
      ScanEnd(s, range, idx, k);
      WithoutStep(s, idx, k);
      if inUse >= CAPACITY {
        assert k == idx;
        FullInsert(s, range, CAPACITY, idx);
        return Err(RangeSetOverflow);
      }
      ShiftIn(idx, grown);
      SplicedInsert(s, range, CAPACITY, idx, k);
      r := Ok(());
    }

    /** Overwrites the entry at `idx`. */
    method Replace(idx: nat, e: Range)
      requires idx < inUse <= ranges.Length
      modifies ranges
      ensures Entries() == old(Entries()[..idx]) + [e] + old(Entries()[idx + 1..])
    {
      ranges[idx] := e;
    }

    /** Splits the entry at `idx` around a range inside it; see `SplitPost`. */
    method SplitEntry(idx: nat, range: Range) returns (r: Result<bool, Error>)
      requires ranges.Length == CAPACITY && inUse <= CAPACITY && range.Valid()
      modifies this, ranges
      ensures inUse <= CAPACITY
      ensures SplitPost(old(Entries()), idx, range, CAPACITY, r, Entries())
    {
      hide SplitPost;
      ghost var s := Entries();
      if idx >= inUse {
        SplitRefused(s, idx, range, CAPACITY);
        return Err(IndexOutOfBounds(idx));
      }
      if inUse >= CAPACITY {
        SplitRefused(s, idx, range, CAPACITY);
        return Err(RangeSetOverflow);
      }
      var entry := ranges[idx];
      if !entry.Contains(range) {
        SplitRefused(s, idx, range, CAPACITY);
        return Ok(false);
      }
      var lower := if range.start > entry.start then Range(entry.start, range.start - 1) else Range(entry.start, entry.start);
      var upper := NewRange(if range.end == U64_MAX then U64_MAX else range.end + 1, entry.end);
      Replace(idx, lower);
      if upper.Err? {
        ShiftAway(idx + 1);
        SplitDone(s, idx, range, CAPACITY, lower, upper, Entries());
        return Err(upper.error);
      }
      ShiftIn(idx + 1, upper.value);
      SplitDone(s, idx, range, CAPACITY, lower, upper, Entries());
      r := Ok(true);
    }

    /** Moves everything behind `idx` one place to the right, without counting the entry that is gained: the
        one at `idx` is there twice and the last one is no longer in use. */
    method ShiftAway(idx: nat)
      requires ranges.Length == CAPACITY && idx <= inUse < CAPACITY
      modifies ranges
      ensures Entries() == if idx < inUse then old(Entries()[..idx + 1]) + old(Entries()[idx..inUse - 1]) else old(Entries())
    {
      forall i | idx < i <= inUse {
        ranges[i] := ranges[i - 1];
      }
    }

    /** Cuts `range` out of the entry at `idx`, which meets it: deletes, trims or splits the entry. Returns
        the number of pieces that are left. */
    method CutEntry(idx: nat, range: Range) returns (r: Result<nat, Error>)
      requires ranges.Length == CAPACITY && idx < inUse <= CAPACITY && range.Valid()
      requires ranges[idx].Valid() && Meets(ranges[idx], range)
      modifies this, ranges
      ensures inUse <= CAPACITY
      ensures r.Err? <==> old(inUse) == CAPACITY && old(ranges[idx]).start < range.start && range.end < old(ranges[idx]).end
      ensures r.Err? ==> r.error == RangeSetOverflow && Entries() == old(Entries())
      ensures r.Ok? ==> r.value == |Cut(old(ranges[idx]), range)|
                        && Entries() == old(Entries()[..idx]) + Cut(old(ranges[idx]), range) + old(Entries()[idx + 1..])
    {
      var entry := ranges[idx];
      CutCases(entry, range);
      hide Cut;
      if range.Contains(entry) {
        var _ := Delete(idx);
        r := Ok(0);
      } else if range.start <= entry.start {
        Replace(idx, Range(range.end + 1, entry.end));
        r := Ok(1);
      } else if range.end >= entry.end {
        Replace(idx, Range(entry.start, range.start - 1));
        r := Ok(1);
      } else {
        ghost var s := Entries();
        var split := SplitEntry(idx, range);
        if |s| < CAPACITY { SplitInside(s, idx, range, CAPACITY, split, Entries()); }
        r := if split.Err? then Err(split.error) else Ok(2);
      }
    }

    /** Removes every address of `range`; see `RemovePost`. */
    method Remove(range: Range) returns (r: Result<bool, Error>)
      requires Valid() && range.Valid()
      modifies this, ranges
      ensures Valid()
      ensures RemovePost(old(Entries()), range, CAPACITY, r, Entries())
      ensures r.Ok? ==> Entries() == CutAll(old(Entries()), range)
    {
      hide RemovePost, Cut, CutAll, Partial, Pieces, MeetsSome, SplitsSome, Splits;
      ghost var s := Entries();
      ghost var k := 0;
      var anyRemoved := false;
      var idx := 0;
      RemoveStart(s, range);
      while idx < inUse
        invariant k <= |s| && inUse == idx + |s| - k <= CAPACITY
        invariant idx == Pieces(s, range, k)
        invariant Entries() == Partial(s, range, k)
        invariant |s| >= CAPACITY ==> !SplitsSome(s, range, k)
        invariant anyRemoved <==> MeetsSome(s, range, k)
        decreases |s| - k
      {
        PartialStep(s, range, k);
        CutCases(s[k], range);
        SomeStep(s, range, k);
        assert ranges[idx] == Entries()[idx] == s[k];
        if ranges[idx].Overlaps(range).None? {
          assert Entries() == Entries()[..idx] + [ranges[idx]] + Entries()[idx + 1..];
          idx, k := idx + 1, k + 1;
          continue;
        }
        anyRemoved := true;
        if s[k].start < range.start && range.end < s[k].end {
          SplitIsAlone(s, range, k);
        }
        var pieces := CutEntry(idx, range);
        if pieces.Err? {
          RemoveFull(s, range, CAPACITY);
          return Err(pieces.error);
        }
        idx, k := idx + pieces.value, k + 1;
      }
      RemoveDone(s, range, CAPACITY);
      r := Ok(anyRemoved);
    }

    /** The search of `allocate_prefer`; `regions` are the entries of the preferred set, if any. */
    method FindBlock(size: u64, align: u64, regions: seq<Range>) returns (found: Option<Block>)
      requires Valid() && AllValid(regions) && size > 0 && align > 0
      ensures SearchPost(Entries(), regions, size, align, found)
    {
      hide NonePreferred, BestSoFar, SearchPost, ChosenInRegion, Padding;
      ghost var s := Entries();
      found := None;
      SearchStart(s, regions, size, align);
      for k := 0 to inUse
        invariant NonePreferred(s, regions, size, align, k)
        invariant forall i :: 0 <= i < k ==> !Overflows(s[i], size, align)
        invariant BestSoFar(s, size, align, k, found)
      {
        var entry := ranges[k];
        assert entry == s[k];
        var padding := Padding(entry.start, align);
        var end := entry.start + (size - 1) + padding;
        if end > U64_MAX {
          SearchGaveUp(s, regions, size, align, k);
          return None;
        }
        BestStep(s, size, align, k, found);
        if end > entry.end {
          NotPreferred(s, regions, size, align, k);
          continue;
        }
        for j := 0 to |regions|
          invariant forall i :: 0 <= i < j ==> !FitsIn(entry, regions[i], size, align)
        {
          var overlap := entry.Overlaps(regions[j]);
          if overlap.None? {
            continue;
          }
          var aligned := AlignUp(overlap.value.start, align);
          if aligned >= overlap.value.start && aligned <= overlap.value.end && overlap.value.end - aligned >= size - 1 {
            RegionHit(s, regions, size, align, k, j, aligned);
            var block := Block(aligned, aligned + (size - 1), aligned);
            SearchInRegion(s, regions, size, align, block, k, j);
            return Some(block);
          }
        }
        NotPreferred(s, regions, size, align, k);
        if found.None? || found.value.end - found.value.start > end - entry.start {
          found := Some(FitBlock(entry, size, align));
        }
      }
      SearchDone(s, regions, size, align, found);
    }

    /** Takes an aligned block out of the set, preferably from `regions`; see `AllocPost`. */
    method AllocatePrefer(size: u64, align: u64, regions: seq<Range>) returns (r: AllocResult)
      requires Valid() && AllValid(regions)
      modifies this, ranges
      ensures Valid()
      ensures AllocPost(old(Entries()), regions, size, align, CAPACITY, r, Entries())
      ensures regions == [] ==> !r.Panicked?
    {
      hide Chosen, GivesUp, SomeFits, Splits, FromTheMiddle;
      NoMiddle(Entries(), size, align);
      if size == 0 {
        return Failed(ZeroSizedAllocation);
      }
      if !IsPow2(align) {
        return Failed(WrongAlignment(align));
      }
      ghost var s := Entries();
      var found := FindBlock(size, align, regions);
      if found.None? {
        return NoMemory;
      }
      var b := found.value;
      ChosenIsFree(s, regions, size, align, b);
      SplitOnlyInRegion(s, regions, size, align, b);
      var removed := Remove(Range(b.start, b.end));
      if removed.Err? {
        return Panicked;
      }
      assert Takes(s, b, Entries());
      r := Allocated(b.ptr);
    }
  }
}
