/** Inclusive ranges and sorted sequences of them (shared/rangeset/src/lib.rs).

    A set of ranges is given two independent readings: the sequence of entries that the
    code stores, and the set of addresses they cover. The lemmas here connect the two. */
module Ranges {
  import opened Machine

  datatype Range = Range(start: u64, end: u64) {
    predicate Valid() { start <= end }

    predicate Has(x: int) { start <= x <= end }

    predicate Contains(other: Range) { start <= other.start && end >= other.end }

    /** The common part of two ranges, if there is one. */
    function Overlaps(other: Range): (r: Option<Range>)
      requires Valid() && other.Valid()
      ensures r.Some? <==> exists x :: Has(x) && other.Has(x)
      ensures r.Some? ==> r.value.Valid() && forall x :: r.value.Has(x) <==> Has(x) && other.Has(x)
    {
      if start <= other.end && other.start <= end then
        var o := Range(Max(start, other.start), Min(end, other.end));
        assert Has(o.start) && other.Has(o.start);
        Some(o)
      else None
    }
  }

  datatype Error =
    | InvalidRange(range: Range)
    | IndexOutOfBounds(index: nat)
    | RangeSetOverflow
    | ZeroSizedAllocation
    | WrongAlignment(align: u64)

  /** `Range::new`: the only public way to make a range. */
  function NewRange(start: u64, end: u64): (r: Result<Range, Error>)
    ensures r.Ok? ==> r.value.Valid() && forall x :: r.value.Has(x) <==> start <= x <= end
    ensures r.Err? <==> start > end
  {
    if start <= end then Ok(Range(start, end)) else Err(InvalidRange(Range(start, end)))
  }

  /** Entries are valid, in ascending order, and pairwise disjoint. */
  ghost predicate Sorted(s: seq<Range>) {
    && (forall i :: 0 <= i < |s| ==> s[i].Valid())
    && (forall i, j :: 0 <= i < j < |s| ==> s[i].end < s[j].start)
  }

  /** The address `x` belongs to some entry. */
  ghost predicate Covers(s: seq<Range>, x: int) {
    exists i :: 0 <= i < |s| && s[i].Has(x)
  }

  /** Every address of `r` is covered. */
  ghost predicate CoversAll(s: seq<Range>, r: Range) {
    forall x :: r.Has(x) ==> Covers(s, x)
  }

  lemma CoversConcat(a: seq<Range>, b: seq<Range>, x: int)
    ensures Covers(a + b, x) <==> Covers(a, x) || Covers(b, x)
  {
    if Covers(a, x) {
      var i :| 0 <= i < |a| && a[i].Has(x);
      assert (a + b)[i] == a[i];
    }
    if Covers(b, x) {
      var i :| 0 <= i < |b| && b[i].Has(x);
      assert (a + b)[|a| + i] == b[i];
    }
  }

  lemma CoversOne(e: Range, x: int)
    ensures Covers([e], x) <==> e.Has(x)
  {
    assert [e][0] == e;
  }

  /** `s` without the entries [lo, k). */
  ghost function Without(s: seq<Range>, lo: nat, k: nat): seq<Range>
    requires lo <= k <= |s|
  {
    s[..lo] + s[k..]
  }

  lemma WithoutStep(s: seq<Range>, lo: nat, k: nat)
    requires lo <= k <= |s|
    ensures var e := Without(s, lo, k);
      && |e| == lo + |s| - k
      && (k < |s| ==> e[lo] == s[k] && e[..lo] + e[lo + 1..] == Without(s, lo, k + 1))
      && (lo == k ==> e == s && (k < |s| ==> e == Without(s, k + 1, k + 1)))
  {
    if k < |s| {
      var e := s[..lo] + s[k..];
      assert e[..lo] == s[..lo] && e[lo + 1..] == s[k + 1..];
    }
  }

  /* ---- Insertion ---------------------------------------------------------------- */

  /** `insert` merges `r` with `e` when they overlap or when `r` starts right after `e`. */
  ghost predicate Touches(e: Range, r: Range) {
    e.start <= r.end && r.start <= e.end + 1
  }

  /** The entries that `r` merges with are exactly those with index in [lo, hi). */
  ghost predicate Window(s: seq<Range>, r: Range, lo: nat, hi: nat) {
    && lo <= hi <= |s|
    && (forall i :: 0 <= i < lo ==> s[i].end + 1 < r.start)
    && (forall i :: lo <= i < hi ==> Touches(s[i], r))
    && (forall i :: hi <= i < |s| ==> r.end < s[i].start)
  }

  /** `r` grown over the entries of [lo, hi). */
  ghost function Grown(s: seq<Range>, r: Range, lo: nat, hi: nat): Range
    requires lo <= hi <= |s|
  {
    if lo == hi then r else Range(Min(s[lo].start, r.start), Max(s[hi - 1].end, r.end))
  }

  /** The scan of `insert` reaches an entry that ends at the top of the address space. */
  ghost predicate BlockedAtTop(s: seq<Range>, r: Range) {
    && |s| > 0 && s[|s| - 1].end == U64_MAX
    && (|s| == 1 || s[|s| - 2].start <= r.end)
  }

  /** ... after it has already deleted an entry that it meant to merge. */
  ghost predicate LosesEntries(s: seq<Range>, r: Range) {
    && |s| >= 2 && s[|s| - 1].end == U64_MAX
    && Touches(s[|s| - 2], r)
  }

  /** One entry of `t` holds `r` and every entry of `s` that it touches; all other entries are as they were. */
  ghost predicate MergedInto(s: seq<Range>, r: Range, lo: nat, hi: nat, t: seq<Range>) {
    && Window(s, r, lo, hi)
    && |t| == |s| - (hi - lo) + 1 && t == s[..lo] + [t[lo]] + s[hi..]
    && t[lo].Contains(r) && (forall i :: lo <= i < hi ==> t[lo].Contains(s[i]))
    && (t[lo].start == r.start || (lo < hi && t[lo].start == s[lo].start))
    && (t[lo].end == r.end || (lo < hi && t[lo].end == s[hi - 1].end))
  }

  /** Insertion succeeds: the scan is not blocked, and there is room or something to merge with. */
  ghost predicate InsertWorks(s: seq<Range>, r: Range, capacity: nat) {
    !BlockedAtTop(s, r) && (|s| < capacity || exists i :: 0 <= i < |s| && Touches(s[i], r))
  }

  /** What `insert` promises about the entries before (`s`) and after (`t`).

      Success is set union. The two failures are a full set with nothing to merge and a
      scan that meets an entry ending at the last address. A failure changes nothing, except
      that the second kind has already dropped the entries it meant to merge, if any. */
  ghost predicate InsertPost(s: seq<Range>, r: Range, capacity: nat, ok: bool, t: seq<Range>) {
    && Sorted(t)
    && (ok <==> InsertWorks(s, r, capacity))
    && (ok ==> forall x :: Covers(t, x) <==> Covers(s, x) || r.Has(x))
    && (ok ==> exists lo: nat, hi: nat :: MergedInto(s, r, lo, hi, t))
    && (!ok && !LosesEntries(s, r) ==> t == s)
    && (LosesEntries(s, r) ==> !ok && exists lo :: DropsTouching(s, r, lo, t))
  }

  /** `t` is `s` without the entries [lo, |s| - 1), which are those that touch `r` below the top one. */
  ghost predicate DropsTouching(s: seq<Range>, r: Range, lo: int, t: seq<Range>) {
    && 0 <= lo < |s| - 1
    && (forall i :: 0 <= i < |s| - 1 ==> (Touches(s[i], r) <==> lo <= i))
    && t == s[..lo] + [s[|s| - 1]]
  }

  /** The scan invariant of `insert`: [lo, k) have been merged, everything below lo is clear of `r`. */
  ghost predicate Merged(s: seq<Range>, r: Range, lo: nat, k: nat) {
    && lo <= k <= |s|
    && (forall i :: 0 <= i < lo ==> s[i].end + 1 < r.start)
    && (forall i :: lo <= i < k ==> Touches(s[i], r))
    && (forall i :: 0 <= i < k ==> s[i].end != U64_MAX)
  }

  lemma ScanStart(s: seq<Range>, r: Range)
    ensures Merged(s, r, 0, 0) && Grown(s, r, 0, 0) == r
  {
  }

  lemma ScanEnd(s: seq<Range>, r: Range, lo: nat, k: nat)
    requires Sorted(s) && r.Valid() && Merged(s, r, lo, k)
    requires k < |s| ==> r.end < s[k].start
    ensures Window(s, r, lo, k)
  {
  }

  /** Comparing the next entry with the grown range is the same as comparing it with `r`. */
  lemma GrownStep(s: seq<Range>, r: Range, lo: nat, k: nat)
    requires Sorted(s) && r.Valid() && Merged(s, r, lo, k) && k < |s| && s[k].end != U64_MAX
    ensures var g := Grown(s, r, lo, k);
      && (g.start > s[k].end + 1 ==> lo == k && Merged(s, r, k + 1, k + 1) && Grown(s, r, k + 1, k + 1) == g)
      && (g.end < s[k].start <==> r.end < s[k].start)
      && (Touches(s[k], g) ==> Merged(s, r, lo, k + 1))
      && (Touches(s[k], g) ==> Grown(s, r, lo, k + 1) == Range(Min(s[k].start, g.start), Max(s[k].end, g.end)))
  {
  }

  /** Inserting `r` must fail and leave the free address `x` uncovered. */
  ghost predicate Forgets(s: seq<Range>, r: Range, x: int) {
    && Sorted(s) && r.Valid() && Covers(s, x)
    && forall ok, t :: InsertPost(s, r, 256, ok, t) ==> !ok && !Covers(t, x)
  }

  /** A failing insertion can forget memory that was free before: the entry [0, 9] is deleted to
      be merged with [10, 15], then the scan stops at the entry that ends at the last address. */
  lemma FailedInsertForgets()
    ensures exists s, r, x :: Forgets(s, r, x)
  {
    var s, r := [Range(0, 9), Range(20, U64_MAX)], Range(10, 15);
    assert s[0].Has(5) && Touches(s[0], r) && LosesEntries(s, r);
    forall ok, t | InsertPost(s, r, 256, ok, t) ensures !ok && !Covers(t, 5) {
      var lo :| DropsTouching(s, r, lo, t);
      assert lo == 0 && t == [s[1]];
    }
    assert Forgets(s, r, 5);
  }

  lemma WithoutSorted(s: seq<Range>, lo: nat, k: nat)
    requires Sorted(s) && lo <= k <= |s|
    ensures Sorted(Without(s, lo, k))
  {
    var t := Without(s, lo, k);
    assert forall i :: 0 <= i < |t| ==> t[i] == s[if i < lo then i else i + (k - lo)];
  }

  lemma TopIsLast(s: seq<Range>, k: nat)
    requires Sorted(s) && k < |s| && s[k].end == U64_MAX
    ensures k == |s| - 1
  {
    var e, last := s[k], s[|s| - 1];
    assert k != |s| - 1 ==> e.end < last.start;
  }

  lemma BlockedInsert(s: seq<Range>, r: Range, capacity: nat, lo: nat, k: nat)
    requires Sorted(s) && r.Valid() && Merged(s, r, lo, k) && k < |s| && s[k].end == U64_MAX
    ensures InsertPost(s, r, capacity, false, Without(s, lo, k)) && Sorted(Without(s, lo, k))
  {
    TopIsLast(s, k);
    WithoutSorted(s, lo, k);
    WithoutStep(s, lo, k);
    assert BlockedAtTop(s, r);
    hide Sorted;
    if lo < k {
      assert s[k..] == [s[k]];
      assert DropsTouching(s, r, lo, Without(s, lo, k));
    } else {
      assert !LosesEntries(s, r);
    }
  }

  lemma FullInsert(s: seq<Range>, r: Range, capacity: nat, lo: nat)
    requires Sorted(s) && r.Valid() && Window(s, r, lo, lo) && |s| >= capacity
    ensures InsertPost(s, r, capacity, false, s)
  {
  }

  lemma SplicedInsert(s: seq<Range>, r: Range, capacity: nat, lo: nat, hi: nat)
    requires Sorted(s) && r.Valid() && Window(s, r, lo, hi)
    requires Merged(s, r, lo, hi) && (hi < |s| ==> s[hi].end != U64_MAX)
    requires lo + |s| - hi < capacity
    ensures InsertPost(s, r, capacity, true, Without(s, lo, hi)[..lo] + [Grown(s, r, lo, hi)] + Without(s, lo, hi)[lo..])
    ensures Sorted(Without(s, lo, hi)[..lo] + [Grown(s, r, lo, hi)] + Without(s, lo, hi)[lo..])
  {
    assert Without(s, lo, hi)[..lo] == s[..lo] && Without(s, lo, hi)[lo..] == s[hi..];
    assert lo < hi ==> Touches(s[lo], r);
    SplicedWorks(s, r, capacity, lo, hi);
    hide Sorted, Covers, MergedInto, Window, Merged, Grown, Without, InsertWorks;
    SpliceSorted(s, r, lo, hi);
    forall x { SpliceIsUnion(s, r, lo, hi, x); }
    GrownHolds(s, r, lo, hi);
  }

  lemma SplicedWorks(s: seq<Range>, r: Range, capacity: nat, lo: nat, hi: nat)
    requires Sorted(s) && r.Valid() && Window(s, r, lo, hi)
    requires Merged(s, r, lo, hi) && (hi < |s| ==> s[hi].end != U64_MAX)
    requires lo + |s| - hi < capacity
    ensures InsertWorks(s, r, capacity) && !LosesEntries(s, r)
  {
    assert lo < hi ==> Touches(s[lo], r);
  }

  lemma GrownHolds(s: seq<Range>, r: Range, lo: nat, hi: nat)
    requires Sorted(s) && r.Valid() && Window(s, r, lo, hi)
    ensures MergedInto(s, r, lo, hi, s[..lo] + [Grown(s, r, lo, hi)] + s[hi..])
  {
    var g := Grown(s, r, lo, hi);
    var t := s[..lo] + [g] + s[hi..];
    assert t[lo] == g;
    forall i | lo <= i < hi ensures g.Contains(s[i]) {
      assert lo < i ==> s[lo].end < s[i].start;
      assert i < hi - 1 ==> s[i].end < s[hi - 1].start;
      assert s[lo].Valid() && s[i].Valid() && s[hi - 1].Valid();
    }
  }

  lemma GrownHas(s: seq<Range>, r: Range, lo: nat, hi: nat, x: int)
    requires Sorted(s) && r.Valid() && Window(s, r, lo, hi)
    ensures Grown(s, r, lo, hi).Has(x) <==> r.Has(x) || Covers(s[lo..hi], x)
  {
    var w := s[lo..hi];
    if Grown(s, r, lo, hi).Has(x) && !r.Has(x) {
      if x < r.start { assert w[0].Has(x); } else { assert w[|w| - 1].Has(x); }
    }
  }

  lemma SpliceSorted(s: seq<Range>, r: Range, lo: nat, hi: nat)
    requires Sorted(s) && r.Valid() && Window(s, r, lo, hi)
    ensures Sorted(s[..lo] + [Grown(s, r, lo, hi)] + s[hi..])
  {
    var g := Grown(s, r, lo, hi);
    GrownBetween(s, r, lo, hi);
    WithoutSorted(s, lo, |s|);
    WithoutSorted(s, 0, hi);
    assert Without(s, lo, |s|) == s[..lo] && Without(s, 0, hi) == s[hi..];
    hide Sorted, Window, Grown, Without;
    var below, above := s[..lo], s[hi..];
    assert forall i :: 0 <= i < |below| ==> below[i] == s[i];
    assert forall j :: 0 <= j < |above| ==> above[j] == s[hi + j];
    BetweenSorted(below, g, above);
  }

  lemma BetweenSorted(below: seq<Range>, g: Range, above: seq<Range>)
    requires Sorted(below) && g.Valid() && Sorted(above)
    requires forall i :: 0 <= i < |below| ==> below[i].end < g.start
    requires forall j :: 0 <= j < |above| ==> g.end < above[j].start
    ensures Sorted(below + [g] + above)
  {
    var t := below + [g] + above;
    assert forall i :: 0 <= i < |t| ==> t[i] == if i < |below| then below[i] else if i == |below| then g else above[i - |below| - 1];
  }

  /** The grown range lies strictly between the entries before and after its window. */
  lemma GrownBetween(s: seq<Range>, r: Range, lo: nat, hi: nat)
    requires Sorted(s) && r.Valid() && Window(s, r, lo, hi)
    ensures var g := Grown(s, r, lo, hi);
      && g.Valid()
      && (forall i :: 0 <= i < lo ==> s[i].end < g.start)
      && (forall i :: hi <= i < |s| ==> g.end < s[i].start)
  {
  }

  /** Replacing the window by the grown range denotes set union. */
  lemma SpliceIsUnion(s: seq<Range>, r: Range, lo: nat, hi: nat, x: int)
    requires Sorted(s) && r.Valid() && Window(s, r, lo, hi)
    ensures Covers(s[..lo] + [Grown(s, r, lo, hi)] + s[hi..], x) <==> Covers(s, x) || r.Has(x)
  {
    var g := Grown(s, r, lo, hi);
    assert s == s[..lo] + s[lo..hi] + s[hi..];
    GrownHas(s, r, lo, hi, x);
    CoversConcat(s[..lo] + s[lo..hi], s[hi..], x);
    CoversConcat(s[..lo], s[lo..hi], x);
    CoversConcat(s[..lo] + [g], s[hi..], x);
    CoversConcat(s[..lo], [g], x);
    CoversOne(g, x);
  }

  /* ---- Removal ------------------------------------------------------------------ */

  /** What is left of entry `e` after cutting `r` out of it: at most two pieces. */
  function Cut(e: Range, r: Range): seq<Range>
    requires e.Valid() && r.Valid()
  {
    if r.end < e.start || e.end < r.start then [e]
    else
      (if e.start < r.start then [Range(e.start, r.start - 1)] else []) +
      (if r.end < e.end then [Range(r.end + 1, e.end)] else [])
  }

  /** The entries of `s` with `r` cut out of each of them. */
  function CutAll(s: seq<Range>, r: Range): seq<Range>
    requires r.Valid() && forall i :: 0 <= i < |s| ==> s[i].Valid()
  {
    if s == [] then [] else CutAll(s[..|s| - 1], r) + Cut(s[|s| - 1], r)
  }

  /** Some entry reaches beyond `r` on both sides, so that removal has to split it. */
  ghost predicate Splits(s: seq<Range>, r: Range) {
    SplitsSome(s, r, |s|)
  }

  lemma CutCovers(e: Range, r: Range, x: int)
    requires e.Valid() && r.Valid()
    ensures Covers(Cut(e, r), x) <==> e.Has(x) && !r.Has(x)
  {
    var c := Cut(e, r);
    if e.Has(x) && !r.Has(x) {
      if x > r.end && e.start < r.start && !(e.end < r.start) { assert c[1].Has(x); } else { assert c[0].Has(x); }
    }
  }

  lemma {:induction false} CutAllCovers(s: seq<Range>, r: Range, x: int)
    requires r.Valid() && forall i :: 0 <= i < |s| ==> s[i].Valid()
    ensures Covers(CutAll(s, r), x) <==> Covers(s, x) && !r.Has(x)
  {
    if s != [] {
      var p, e := s[..|s| - 1], s[|s| - 1];
      assert s == p + [e];
      CutAllCovers(p, r, x);
      CutCovers(e, r, x);
      CoversConcat(CutAll(p, r), Cut(e, r), x);
      CoversConcat(p, [e], x);
      CoversOne(e, x);
    }
  }

  lemma {:induction false} CutAllSorted(s: seq<Range>, r: Range)
    requires Sorted(s) && r.Valid()
    ensures Sorted(CutAll(s, r))
    ensures forall i :: 0 <= i < |CutAll(s, r)| ==> s != [] && CutAll(s, r)[i].end <= s[|s| - 1].end
  {
    if s != [] {
      var p, e := s[..|s| - 1], s[|s| - 1];
      CutAllSorted(p, r);
      var a, c := CutAll(p, r), Cut(e, r);
      assert forall i :: 0 <= i < |a| ==> a[i].end < e.start;
      assert forall i :: 0 <= i < |c| ==> e.start <= c[i].start <= c[i].end <= e.end;
      ConcatSorted(a, c);
    }
  }

  lemma ConcatSorted(a: seq<Range>, b: seq<Range>)
    requires Sorted(a) && Sorted(b)
    requires forall i, j :: 0 <= i < |a| && 0 <= j < |b| ==> a[i].end < b[j].start
    ensures Sorted(a + b)
  {
  }

  /** An entry that does not meet `r` is left alone. */
  lemma {:induction false} CutAllUntouched(s: seq<Range>, r: Range)
    requires r.Valid() && forall i :: 0 <= i < |s| ==> s[i].Valid() && (r.end < s[i].start || s[i].end < r.start)
    ensures CutAll(s, r) == s
  {
    if s != [] {
      CutAllUntouched(s[..|s| - 1], r);
      assert Cut(s[|s| - 1], r) == [s[|s| - 1]];
    }
  }

  /** What `remove` promises: success is set difference, and the flag says whether anything
      was removed; the only failure is a split in a full set, and it changes nothing. */
  ghost predicate RemovePost(s: seq<Range>, r: Range, capacity: nat, res: Result<bool, Error>, t: seq<Range>) {
    && Sorted(t)
    && (res.Err? <==> |s| >= capacity && Splits(s, r))
    && (res.Err? ==> res.error == RangeSetOverflow && t == s)
    && (res.Ok? ==> forall x :: Covers(t, x) <==> Covers(s, x) && !r.Has(x))
    && (res.Ok? ==> (res.value <==> exists x :: Covers(s, x) && r.Has(x)))
  }

  /** The entries of `s` after the first `k` have been cut. */
  ghost function Partial(s: seq<Range>, r: Range, k: nat): seq<Range>
    requires Sorted(s) && r.Valid() && k <= |s|
  {
    CutAll(s[..k], r) + s[k..]
  }

  /** The number of pieces that the first `k` entries leave. */
  ghost function Pieces(s: seq<Range>, r: Range, k: nat): nat
    requires Sorted(s) && r.Valid() && k <= |s|
  {
    |CutAll(s[..k], r)|
  }

  ghost predicate Meets(e: Range, r: Range) { e.start <= r.end && r.start <= e.end }

  ghost predicate MeetsSome(s: seq<Range>, r: Range, k: nat)
    requires k <= |s|
  {
    exists i :: 0 <= i < k && Meets(s[i], r)
  }

  ghost predicate SplitsSome(s: seq<Range>, r: Range, k: nat)
    requires k <= |s|
  {
    exists i :: 0 <= i < k && s[i].start < r.start && r.end < s[i].end
  }

  lemma RemoveStart(s: seq<Range>, r: Range)
    requires Sorted(s) && r.Valid()
    ensures Partial(s, r, 0) == s && Pieces(s, r, 0) == 0 && !MeetsSome(s, r, 0) && !SplitsSome(s, r, 0)
  {
  }

  lemma RemoveFull(s: seq<Range>, r: Range, capacity: nat)
    requires Sorted(s) && Splits(s, r) && |s| >= capacity
    ensures RemovePost(s, r, capacity, Err(RangeSetOverflow), s)
  {
  }

  /** Each step of the removal scan replaces one entry by its pieces. */
  lemma PartialStep(s: seq<Range>, r: Range, k: nat)
    requires Sorted(s) && r.Valid() && k < |s|
    ensures var p, n := Partial(s, r, k), Pieces(s, r, k);
      && n < |p| && p[n] == s[k] && |p| == n + |s| - k
      && Partial(s, r, k + 1) == p[..n] + Cut(s[k], r) + p[n + 1..]
      && Pieces(s, r, k + 1) == n + |Cut(s[k], r)|
  {
    assert s[..k + 1][..k] == s[..k];
    assert CutAll(s[..k + 1], r) == CutAll(s[..k], r) + Cut(s[k], r);
    assert Partial(s, r, k)[..Pieces(s, r, k)] == CutAll(s[..k], r);
    assert Partial(s, r, k)[Pieces(s, r, k) + 1..] == s[k + 1..];
  }

  lemma SomeStep(s: seq<Range>, r: Range, k: nat)
    requires k < |s|
    ensures MeetsSome(s, r, k + 1) <==> MeetsSome(s, r, k) || Meets(s[k], r)
    ensures SplitsSome(s, r, k + 1) <==> SplitsSome(s, r, k) || (s[k].start < r.start && r.end < s[k].end)
  {
  }

  lemma CutCases(e: Range, r: Range)
    requires e.Valid() && r.Valid()
    ensures !Meets(e, r) ==> Cut(e, r) == [e]
    ensures r.Contains(e) ==> Cut(e, r) == []
    ensures Meets(e, r) && r.start <= e.start && r.end < e.end ==> Cut(e, r) == [Range(r.end + 1, e.end)]
    ensures Meets(e, r) && r.start > e.start && r.end >= e.end ==> Cut(e, r) == [Range(e.start, r.start - 1)]
    ensures r.start > e.start && r.end < e.end ==> Cut(e, r) == [Range(e.start, r.start - 1), Range(r.end + 1, e.end)]
  {
  }

  /** The entry that `r` splits is the only one it meets. */
  lemma SplitIsAlone(s: seq<Range>, r: Range, k: nat)
    requires Sorted(s) && r.Valid() && k < |s| && s[k].start < r.start && r.end < s[k].end
    ensures Splits(s, r) && !MeetsSome(s, r, k) && Partial(s, r, k) == s && Pieces(s, r, k) == k
  {
    hide Cut, CutAll;
    assert forall i :: 0 <= i < k ==> s[i].end < s[k].start;
    CutAllUntouched(s[..k], r);
    assert s[..k] + s[k..] == s;
  }

  lemma MeetsSomeIff(s: seq<Range>, r: Range)
    requires Sorted(s) && r.Valid()
    ensures MeetsSome(s, r, |s|) <==> exists x :: Covers(s, x) && r.Has(x)
  {
    if MeetsSome(s, r, |s|) {
      var i :| 0 <= i < |s| && Meets(s[i], r);
      var x := Max(s[i].start, r.start);
      assert s[i].Has(x) && Covers(s, x) && r.Has(x);
    }
  }

  lemma RemoveDone(s: seq<Range>, r: Range, capacity: nat)
    requires Sorted(s) && r.Valid() && (|s| >= capacity ==> !SplitsSome(s, r, |s|))
    ensures Partial(s, r, |s|) == CutAll(s, r)
    ensures RemovePost(s, r, capacity, Ok(MeetsSome(s, r, |s|)), CutAll(s, r))
  {
    assert s[..|s|] == s && s[|s|..] == [];
    CutAllSorted(s, r);
    forall x { CutAllCovers(s, r, x); }
    MeetsSomeIff(s, r);
  }

  /* ---- Splitting one entry ------------------------------------------------------------------------- */

  /** The piece that `split_entry` leaves below the range: an entry that starts with the range keeps its
      first address. */
  function LowerPiece(e: Range, r: Range): Range {
    if r.start > e.start then Range(e.start, r.start - 1) else Range(e.start, e.start)
  }

  /** The piece above it: there is none if the entry ends with the range, except at the last address, where
      the end of the range saturates and the piece is that address. */
  function UpperPiece(e: Range, r: Range): Result<Range, Error> {
    NewRange(if r.end == U64_MAX then U64_MAX else r.end + 1, e.end)
  }

  /** What `split_entry` does, in every case. When there is no piece above the range, the entries have been
      damaged before the failure is noticed. */
  ghost predicate SplitPost(s: seq<Range>, idx: nat, r: Range, capacity: nat, res: Result<bool, Error>, t: seq<Range>) {
    if idx >= |s| then res == Err(IndexOutOfBounds(idx)) && t == s
    else if |s| >= capacity then res == Err(RangeSetOverflow) && t == s
    else if !s[idx].Contains(r) then res == Ok(false) && t == s
    else
      match UpperPiece(s[idx], r)
      case Ok(upper) => res == Ok(true) && t == s[..idx] + [LowerPiece(s[idx], r), upper] + s[idx + 1..]
      case Err(e) =>
        && res == Err(e)
        && t == s[..idx] + [LowerPiece(s[idx], r)] + if idx + 1 < |s| then [s[idx + 1]] + s[idx + 1..|s| - 1] else []
  }

  lemma SplitRefused(s: seq<Range>, idx: nat, r: Range, capacity: nat)
    ensures idx >= |s| ==> SplitPost(s, idx, r, capacity, Err(IndexOutOfBounds(idx)), s)
    ensures idx < |s| && |s| >= capacity ==> SplitPost(s, idx, r, capacity, Err(RangeSetOverflow), s)
    ensures idx < |s| < capacity && !s[idx].Contains(r) ==> SplitPost(s, idx, r, capacity, Ok(false), s)
  {
  }

  /** The entries after the lower piece was stored and the rest moved. */
  lemma SplitDone(s: seq<Range>, idx: nat, r: Range, capacity: nat, lower: Range, upper: Result<Range, Error>, t: seq<Range>)
    requires idx < |s| < capacity && s[idx].Contains(r) && lower == LowerPiece(s[idx], r) && upper == UpperPiece(s[idx], r)
    requires var u := s[..idx] + [lower] + s[idx + 1..];
      t == if upper.Ok? then u[..idx + 1] + [upper.value] + u[idx + 1..]
           else if idx + 1 < |u| then u[..idx + 2] + u[idx + 1..|u| - 1] else u
    ensures SplitPost(s, idx, r, capacity, if upper.Ok? then Ok(true) else Err(upper.error), t)
  {
    var u := s[..idx] + [lower] + s[idx + 1..];
    assert u[..idx + 1] == s[..idx] + [lower] && u[idx + 1..] == s[idx + 1..];
    if upper.Err? && idx + 1 < |s| {
      assert u[..idx + 2] == s[..idx] + [lower] + [s[idx + 1]] && u[idx + 1..|u| - 1] == s[idx + 1..|s| - 1];
    }
  }

  /** A range strictly inside an entry cuts it in two. */
  lemma SplitInside(s: seq<Range>, idx: nat, r: Range, capacity: nat, res: Result<bool, Error>, t: seq<Range>)
    requires r.Valid() && idx < |s| < capacity && s[idx].start < r.start && r.end < s[idx].end
    requires SplitPost(s, idx, r, capacity, res, t)
    ensures res == Ok(true) && t == s[..idx] + Cut(s[idx], r) + s[idx + 1..] && s[idx].Valid()
  {
  }

  /* ---- Size ------------------------------------------------------------------------------------------ */

  /** Summed lengths of the entries. */
  function SumSizes(s: seq<Range>): int {
    if s == [] then 0 else SumSizes(s[..|s| - 1]) + (s[|s| - 1].end - s[|s| - 1].start + 1)
  }

  /** The addresses that the entries cover. */
  ghost function Addresses(s: seq<Range>): set<int> {
    set x: int | 0 <= x <= U64_MAX && Covers(s, x)
  }

  ghost function Interval(lo: int, hi: int): (r: set<int>)
    ensures forall x :: x in r <==> lo <= x < hi
    decreases hi - lo
  {
    if lo >= hi then {} else Interval(lo, hi - 1) + {hi - 1}
  }

  lemma {:induction false} IntervalSize(lo: int, hi: int)
    requires lo <= hi
    ensures |Interval(lo, hi)| == hi - lo
    decreases hi - lo
  {
    if lo < hi { IntervalSize(lo, hi - 1); }
  }

  lemma UnionSize(a: set<int>, b: set<int>)
    requires a !! b
    ensures |a + b| == |a| + |b|
  {
  }

  /** The last entry adds its own addresses and none that were there. */
  lemma AddressesSplit(front: seq<Range>, last: Range)
    requires Sorted(front + [last])
    ensures Sorted(front) && last.Valid()
    ensures Addresses(front + [last]) == Addresses(front) + Interval(last.start, last.end + 1)
    ensures Addresses(front) !! Interval(last.start, last.end + 1)
  {
    var s := front + [last];
    assert forall i :: 0 <= i < |front| ==> front[i] == s[i];
    assert s[|front|] == last;
    forall x ensures Covers(s, x) <==> Covers(front, x) || last.Has(x) {
      CoversConcat(front, [last], x);
      assert Covers([last], x) <==> [last][0].Has(x);
    }
  }

  /** The entries of a sorted sequence do not overlap, so the sum counts every covered address once. */
  lemma {:induction false} SumCountsAddresses(s: seq<Range>)
    requires Sorted(s)
    ensures SumSizes(s) == |Addresses(s)|
  {
    if s == [] {
      assert Addresses(s) == {};
    } else {
      var front, last := s[..|s| - 1], s[|s| - 1];
      assert s == front + [last];
      AddressesSplit(front, last);
      SumCountsAddresses(front);
      hide Sorted, Addresses, Interval;
      IntervalSize(last.start, last.end + 1);
      UnionSize(Addresses(front), Interval(last.start, last.end + 1));
    }
  }

  lemma {:induction false} SumPrefix(s: seq<Range>, n: nat)
    requires Sorted(s) && n <= |s|
    ensures 0 <= SumSizes(s[..n]) <= SumSizes(s)
    decreases |s| - n
  {
    if n < |s| {
      SumPrefix(s, n + 1);
      assert s[..n + 1][..n] == s[..n];
    } else {
      assert s[..n] == s;
    }
    SumCountsAddresses(s[..n]);
  }

  lemma NothingSummed(s: seq<Range>)
    ensures SumSizes(s[..0]) == 0
  {
  }

  lemma SumStep(s: seq<Range>, i: nat)
    requires Sorted(s) && i < |s|
    ensures SumSizes(s[..i + 1]) == SumSizes(s[..i]) + (s[i].end - s[i].start + 1) <= SumSizes(s) && s[i].Valid()
  {
    SumPrefix(s, i + 1);
    assert s[..i + 1][..i] == s[..i];
  }

  /** There are only 2^64 addresses to cover. */
  lemma SumAtMost(s: seq<Range>)
    requires Sorted(s)
    ensures SumSizes(s) <= U64_MAX + 1
  {
    SumCountsAddresses(s);
    AtMostBound(Addresses(s), U64_MAX + 1);
  }

  lemma AtMostBound(a: set<int>, n: nat)
    requires forall x :: x in a ==> 0 <= x < n
    ensures |a| <= n
  {
    IntervalSize(0, n);
    var all := Interval(0, n);
    assert all == a + (all - a);
  }
}
