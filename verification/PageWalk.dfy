/** Four-level page tables stored as 64-bit words in physical memory
    (shared/page_table/src/lib.rs; the format is section 4.5 of the Intel SDM, Volume 3A).

    The masks and shifts of the source are written as divisions and remainders by powers of two. */
module PageWalks {
  import opened Machine

  /* ---- Entry format ------------------------------------------------------------------ */

  const COUNT_UNIT := 0x10_0000_0000_0000 // bit 52

  predicate Present(e: u64) { e % 2 == 1 }

  predicate Large(e: u64) { (e / 0x80) % 2 == 1 }

  /** Bits 1 and 2: the levels below may be written and used by user code, if their own entries say so. */
  predicate Open(e: u64) { e / 2 % 2 == 1 && e / 4 % 2 == 1 }

  /** Bits 12..51. */
  function TableOf(e: u64): u64 { (e / 0x1000) % 0x100_0000_0000 * 0x1000 }

  /** Bits 52..61, used as a reference count of the table an entry points to. */
  function RefCount(e: u64): int { (e / COUNT_UNIT) % 0x400 }

  /** The reference count plus one, or-ed back in; a count of 1024 would spill into bit 62. */
  function Bump(e: u64): u64 {
    var count := RefCount(e);
    var cleared := e - count * COUNT_UNIT;
    if count < 0x3FF then cleared + (count + 1) * COUNT_UNIT
    else if (e / 0x4000_0000_0000_0000) % 2 == 1 then cleared
    else cleared + 0x4000_0000_0000_0000
  }

  /** The entry written for a new table: user, writable, present. */
  function TableEntry(table: u64): u64
    requires table < COUNT_UNIT
  {
    table + 7
  }

  /** Bits 0..51 do not notice what is added at bit 52 and above. */
  lemma LowBitsKept(e: u64, n: int)
    requires 0 <= e + n * COUNT_UNIT <= U64_MAX
    ensures var f := e + n * COUNT_UNIT; Present(f) == Present(e) && Large(f) == Large(e) && TableOf(f) == TableOf(e) && Open(f) == Open(e)
  {
    var f := e + n * COUNT_UNIT;
    ModAddMultiple(e, n * 0x8_0000_0000_0000, 2);
    ModAddMultiple(e, n * 0x2000_0000_0000, 0x80);
    ModAddMultiple(e / 0x80, n * 0x1000_0000_0000, 2);
    ModAddMultiple(e, n * 0x100_0000_0000, 0x1000);
    ModAddMultiple(e / 0x1000, n, 0x100_0000_0000);
    ModAddMultiple(e / 2, n * 0x4_0000_0000_0000, 2);
    ModAddMultiple(e, n * 0x4_0000_0000_0000, 4);
    ModAddMultiple(e / 4, n * 0x2_0000_0000_0000, 2);
  }

  /** Bumping the count never changes what the entry points to, whatever the count is. */
  lemma BumpKeepsMeaning(e: u64)
    ensures Present(Bump(e)) == Present(e) && Large(Bump(e)) == Large(e) && TableOf(Bump(e)) == TableOf(e) && Open(Bump(e)) == Open(e)
  {
    LowBitsKept(e, if RefCount(e) < 0x3FF then 1 else if (e / 0x4000_0000_0000_0000) % 2 == 1 then -0x3FF else 1);
  }

  /** While the count fits, it goes up by one and bits 62 and 63 stay. */
  lemma BumpCounts(e: u64)
    requires RefCount(e) < 0x3FF
    ensures RefCount(Bump(e)) == RefCount(e) + 1
    ensures Bump(e) / 0x4000_0000_0000_0000 == e / 0x4000_0000_0000_0000
    ensures Bump(e) % COUNT_UNIT == e % COUNT_UNIT
  {
    assert Bump(e) == e + COUNT_UNIT;
    ModAddMultiple(e, 1, COUNT_UNIT);
    HighBits(e);
    HighBits(e + COUNT_UNIT);
  }

  /** A full count wraps to zero and sets bit 62; bit 63 and the bits below the count stay. */
  lemma BumpSpills(e: u64)
    requires RefCount(e) == 0x3FF
    ensures RefCount(Bump(e)) == 0 && Bump(e) / 0x4000_0000_0000_0000 % 2 == 1
    ensures Bump(e) / 0x8000_0000_0000_0000 == e / 0x8000_0000_0000_0000 && Bump(e) % COUNT_UNIT == e % COUNT_UNIT
  {
    var top, low := e / 0x4000_0000_0000_0000, e % COUNT_UNIT;
    HighBits(e);
    assert e == top * 0x4000_0000_0000_0000 + 0x3FF * COUNT_UNIT + low;
    var up := if top % 2 == 1 then top else top + 1;
    assert Bump(e) == up * 0x4000_0000_0000_0000 + low;
    DivModUnique(Bump(e), up * 0x400, low, COUNT_UNIT);
    DivModUnique(Bump(e), up, low, 0x4000_0000_0000_0000);
    HalfOf(Bump(e));
    HalfOf(e);
  }

  lemma HalfOf(x: nat)
    ensures x / 0x8000_0000_0000_0000 == x / 0x4000_0000_0000_0000 / 2
  {
  }

  lemma HighBits(x: nat)
    ensures x / 0x4000_0000_0000_0000 == (x / COUNT_UNIT) / 0x400
  {
  }

  lemma TableEntryFields(table: u64)
    requires table % 0x1000 == 0 && table < COUNT_UNIT
    ensures Present(TableEntry(table)) && !Large(TableEntry(table)) && TableOf(TableEntry(table)) == table
    ensures RefCount(TableEntry(table)) == 0 && Open(TableEntry(table))
  {
    var a := table / 0x1000;
    DivModUnique(table + 7, 32 * a, 7, 0x80);
    DivModUnique(table + 7, a, 7, 0x1000);
    DivModUnique(table + 7, 0, table + 7, COUNT_UNIT);
    ModSmall(a, 0x100_0000_0000);
    DivModUnique(table + 7, 0x800 * a + 3, 1, 2);
    DivModUnique(0x800 * a + 3, 0x400 * a + 1, 1, 2);
    DivModUnique(table + 7, 0x400 * a + 1, 3, 4);
    DivModUnique(0x400 * a + 1, 0x200 * a, 1, 2);
  }

  /* ---- Addresses --------------------------------------------------------------------- */

  /** Sign extension of bit 47. */
  function Canonicalize(a: u64): u64 {
    var low := a % 0x1_0000_0000_0000;
    if low >= 0x8000_0000_0000 then low + 0xFFFF_0000_0000_0000 else low
  }

  predicate Canonical(a: u64) { Canonicalize(a) == a }

  /** Bytes covered by one entry at the given depth. */
  function Span(depth: nat): (s: int)
    requires depth < 4
    ensures s > 0
  {
    if depth == 0 then 0x80_0000_0000 else if depth == 1 then 0x4000_0000 else if depth == 2 then 0x20_0000 else 0x1000
  }

  function Index(v: u64, depth: nat): (i: nat)
    requires depth < 4
    ensures i < 512
  {
    (v / Span(depth)) % 512
  }

  datatype PageType = Page4K | Page2M | Page1G {
    /** Number of entries from the root to the page. */
    function Depth(): nat { if Page4K? then 4 else if Page2M? then 3 else 2 }

    function Size(): int { Span(Depth() - 1) }
  }

  lemma IndexStep(v: u64, depth: nat)
    requires 1 <= depth < 4
    ensures v / Span(depth) == v / Span(depth - 1) * 512 + Index(v, depth)
  {
    if depth == 1 {
      assert v / 0x80_0000_0000 == (v / 0x4000_0000) / 512;
    } else if depth == 2 {
      assert v / 0x4000_0000 == (v / 0x20_0000) / 512;
    } else {
      assert v / 0x20_0000 == (v / 0x1000) / 512;
    }
  }

  lemma TopIndex(v: u64)
    requires Canonical(v)
    ensures v / Span(0) == if Index(v, 0) < 256 then Index(v, 0) else 0x1FF_FE00 + Index(v, 0)
  {
    var q := v / 0x80_0000_0000;
    assert q < 256 || 0x1FF_FF00 <= q < 0x200_0000;
  }

  /** Two canonical addresses agree on the indices of all levels up to `depth` exactly when they
      lie in the same block of `Span(depth)` bytes. */
  lemma SameIndices(v: u64, w: u64, depth: nat)
    requires Canonical(v) && Canonical(w) && depth < 4
    ensures (forall k :: 0 <= k <= depth ==> Index(v, k) == Index(w, k)) <==> v / Span(depth) == w / Span(depth)
  {
    hide Canonical;
    if depth == 0 {
      TopIndex(v);
      TopIndex(w);
    } else {
      SameIndices(v, w, depth - 1);
      IndexStep(v, depth);
      IndexStep(w, depth);
    }
  }
}
