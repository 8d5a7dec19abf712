/** The free list allocator that keeps its bookkeeping inside the free blocks (kernel/src/mm.rs).

    Memory is a function from addresses of 64-bit words to their values. Blocks of at most 16 bytes
    are chained through their first word; larger blocks are stacks of addresses with a header. */
module FreeLists {
  import opened Machine

  type Words = int -> u64

  /** Size of a `FreeListNode`: the `next` and `free_slots` words. */
  const NODE := 16

  /** Number of address slots in a block. */
  function Slots(size: int): int { size / 8 - NODE / 8 }

  ghost predicate InBlock(b: int, size: int, a: int) { b <= a < b + size }

  ghost predicate InSome(blocks: seq<int>, size: int, a: int) {
    exists i :: 0 <= i < |blocks| && InBlock(blocks[i], size, a)
  }

  ghost predicate BlocksDisjoint(blocks: seq<int>, size: int) {
    forall i, j :: 0 <= i < j < |blocks| ==> blocks[i] + size <= blocks[j] || blocks[j] + size <= blocks[i]
  }

  ghost predicate DisjointFrom(x: int, blocks: seq<int>, size: int) {
    forall i :: 0 <= i < |blocks| ==> blocks[i] + size <= x || x + size <= blocks[i]
  }

  /** Small blocks: `head` starts a chain through exactly the blocks of the stack, top first. */
  ghost predicate Chained(w: Words, head: int, blocks: seq<int>)
    decreases |blocks|
  {
    if blocks == [] then head == 0
    else head == blocks[0] && head != 0 && Chained(w, w(head), blocks[1..])
  }

  /** The address in slot `j` of the node at `head`. */
  ghost function SlotAt(w: Words, head: int, j: int): u64 { w(head + NODE + 8 * j) }

  /** Number of addresses stored in the node at `head`. */
  ghost function Stored(w: Words, head: int, size: int): int { Slots(size) - w(head + 8) }

  /** Large blocks: the node at `head` stores the top of the stack in its slots, then comes the node
      itself, then whatever the next node represents. */
  ghost predicate Stacked(w: Words, head: int, size: int, blocks: seq<int>)
    decreases |blocks|
  {
    if blocks == [] then head == 0
    else
      var k := Stored(w, head, size);
      && head != 0
      && 0 <= k <= Slots(size) && k < |blocks|
      && (forall j :: Slots(size) - k <= j < Slots(size) ==> SlotAt(w, head, j) == blocks[j - (Slots(size) - k)])
      && blocks[k] == head
      && Stacked(w, w(head), size, blocks[k + 1..])
  }

  /** The words of memory represent the stack `blocks`, top first. */
  ghost predicate Represents(w: Words, head: int, size: int, blocks: seq<int>) {
    if size <= NODE then Chained(w, head, blocks) else Stacked(w, head, size, blocks)
  }

  /** Only words inside blocks of the list may differ. */
  ghost predicate TouchesOnly(w: Words, w': Words, blocks: seq<int>, size: int) {
    forall a :: !InSome(blocks, size, a) ==> w'(a) == w(a)
  }

  /** The representation depends on nothing outside the list's own blocks. */
  lemma {:induction false} ChainedFrame(w: Words, w': Words, head: int, size: int, blocks: seq<int>)
    requires Chained(w, head, blocks) && size >= 8
    requires forall i :: 0 <= i < |blocks| ==> w'(blocks[i]) == w(blocks[i])
    ensures Chained(w', head, blocks)
    decreases |blocks|
  {
    if blocks != [] {
      assert w'(blocks[0]) == w(blocks[0]);
      ChainedFrame(w, w', w(head), size, blocks[1..]);
    }
  }

  ghost predicate SameInside(w: Words, w': Words, blocks: seq<int>, size: int) {
    forall i, a :: 0 <= i < |blocks| && InBlock(blocks[i], size, a) ==> w'(a) == w(a)
  }

  lemma {:induction false} StackedFrame(w: Words, w': Words, head: int, size: int, blocks: seq<int>)
    requires size >= NODE && size % 8 == 0 && Stacked(w, head, size, blocks) && SameInside(w, w', blocks, size)
    ensures Stacked(w', head, size, blocks)
    decreases |blocks|
  {
    if blocks != [] {
      var k := Stored(w, head, size);
      assert forall a :: InBlock(blocks[k], size, a) ==> w'(a) == w(a);
      assert InBlock(head, size, head) && InBlock(head, size, head + 8);
      forall j | Slots(size) - k <= j < Slots(size) ensures SlotAt(w', head, j) == SlotAt(w, head, j) {
        assert InBlock(head, size, head + NODE + 8 * j);
      }
      var rest := blocks[k + 1..];
      forall i, a | 0 <= i < |rest| && InBlock(rest[i], size, a) ensures w'(a) == w(a) {
        assert rest[i] == blocks[k + 1 + i];
      }
      StackedFrame(w, w', w(head), size, rest);
    }
  }

  lemma RepresentsFrame(w: Words, w': Words, head: int, size: int, blocks: seq<int>)
    requires size >= 8 && size % 8 == 0 && Represents(w, head, size, blocks) && SameInside(w, w', blocks, size)
    ensures Represents(w', head, size, blocks)
  {
    if size <= NODE {
      assert forall i :: 0 <= i < |blocks| ==> InBlock(blocks[i], size, blocks[i]);
      ChainedFrame(w, w', head, size, blocks);
    } else {
      StackedFrame(w, w', head, size, blocks);
    }
  }

  /* ---- The stored operations on values ------------------------------------------------------ */

  function Written(w: Words, at: int, v: u64): Words {
    (a: int) => if a == at then v else w(a)
  }

  lemma ChainPush(w: Words, head: int, size: int, blocks: seq<int>, x: u64, h: u64)
    requires Chained(w, head, blocks) && head == h && x != 0 && 8 <= size && DisjointFrom(x, blocks, size)
    ensures Chained(Written(w, x, h), x, [x] + blocks)
  {
    ChainedFrame(w, Written(w, x, h), head, size, blocks);
    assert ([x] + blocks)[1..] == blocks;
  }

  /** A full or missing head node: the pushed block becomes a new, empty node on top. */
  lemma NodePush(w: Words, head: int, size: int, blocks: seq<int>, x: u64, h: u64)
    requires Stacked(w, head, size, blocks) && head == h && x != 0 && size > NODE && size % 8 == 0 && size <= U64_MAX
    requires DisjointFrom(x, blocks, size)
    ensures Stacked(Written(Written(w, x + 8, Slots(size)), x, h), x, size, [x] + blocks)
  {
    var w' := Written(Written(w, x + 8, Slots(size)), x, h);
    assert ([x] + blocks)[1..] == blocks;
    StackedFrame(w, w', head, size, blocks);
  }

  /** The slot index that a push uses, and where that slot lies. */
  lemma SlotInside(size: int, slot: int)
    requires size > NODE && size % 8 == 0 && 0 <= slot < Slots(size)
    ensures NODE + 8 * slot + 8 <= size
  {
  }

  /** A change confined to the head node leaves the rest of the stack represented. */
  lemma RestFrame(w: Words, w': Words, head: int, next: int, size: int, blocks: seq<int>, k: nat)
    requires size > NODE && size % 8 == 0 && k < |blocks| && blocks[k] == head && BlocksDisjoint(blocks, size)
    requires Stacked(w, next, size, blocks[k + 1..])
    requires forall a :: !InBlock(head, size, a) ==> w'(a) == w(a)
    ensures Stacked(w', next, size, blocks[k + 1..])
  {
    hide Stacked;
    var rest := blocks[k + 1..];
    forall i, a | 0 <= i < |rest| && InBlock(rest[i], size, a) ensures w'(a) == w(a) {
      assert rest[i] == blocks[k + 1 + i];
      assert blocks[k] + size <= blocks[k + 1 + i] || blocks[k + 1 + i] + size <= blocks[k];
    }
    StackedFrame(w, w', next, size, rest);
  }

  /** The representation of a stack that is not empty, unfolded once. */
  lemma StackedUnfolds(w: Words, head: int, size: int, blocks: seq<int>)
    requires blocks != []
    ensures var k := Stored(w, head, size);
      Stacked(w, head, size, blocks) <==>
        && head != 0 && 0 <= k <= Slots(size) && k < |blocks| && blocks[k] == head
        && (forall j :: Slots(size) - k <= j < Slots(size) ==> SlotAt(w, head, j) == blocks[j - (Slots(size) - k)])
        && Stacked(w, w(head), size, blocks[k + 1..])
  {
    hide SlotAt, Stored, Slots;
  }

  /** Room in the head node: its next lower slot takes the address. */
  lemma SlotPush(w: Words, head: int, size: int, blocks: seq<int>, x: u64, free: u64)
    requires size > NODE && size % 8 == 0 && blocks != [] && Stacked(w, head, size, blocks) && BlocksDisjoint(blocks, size)
    requires free == w(head + 8) > 0
    ensures free <= Slots(size)
    ensures Stacked(Written(Written(w, head + 8, free - 1), head + NODE + 8 * (free - 1), x), head, size, [x] + blocks)
  {
    hide Stacked, SlotAt, BlocksDisjoint;
    StackedUnfolds(w, head, size, blocks);
    var k := Stored(w, head, size);
    var w' := Written(Written(w, head + 8, free - 1), head + NODE + 8 * (free - 1), x);
    SlotInside(size, free - 1);
    RestFrame(w, w', head, w(head), size, blocks, k);
    assert ([x] + blocks)[k + 2..] == blocks[k + 1..] && w'(head) == w(head);
    NodeGrown(w, head, size, blocks, x, free);
    StackedUnfolds(w', head, size, [x] + blocks);
  }

  lemma NodeGrown(w: Words, head: int, size: int, blocks: seq<int>, x: u64, free: u64)
    requires blocks != [] && Stacked(w, head, size, blocks) && free == w(head + 8) > 0
    ensures var w' := Written(Written(w, head + 8, free - 1), head + NODE + 8 * (free - 1), x);
      var k := Stored(w, head, size);
      && Stored(w', head, size) == k + 1
      && forall j :: Slots(size) - (k + 1) <= j < Slots(size) ==> SlotAt(w', head, j) == ([x] + blocks)[j - (Slots(size) - (k + 1))]
  {
    var w' := Written(Written(w, head + 8, free - 1), head + NODE + 8 * (free - 1), x);
    var k := Stored(w, head, size);
    forall j | Slots(size) - (k + 1) <= j < Slots(size)
      ensures SlotAt(w', head, j) == ([x] + blocks)[j - (Slots(size) - (k + 1))]
    {
      if j >= free { assert SlotAt(w', head, j) == SlotAt(w, head, j); }
    }
  }

  /** A stored address is on top: the slot is given up. */
  lemma SlotPop(w: Words, head: int, size: int, blocks: seq<int>, free: u64)
    requires size > NODE && size % 8 == 0 && blocks != [] && Stacked(w, head, size, blocks) && BlocksDisjoint(blocks, size)
    requires free == w(head + 8) < Slots(size) <= U64_MAX
    ensures SlotAt(w, head, free) == blocks[0]
    ensures Stacked(Written(w, head + 8, free + 1), head, size, blocks[1..])
  {
    hide Stacked, BlocksDisjoint;
    StackedUnfolds(w, head, size, blocks);
    var k := Stored(w, head, size);
    var w' := Written(w, head + 8, free + 1);
    RestFrame(w, w', head, w(head), size, blocks, k);
    assert blocks[1..][k..] == blocks[k + 1..];
    assert Stored(w', head, size) == k - 1;
    forall j | Slots(size) - (k - 1) <= j < Slots(size)
      ensures SlotAt(w', head, j) == blocks[1..][j - (Slots(size) - (k - 1))]
    {
      assert SlotAt(w', head, j) == SlotAt(w, head, j);
    }
    StackedUnfolds(w', head, size, blocks[1..]);
  }

  /* ---- The allocator -------------------------------------------------------------------------- */

  class Memory {
    var words: Words

    constructor (words: Words)
      ensures this.words == words
    {
      this.words := words;
    }
  }

  /** A free list over blocks of `size` bytes. Its value is the stack `blocks`, top first. */
  class FreeList {
    const mem: Memory
    const size: u64
    var head: u64
    ghost var blocks: seq<int>

    ghost predicate Valid()
      reads this, mem
    {
      && size >= 8 && size % 8 == 0
      && Represents(mem.words, head, size, blocks)
      && BlocksDisjoint(blocks, size)
    }

    /** Block sizes are powers of two and at least as wide as a pointer. */
    constructor (mem: Memory, size: u64)
      requires IsPow2(size) && size >= 8
      ensures Valid() && this.mem == mem && this.size == size && blocks == []
    {
      this.mem, this.size, head, blocks := mem, size, 0, [];
      new;
      Pow2MultipleOf8(size);
    }

    /** Puts a block on top of the stack, writing only inside that block and the head node. */
    method Push(x: u64)
      requires Valid() && x != 0 && DisjointFrom(x, blocks, size)
      modifies this, mem
      ensures Valid() && blocks == [x] + old(blocks)
      ensures TouchesOnly(old(mem.words), mem.words, blocks, size)
    {
      hide Represents, Chained, Stacked, TouchesOnly, InSome, BlocksDisjoint, DisjointFrom, Written, Slots;
      ConsDisjoint(x, blocks, size);
      var w, h := mem.words, head;
      ghost var owned := [x] + blocks;
      RepresentsCases(w, h, size, blocks);
      SlotsBound(size);
      if size <= NODE {
        ChainPush(w, h, size, blocks, x, h);
        mem.words, head := Written(w, x, h), x;
        WrittenInside(w, owned, size, 0, x, h);
      } else if h == 0 || w(h + 8) == 0 {
        NodePush(w, h, size, blocks, x, h);
        var w1 := Written(w, x + 8, Slots(size));
        mem.words, head := Written(w1, x, h), x;
        WrittenInside(w, owned, size, 0, x + 8, Slots(size));
        WrittenInside(w1, owned, size, 0, x, h);
        TouchesTrans(w, w1, mem.words, owned, size);
      } else {
        var free := w(h + 8);
        ghost var k := HeadIndex(w, h, size, blocks);
        SlotPush(w, h, size, blocks, x, free);
        SlotInside(size, free - 1);
        var w1 := Written(w, h + 8, free - 1);
        mem.words := Written(w1, h + NODE + 8 * (free - 1), x);
        WrittenInside(w, owned, size, k + 1, h + 8, free - 1);
        WrittenInside(w1, owned, size, k + 1, h + NODE + 8 * (free - 1), x);
        TouchesTrans(w, w1, mem.words, owned, size);
      }
      blocks := owned;
      RepresentsCases(mem.words, head, size, blocks);
    }

    /** The second half of `pop`, behind the refill: takes the top of a stack that is not empty. */
    method TakeTop() returns (x: u64)
      requires Valid() && blocks != []
      modifies this, mem
      ensures Valid() && x == old(blocks)[0] && blocks == old(blocks)[1..]
      ensures TouchesOnly(old(mem.words), mem.words, old(blocks), size)
    {
      hide Represents, Chained, Stacked, TouchesOnly, InSome, BlocksDisjoint, Written, Slots;
      TailDisjoint(blocks, size);
      var w, h := mem.words, head;
      ghost var owned := blocks;
      RepresentsCases(w, h, size, blocks);
      TouchesNothing(w, owned, size);
      SlotsBound(size);
      if size <= NODE {
        ChainTop(w, h, blocks);
        x, head := h, w(h);
      } else {
        var free := w(h + 8);
        ghost var k := HeadIndex(w, h, size, blocks);
        if free < Slots(size) {
          SlotPop(w, h, size, blocks, free);
          x := w(h + NODE + 8 * free);
          mem.words := Written(w, h + 8, free + 1);
          WrittenInside(w, owned, size, k, h + 8, free + 1);
        } else {
          NodeTop(w, h, size, blocks, free);
          x, head := h, w(h);
        }
      }
      blocks := blocks[1..];
      RepresentsCases(mem.words, head, size, blocks);
    }

    /** `allocate_page_for_blocks`: cuts a page into blocks and pushes them, lowest address first. */
    method AddPage(page: u64)
      requires Valid() && size <= 0x1000 && 0x1000 % size == 0 && page != 0 && page + 0x1000 <= U64_MAX
      requires forall i :: 0 <= i < |blocks| ==> blocks[i] + size <= page || page + 0x1000 <= blocks[i]
      modifies this, mem
      ensures Valid() && blocks == PageBlocks(page, size, 0x1000 / size) + old(blocks)
      ensures forall a :: !InBlock(page, 0x1000, a) && !InSome(old(blocks), size, a) ==> mem.words(a) == old(mem.words)(a)
    {
      hide Represents, PageBlocks, InSome, InBlock, DisjointFrom, BlocksDisjoint;
      ghost var n := 0;
      ghost var s := blocks;
      var offset := 0;
      PageBlocksStep(page, size, 0, s);
      while offset < 0x1000
        invariant 0 <= n && offset == n * size <= 0x1000 && Valid()
        invariant blocks == PageBlocks(page, size, n) + s
        invariant forall a :: !InBlock(page, 0x1000, a) && !InSome(s, size, a) ==> mem.words(a) == old(mem.words)(a)
      {
        PageStep(n, size);
        PageBlocksStep(page, size, n, s);
        NewBlockDisjoint(page, size, n, s);
        Push(page + offset);
        forall a | !InBlock(page, 0x1000, a) && !InSome(s, size, a) ensures !InSome(blocks, size, a) {
          OutsidePage(page, size, n + 1, s, a);
        }
        offset, n := offset + size, n + 1;
      }
      DivModUnique(0x1000, n, 0, size);
    }
  }

  /** The first `n` blocks of a page, last one on top. */
  function PageBlocks(page: int, size: int, n: nat): seq<int> {
    seq(n, i => page + (n - 1 - i) * size)
  }

  lemma PageStep(n: int, size: int)
    requires 0 < size && 0x1000 % size == 0 && n * size < 0x1000
    ensures (n + 1) * size <= 0x1000 && n * size + size == (n + 1) * size
  {
    var m := 0x1000 / size;
    assert 0x1000 == m * size;
    if n >= m { MulMonotone(m, n, size); }
    MulMonotone(n + 1, m, size);
  }

  lemma PageBlocksStep(page: int, size: int, n: nat, s: seq<int>)
    ensures PageBlocks(page, size, 0) + s == s
    ensures [page + n * size] + (PageBlocks(page, size, n) + s) == PageBlocks(page, size, n + 1) + s
  {
    var a, b := PageBlocks(page, size, n), PageBlocks(page, size, n + 1);
    assert b == [page + n * size] + a;
  }

  /** Block `i` of a page ends where block `i + 1` starts. */
  lemma BlockInPage(page: int, size: int, n: nat, i: nat)
    requires 0 < size && i < n
    ensures var b := PageBlocks(page, size, n)[i]; page <= b && b + size <= page + n * size
  {
    MulMonotone(0, n - 1 - i, size);
    MulMonotone(n - i, n, size);
    assert (n - i) * size == (n - 1 - i) * size + size;
  }

  lemma NewBlockDisjoint(page: int, size: int, n: nat, s: seq<int>)
    requires 0 < size && (n + 1) * size <= 0x1000 && n * size + size == (n + 1) * size && 0 <= n * size
    requires forall i :: 0 <= i < |s| ==> s[i] + size <= page || page + 0x1000 <= s[i]
    ensures DisjointFrom(page + n * size, PageBlocks(page, size, n) + s, size)
  {
    forall i | 0 <= i < n ensures PageBlocks(page, size, n)[i] + size <= page + n * size { BlockInPage(page, size, n, i); }
  }

  lemma OutsidePage(page: int, size: int, n: nat, s: seq<int>, a: int)
    requires 0 < size && n * size <= 0x1000 && !InBlock(page, 0x1000, a) && !InSome(s, size, a)
    ensures !InSome(PageBlocks(page, size, n) + s, size, a)
  {
    forall i | 0 <= i < n ensures !InBlock(PageBlocks(page, size, n)[i], size, a) { BlockInPage(page, size, n, i); }
    assert forall i :: 0 <= i < |s| ==> !InBlock(s[i], size, a);
  }

  lemma Pow2MultipleOf8(x: int)
    requires IsPow2(x) && x >= 8
    ensures x % 8 == 0
  {
    var k: nat :| k < 64 && x == Pow2(k);
    hide IsPow2, Pow2;
    Pow2Values();
    assert k != 0 && k != 1 && k != 2;
    Pow2Add(k - 3, 3);
    DivModUnique(x, Pow2(k - 3), 0, 8);
  }

  lemma ConsDisjoint(x: int, blocks: seq<int>, size: int)
    requires BlocksDisjoint(blocks, size) && DisjointFrom(x, blocks, size)
    ensures BlocksDisjoint([x] + blocks, size)
  {
  }

  lemma TailDisjoint(blocks: seq<int>, size: int)
    requires BlocksDisjoint(blocks, size) && blocks != []
    ensures BlocksDisjoint(blocks[1..], size)
  {
  }

  /** Header and slots fill the block exactly. */
  lemma SlotsFillBlock(size: int)
    requires size % 8 == 0
    ensures NODE + 8 * Slots(size) == size
  {
  }

  lemma SlotsBound(size: u64)
    ensures Slots(size) <= U64_MAX && (size > NODE && size % 8 == 0 ==> 0 < Slots(size))
  {
  }

  lemma TouchesNothing(w: Words, blocks: seq<int>, size: int)
    ensures TouchesOnly(w, w, blocks, size)
  {
  }

  lemma TouchesTrans(w: Words, w1: Words, w2: Words, blocks: seq<int>, size: int)
    requires TouchesOnly(w, w1, blocks, size) && TouchesOnly(w1, w2, blocks, size)
    ensures TouchesOnly(w, w2, blocks, size)
  {
    hide InSome;
  }

  lemma ChainTop(w: Words, head: int, blocks: seq<int>)
    requires Chained(w, head, blocks) && blocks != []
    ensures head == blocks[0] && Chained(w, w(head), blocks[1..])
  {
  }

  /** A head node without stored addresses is itself the top. */
  lemma NodeTop(w: Words, head: int, size: int, blocks: seq<int>, free: u64)
    requires Stacked(w, head, size, blocks) && blocks != [] && free == w(head + 8) >= Slots(size)
    ensures head == blocks[0] && Stacked(w, w(head), size, blocks[1..])
  {
  }

  lemma RepresentsCases(w: Words, head: int, size: int, blocks: seq<int>)
    ensures size <= NODE ==> (Represents(w, head, size, blocks) <==> Chained(w, head, blocks))
    ensures size > NODE ==> (Represents(w, head, size, blocks) <==> Stacked(w, head, size, blocks))
    ensures Represents(w, head, size, blocks) ==> (head == 0 <==> blocks == [])
  {
  }

  ghost function HeadIndex(w: Words, head: int, size: int, blocks: seq<int>): (k: nat)
    requires size > NODE && Stacked(w, head, size, blocks) && blocks != []
    ensures k < |blocks| && blocks[k] == head
  {
    Stored(w, head, size)
  }

  /** A write inside a block of the list. */
  lemma WrittenInside(w: Words, blocks: seq<int>, size: int, i: nat, at: int, v: u64)
    requires i < |blocks| && InBlock(blocks[i], size, at)
    ensures TouchesOnly(w, Written(w, at, v), blocks, size)
  {
    assert InSome(blocks, size, at);
  }
}
