/** The Internet checksum (`Packet::checksum`, kernel/src/net/packet.rs; RFC 1071). */
module Checksum {
  import opened Machine

  /** Sum of the big-endian 16-bit words; an odd last byte counts as the high half of a word. */
  function WordSum(b: seq<byte>): nat {
    if |b| == 0 then 0
    else if |b| == 1 then b[0] * 0x100
    else b[0] * 0x100 + b[1] + WordSum(b[2..])
  }

  /** The two carry folds of the source. */
  function Fold(sum: u32): u16 {
    var once := sum % 0x1_0000 + sum / 0x1_0000;
    once % 0x1_0000 + once / 0x1_0000
  }

  /** Ones-complement sum: the residue modulo 0xFFFF, where only an empty sum is zero. */
  function Ones(sum: nat): u16 {
    if sum == 0 then 0 else (sum - 1) % 0xFFFF + 1
  }

  lemma FoldIsOnes(sum: u32)
    ensures Fold(sum) == Ones(sum)
  {
    if sum > 0 {
      var hi, lo := sum / 0x1_0000, sum % 0x1_0000;
      var once := hi + lo;
      assert sum == hi * 0xFFFF + once;
      if once < 0x1_0000 {
        DivModUnique(sum - 1, hi, once - 1, 0xFFFF);
      } else {
        DivModUnique(sum - 1, hi + 1, once - 0xFFFF - 1, 0xFFFF);
      }
    }
  }

  /** Two sums with the same residue, both empty or both not, have the same ones-complement sum. */
  lemma OnesCongruent(a: nat, b: nat, k: int)
    requires a == b + k * 0xFFFF && (a == 0 <==> b == 0)
    ensures Ones(a) == Ones(b)
  {
    if a > 0 { ModAddMultiple(b - 1, k, 0xFFFF); }
  }

  lemma OnesResidue(a: nat) returns (k: int)
    ensures a == Ones(a) + k * 0xFFFF && (Ones(a) == 0 <==> a == 0)
  {
    k := if a == 0 then 0 else (a - 1) / 0xFFFF;
  }

  /** Folding parts before adding them does not change the folded total. */
  lemma OnesOfParts(a: nat, b: nat, c: nat)
    ensures Ones(Ones(a) + Ones(b) + Ones(c)) == Ones(a + b + c)
  {
    var i := OnesResidue(a);
    var j := OnesResidue(b);
    var k := OnesResidue(c);
    OnesCongruent(a + b + c, Ones(a) + Ones(b) + Ones(c), i + j + k);
  }

  lemma {:induction false} WordSumBound(b: seq<byte>)
    ensures WordSum(b) <= (|b| + 1) / 2 * 0xFFFF
  {
    if |b| >= 2 { WordSumBound(b[2..]); }
  }

  /** Sums of parts add up when every part but the last has even length. */
  lemma {:induction false} WordSumConcat(a: seq<byte>, b: seq<byte>)
    requires |a| % 2 == 0
    ensures WordSum(a + b) == WordSum(a) + WordSum(b)
  {
    if a == [] {
      assert a + b == b;
    } else {
      assert (a + b)[2..] == a[2..] + b;
      WordSumConcat(a[2..], b);
    }
  }

  /** One more byte counts as the high half of a new word, or as the low half of the last one. A zero byte at an odd
      end therefore changes nothing. */
  lemma {:induction false} WordSumAppend(b: seq<byte>, x: byte)
    ensures var v: int := x; WordSum(b + [x]) == WordSum(b) + if |b| % 2 == 0 then v * 0x100 else v
  {
    if |b| >= 2 {
      assert (b + [x])[2..] == b[2..] + [x];
      WordSumAppend(b[2..], x);
    } else if |b| == 1 {
      assert (b + [x])[2..] == [];
    }
  }

  /** The accumulator loop over pairs of bytes, with the wrap-around of a 32-bit accumulator. */
  method Compute(bytes: seq<byte>) returns (sum: u16)
    ensures sum == Fold(WordSum(bytes) % 0x1_0000_0000)
    ensures |bytes| <= 0x2_0000 ==> sum == Ones(WordSum(bytes))
  {
    hide Fold, Ones, WordSum;
    var acc: int := 0;
    var i := 0;
    assert bytes[0..] == bytes;
    while i + 1 < |bytes|
      invariant 0 <= i <= |bytes| && 0 <= acc < 0x1_0000_0000
      invariant (acc + WordSum(bytes[i..])) % 0x1_0000_0000 == WordSum(bytes) % 0x1_0000_0000
    {
      WordSumStep(bytes, i);
      var high: int, low: int := bytes[i], bytes[i + 1];
      WrapAdd(acc, high * 0x100 + low, WordSum(bytes[i + 2..]));
      acc := (acc + (high * 0x100 + low)) % 0x1_0000_0000;
      i := i + 2;
    }
    WordSumEnd(bytes, i);
    if i < |bytes| {
      var last: int := bytes[i];
      WrapAdd(acc, last * 0x100, 0);
      acc := (acc + last * 0x100) % 0x1_0000_0000;
    }
    sum := Fold(acc);
    ModSmall(acc, 0x1_0000_0000);
    WordSumBound(bytes);
    FoldIsOnes(acc);
  }

  lemma WordSumStep(bytes: seq<byte>, i: nat)
    requires i + 1 < |bytes|
    ensures WordSum(bytes[i..]) == bytes[i] * 0x100 + bytes[i + 1] + WordSum(bytes[i + 2..])
  {
    assert bytes[i..][2..] == bytes[i + 2..];
  }

  lemma WordSumEnd(bytes: seq<byte>, i: nat)
    requires |bytes| <= i + 1 && i <= |bytes|
    ensures i == |bytes| ==> WordSum(bytes[i..]) == 0
    ensures i < |bytes| ==> var last: int := bytes[i]; WordSum(bytes[i..]) == last * 0x100
  {
  }

  lemma WrapAdd(acc: int, word: int, rest: int)
    ensures ((acc + word) % 0x1_0000_0000 + rest) % 0x1_0000_0000 == (acc + (word + rest)) % 0x1_0000_0000
  {
    var q := (acc + word) / 0x1_0000_0000;
    ModAddMultiple((acc + word) % 0x1_0000_0000 + rest, q, 0x1_0000_0000);
  }

  /* ---- The UDP checksum ---------------------------------------------------------------------- */

  /** The checksum that `write_crc` stores for the given sum of everything else. */
  function Complement(sum: u16): u16 {
    if 0xFFFF - sum == 0 then 0xFFFF else 0xFFFF - sum
  }

  /** A stored field makes the whole sum 0xFFFF exactly when it is the complement (or, in an otherwise
      non-empty packet whose sum is already 0xFFFF, zero). */
  lemma ComplementIsTheChecksum(rest: nat, stored: u16)
    ensures Ones(rest + Complement(Ones(rest))) == 0xFFFF && Complement(Ones(rest)) != 0
    ensures stored != 0 && Ones(rest + stored) == 0xFFFF ==> stored == Complement(Ones(rest))
  {
    var k := OnesResidue(rest);
    var c := Complement(Ones(rest));
    OnesCongruent(rest + c, Ones(rest) + c, k);
    OnesCongruent(rest + stored, Ones(rest) + stored, k);
  }
}
