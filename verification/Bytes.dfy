/** Little-endian bytes of 64-bit words, and the byte view of a memory of words. */
module Bytes {
  import opened Machine

  /** 256 to the power n. */
  function Place(n: nat): (r: nat)
    ensures r >= 1
  {
    if n == 0 then 1 else 256 * Place(n - 1)
  }

  function GetByte(w: u64, k: nat): byte
    requires k < 8
  {
    w / Place(k) % 256
  }

  function SetByte(w: u64, k: nat, b: byte): int
    requires k < 8
  {
    w + (b - GetByte(w, k)) * Place(k)
  }

  lemma ByteIs(w: u64, k: nat)
    requires k < 8
    ensures GetByte(w, k) == w / Place(k) % 256
  {
  }

  lemma {:induction false} PlaceAdd(m: nat, n: nat)
    ensures Place(m + n) == Place(m) * Place(n)
  {
    if m > 0 {
      PlaceAdd(m - 1, n);
      Regroup(256, Place(m - 1), Place(n));
    }
  }

  lemma Regroup(a: int, b: int, c: int)
    ensures a * (b * c) == (a * b) * c
  {
  }

  lemma DivDiv(w: nat, a: int, b: int)
    requires a > 0 && b > 0
    ensures a * b > 0 && (w / a) / b == w / (a * b)
  {
    var x, r := w / a, w % a;
    var y, s := x / b, x % b;
    assert w == x * a + r && x == y * b + s;
    assert x * a == (y * b) * a + s * a;
    assert (y * b) * a == y * (a * b);
    MulMonotone(s, b - 1, a);
    assert (b - 1) * a == a * b - a;
    assert s * a >= 0;
    DivModUnique(w, y, s * a + r, a * b);
  }

  /** A word split at byte `k`: what is above it, the byte, and what is below. */
  lemma Digits(w: u64, k: nat)
    requires k < 8
    ensures w / Place(k) == w / Place(k + 1) * 256 + GetByte(w, k)
    ensures w == (w / Place(k + 1) * 256 + GetByte(w, k)) * Place(k) + w % Place(k)
  {
    DivDiv(w, Place(k), 256);
    assert Place(k) * 256 == Place(k + 1);
  }

  lemma SetByteDigits(w: u64, k: nat, b: byte)
    requires k < 8
    ensures SetByte(w, k, b) == (w / Place(k + 1) * 256 + b) * Place(k) + w % Place(k)
    ensures SetByte(w, k, b) / Place(k) == w / Place(k + 1) * 256 + b
    ensures SetByte(w, k, b) >= 0
  {
    hide GetByte, Place;
    Digits(w, k);
    var q, c, p := w / Place(k + 1) * 256, GetByte(w, k), Place(k);
    ReplaceDigit(w, q, c, b, p, w % p);
  }

  lemma ReplaceDigit(w: int, q: int, c: int, b: int, p: int, low: int)
    requires w == (q + c) * p + low && 0 <= low < p && 0 <= q + b
    ensures w + (b - c) * p == (q + b) * p + low >= 0
    ensures (w + (b - c) * p) / p == q + b
  {
    assert (q + b) * p == (q + c) * p + (b - c) * p;
    MulMonotone(0, q + b, p);
    DivModUnique(w + (b - c) * p, q + b, low, p);
  }

  lemma EightPlaces()
    ensures Place(8) == 0x1_0000_0000_0000_0000
  {
    assert Place(4) == 0x1_0000_0000;
    PlaceAdd(4, 4);
  }

  /** What is above byte `k` has at most 7 - k bytes. */
  lemma AboveFits(w: u64, k: nat)
    requires k < 8
    ensures w / Place(k + 1) < Place(7 - k)
  {
    EightPlaces();
    PlaceAdd(7 - k, k + 1);
    hide Place;
    var q, n, m := w / Place(k + 1), Place(7 - k), Place(k + 1);
    if q >= n { MulMonotone(n, q, m); }
  }

  lemma SetByteInRange(w: u64, k: nat, b: byte)
    requires k < 8
    ensures 0 <= SetByte(w, k, b) <= U64_MAX
  {
    assert Place(8 - k) == 256 * Place(7 - k);
    hide Place, SetByte, GetByte;
    SetByteDigits(w, k, b);
    AboveFits(w, k);
    EightPlaces();
    PlaceAdd(8 - k, k);
    StaysBelow(w / Place(k + 1) * 256 + b, Place(8 - k), Place(k), w % Place(k));
  }

  lemma StaysBelow(x: int, n: int, p: int, low: int)
    requires x < n && 0 <= low < p
    ensures x * p + low < n * p
  {
    MulMonotone(x, n - 1, p);
    assert (n - 1) * p == n * p - p;
  }

  lemma GetSetSame(w: u64, k: nat, b: byte)
    requires k < 8
    ensures 0 <= SetByte(w, k, b) <= U64_MAX && GetByte(SetByte(w, k, b), k) == b
  {
    SetByteInRange(w, k, b);
    SetByteDigits(w, k, b);
    hide Place, SetByte;
    var q := w / Place(k + 1);
    ModAddMultiple(b, q, 256);
    ModSmall(b, 256);
  }

  lemma GetSetBelow(w: u64, k: nat, b: byte, j: nat)
    requires j < k < 8
    ensures 0 <= SetByte(w, k, b) <= U64_MAX && GetByte(SetByte(w, k, b), j) == GetByte(w, j)
  {
    assert Place(k - j) == 256 * Place(k - j - 1);
    hide Place, GetByte;
    SetByteInRange(w, k, b);
    PlaceAdd(k - j, j);
    AddAbove(w, b - GetByte(w, k), Place(k - j - 1), Place(j));
    ByteIs(w, j);
    ByteIs(SetByte(w, k, b), j);
  }

  lemma AddAbove(w: int, d: int, m: int, p: int)
    requires p > 0
    ensures (w + d * ((256 * m) * p)) / p % 256 == w / p % 256
  {
    assert d * ((256 * m) * p) == (d * m * 256) * p;
    ModAddMultiple(w, d * m * 256, p);
    ModAddMultiple(w / p, d * m, 256);
  }

  /** What lies above byte `k` stays. */
  lemma UpperKept(w: u64, k: nat, b: byte)
    requires k < 8
    ensures SetByte(w, k, b) / Place(k + 1) == w / Place(k + 1)
  {
    assert Place(k + 1) == Place(k) * 256;
    SetByteDigits(w, k, b);
    hide Place, SetByte;
    var q := w / Place(k + 1);
    DivDiv(SetByte(w, k, b), Place(k), 256);
    ModAddMultiple(b, q, 256);
    ModSmall(b, 256);
  }

  lemma GetSetAbove(w: u64, k: nat, b: byte, j: nat)
    requires k < j < 8
    ensures 0 <= SetByte(w, k, b) <= U64_MAX && GetByte(SetByte(w, k, b), j) == GetByte(w, j)
  {
    hide Place, SetByte, GetByte;
    SetByteInRange(w, k, b);
    UpperKept(w, k, b);
    PlaceAdd(k + 1, j - k - 1);
    ByteIs(w, j);
    ByteIs(SetByte(w, k, b), j);
    DivDiv(w, Place(k + 1), Place(j - k - 1));
    DivDiv(SetByte(w, k, b), Place(k + 1), Place(j - k - 1));
  }

  /** Setting a byte changes that byte and no other. */
  lemma GetSetByte(w: u64, k: nat, b: byte, j: nat)
    requires k < 8 && j < 8
    ensures 0 <= SetByte(w, k, b) <= U64_MAX
    ensures GetByte(SetByte(w, k, b), j) == if j == k then b else GetByte(w, j)
  {
    hide GetByte, SetByte;
    if j == k { GetSetSame(w, k, b); } else if j < k { GetSetBelow(w, k, b, j); } else { GetSetAbove(w, k, b, j); }
  }

  /* ---- The byte view of memory -------------------------------------------------------- */

  function ByteAt(words: seq<u64>, a: nat): byte
    requires a / 8 < |words|
  {
    GetByte(words[a / 8], a % 8)
  }

  function PutByte(words: seq<u64>, a: nat, b: byte): (r: seq<u64>)
    requires a / 8 < |words|
    ensures |r| == |words|
  {
    SetByteInRange(words[a / 8], a % 8, b);
    words[a / 8 := SetByte(words[a / 8], a % 8, b)]
  }

  lemma PutByteReads(words: seq<u64>, a: nat, b: byte, c: nat)
    requires a / 8 < |words| && c / 8 < |words|
    ensures ByteAt(PutByte(words, a, b), c) == if c == a then b else ByteAt(words, c)
  {
    hide GetByte, SetByte;
    if c / 8 == a / 8 {
      GetSetByte(words[a / 8], a % 8, b, c % 8);
    }
  }
}
