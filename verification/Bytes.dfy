/** Bytes, byte strings and the fixed-width big-endian fields of the slice header. */
module Bytes {
  newtype Byte = x: int | 0 <= x < 256

  const TWO16: nat := 0x1_0000
  const TWO31: nat := 0x8000_0000
  const TWO32: nat := 0x1_0000_0000
  const TWO64: nat := 0x1_0000_0000_0000_0000

  function Min(a: nat, b: nat): nat {
    if a <= b then a else b
  }

  /** The two's complement reading of the low 32 bits, as a C++ `int` keeps them. */
  function ToInt32(n: nat): (r: int) {
    var m := n % TWO32;
    if m < TWO31 then m else m - TWO32
  }

  /** The conversion of an `int` to `size_t`. */
  function ToSizeT(n: int): (r: nat) {
    n % TWO64
  }

  /** The only number in the range of an `int` that is congruent to `n`. */
  lemma ToInt32Is(n: nat)
    ensures -0x8000_0000 <= ToInt32(n) < 0x8000_0000
    ensures (n - ToInt32(n)) % 0x1_0000_0000 == 0
  {
  }

  /** The only number in the range of a `size_t` that is congruent to `n`. */
  lemma ToSizeTIs(n: int)
    ensures 0 <= ToSizeT(n) < 0x1_0000_0000_0000_0000
    ensures (n - ToSizeT(n)) % 0x1_0000_0000_0000_0000 == 0
  {
  }

  function Flatten(parts: seq<seq<Byte>>): seq<Byte> {
    if parts == [] then [] else parts[0] + Flatten(parts[1..])
  }

  lemma {:induction false} FlattenAppend(a: seq<seq<Byte>>, b: seq<seq<Byte>>)
    ensures Flatten(a + b) == Flatten(a) + Flatten(b)
  {
    if a == [] {
      assert a + b == b;
    } else {
      assert (a + b)[1..] == a[1..] + b;
      FlattenAppend(a[1..], b);
    }
  }

  lemma FlattenSnoc(a: seq<seq<Byte>>, x: seq<Byte>)
    ensures Flatten(a + [x]) == Flatten(a) + x
  {
    FlattenAppend(a, [x]);
    assert Flatten([x]) == x + Flatten([]);
  }

  /** Each part is a prefix of the chunk at the same place. */
  ghost predicate Prefixes(parts: seq<seq<Byte>>, chunks: seq<seq<Byte>>) {
    |parts| <= |chunks| && forall i :: 0 <= i < |parts| ==> parts[i] <= chunks[i]
  }

  /** Bounds on the single parts force every part to be whole once the totals agree. */
  lemma {:induction false} EqualTotalsMakePartsWhole(parts: seq<seq<Byte>>, chunks: seq<seq<Byte>>)
    requires Prefixes(parts, chunks) && |parts| == |chunks|
    ensures |Flatten(parts)| <= |Flatten(chunks)|
    ensures |Flatten(parts)| == |Flatten(chunks)| ==> parts == chunks
  {
    if parts != [] {
      EqualTotalsMakePartsWhole(parts[1..], chunks[1..]);
      assert parts[0] <= chunks[0];
      if |Flatten(parts)| == |Flatten(chunks)| {
        assert parts[0] == chunks[0];
        assert parts == [parts[0]] + parts[1..] && chunks == [chunks[0]] + chunks[1..];
      }
    }
  }

  // Windows of byte strings.

  lemma WindowOfTail(s: seq<Byte>, a: nat, from: nat, to: nat)
    requires a <= from <= to <= |s|
    ensures s[from..to] == s[a..][from - a..to - a]
  {
  }

  lemma TailOfPrefix(s: seq<Byte>, a: nat, n: nat)
    requires a <= n <= |s|
    ensures s[0..n] == s[..n] && s[..n][a..] == s[a..][..n - a]
  {
  }

  lemma Adjacent(s: seq<Byte>, from: nat, mid: nat, to: nat)
    requires from <= mid <= to <= |s|
    ensures s[from..mid] + s[mid..to] == s[from..to] && s[..mid] + s[mid..to] == s[..to]
  {
  }

  lemma AdjacentAfter(head: seq<Byte>, s: seq<Byte>, mid: nat, to: nat)
    requires mid <= to <= |s|
    ensures head + s[..mid] + s[mid..to] == head + s[..to]
  {
  }

  lemma WindowOfWindow(s: seq<Byte>, a: nat, n: nat)
    requires a + n <= |s|
    ensures s[a..][..n] == s[a..a + n] && s[a..][n..] == s[a + n..]
  {
  }

  // ---- division ----

  lemma SmallMultiple(k: int, s: int)
    requires -s < k * s < s
    ensures k == 0
  {
  }

  /** Euclidean division is determined by its defining equation. */
  lemma Quotient(b: nat, s: nat, q: int, r: int)
    requires s > 0 && b == q * s + r && 0 <= r < s
    ensures q == b / s && r == b % s
    ensures s <= b ==> q > 0
  {
    var p, t := b / s, b % s;
    assert b == p * s + t;
    assert (p - q) * s == p * s - q * s == r - t;
    SmallMultiple(p - q, s);
  }

  // Network byte order: most significant byte first (Appendix B of RFC 791).

  function U16(n: nat): (b: seq<Byte>)
    requires n < TWO16
    ensures |b| == 2
  {
    [(n / 0x100) as Byte, (n % 0x100) as Byte]
  }

  function U32(n: nat): (b: seq<Byte>)
    requires n < TWO32
    ensures |b| == 4
  {
    U16(n / TWO16) + U16(n % TWO16)
  }

  function ReadU16(b: seq<Byte>): (n: nat)
    requires |b| == 2
    ensures n < TWO16
  {
    b[0] as int * 0x100 + b[1] as int
  }

  function ReadU32(b: seq<Byte>): (n: nat)
    requires |b| == 4
    ensures n < TWO32
  {
    ReadU16(b[..2]) * TWO16 + ReadU16(b[2..])
  }

  /** Byte by byte, the most significant one first. */
  lemma U16InNetworkOrder(n: nat)
    requires n < TWO16
    ensures U16(n) == [(n / 256) as Byte, (n % 256) as Byte]
  {
  }

  lemma U32InNetworkOrder(n: nat)
    requires n < TWO32
    ensures U32(n)
         == [(n / 0x100_0000) as Byte, (n / 0x1_0000 % 256) as Byte, (n / 256 % 256) as Byte, (n % 256) as Byte]
  {
    Halves(n);
  }

  /** Dividing by 256 and by 2^16, one after the other. */
  lemma Halves(n: nat)
    ensures n / 0x1_0000 / 256 == n / 0x100_0000
    ensures n % 0x1_0000 / 256 == n / 256 % 256 && n % 0x1_0000 % 256 == n % 256
  {
    var hi, lo := n / 0x1_0000, n % 0x1_0000;
    Quotient(n, 0x100_0000, hi / 256, hi % 256 * 0x1_0000 + lo);
    Quotient(n, 256, hi * 256 + lo / 256, lo % 256);
    Quotient(n / 256, 256, hi, lo / 256);
  }

  lemma ZeroField()
    ensures U32(0) == [0, 0, 0, 0]
  {
    assert U16(0) == [0, 0];
  }

  lemma U16RoundTrip(n: nat)
    requires n < TWO16
    ensures ReadU16(U16(n)) == n
  {
  }

  lemma U32RoundTrip(n: nat)
    requires n < TWO32
    ensures ReadU32(U32(n)) == n
  {
    assert U32(n)[..2] == U16(n / TWO16);
    assert U32(n)[2..] == U16(n % TWO16);
    U16RoundTrip(n / TWO16);
    U16RoundTrip(n % TWO16);
  }
}
