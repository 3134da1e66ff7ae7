/**
 * Where the slices of a file lie.  The sender cuts a file of `b` bytes at multiples of its segment
 * size `s`; the receiver never learns `s` and recomputes a stride from the slice count.
 */
module Geometry {
  import opened Bytes

  const INT_MAX: nat := 0x7FFF_FFFF

  /** The number of slices of a file of `b` bytes with segment size `s`. */
  function Count(b: nat, s: nat): (n: nat)
    requires 0 < s <= b
    ensures n > 0
  {
    Quotient(b, s, b / s, b % s);
    b / s
  }

  /** The length of slice `i`: the last one takes what division leaves over. */
  function SliceLen(b: nat, s: nat, i: nat): nat
    requires 0 < s <= b && i < Count(b, s)
  {
    if i + 1 == Count(b, s) then s + b % s else s
  }

  /** The stride the receiver derives from the text header. */
  function Stride(b: nat, s: nat): nat
    requires 0 < s <= b
  {
    b / Count(b, s)
  }

  /** The guard under which both sides place every slice alike. */
  predicate Agree(b: nat, s: nat)
    requires 0 < s <= b
  {
    b % s < Count(b, s) || Count(b, s) == 1
  }

  /** The segment size as configured, or derived from the job count when none is given. */
  function RawSegment(b: nat, configured: nat, jobs: nat): nat
    requires configured == 0 ==> jobs > 0
  {
    if configured == 0 then b / jobs else configured
  }

  /** The segment size that is used: at most the largest `int`. */
  function Segment(b: nat, configured: nat, jobs: nat): nat
    requires configured == 0 ==> jobs > 0
  {
    Min(RawSegment(b, configured, jobs), INT_MAX)
  }

  // ---- division ----

  lemma MulMono(a: nat, b: nat, c: nat)
    requires a <= b
    ensures a * c <= b * c && c * a <= c * b
  {
  }

  lemma Split(b: nat, s: nat)
    requires 0 < s <= b
    ensures b == Count(b, s) * s + b % s && b % s < s
  {
  }

  // ---- agreement of the two strides ----

  /** The receiver's stride exceeds the sender's by the remainder spread over the slices. */
  lemma StrideFormula(b: nat, s: nat)
    requires 0 < s <= b
    ensures Stride(b, s) == s + (b % s) / Count(b, s)
  {
    var n, r := Count(b, s), b % s;
    Split(b, s);
    var q, t := r / n, r % n;
    assert n * (s + q) == n * s + n * q;
    assert b == (s + q) * n + t;
    Quotient(b, n, s + q, t);
  }

  /** All slice offsets agree exactly under the guard. */
  lemma OffsetsAgreeIff(b: nat, s: nat)
    requires 0 < s <= b
    ensures (forall i: nat :: i < Count(b, s) ==> i * Stride(b, s) == i * s) <==> Agree(b, s)
  {
    var n, r := Count(b, s), b % s;
    StrideFormula(b, s);
    if r < n {
      Quotient(r, n, 0, r);
      assert Stride(b, s) == s;
    } else {
      Quotient(r, n, r / n, r % n);
      if n > 1 {
        assert 1 * Stride(b, s) != 1 * s;
      }
    }
  }

  /** The last region ends inside the file exactly under the guard: otherwise it runs past the end. */
  lemma LastRegionInBoundsIff(b: nat, s: nat)
    requires 0 < s <= b
    ensures var n := Count(b, s);
            (n - 1) * Stride(b, s) + SliceLen(b, s, n - 1) <= b <==> Agree(b, s)
  {
    var n, r := Count(b, s), b % s;
    Split(b, s);
    StrideFormula(b, s);
    var d := r / n;
    assert (n - 1) * (s + d) == (n - 1) * s + (n - 1) * d;
    assert n * s == (n - 1) * s + s;
    if r < n {
      Quotient(r, n, 0, r);
    } else {
      Quotient(r, n, d, r % n);
      if n > 1 {
        MulMono(1, d, n - 1);
      }
    }
  }

  /** A derived segment leaves between `jobs` and `2 * jobs` slices, and more slices than remainder. */
  lemma DerivedSegmentCount(b: nat, jobs: nat)
    requires 1 <= jobs <= b
    ensures var s := b / jobs; 0 < s <= b && jobs <= Count(b, s) < 2 * jobs && b % s < Count(b, s)
  {
    var s, t := b / jobs, b % jobs;
    assert b == jobs * s + t;
    Quotient(b, jobs, s, t);
    MulMono(1, jobs, s);
    Split(b, s);
    CutTwice(jobs, Count(b, s), s, t, b % s);
  }

  /** The same number divided by `jobs` and by its quotient. */
  lemma CutTwice(jobs: nat, n: nat, s: nat, t: nat, r: nat)
    requires s > 0 && t < jobs && r < s && jobs * s + t == n * s + r
    ensures jobs <= n < 2 * jobs && r < n
  {
    assert (n - jobs) * s == n * s - jobs * s;
    AtLeastJobs(n - jobs, s, t - r);
  }

  lemma AtLeastJobs(k: int, s: int, d: int)
    requires s > 0 && k * s == d > -s
    ensures 0 <= k <= k * s
  {
    if k >= 0 {
      MulMono(1, s, k);
    }
  }

  /** A segment size derived from the job count always meets the guard: b/(b/(b/jobs)) == b/jobs. */
  lemma DerivedSegmentAgrees(b: nat, jobs: nat)
    requires 1 <= jobs <= b
    ensures var s := b / jobs; 0 < s <= b && Agree(b, s) && Stride(b, s) == s
  {
    var s := b / jobs;
    DerivedSegmentCount(b, jobs);
    StrideFormula(b, s);
    Quotient(b % s, Count(b, s), 0, b % s);
  }

  /** Clamping keeps every slice length below 2^32, so the 32-bit length field never truncates. */
  lemma ClampedLengthsFit(b: nat, configured: nat, jobs: nat, i: nat)
    requires configured == 0 ==> jobs > 0
    requires var s := Segment(b, configured, jobs); 0 < s <= b && i < Count(b, s)
    ensures SliceLen(b, Segment(b, configured, jobs), i) <= TWO32 - 3
  {
  }

  /** A file of 4 GiB sent with one job is clamped to two slices whose offsets disagree. */
  lemma FourGigabytesMisplaced()
    ensures var s := Segment(TWO32, 0, 1);
            0 < s <= TWO32 && Count(TWO32, s) == 2 && !Agree(TWO32, s) && Stride(TWO32, s) == s + 1
  {
    var s := Segment(TWO32, 0, 1);
    assert s == INT_MAX;
    Quotient(TWO32, s, 2, 2);
  }

  // ---- the sender's slices tile the file ----

  /** The part of the file that slice `i` carries. */
  function Window(file: seq<Byte>, s: nat, i: nat): (w: seq<Byte>)
    requires 0 < s <= |file| && i < Count(|file|, s)
    ensures |w| == SliceLen(|file|, s, i)
  {
    WindowInBounds(|file|, s, i);
    file[i * s..i * s + SliceLen(|file|, s, i)]
  }

  lemma WindowInBounds(b: nat, s: nat, i: nat)
    requires 0 < s <= b && i < Count(b, s)
    ensures i * s + SliceLen(b, s, i) <= b
    ensures i + 1 == Count(b, s) ==> i * s + SliceLen(b, s, i) == b
    ensures i + 1 < Count(b, s) ==> i * s + SliceLen(b, s, i) == (i + 1) * s
  {
    var n := Count(b, s);
    Split(b, s);
    MulMono(i + 1, n, s);
    assert (i + 1) * s == i * s + s;
  }

  /** Regions of different slices do not meet. */
  lemma RegionsDisjoint(b: nat, s: nat, i: nat, k: nat)
    requires 0 < s <= b && i < k < Count(b, s)
    ensures i * s + SliceLen(b, s, i) <= k * s
  {
    WindowInBounds(b, s, i);
    MulMono(i + 1, k, s);
  }

  /** Every byte of the file lies in a slice. */
  lemma Owner(b: nat, s: nat, j: nat) returns (i: nat)
    requires 0 < s <= b && j < b
    ensures i < Count(b, s) && i * s <= j < i * s + SliceLen(b, s, i)
  {
    var n := Count(b, s);
    Split(b, s);
    var q := j / s;
    assert j == q * s + j % s;
    if q < n {
      i := q;
    } else {
      i := n - 1;
      MulMono(n - 1, q, s);
      WindowInBounds(b, s, i);
    }
  }

  function Windows(file: seq<Byte>, s: nat, k: nat): seq<seq<Byte>>
    requires 0 < s <= |file| && k <= Count(|file|, s)
  {
    if k == 0 then [] else Windows(file, s, k - 1) + [Window(file, s, k - 1)]
  }

  /** Where slice `i` ends. */
  function EndOf(b: nat, s: nat, k: nat): (e: nat)
    requires 0 < s <= b && k <= Count(b, s)
    ensures e <= b
  {
    if k == 0 then 0 else WindowInBounds(b, s, k - 1); (k - 1) * s + SliceLen(b, s, k - 1)
  }

  lemma {:induction false} WindowsPrefix(file: seq<Byte>, s: nat, k: nat)
    requires 0 < s <= |file| && k <= Count(|file|, s)
    ensures Flatten(Windows(file, s, k)) == file[..EndOf(|file|, s, k)]
  {
    if k > 0 {
      var from, to := EndOf(|file|, s, k - 1), EndOf(|file|, s, k);
      WindowsPrefix(file, s, k - 1);
      assert from == (k - 1) * s by {
        if k > 1 { WindowInBounds(|file|, s, k - 2); }
      }
      FlattenSnoc(Windows(file, s, k - 1), Window(file, s, k - 1));
      Adjacent(file, 0, from, to);
    }
  }

  /** The slices in order, one after the other, are the file. */
  lemma WindowsTileFile(file: seq<Byte>, s: nat)
    requires 0 < s <= |file|
    ensures Flatten(Windows(file, s, Count(|file|, s))) == file
  {
    var n := Count(|file|, s);
    WindowsPrefix(file, s, n);
    WindowInBounds(|file|, s, n - 1);
  }
}
