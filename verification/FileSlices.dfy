/** A slice of the mapped file with its list of compressed chunks, and the cutting of a file. */
module FileSlices {
  import opened Bytes
  import opened Framing
  import opened Geometry

  class FileSlice {
    const file: seq<Byte>
    const index: nat
    const len: nat
    const splitLen: nat
    var cLen: nat
    var chunks: seq<seq<Byte>>

    constructor (file: seq<Byte>, index: nat, len: nat, splitLen: nat)
      requires index < TWO16
      ensures this.file == file && this.index == index && this.len == len && this.splitLen == splitLen
      ensures cLen == 0 && chunks == []
    {
      this.file, this.index, this.len, this.splitLen := file, index, len, splitLen;
      cLen, chunks := 0, [];
    }

    /** A linked list of chunks starts with a header whose length field holds `cLen`. */
    ghost predicate Valid()
      reads this
    {
      && index < TWO16
      && (chunks == [] ==> cLen == 0)
      && (chunks != [] ==> chunks[0] == Header(index, len, cLen))
    }

    /** The compressed bytes linked so far. */
    ghost function Payload(): seq<Byte>
      reads this
    {
      if chunks == [] then [] else Flatten(chunks[1..])
    }

    predicate InFile() {
      index * splitLen + len <= |file|
    }

    /** The bytes of the file that this slice covers. */
    function Buf(): (b: seq<Byte>)
      requires InFile()
      ensures |b| == len
    {
      file[index * splitLen..index * splitLen + len]
    }

    method LinkCompressChunk(chunk: seq<Byte>)
      requires Valid()
      modifies `chunks
      ensures Valid() && chunks != []
      ensures chunks[1..] == (if old(chunks) == [] then [] else old(chunks)[1..]) + [chunk]
      ensures Payload() == old(Payload()) + chunk
    {
      if chunks == [] {
        var b := seq(HEADER_LEN, _ => 0);
        b := U16(index) + b[2..];
        b := b[..2] + U32(len % TWO32) + b[6..];
        ZeroField();
        assert b[6..] == [0, 0, 0, 0];
        assert b == Header(index, len, 0);
        chunks := [b];
      }
      FlattenSnoc(chunks[1..], chunk);
      assert (chunks + [chunk])[1..] == chunks[1..] + [chunk];
      chunks := chunks + [chunk];
    }

    /** Back-patches the length field of the header in place. */
    method SetChunkLinksHeader(compressedSize: nat)
      requires Valid() && chunks != []
      modifies `chunks, `cLen
      ensures Valid() && chunks != [] && cLen == compressedSize
      ensures chunks[1..] == old(chunks)[1..] && Payload() == old(Payload())
    {
      cLen := compressedSize;
      var h := chunks[0];
      chunks := chunks[0 := h[..6] + U32(compressedSize % TWO32)];
      assert chunks[1..] == old(chunks)[1..];
      assert h[..6] == U16(index % TWO16) + U32(len % TWO32);
    }
  }

  /** What `SplitFile` promises of slice `i`. */
  ghost predicate IsCut(f: FileSlice, file: seq<Byte>, s: nat, i: nat, len: nat)
    reads f
  {
    && f.file == file && f.splitLen == s && f.len == len && f.index == i % TWO16
    && f.chunks == [] && f.cLen == 0
  }

  /** The number of pieces: one, too long, if the segment exceeds the file. */
  function Pieces(b: nat, s: nat): (n: nat)
    requires s > 0
    ensures n > 0
  {
    if s <= b then Count(b, s) else 1
  }

  function PieceLen(b: nat, s: nat, i: nat): nat
    requires s > 0 && i < Pieces(b, s)
  {
    if s <= b then SliceLen(b, s, i) else s
  }

  /** One turn of the cutting loop: the piece at `k * s` takes the remainder exactly when it is the last,
      and the loop goes on exactly when it is not. */
  lemma CutTurn(b: nat, s: nat, k: nat)
    requires s > 0 && k < Pieces(b, s)
    ensures (if k * s + s + b % s == b then s + b % s else s) == PieceLen(b, s, k)
    ensures k * s + PieceLen(b, s, k) < b <==> k + 1 < Pieces(b, s)
    ensures k + 1 < Pieces(b, s) ==> k * s + PieceLen(b, s, k) == (k + 1) * s
    ensures k > 0 ==> k * s < b
  {
    if s <= b {
      var n := Count(b, s);
      Split(b, s);
      assert (k + 1) * s == k * s + s;
      MulMono(k + 1, n, s);
      if k + 1 < n {
        MulMono(k + 2, n, s);
        assert (k + 2) * s == k * s + s + s;
      }
    } else {
      Quotient(b, s, 0, b);
    }
  }

  /** The slices cut so far. */
  ghost predicate CutSoFar(slices: seq<FileSlice>, file: seq<Byte>, s: nat)
    requires s > 0
    reads slices
  {
    && |slices| <= Pieces(|file|, s)
    && (forall i, k :: 0 <= i < k < |slices| ==> slices[i] != slices[k])
    && forall i :: 0 <= i < |slices| ==> IsCut(slices[i], file, s, i, PieceLen(|file|, s, i))
  }

  /** The cutting loop. */
  method Cut(file: seq<Byte>, s: nat) returns (slices: seq<FileSlice>)
    requires s > 0
    ensures |slices| == Pieces(|file|, s) && CutSoFar(slices, file, s)
    ensures forall i :: 0 <= i < |slices| ==> fresh(slices[i])
  {
    var b := |file|;
    var rest := b % s;
    slices := [];
    var fIndex := 0;
    var more := true;
    while more
      invariant CutSoFar(slices, file, s) && (more <==> |slices| < Pieces(b, s))
      invariant forall i :: 0 <= i < |slices| ==> fresh(slices[i])
      invariant more ==> fIndex == |slices| * s
      decreases more, b - fIndex
    {
      ghost var k := |slices|;
      CutTurn(b, s, k);
      var sliceSize := s;
      if fIndex + sliceSize + rest == b {
        sliceSize := sliceSize + rest;
      }
      var f := new FileSlice(file, |slices| % TWO16, sliceSize, s);
      slices := slices + [f];
      fIndex := fIndex + sliceSize;
      more := fIndex < b;
    }
  }

  /**
   * Cuts the file.  The segment size and job count are flags that are overwritten; they are
   * returned.  A segment of zero bytes would mean a division by zero, so a caller has to give a
   * segment size or at most as many jobs as there are bytes.
   */
  method SplitFile(file: seq<Byte>, configured: nat, jobs: nat)
    returns (slices: seq<FileSlice>, segment: nat, newJobs: nat)
    requires configured == 0 ==> 1 <= jobs <= |file|
    ensures segment == Segment(|file|, configured, jobs) > 0
    ensures 0 < configured <= 0x7FFF_FFFF ==> segment == configured && newJobs == jobs
    ensures configured > 0x7FFF_FFFF ==> segment == 0x7FFF_FFFF && newJobs == |file| / 0x7FFF_FFFF
    ensures configured == 0 && |file| / jobs <= 0x7FFF_FFFF ==> segment == |file| / jobs && newJobs == jobs
    ensures configured == 0 && |file| / jobs > 0x7FFF_FFFF ==>
              segment == 0x7FFF_FFFF && newJobs == |file| / 0x7FFF_FFFF
    ensures |slices| == Pieces(|file|, segment) && CutSoFar(slices, file, segment)
    ensures segment <= |file| ==> |slices| == |file| / segment
    ensures segment > |file| ==> |slices| == 1 && slices[0].len == segment
    ensures forall i :: 0 <= i < |slices| ==>
              slices[i].file == file && slices[i].splitLen == segment && slices[i].index == i % 0x1_0000
    ensures segment <= |file| ==> forall i :: 0 <= i < |slices| ==>
              slices[i].len == segment + (if i + 1 == |slices| then |file| % segment else 0)
    ensures forall i :: 0 <= i < |slices| ==> fresh(slices[i])
  {
    segment, newJobs := configured, jobs;
    if segment == 0 {
      Quotient(|file|, jobs, |file| / jobs, |file| % jobs);
      segment := |file| / jobs;
    }
    if segment > INT_MAX {
      segment := INT_MAX;
      newJobs := |file| / segment;
    }
    slices := Cut(file, segment);
    forall i | 0 <= i < |slices| ensures IsCut(slices[i], file, segment, i, PieceLen(|file|, segment, i)) {
    }
  }
}
