/** Decompressing a slice straight into its place in the output file. */
module Decompression {
  import opened Bytes
  import opened Codec

  /** A decoder that has read `pos` bytes of the stream `z` and has flushed all it could. */
  ghost predicate Tracks<D>(f: Format, d: Decoder<D>, z: seq<Byte>, st: D, pos: nat) {
    && pos <= |z|
    && d.fed(st) == z[..pos]
    && d.out(st) <= f.plain(z[..pos])
    && (|d.out(st)| < |f.plain(z)| ==> d.out(st) == f.plain(z[..pos]))
  }

  lemma TracksPrefix<D(!new)>(f: Format, d: Decoder<D>, z: seq<Byte>, st: D, pos: nat)
    requires FormatContract(f) && f.isFrame(z) && Tracks(f, d, z, st, pos)
    ensures d.out(st) <= f.plain(z)
    ensures pos == |z| ==> d.out(st) == f.plain(z)
  {
    assert f.plain(z[..pos]) <= f.plain(z);
    if pos == |z| {
      assert z[..pos] == z;
    }
  }

  lemma TracksInit<D(!new)>(f: Format, d: Decoder<D>, z: seq<Byte>)
    requires FormatContract(f) && DecoderContract(f, d)
    ensures Tracks(f, d, z, d.init, 0)
  {
    assert z[..0] == [];
  }

  /** With exactly the room that is left, a call succeeds and keeps track. */
  lemma CallTracks<D(!new)>(f: Format, d: Decoder<D>, z: seq<Byte>, st: D, pos: nat)
    requires FormatContract(f) && DecoderContract(f, d) && f.isFrame(z) && Tracks(f, d, z, st, pos)
    ensures |d.out(st)| <= |f.plain(z)|
    ensures var r := d.call(st, z[pos..], |f.plain(z)| - |d.out(st)|);
            && r.Decoded?
            && r.consumed <= |z| - pos
            && |d.out(st)| + |r.output| <= |f.plain(z)|
            && d.out(r.state) == d.out(st) + r.output
            && Tracks(f, d, z, r.state, pos + r.consumed)
  {
    TracksPrefix(f, d, z, st, pos);
    var room := |f.plain(z)| - |d.out(st)|;
    assert z[..pos] + z[pos..] == z;
    assert DecodeCallOk(f, d, st, z[pos..], room);
    var r := d.call(st, z[pos..], room);
    WindowOfWindow(z, pos, r.consumed);
    Adjacent(z, 0, pos, pos + r.consumed);
  }

  /** The file `s` with `b` written at `at`. */
  function Splice(s: seq<Byte>, at: nat, b: seq<Byte>): (r: seq<Byte>)
    requires at + |b| <= |s|
    ensures |r| == |s|
  {
    s[..at] + b + s[at + |b|..]
  }

  /** Writing piece after piece is writing the pieces at once. */
  lemma SpliceTwice(s: seq<Byte>, at: nat, a: seq<Byte>, b: seq<Byte>)
    requires at + |a| + |b| <= |s|
    ensures Splice(Splice(s, at, a), at + |a|, b) == Splice(s, at, a + b)
  {
  }

  /** Copies the bytes of one call to their place. */
  method Place(out: array<Byte>, at: nat, bytes: seq<Byte>)
    requires at + |bytes| <= out.Length
    modifies out
    ensures out[..] == Splice(old(out[..]), at, bytes)
  {
    forall i | 0 <= i < |bytes| {
      out[at + i] := bytes[i];
    }
  }

  /** The file is `was` with `written` at `base`; nothing is written when `base` lies outside. */
  ghost predicate Placed(was: seq<Byte>, base: nat, written: seq<Byte>, out: seq<Byte>) {
    if base + |written| <= |was| then out == Splice(was, base, written) else written == [] && out == was
  }

  lemma PlacedMore(was: seq<Byte>, base: nat, written: seq<Byte>, out: seq<Byte>, bytes: seq<Byte>)
    requires Placed(was, base, written, out) && base + |written| + |bytes| <= |was|
    ensures Placed(was, base, written + bytes, Splice(out, base + |written|, bytes))
  {
    SpliceTwice(was, base, written, bytes);
  }

  /** Writes the bytes of one call behind what is written. */
  method Extend(ghost was: seq<Byte>, out: array<Byte>, base: nat, outIndex: nat, ghost written: seq<Byte>,
                bytes: seq<Byte>)
    requires outIndex == |written| && base + outIndex + |bytes| <= out.Length == |was|
    requires Placed(was, base, written, out[..])
    modifies out
    ensures Placed(was, base, written + bytes, out[..])
  {
    PlacedMore(was, base, written, out[..], bytes);
    Place(out, base + outIndex, bytes);
  }

  /** The room of a decoder call: what is left of the slice, or `streamOut` when no length was announced. */
  function Room(size: nat, streamOut: nat, outIndex: nat): nat
    requires size == 0 || outIndex <= size
  {
    if size != 0 then size - outIndex else streamOut
  }

  /** The stream is complete and decodes to exactly the announced length. */
  ghost predicate Exact(f: Format, input: seq<Byte>, size: nat) {
    size != 0 && f.isFrame(input) && |f.plain(input)| == size
  }

  /** The cursor loop has come to `pos` and has written what came out. */
  ghost predicate Underway<D>(f: Format, d: Decoder<D>, input: seq<Byte>, size: nat, st: D, pos: nat,
                              written: seq<Byte>)
  {
    && pos <= |input| && d.out(st) == written && (size != 0 ==> |written| <= size)
    && (Exact(f, input, size) ==> Tracks(f, d, input, st, pos))
  }

  lemma UnderwayCall<D(!new)>(f: Format, d: Decoder<D>, input: seq<Byte>, size: nat, streamOut: nat, st: D, pos: nat,
                              written: seq<Byte>)
    requires FormatContract(f) && DecoderContract(f, d) && Underway(f, d, input, size, st, pos, written)
    requires pos < |input|
    ensures var r := d.call(st, input[pos..], Room(size, streamOut, |written|));
            && (Exact(f, input, size) ==> r.Decoded?)
            && (r.Decoded? ==>
                  && Underway(f, d, input, size, r.state, pos + r.consumed, written + r.output)
                  && (r.consumed == 0 && r.output == [] ==> d.patience(r.state) < d.patience(st)))
  {
    assert DecodeCallOk(f, d, st, input[pos..], Room(size, streamOut, |written|));
    if Exact(f, input, size) {
      CallTracks(f, d, input, st, pos);
    }
  }

  lemma UnderwayEnd<D(!new)>(f: Format, d: Decoder<D>, input: seq<Byte>, size: nat, st: D, written: seq<Byte>)
    requires FormatContract(f) && Underway(f, d, input, size, st, |input|, written)
    ensures Exact(f, input, size) ==> written == f.plain(input)
  {
    if Exact(f, input, size) {
      TracksPrefix(f, d, input, st, |input|);
    }
  }

  lemma UnderwayInit<D(!new)>(f: Format, d: Decoder<D>, input: seq<Byte>, size: nat)
    requires FormatContract(f) && DecoderContract(f, d)
    ensures Underway(f, d, input, size, d.init, 0, [])
  {
    TracksInit(f, d, input);
  }

  // ---- the run of calls ----

  /** The loop before a call: what the decoder has read and given out. */
  datatype Cursor<+D> = Cursor(state: D, pos: nat, out: seq<Byte>)

  /** What the call at a cursor reports: it is given the rest of the input, and the room that is left of the announced
      length, or `streamOut` when none was announced. */
  function CallAt<D>(d: Decoder<D>, input: seq<Byte>, size: nat, streamOut: nat, c: Cursor<D>): DecodeResult<D>
    requires c.pos <= |input| && (size != 0 ==> |c.out| <= size)
  {
    d.call(c.state, input[c.pos..], if size == 0 then streamOut else size - |c.out|)
  }

  ghost predicate InBounds<D>(input: seq<Byte>, size: nat, c: Cursor<D>) {
    c.pos <= |input| && (size != 0 ==> |c.out| <= size)
  }

  /** From one cursor to the next by a call that does not fail. */
  ghost predicate NextCursor<D>(d: Decoder<D>, input: seq<Byte>, size: nat, streamOut: nat, c: Cursor<D>, n: Cursor<D>)
  {
    && InBounds(input, size, c) && c.pos < |input|
    && var r := CallAt(d, input, size, streamOut, c);
       r.Decoded? && n == Cursor(r.state, c.pos + r.consumed, c.out + r.output)
  }

  /** The calls of the decoder from its start. */
  ghost predicate Calls<D>(d: Decoder<D>, input: seq<Byte>, size: nat, streamOut: nat, run: seq<Cursor<D>>) {
    && run != [] && run[0] == Cursor(d.init, 0, []) && InBounds(input, size, run[|run| - 1])
    && forall k :: 0 <= k < |run| - 1 ==> NextCursor(d, input, size, streamOut, run[k], run[k + 1])
  }

  /** How the loop ends. */
  datatype Ending = Through | Rejected | Outside

  /** At cursor `c` the input is used up, the call is refused, or what it gives, to be written behind `at`, does not fit
      a file of `length` bytes. */
  ghost predicate EndsAt<D>(d: Decoder<D>, input: seq<Byte>, size: nat, streamOut: nat, at: nat, length: nat,
                            c: Cursor<D>, ending: Ending)
    requires InBounds(input, size, c)
  {
    match ending
    case Through => c.pos == |input|
    case Rejected => c.pos < |input| && CallAt(d, input, size, streamOut, c).DecodeError?
    case Outside =>
      && c.pos < |input|
      && var r := CallAt(d, input, size, streamOut, c); r.Decoded? && at + |c.out| + |r.output| > length
  }

  lemma OneMoreCursor<D>(d: Decoder<D>, input: seq<Byte>, size: nat, streamOut: nat, run: seq<Cursor<D>>, n: Cursor<D>)
    requires Calls(d, input, size, streamOut, run) && InBounds(input, size, n)
    requires NextCursor(d, input, size, streamOut, run[|run| - 1], n)
    ensures Calls(d, input, size, streamOut, run + [n])
  {
    var more := run + [n];
    forall k | 0 <= k < |more| - 1 ensures NextCursor(d, input, size, streamOut, more[k], more[k + 1]) {
      assert more[k] == run[k];
    }
  }

  /** A stream that decodes to the announced length in a region outside the file ends with a write outside of it. */
  lemma ExactOutside<D(!new)>(f: Format, d: Decoder<D>, input: seq<Byte>, size: nat, was: seq<Byte>, out: seq<Byte>,
                              base: nat, st: D, written: seq<Byte>)
    requires FormatContract(f) && Underway(f, d, input, size, st, |input|, written) && Placed(was, base, written, out)
    requires Exact(f, input, size)
    ensures base + size <= |was|
  {
    UnderwayEnd(f, d, input, size, st, written);
  }

  /** How far the cursor is from the end of the file. */
  function ToEnd(length: nat, at: nat): nat {
    if at <= length then length - at else 0
  }

  /**
   * The cursor loop, writing to `out` from `base` on: in whole-slice mode at most `size` bytes, in streaming mode
   * (`size` is zero) as many as come, `streamOut` at a time.  `run` is what the decoder was made to do.  The result is
   * the number of bytes written, as an `int`, when the input is used up, and -1 without a context or after a refused
   * call.  Writing outside the file is a fault.
   */
  method Decompress<D(!new)>(f: Format, d: Decoder<D>, input: seq<Byte>, out: array<Byte>, base: nat, size: nat,
                             streamOut: nat, context: bool)
    returns (fault: bool, r: int, ghost written: seq<Byte>, ghost run: seq<Cursor<D>>, ghost ending: Ending)
    requires FormatContract(f) && DecoderContract(f, d)
    modifies out
    ensures Placed(old(out[..]), base, written, out[..]) && (size != 0 ==> |written| <= size)
    ensures !context ==> !fault && r == -1 && written == []
    ensures context ==> Calls(d, input, size, streamOut, run) && run[|run| - 1].out == written
    ensures context ==> EndsAt(d, input, size, streamOut, base, out.Length, run[|run| - 1], ending)
    ensures context && |run| > 1 ==> base + |written| <= out.Length
    ensures context ==> (fault <==> ending == Outside)
    ensures context && ending == Through ==> r == ToInt32(|written|)
    ensures context && ending == Rejected ==> r == -1
    ensures context && Exact(f, input, size) ==> (fault <==> base + size > out.Length)
    ensures context && Exact(f, input, size) && !fault ==> r == ToInt32(size) && written == f.plain(input)
    ensures fault && size != 0 ==> base + size > out.Length
  {
    ghost var was := out[..];
    fault, r, written, run, ending := false, -1, [], [], Through;
    assert base <= |was| ==> Splice(was, base, []) == was;
    if !context {
      return;
    }
    var st, pos: nat, outIndex: nat := d.init, 0, 0;
    run := [Cursor(st, 0, [])];
    UnderwayInit(f, d, input, size);
    while pos < |input|
      invariant Underway(f, d, input, size, st, pos, written) && outIndex == |written|
      invariant Placed(was, base, written, out[..])
      invariant Calls(d, input, size, streamOut, run) && run[|run| - 1] == Cursor(st, pos, written)
      invariant |run| > 1 ==> base + |written| <= out.Length
      decreases |input| - pos, ToEnd(out.Length, base + outIndex), d.patience(st)
    {
      UnderwayCall(f, d, input, size, streamOut, st, pos, written);
      var result := d.call(st, input[pos..], Room(size, streamOut, outIndex));
      if result.DecodeError? {
        ending := Rejected;
        return;
      }
      if base + outIndex + |result.output| > out.Length {
        fault, ending := true, Outside;
        return;
      }
      Extend(was, out, base, outIndex, written, result.output);
      written := written + result.output;
      st, pos, outIndex := result.state, pos + result.consumed, outIndex + |result.output|;
      OneMoreCursor(d, input, size, streamOut, run, Cursor(st, pos, written));
      run := run + [Cursor(st, pos, written)];
    }
    UnderwayEnd(f, d, input, size, st, written);
    if Exact(f, input, size) {
      ExactOutside(f, d, input, size, was, out[..], base, st, written);
    }
    r := ToInt32(outIndex);
  }
}
