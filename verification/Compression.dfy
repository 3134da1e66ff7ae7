/** Compressing a slice window by window into the slice's chunk list. */
module Compression {
  import opened Bytes
  import opened FileSlices
  import opened Codec

  const SMALL_SLICE: nat := 1024 * 1024
  const BUFF_OUT_SIZE: nat := 4 * 1024 * 1024
  const BUFF_IN_SIZE: nat := 6815744 // 6.5 MiB

  /** The size of the input windows; `streamIn` is the library's recommendation for small slices. */
  function InSize(len: nat, streamIn: nat): nat {
    if len < SMALL_SLICE then streamIn else BUFF_IN_SIZE
  }

  /** The room of every call; `streamOut` is the library's recommendation for small slices. */
  function OutSize(len: nat, streamOut: nat): nat {
    if len < SMALL_SLICE then streamOut else BUFF_OUT_SIZE
  }

  // ---- what the encoder is made to do ----

  datatype Status = Running | Done | Failed

  /** A window under compression: the encoder, the bytes of the window it has read, the chunks so far. */
  datatype Flushing<+C> = Flushing(state: C, pos: nat, outs: seq<seq<Byte>>, status: Status)

  /** One encoder call for a window. */
  function FlushOne<C>(e: Encoder<C>, p: Flushing<C>, input: seq<Byte>, room: nat, mode: Mode): Flushing<C>
    requires p.pos <= |input|
  {
    var rest := input[p.pos..];
    var r := e.call(p.state, rest, room, mode);
    if r.EncodeError? then p.(status := Failed)
    else
      Flushing(r.state, p.pos + r.consumed, p.outs + [r.output], if Finished(r, rest, mode) then Done else Running)
  }

  /** The first `k` calls for a window; there are no more once the window is done or a call has failed. */
  function Flush<C>(e: Encoder<C>, c: C, input: seq<Byte>, room: nat, mode: Mode, k: nat): Flushing<C> {
    if k == 0 then Flushing(c, 0, [], Running)
    else
      var p := Flush(e, c, input, room, mode, k - 1);
      if p.status != Running || p.pos > |input| then p else FlushOne(e, p, input, room, mode)
  }

  /** What a call does to the window: it is given the bytes that are left, the room and the mode; it ends the window
      when the library has nothing left to flush, for the last window, and when all bytes are read, for the others. */
  lemma CallByCall<C>(e: Encoder<C>, c: C, input: seq<Byte>, room: nat, mode: Mode, k: nat)
    requires var p := Flush(e, c, input, room, mode, k); p.status == Running && p.pos <= |input|
    ensures var p, q := Flush(e, c, input, room, mode, k), Flush(e, c, input, room, mode, k + 1);
            var r := e.call(p.state, input[p.pos..], room, mode);
            && (q.status == Failed <==> r.EncodeError?)
            && (r.Encoded? ==>
                  && q.state == r.state && q.pos == p.pos + r.consumed && q.outs == p.outs + [r.output]
                  && (q.status == Done <==> if mode == End then r.remaining == 0 else q.pos == |input|))
  {
  }

  predicate Fails<C>(e: Encoder<C>, c: C, input: seq<Byte>, room: nat, mode: Mode, k: nat) {
    Flush(e, c, input, room, mode, k).status == Failed
  }

  /** One input window with the chunks it gave. */
  datatype Fed = Fed(bytes: seq<Byte>, mode: Mode, outs: seq<seq<Byte>>)

  /** The encoder before window `i`, when the windows before it were fed one after the other. */
  function Before<C>(e: Encoder<C>, windows: seq<Fed>, room: nat, i: nat): C
    requires i <= |windows|
  {
    if i == 0 then e.init
    else
      var w := windows[i - 1];
      Flush(e, Before(e, windows, room, i - 1), w.bytes, room, w.mode, |w.outs|).state
  }

  /** The calls for window `i` finish it and give its chunks. */
  ghost predicate FedAt<C>(e: Encoder<C>, windows: seq<Fed>, room: nat, i: nat)
    requires i < |windows|
  {
    var w := windows[i];
    var p := Flush(e, Before(e, windows, room, i), w.bytes, room, w.mode, |w.outs|);
    p.status == Done && p.pos == |w.bytes| && p.outs == w.outs
  }

  function Inputs(windows: seq<Fed>): seq<Byte> {
    if windows == [] then [] else Inputs(windows[..|windows| - 1]) + windows[|windows| - 1].bytes
  }

  function Chunks(windows: seq<Fed>): seq<seq<Byte>> {
    if windows == [] then [] else Chunks(windows[..|windows| - 1]) + windows[|windows| - 1].outs
  }

  /** The windows fed so far have full size and do not end the frame. */
  ghost predicate Full<C>(e: Encoder<C>, windows: seq<Fed>, size: nat, room: nat) {
    && (forall i :: 0 <= i < |windows| ==> |windows[i].bytes| == size && windows[i].mode == Continue)
    && (forall i :: 0 <= i < |windows| ==> FedAt(e, windows, room, i))
  }

  /**
   * The windows are the run of the encoder from its start over `data`: all of full size but the last,
   * which is not empty unless there is nothing, the frame ended by the last and by no other, each finished by its
   * calls.
   */
  ghost predicate Covers<C>(e: Encoder<C>, windows: seq<Fed>, size: nat, room: nat, data: seq<Byte>) {
    && windows != [] && Inputs(windows) == data
    && (forall i :: 0 <= i < |windows| ==> FedAt(e, windows, room, i))
    && (forall i :: 0 <= i < |windows| ==>
          if i < |windows| - 1 then |windows[i].bytes| == size && windows[i].mode == Continue
          else |windows[i].bytes| <= size && windows[i].mode == End)
    && (windows[|windows| - 1].bytes != [] || data == [])
  }

  lemma {:induction false} BeforeSnoc<C>(e: Encoder<C>, windows: seq<Fed>, w: Fed, room: nat, i: nat)
    requires i <= |windows|
    ensures Before(e, windows + [w], room, i) == Before(e, windows, room, i)
  {
    if i > 0 {
      BeforeSnoc(e, windows, w, room, i - 1);
      assert (windows + [w])[i - 1] == windows[i - 1];
    }
  }

  lemma FedSnoc<C>(e: Encoder<C>, windows: seq<Fed>, w: Fed, size: nat, room: nat)
    requires Full(e, windows, size, room)
    requires var p := Flush(e, Before(e, windows, room, |windows|), w.bytes, room, w.mode, |w.outs|);
             p.status == Done && p.pos == |w.bytes| && p.outs == w.outs
    ensures forall i :: 0 <= i <= |windows| ==> FedAt(e, windows + [w], room, i)
    ensures forall i :: 0 <= i < |windows| ==> (windows + [w])[i] == windows[i]
  {
    forall i | 0 <= i <= |windows| ensures FedAt(e, windows + [w], room, i) {
      BeforeSnoc(e, windows, w, room, i);
      if i < |windows| {
        assert (windows + [w])[i] == windows[i];
        assert FedAt(e, windows, room, i);
      }
    }
  }

  lemma InputsSnoc(windows: seq<Fed>, w: Fed)
    ensures Inputs(windows + [w]) == Inputs(windows) + w.bytes
    ensures Chunks(windows + [w]) == Chunks(windows) + w.outs
  {
    assert (windows + [w])[..|windows|] == windows;
  }

  /** The window loop has fed the first `index` bytes and has come to encoder `c`. */
  ghost predicate FedSoFar<C>(e: Encoder<C>, windows: seq<Fed>, size: nat, room: nat, data: seq<Byte>,
                              c: C, index: nat)
  {
    && index <= |data| && Inputs(windows) == data[..index] && e.fed(c) == data[..index]
    && Full(e, windows, size, room) && c == Before(e, windows, room, |windows|) && e.open(c)
  }

  /** The encoder cannot fail on any call. */
  ghost predicate NeverFails<C(!new)>(e: Encoder<C>) {
    forall c, input, room: nat, mode :: e.call(c, input, room, mode).Encoded?
  }

  // ---- the loops ----

  /** The chunks after the header are `linked`, together `out`; their length is not yet in the header. */
  ghost predicate Holds(slice: FileSlice, out: seq<Byte>, linked: seq<seq<Byte>>)
    reads slice
  {
    && slice.Valid() && slice.cLen == 0 && slice.Payload() == out
    && linked == if slice.chunks == [] then [] else slice.chunks[1..]
  }

  method Link(slice: FileSlice, chunk: seq<Byte>, ghost out: seq<Byte>, ghost linked: seq<seq<Byte>>)
    requires Holds(slice, out, linked)
    modifies slice`chunks
    ensures Holds(slice, out + chunk, linked + [chunk]) && slice.chunks != []
  {
    slice.LinkCompressChunk(chunk);
  }

  ghost predicate IsFrameFor<C>(f: Format, e: Encoder<C>, c: C) {
    f.isFrame(e.out(c)) && f.plain(e.out(c)) == e.fed(c)
  }

  ghost predicate Bounded<C>(e: Encoder<C>, c: C) {
    |e.out(c)| <= OutBound(|e.fed(c)|)
  }

  /** What the calls for a window have done to the histories. */
  ghost predicate Fits<C>(f: Format, e: Encoder<C>, start: C, input: seq<Byte>, mode: Mode, p: Flushing<C>) {
    && p.pos <= |input| && e.fed(p.state) == e.fed(start) + input[..p.pos]
    && (p.status == Done ==> p.pos == |input| && (mode == End ==> IsFrameFor(f, e, p.state)))
    && (e.open(start) ==>
          if p.status == Done && mode == End then Bounded(e, p.state)
          else if p.status == Failed then true
          else e.open(p.state))
  }

  /** One more call. */
  lemma CallFits<C>(f: Format, e: Encoder<C>, start: C, input: seq<Byte>, room: nat, mode: Mode, p: Flushing<C>)
    requires Fits(f, e, start, input, mode, p) && p.status == Running
    requires room > 0 && EncodeCallOk(f, e, p.state, input[p.pos..], room, mode)
    ensures var r := e.call(p.state, input[p.pos..], room, mode);
            var q := FlushOne(e, p, input, room, mode);
            r.Encoded? ==>
              && e.out(r.state) == e.out(p.state) + r.output
              && Fits(f, e, start, input, mode, q)
              && (q.status == Running ==>
                    e.work(r.state, input[q.pos..], room, mode) < e.work(p.state, input[p.pos..], room, mode))
  {
    var r := e.call(p.state, input[p.pos..], room, mode);
    if r.Encoded? {
      WindowOfWindow(input, p.pos, r.consumed);
      AdjacentAfter(e.fed(start), input, p.pos, p.pos + r.consumed);
    }
  }

  /** The flush loop has come to `p`. */
  ghost predicate Flushed<C>(f: Format, e: Encoder<C>, start: C, input: seq<Byte>, room: nat, mode: Mode,
                             p: Flushing<C>)
  {
    p == Flush(e, start, input, room, mode, |p.outs|) && Fits(f, e, start, input, mode, p)
  }

  lemma FlushCall<C(!new)>(f: Format, e: Encoder<C>, start: C, input: seq<Byte>, room: nat, mode: Mode,
                           p: Flushing<C>)
    requires EncoderContract(f, e) && room > 0
    requires Flushed(f, e, start, input, room, mode, p) && p.status == Running
    ensures var rest := input[p.pos..];
            var r := e.call(p.state, rest, room, mode);
            if r.EncodeError? then Fails(e, start, input, room, mode, |p.outs| + 1)
            else
              && e.out(r.state) == e.out(p.state) + r.output
              && Flushed(f, e, start, input, room, mode,
                         Flushing(r.state, p.pos + r.consumed, p.outs + [r.output],
                                  if Finished(r, rest, mode) then Done else Running))
              && (!Finished(r, rest, mode) ==>
                    e.work(r.state, input[p.pos + r.consumed..], room, mode) < e.work(p.state, rest, room, mode))
  {
    assert EncodeCallOk(f, e, p.state, input[p.pos..], room, mode);
    CallFits(f, e, start, input, room, mode, p);
  }

  lemma FlushDone<C>(f: Format, e: Encoder<C>, start: C, input: seq<Byte>, room: nat, mode: Mode,
                     c: C, pos: nat, outs: seq<seq<Byte>>)
    requires Flushed(f, e, start, input, room, mode, Flushing(c, pos, outs, Done))
    ensures pos == |input| && e.fed(c) == e.fed(start) + input
    ensures Flush(e, start, input, room, mode, |outs|) == Flushing(c, |input|, outs, Done)
    ensures mode == End ==> IsFrameFor(f, e, c)
    ensures e.open(start) ==> if mode == End then Bounded(e, c) else e.open(c)
  {
    assert input[..pos] == input;
  }

  lemma OneMoreChunk(a: seq<seq<Byte>>, b: seq<seq<Byte>>, x: seq<Byte>)
    ensures a + b + [x] == a + (b + [x])
  {
  }

  /** The flush loop: one input window is fed to the encoder until the window is finished. */
  method CompressWindow<C(!new)>(f: Format, e: Encoder<C>, start: C, input: seq<Byte>, mode: Mode, room: nat,
                                 slice: FileSlice, ghost linked: seq<seq<Byte>>)
    returns (ok: bool, c: C, produced: nat, ghost outs: seq<seq<Byte>>)
    requires EncoderContract(f, e) && room > 0 && Holds(slice, e.out(start), linked)
    modifies slice`chunks
    ensures slice.Valid()
    ensures ok ==> Holds(slice, e.out(c), linked + outs) && slice.chunks != []
    ensures ok ==> Flushed(f, e, start, input, room, mode, Flushing(c, |input|, outs, Done))
    ensures ok ==> produced == |e.out(c)| - |e.out(start)|
    ensures !ok ==> Fails(e, start, input, room, mode, |outs| + 1)
    ensures NeverFails(e) ==> ok
  {
    c, produced, outs := start, 0, [];
    var pos: nat := 0;
    var finished := false;
    while !finished
      invariant Flushed(f, e, start, input, room, mode, Flushing(c, pos, outs, if finished then Done else Running))
      invariant Holds(slice, e.out(c), linked + outs) && (finished ==> slice.chunks != [])
      invariant produced == |e.out(c)| - |e.out(start)|
      decreases !finished, e.work(c, input[pos..], room, mode)
    {
      var rest := input[pos..];
      FlushCall(f, e, start, input, room, mode, Flushing(c, pos, outs, Running));
      var r := e.call(c, rest, room, mode);
      if r.EncodeError? {
        NotFailing(e, start, input, room, mode, |outs| + 1);
        return false, c, produced, outs;
      }
      OneMoreChunk(linked, outs, r.output);
      Link(slice, r.output, e.out(c), linked + outs);
      produced := produced + |r.output|;
      finished := Finished(r, rest, mode);
      c, pos, outs := r.state, pos + r.consumed, outs + [r.output];
    }
    FlushDone(f, e, start, input, room, mode, c, pos, outs);
    ok := true;
  }

  /** One more window. */
  lemma FeedWindow<C>(f: Format, e: Encoder<C>, windows: seq<Fed>, size: nat, room: nat, data: seq<Byte>,
                      c: C, index: nat, w: Fed, c': C)
    requires FedSoFar(e, windows, size, room, data, c, index)
    requires index + |w.bytes| <= |data| && w.bytes == data[index..index + |w.bytes|]
    requires Flushed(f, e, c, w.bytes, room, w.mode, Flushing(c', |w.bytes|, w.outs, Done))
    ensures Chunks(windows + [w]) == Chunks(windows) + w.outs
    ensures |w.bytes| == size && w.mode == Continue ==>
              FedSoFar(e, windows + [w], size, room, data, c', index + size)
    ensures index + |w.bytes| == |data| && |w.bytes| <= size && w.mode == End && (w.bytes != [] || data == []) ==>
              && IsFrameFor(f, e, c') && e.fed(c') == data && Bounded(e, c')
              && Covers(e, windows + [w], size, room, data)
  {
    FlushDone(f, e, c, w.bytes, room, w.mode, c', |w.bytes|, w.outs);
    InputsSnoc(windows, w);
    FedSnoc(e, windows, w, size, room);
    BeforeSnoc(e, windows, w, room, |windows|);
    Adjacent(data, 0, index, index + |w.bytes|);
    assert data[..|data|] == data;
    assert (windows + [w])[|windows|] == w;
  }

  /** The window loop over the bytes of a slice. */
  method CompressWindows<C(!new)>(f: Format, e: Encoder<C>, data: seq<Byte>, size: nat, room: nat, slice: FileSlice)
    returns (ok: bool, ghost windows: seq<Fed>, ghost c: C)
    requires EncoderContract(f, e) && size > 0 && room > 0
    requires slice.Valid() && slice.chunks == []
    modifies slice
    ensures slice.Valid()
    ensures ok ==> slice.chunks != [] && slice.cLen == |slice.Payload()| && slice.Payload() == e.out(c)
    ensures ok ==> IsFrameFor(f, e, c) && e.fed(c) == data && Bounded(e, c)
    ensures ok ==> Covers(e, windows, size, room, data) && slice.chunks[1..] == Chunks(windows)
    ensures NeverFails(e) ==> ok
  {
    windows, c := [], e.init;
    var state := e.init;
    var index, compressedSize := 0, 0;
    while true
      invariant 0 <= index <= |data| && FedSoFar(e, windows, size, room, data, state, index)
      invariant Holds(slice, e.out(state), Chunks(windows)) && compressedSize == |e.out(state)|
      invariant index < |data| || data == []
      decreases |data| - index
    {
      var lastChunk := index + size >= |data|;
      var mode := if lastChunk then End else Continue;
      var actBuffInSize := if lastChunk then |data| - index else size;
      var input := data[index..index + actBuffInSize];
      var done, next, produced, outs := CompressWindow(f, e, state, input, mode, room, slice, Chunks(windows));
      if !done {
        return false, windows, c;
      }
      ghost var w := Fed(input, mode, outs);
      FeedWindow(f, e, windows, size, room, data, state, index, w, next);
      state, compressedSize, windows := next, compressedSize + produced, windows + [w];
      if lastChunk {
        slice.SetChunkLinksHeader(compressedSize);
        break;
      }
      index := index + actBuffInSize;
    }
    ok, c := true, state;
  }

  /**
   * The window loop.  On success the chunks after the header are what the encoder gives for the windows,
   * they are a frame for the slice, and the header holds their total length.  `context` tells whether the
   * library could give out a context.
   */
  method Compress<C(!new)>(f: Format, e: Encoder<C>, slice: FileSlice, streamIn: nat, streamOut: nat, context: bool)
    returns (ok: bool, ghost windows: seq<Fed>)
    requires EncoderContract(f, e)
    requires streamIn > 0 && streamOut > 0
    requires slice.Valid() && slice.chunks == [] && slice.InFile()
    modifies slice
    ensures slice.Valid()
    ensures ok ==> slice.chunks != [] && slice.cLen == |slice.Payload()|
    ensures ok ==> f.isFrame(slice.Payload()) && f.plain(slice.Payload()) == slice.Buf()
    ensures ok && slice.len < 0x10_0000 ==> Covers(e, windows, streamIn, streamOut, slice.Buf())
    ensures ok && slice.len >= 0x10_0000 ==> Covers(e, windows, 6815744, 4194304, slice.Buf())
    ensures ok ==> forall chunk :: chunk in slice.chunks[1..] ==>
              |chunk| <= if slice.len < 0x10_0000 then streamOut else 4194304
    ensures ok ==> slice.chunks[1..] == Chunks(windows)
    ensures ok ==> slice.cLen <= OutBound(slice.len)
    ensures context && NeverFails(e) ==> ok
    ensures !context ==> !ok
  {
    windows := [];
    if !context {
      return false, windows;
    }
    ghost var c;
    ok, windows, c := CompressWindows(f, e, slice.Buf(), InSize(slice.len, streamIn), OutSize(slice.len, streamOut),
                                      slice);
    if ok {
      ChunksFitRoom(f, e, windows, OutSize(slice.len, streamOut), |windows|);
      assert windows[..|windows|] == windows;
    }
  }

  /** No call gives more than its room. */
  lemma {:induction false} OutsFitRoom<C(!new)>(f: Format, e: Encoder<C>, c: C, input: seq<Byte>, room: nat, mode: Mode,
                                                k: nat)
    requires EncoderContract(f, e)
    ensures forall o :: o in Flush(e, c, input, room, mode, k).outs ==> |o| <= room
  {
    if k > 0 {
      OutsFitRoom(f, e, c, input, room, mode, k - 1);
      var p := Flush(e, c, input, room, mode, k - 1);
      if p.status == Running && p.pos <= |input| {
        assert EncodeCallOk(f, e, p.state, input[p.pos..], room, mode);
      }
    }
  }

  lemma {:induction false} ChunksFitRoom<C(!new)>(f: Format, e: Encoder<C>, windows: seq<Fed>, room: nat, k: nat)
    requires EncoderContract(f, e) && k <= |windows|
    requires forall i :: 0 <= i < |windows| ==> FedAt(e, windows, room, i)
    ensures forall o :: o in Chunks(windows[..k]) ==> |o| <= room
  {
    if k > 0 {
      ChunksFitRoom(f, e, windows, room, k - 1);
      var w := windows[k - 1];
      assert FedAt(e, windows, room, k - 1);
      OutsFitRoom(f, e, Before(e, windows, room, k - 1), w.bytes, room, w.mode, |w.outs|);
      assert windows[..k][..k - 1] == windows[..k - 1];
    }
  }

  lemma {:induction false} NotFailing<C(!new)>(e: Encoder<C>, c: C, input: seq<Byte>, room: nat, mode: Mode, k: nat)
    ensures NeverFails(e) ==> !Fails(e, c, input, room, mode, k)
  {
    if k > 0 {
      NotFailing(e, c, input, room, mode, k - 1);
    }
  }
}
