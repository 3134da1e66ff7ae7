/** The sender: write loops, the work on one slice, and the program order. */
module Sending {
  import opened Bytes
  import opened Framing
  import opened FileSlices
  import opened Codec
  import opened Compression
  import opened Sockets
  import opened TextHeader
  import opened Geometry

  /** What is left of a chunk of `n` bytes after a call. */
  function LeftAfter(r: IoEvent, n: nat): nat {
    if r.Moved? then n - Min(r.n, n) else n
  }

  /**
   * Chunks of the given sizes go out: would-block and interruption retry, and no call fails or moves nothing of a
   * chunk before they are through.  An empty chunk takes one call, too.
   */
  predicate Takes(script: seq<IoEvent>, sizes: seq<nat>)
    decreases |script|
  {
    sizes == [] ||
    (script != [] && script[0] != Broken && !(script[0] == Moved(0) && sizes[0] > 0) &&
     var left := LeftAfter(script[0], sizes[0]);
     Takes(script[1..], if left == 0 then sizes[1..] else [left] + sizes[1..]))
  }

  function Sizes(chunks: seq<seq<Byte>>): (sizes: seq<nat>)
    ensures |sizes| == |chunks| && forall i :: 0 <= i < |chunks| ==> sizes[i] == |chunks[i]|
  {
    seq(|chunks|, i requires 0 <= i < |chunks| => |chunks[i]|)
  }

  /** A write loop has written `part` and met with no trouble. */
  ghost predicate Going(start: Log, part: seq<Byte>, l: Log) {
    && Honest(l) && l.script == start.script && l.sent == start.sent + part
    && l.broken == start.broken && l.stalled == start.stalled
  }

  /** What remains of the script decides whether `sizes` go out. */
  ghost predicate Decides(start: Log, sizes: seq<nat>, l: Log, left: seq<nat>) {
    && start.calls <= |start.script| && l.calls <= |l.script|
    && (Takes(start.script[start.calls..], sizes) <==> Takes(l.script[l.calls..], left))
  }

  /** One write of the first `n` bytes that remain. */
  lemma OneCall(start: Log, sizes: seq<nat>, l: Log, n: nat, more: seq<nat>, buf: seq<Byte>)
    requires Decides(start, sizes, l, [n] + more) && |buf| == n
    ensures var r, l' := Told(l, n), Written(l, buf);
            var left := LeftAfter(r, n);
            if r.Broken? || (r == Moved(0) && n > 0) then !Takes(start.script[start.calls..], sizes)
            else Decides(start, sizes, l', if left == 0 then more else [left] + more)
  {
    if l.calls < |l.script| {
      assert l.script[l.calls..][1..] == l.script[l.calls + 1..];
      assert ([n] + more)[1..] == more;
    }
  }

  /** One write of the rest of a chunk. */
  lemma WriteRest(start: Log, chunk: seq<Byte>, w: nat, l: Log)
    requires w <= |chunk| && Going(start, chunk[..w], l)
    ensures var r, l' := Told(l, |chunk| - w), Written(l, chunk[w..]);
            && Honest(l') && l'.script == start.script && (r.Broken? || |l'.script| - l'.calls < |l.script| - l.calls)
            && match r
               case Broken => l'.broken && l'.sent == start.sent + chunk[..w]
               case Moved(n) =>
                 && w + n <= |chunk|
                 && (n > 0 || w == |chunk| ==> Going(start, chunk[..w + n], l'))
                 && (n == 0 && w < |chunk| ==>
                       l'.stalled && l'.broken == start.broken && l'.sent == start.sent + chunk[..w])
               case _ => Going(start, chunk[..w], l')
  {
    WrittenHonest(l, chunk[w..]);
    var r := Told(l, |chunk| - w);
    if r.Moved? {
      WindowOfWindow(chunk, w, r.n);
      AdjacentAfter(start.sent, chunk, w, w + r.n);
    }
  }

  /** The write loop of a chunk has written `w` bytes and met with no trouble; what remains of the script decides. */
  ghost predicate Midway(start: Log, chunk: seq<Byte>, more: seq<nat>, w: nat, again: bool, l: Log) {
    && w <= |chunk| && Going(start, chunk[..w], l) && (!again ==> w == |chunk|)
    && Decides(start, [|chunk|] + more, l, if again then [|chunk| - w] + more else more)
  }

  /**
   * What became of a chunk: `part` of it was written; a failed call is reported, and a call that moved nothing cuts
   * it short.  If all of it was written, the rest of the script decides about the chunks of `more`.
   */
  ghost predicate ChunkOutcome(start: Log, chunk: seq<Byte>, more: seq<nat>, ok: bool, part: seq<Byte>, l: Log) {
    && Honest(l) && l.script == start.script && part <= chunk && l.sent == start.sent + part
    && (if ok then l.broken == start.broken && l.stalled == (start.stalled || part != chunk) else l.broken)
    && if ok && part == chunk then Decides(start, [|chunk|] + more, l, more)
       else start.calls <= |start.script| && !Takes(start.script[start.calls..], [|chunk|] + more)
  }

  lemma ChunkDone(start: Log, chunk: seq<Byte>, more: seq<nat>, w: nat, l: Log)
    requires Midway(start, chunk, more, w, false, l)
    ensures chunk[..w] == chunk && ChunkOutcome(start, chunk, more, true, chunk, l)
  {
  }

  lemma ChunkStep(start: Log, chunk: seq<Byte>, more: seq<nat>, w: nat, l: Log)
    requires Midway(start, chunk, more, w, true, l)
    ensures var r, l' := Told(l, |chunk| - w), Written(l, chunk[w..]);
            && (r.Broken? || |l'.script| - l'.calls < |l.script| - l.calls)
            && match r
               case Broken => ChunkOutcome(start, chunk, more, false, chunk[..w], l')
               case Moved(n) =>
                 && w + n <= |chunk|
                 && if n == 0 then ChunkOutcome(start, chunk, more, true, chunk[..w], l')
                    else Midway(start, chunk, more, w + n, w + n < |chunk|, l')
               case _ => Midway(start, chunk, more, w, w < |chunk|, l')
  {
    WriteRest(start, chunk, w, l);
    OneCall(start, [|chunk|] + more, l, |chunk| - w, more, chunk[w..]);
    if Told(l, |chunk| - w) == Moved(0) && w == |chunk| {
      ChunkDone(start, chunk, more, w, Written(l, chunk[w..]));
    }
  }

  /** Writes one chunk; a write of zero bytes abandons it, would-block and interruption retry. */
  method SendChunk(chunk: seq<Byte>, fd: OutSocket, ghost more: seq<nat>) returns (ok: bool, part: seq<Byte>)
    requires Honest(fd.History())
    modifies fd
    ensures ChunkOutcome(old(fd.History()), chunk, more, ok, part, fd.History())
  {
    var w := 0;
    var again := true;
    ghost var start := fd.History();
    assert Midway(start, chunk, more, 0, true, start);
    while again
      invariant 0 <= w && Midway(start, chunk, more, w, again, fd.History())
      decreases again, |fd.script| - fd.calls
    {
      ChunkStep(start, chunk, more, w, fd.History());
      var r := fd.Write(chunk[w..]);
      if r.Broken? {
        return false, chunk[..w];
      }
      if r == Moved(0) {
        return true, chunk[..w]; // leaves the loop
      }
      if r.Moved? {
        w := w + r.n;
      }
      again := |chunk| - w > 0;
    }
    ChunkDone(start, chunk, more, w, fd.History());
    ok, part := true, chunk;
  }

  /**
   * Writes the header and all chunks.  The final test compares only totals in unsigned arithmetic, yet
   * it accepts exactly the runs in which every byte went out in order.
   */
  method SendFileSlice(slice: FileSlice, fd: OutSocket, connected: bool) returns (code: int)
    requires slice.Valid() && slice.chunks != [] && slice.cLen == |slice.Payload()| < TWO64 - HEADER_LEN
    requires fd.Unused()
    modifies fd
    ensures Honest(fd.History()) && (code == 0 || code == -1)
    ensures code == 0 <==> connected && !fd.broken && fd.sent == Wire(slice.index, slice.len, slice.Payload())
    ensures code == 0 <==> connected && !fd.broken && !fd.stalled
    ensures code == 0 <==> connected && Takes(fd.script, Sizes(slice.chunks))
  {
    assert Flatten(slice.chunks) == Wire(slice.index, slice.len, slice.Payload());
    if !connected {
      return -1;
    }
    var ok, sumSent := SendChunks(slice.chunks, fd);
    if !ok {
      return -1;
    }
    WrappedTotal(sumSent, slice.cLen);
    if (sumSent - HEADER_LEN) % TWO64 != slice.cLen {
      return -1;
    }
    code := 0;
  }

  /** Writes chunk after chunk; the total tells whether all of it went out. */
  method SendChunks(chunks: seq<seq<Byte>>, fd: OutSocket) returns (ok: bool, sumSent: nat)
    requires fd.Unused()
    modifies fd
    ensures Honest(fd.History()) && (ok <==> !fd.broken)
    ensures ok ==> sumSent == |fd.sent| <= |Flatten(chunks)|
    ensures ok ==> (sumSent == |Flatten(chunks)| <==> fd.sent == Flatten(chunks))
    ensures ok ==> (sumSent == |Flatten(chunks)| <==> !fd.stalled)
    ensures ok && !fd.stalled <==> Takes(fd.script, Sizes(chunks))
  {
    ghost var start := fd.History();
    assert fd.script[0..] == fd.script && chunks[0..] == chunks;
    sumSent := 0;
    var parts: seq<seq<Byte>> := [];
    var i := 0;
    while i < |chunks|
      invariant 0 <= i <= |chunks| && |parts| == i && Prefixes(parts, chunks)
      invariant Honest(fd.History()) && fd.sent == Flatten(parts) && sumSent == |fd.sent| && !fd.broken
      invariant fd.stalled <==> parts != chunks[..i]
      invariant fd.script == start.script
      invariant if fd.stalled then !Takes(fd.script, Sizes(chunks))
                else Decides(start, Sizes(chunks), fd.History(), Sizes(chunks[i..]))
    {
      SizesFrom(chunks, i);
      var done, part := SendChunk(chunks[i], fd, Sizes(chunks[i + 1..]));
      if !done {
        return false, sumSent;
      }
      FlattenSnoc(parts, part);
      WholeSoFar(parts, chunks, part);
      parts := parts + [part];
      sumSent := sumSent + |part|;
      i := i + 1;
    }
    EqualTotalsMakePartsWhole(parts, chunks);
    assert chunks[..i] == chunks;
    ok := true;
  }

  lemma SizesFrom(chunks: seq<seq<Byte>>, i: nat)
    requires i < |chunks|
    ensures Sizes(chunks[i..]) == [|chunks[i]|] + Sizes(chunks[i + 1..])
  {
  }

  lemma WholeSoFar(parts: seq<seq<Byte>>, chunks: seq<seq<Byte>>, part: seq<Byte>)
    requires |parts| < |chunks|
    ensures parts + [part] == chunks[..|parts| + 1] <==> parts == chunks[..|parts|] && part == chunks[|parts|]
  {
    var n := |parts|;
    assert chunks[..n + 1] == chunks[..n] + [chunks[n]];
    if parts + [part] == chunks[..n + 1] {
      assert parts == (parts + [part])[..n] && part == (parts + [part])[n];
    }
  }

  lemma WrappedTotal(sumSent: nat, cLen: nat)
    requires sumSent <= HEADER_LEN + cLen < TWO64
    ensures (sumSent - HEADER_LEN) % TWO64 == cLen <==> sumSent == HEADER_LEN + cLen
  {
    if sumSent < HEADER_LEN {
      Quotient(sumSent + TWO64 - HEADER_LEN, TWO64, 0, sumSent + TWO64 - HEADER_LEN);
    }
  }

  /** `n` bytes go out before a call fails, moves nothing or would block. */
  predicate GoesOut(script: seq<IoEvent>, n: nat) {
    n == 0 ||
    (script != [] &&
     if script[0].Moved? then script[0].n > 0 && GoesOut(script[1..], n - Min(script[0].n, n))
     else script[0] == Interrupted && GoesOut(script[1..], n))
  }

  /** No call fails before `n` bytes are out or the loop gives up: at a call that moves nothing or would block. */
  predicate Survives(script: seq<IoEvent>, n: nat) {
    n == 0 ||
    (script != [] &&
     match script[0]
     case Moved(k) => k == 0 || Survives(script[1..], n - Min(k, n))
     case WouldBlock => true
     case Interrupted => Survives(script[1..], n)
     case Broken => false)
  }

  /** The header loop has written `w` bytes and met with no trouble; what remains decides. */
  ghost predicate Unhindered(h: seq<Byte>, w: nat, l: Log) {
    && w <= |h| && Honest(l) && l.sent == h[..w] && !l.broken && !l.stalled && !l.blocked
    && (GoesOut(l.script, |h|) <==> GoesOut(l.script[l.calls..], |h| - w))
    && (Survives(l.script, |h|) <==> Survives(l.script[l.calls..], |h| - w))
    && if l.calls == 0 then w == 0 else l.script[0] != WouldBlock
  }

  lemma WriteText(h: seq<Byte>, w: nat, l: Log)
    requires Unhindered(h, w, l) && w < |h|
    ensures var r, l' := Told(l, |h| - w), Written(l, h[w..]);
            && Honest(l') && l'.script == l.script && (r.Broken? || |l'.script| - l'.calls < |l.script| - l.calls)
            && match r
               case Moved(n) =>
                 if n > 0 then Unhindered(h, w + n, l')
                 else
                   && l'.stalled && !l'.broken && l'.sent == h[..w]
                   && !GoesOut(l.script, |h|) && Survives(l.script, |h|) && !([WouldBlock] <= l.script)
               case WouldBlock =>
                 && l'.blocked && !l'.broken && l'.sent == h[..w] && !GoesOut(l.script, |h|) && Survives(l.script, |h|)
                 && ([WouldBlock] <= l.script ==> w == 0)
               case Broken =>
                 && l'.broken && l'.sent == h[..w] && !GoesOut(l.script, |h|) && !Survives(l.script, |h|)
                 && !([WouldBlock] <= l.script)
               case Interrupted => Unhindered(h, w, l')
  {
    WrittenHonest(l, h[w..]);
    var r := Told(l, |h| - w);
    if l.calls < |l.script| {
      assert l.script[l.calls..][1..] == l.script[l.calls + 1..];
    }
    if r.Moved? {
      WindowOfWindow(h, w, r.n);
      Adjacent(h, 0, w, w + r.n);
    }
  }

  /** The write loop for the text header `h`: a zero-byte write or would-block ends it early. */
  method SendText(h: seq<Byte>, fd: OutSocket) returns (ok: bool)
    requires fd.Unused() && h != []
    modifies fd
    ensures Honest(fd.History()) && (ok <==> !fd.broken) && fd.sent <= h
    ensures fd.sent == h <==> GoesOut(fd.script, |h|)
    ensures ok <==> Survives(fd.script, |h|)
    ensures ok ==> (fd.sent == h <==> !fd.stalled && !fd.blocked)
    ensures [WouldBlock] <= fd.script ==> ok && fd.sent == []
  {
    var w := 0;
    assert fd.script[0..] == fd.script;
    while w < |h|
      invariant 0 <= w && Unhindered(h, w, fd.History())
      decreases |fd.script| - fd.calls
    {
      WriteText(h, w, fd.History());
      var r := fd.Write(h[w..]);
      if r.Broken? {
        return false;
      }
      if r == Moved(0) || r == WouldBlock {
        break;
      }
      if r.Moved? {
        w := w + r.n;
      }
    }
    ok := true;
  }

  /** Sends the text header.  A header cut short by a zero-byte write or would-block is reported as a success. */
  method SendFileSizeOnly(size: nat, num: nat, fd: OutSocket, connected: bool)
    returns (code: int)
    requires fd.Unused() && num < TWO16
    modifies fd
    ensures Honest(fd.History()) && (code == 0 || code == -1)
    ensures code == 0 <==> connected && !fd.broken
    ensures code == 0 <==> connected && Survives(fd.script, |Print(size, num)|)
    ensures fd.sent <= Print(size, num)
    ensures connected ==> (fd.sent == Print(size, num) <==> GoesOut(fd.script, |Print(size, num)|))
    ensures code == 0 ==> (fd.sent == Print(size, num) <==> !fd.stalled && !fd.blocked)
    ensures connected && [WouldBlock] <= fd.script ==> code == 0 && fd.sent == []
  {
    if !connected {
      return -1;
    }
    var ok := SendText(Print(size, num), fd);
    code := if ok then 0 else -1;
  }

  /** On a connection that would block at once the announcement is lost without notice. */
  method AnnouncementLost(size: nat, num: nat) returns (code: int, sent: seq<Byte>)
    requires num < TWO16
    ensures code == 0 && sent == []
  {
    var fd := new OutSocket([WouldBlock]);
    code := SendFileSizeOnly(size, num, fd, true);
    sent := fd.sent;
  }

  /** What the network and the library do for one connection. */
  datatype Env = Env(connected: bool, context: bool, script: seq<IoEvent>)

  /** What compression has made of a slice: nothing, or chunks of these sizes, the header first. */
  datatype Packing = NotPacked | Packed(sizes: seq<nat>)

  /** Nothing goes wrong with a slice: it was compressed, and its connection takes all chunks. */
  predicate Smooth(packing: Packing, env: Env) {
    packing.Packed? && env.connected && Takes(env.script, packing.sizes)
  }

  /** The sizes are those of the chunks that the encoder, run from its start, gives for `data`. */
  ghost predicate PacksAs<C>(e: Encoder<C>, data: seq<Byte>, streamIn: nat, streamOut: nat, sizes: seq<nat>) {
    exists windows ::
      && Covers(e, windows, InSize(|data|, streamIn), OutSize(|data|, streamOut), data)
      && sizes == [HEADER_LEN] + Sizes(Chunks(windows))
  }

  /** What the network and the library do for one slice. */
  ghost predicate Outcome<C(!new)>(f: Format, e: Encoder<C>, index: nat, data: seq<Byte>, streamIn: nat,
                                   streamOut: nat, env: Env, packing: Packing, log: Log)
  {
    && Honest(log) && log.script == env.script
    && (env.context && NeverFails(e) ==> packing.Packed?)
    && (!env.context ==> !packing.Packed?)
    && (packing.Packed? ==> PacksAs(e, data, streamIn, streamOut, packing.sizes))
    && (Smooth(packing, env) <==> packing.Packed? && env.connected && !log.broken && !log.stalled)
    && (Smooth(packing, env) ==> CarriesSlice(f, log.sent, index, data) && |log.sent| <= HEADER_LEN + OutBound(|data|))
  }

  /** The sender's work on one slice: compress, then send over a connection of its own. */
  method RunSlice<C(!new)>(f: Format, e: Encoder<C>, slice: FileSlice, streamIn: nat, streamOut: nat, env: Env)
    returns (delivered: bool, packing: Packing, log: Log)
    requires EncoderContract(f, e) && streamIn > 0 && streamOut > 0
    requires slice.Valid() && slice.chunks == [] && slice.InFile() && slice.len < TWO32
    modifies slice
    ensures delivered <==> Smooth(packing, env)
    ensures Outcome(f, e, slice.index, slice.Buf(), streamIn, streamOut, env, packing, log)
  {
    var fd := new OutSocket(env.script);
    var packed;
    ghost var windows;
    packed, windows := Compress(f, e, slice, streamIn, streamOut, env.context);
    if !packed {
      return false, NotPacked, fd.History();
    }
    packing := Packed(Sizes(slice.chunks));
    assert Sizes(slice.chunks) == [HEADER_LEN] + Sizes(slice.chunks[1..]);
    var code := SendFileSlice(slice, fd, env.connected);
    delivered, log := code == 0, fd.History();
    if delivered {
      assert log.sent[HEADER_LEN..] == slice.Payload();
    }
  }

  /** The connections carry the file: the text header first, then slice `i` on connection `i + 1`. */
  ghost predicate CarriesFile(f: Format, wires: seq<seq<Byte>>, file: seq<Byte>, s: nat) {
    && 0 < s <= |file|
    && |wires| == Count(|file|, s) + 1
    && wires[0] == Print(|file|, Count(|file|, s))
    && forall i: nat :: i < Count(|file|, s) ==> CarriesSlice(f, wires[i + 1], i, Window(file, s, i))
  }

  /** What came of slice `i`. */
  ghost predicate Report<C(!new)>(f: Format, e: Encoder<C>, file: seq<Byte>, s: nat, i: nat, streamIn: nat,
                                  streamOut: nat, env: Env, packing: Packing, log: Log)
    requires 0 < s <= |file| && i < Count(|file|, s)
  {
    Outcome(f, e, i, Window(file, s, i), streamIn, streamOut, env, packing, log)
  }

  /** What came of the first slices, and whether all of them went well. */
  ghost predicate Reports<C(!new)>(f: Format, e: Encoder<C>, file: seq<Byte>, s: nat, streamIn: nat, streamOut: nat,
                                   env: nat -> Env, ok: bool, packings: seq<Packing>, logs: seq<Log>)
    requires 0 < s <= |file|
  {
    && |packings| == |logs| <= Count(|file|, s)
    && (forall i: nat :: i < |logs| ==>
          Report(f, e, file, s, i, streamIn, streamOut, env(i + 1), packings[i], logs[i]))
    && (ok <==> forall i: nat :: i < |logs| ==> Smooth(packings[i], env(i + 1)))
  }

  lemma OneMoreReport<C(!new)>(f: Format, e: Encoder<C>, file: seq<Byte>, s: nat, streamIn: nat, streamOut: nat,
                               env: nat -> Env, ok: bool, packings: seq<Packing>, logs: seq<Log>, p: Packing, log: Log)
    requires 0 < s <= |file| && |logs| < Count(|file|, s)
    requires Reports(f, e, file, s, streamIn, streamOut, env, ok, packings, logs)
    requires Report(f, e, file, s, |logs|, streamIn, streamOut, env(|logs| + 1), p, log)
    ensures Reports(f, e, file, s, streamIn, streamOut, env, ok && Smooth(p, env(|logs| + 1)), packings + [p],
                    logs + [log])
  {
    var packings', logs' := packings + [p], logs + [log];
    assert packings'[|logs|] == p && logs'[|logs|] == log;
    assert forall i: nat :: i < |logs| ==> packings'[i] == packings[i] && logs'[i] == logs[i];
  }

  /** The slices of the file that are still to be sent. */
  ghost predicate Waiting(slices: seq<FileSlice>, file: seq<Byte>, s: nat, from: nat)
    requires 0 < s <= |file|
    reads slices
  {
    && |slices| == Count(|file|, s)
    && (forall i, k :: 0 <= i < k < |slices| ==> slices[i] != slices[k])
    && forall i :: from <= i < |slices| ==> IsCut(slices[i], file, s, i, SliceLen(|file|, s, i))
  }

  /** The job of slice `i`. */
  method SendSlice<C(!new)>(f: Format, e: Encoder<C>, slices: seq<FileSlice>, file: seq<Byte>, s: nat, i: nat,
                            streamIn: nat, streamOut: nat, env: Env)
    returns (delivered: bool, packing: Packing, log: Log)
    requires EncoderContract(f, e) && streamIn > 0 && streamOut > 0
    requires 0 < s <= |file| && s <= INT_MAX && Waiting(slices, file, s, i) && i < |slices| < TWO16
    modifies slices[i]
    ensures Waiting(slices, file, s, i + 1)
    ensures Report(f, e, file, s, i, streamIn, streamOut, env, packing, log)
    ensures delivered <==> Smooth(packing, env)
  {
    WindowInBounds(|file|, s, i);
    assert IsCut(slices[i], file, s, i, SliceLen(|file|, s, i));
    delivered, packing, log := RunSlice(f, e, slices[i], streamIn, streamOut, env);
  }

  /** One job for each slice; the jobs share nothing, so their order is immaterial. */
  method SendSlices<C(!new)>(f: Format, e: Encoder<C>, slices: seq<FileSlice>, file: seq<Byte>, s: nat,
                             streamIn: nat, streamOut: nat, env: nat -> Env)
    returns (ok: bool, packings: seq<Packing>, logs: seq<Log>)
    requires EncoderContract(f, e) && streamIn > 0 && streamOut > 0
    requires 0 < s <= |file| && s <= INT_MAX && Waiting(slices, file, s, 0) && |slices| < TWO16
    modifies slices
    ensures |logs| == Count(|file|, s) && Reports(f, e, file, s, streamIn, streamOut, env, ok, packings, logs)
  {
    ok, packings, logs := true, [], [];
    while |logs| < |slices|
      invariant |logs| <= |slices| && Waiting(slices, file, s, |logs|)
      invariant Reports(f, e, file, s, streamIn, streamOut, env, ok, packings, logs)
      decreases |slices| - |logs|
    {
      var i := |logs|;
      var delivered, p, log := SendSlice(f, e, slices, file, s, i, streamIn, streamOut, env(i + 1));
      OneMoreReport(f, e, file, s, streamIn, streamOut, env, ok, packings, logs, p, log);
      ok, packings, logs := ok && delivered, packings + [p], logs + [log];
    }
  }

  /** What went out on the connections. */
  function Wires(logs: seq<Log>): (wires: seq<seq<Byte>>)
    ensures |wires| == |logs| && forall i :: 0 <= i < |logs| ==> wires[i] == logs[i].sent
  {
    seq(|logs|, i requires 0 <= i < |logs| => logs[i].sent)
  }

  /** The announcement does not fail. */
  predicate Announced(file: seq<Byte>, s: nat, env: Env)
    requires 0 < s <= |file|
  {
    env.connected && Survives(env.script, |Print(|file|, Count(|file|, s))|)
  }

  /** What came of the announcement and of the slices; without the announcement no slice is sent. */
  ghost predicate Account<C(!new)>(f: Format, e: Encoder<C>, file: seq<Byte>, s: nat, streamIn: nat, streamOut: nat,
                                   env: nat -> Env, ok: bool, packings: seq<Packing>, logs: seq<Log>)
    requires 0 < s <= |file|
  {
    && logs != [] && Honest(logs[0]) && logs[0].script == env(0).script
    && logs[0].sent <= Print(|file|, Count(|file|, s))
    && (Announced(file, s, env(0)) <==> env(0).connected && !logs[0].broken)
    && if Announced(file, s, env(0))
       then |logs| == Count(|file|, s) + 1 && Reports(f, e, file, s, streamIn, streamOut, env, ok, packings, logs[1..])
       else |logs| == 1 && !ok
  }

  lemma CarriesFromReports<C(!new)>(f: Format, e: Encoder<C>, file: seq<Byte>, s: nat, streamIn: nat, streamOut: nat,
                                    env: nat -> Env, packings: seq<Packing>, logs: seq<Log>)
    requires 0 < s <= |file| && |logs| == Count(|file|, s) + 1
    requires Reports(f, e, file, s, streamIn, streamOut, env, true, packings, logs[1..])
    ensures CarriesFile(f, Wires(logs), file, s) <==> logs[0].sent == Print(|file|, Count(|file|, s))
  {
    var rest, wires := logs[1..], Wires(logs);
    forall i: nat | i < |rest| ensures CarriesSlice(f, wires[i + 1], i, Window(file, s, i)) {
      assert wires[i + 1] == rest[i].sent;
      assert Smooth(packings[i], env(i + 1));
      assert Report(f, e, file, s, i, streamIn, streamOut, env(i + 1), packings[i], rest[i]);
    }
  }

  /** Announces the cut and sends it.  A failed announcement ends the program. */
  method SendCut<C(!new)>(f: Format, e: Encoder<C>, slices: seq<FileSlice>, file: seq<Byte>, s: nat,
                          streamIn: nat, streamOut: nat, env: nat -> Env)
    returns (ok: bool, packings: seq<Packing>, logs: seq<Log>)
    requires EncoderContract(f, e) && streamIn > 0 && streamOut > 0
    requires 0 < s <= |file| && s <= INT_MAX && Waiting(slices, file, s, 0) && |slices| < TWO16
    modifies slices
    ensures Account(f, e, file, s, streamIn, streamOut, env, ok, packings, logs)
    ensures ok ==> (CarriesFile(f, Wires(logs), file, s) <==> GoesOut(env(0).script, |Print(|file|, Count(|file|, s))|))
    ensures ok ==> (CarriesFile(f, Wires(logs), file, s) <==> !logs[0].stalled && !logs[0].blocked)
  {
    var fd := new OutSocket(env(0).script);
    var num := |slices| % TWO16; // the count is passed as an unsigned short
    assert num == |slices|;
    var code := SendFileSizeOnly(|file|, num, fd, env(0).connected);
    var log := fd.History();
    if code != 0 {
      return false, [], [log];
    }
    var rest;
    ok, packings, rest := SendSlices(f, e, slices, file, s, streamIn, streamOut, env);
    logs := [log] + rest;
    assert logs[1..] == rest;
    if ok {
      CarriesFromReports(f, e, file, s, streamIn, streamOut, env, packings, logs);
    }
  }

  /**
   * The sender's program order: cut, announce, then one job for each slice.  All jobs succeed exactly when the
   * announcement does not fail and every slice goes smoothly; and then the connections carry the file exactly
   * when the announcement was not cut short.
   */
  method SendFile<C(!new)>(f: Format, e: Encoder<C>, file: seq<Byte>, configured: nat, jobs: nat,
                           streamIn: nat, streamOut: nat, env: nat -> Env)
    returns (ok: bool, s: nat, packings: seq<Packing>, logs: seq<Log>)
    requires EncoderContract(f, e) && streamIn > 0 && streamOut > 0
    requires configured == 0 ==> 1 <= jobs <= |file|
    requires 0 < Segment(|file|, configured, jobs) <= |file|
    requires Count(|file|, Segment(|file|, configured, jobs)) < TWO16
    ensures s == Segment(|file|, configured, jobs)
    ensures Account(f, e, file, s, streamIn, streamOut, env, ok, packings, logs)
    ensures ok ==> (CarriesFile(f, Wires(logs), file, s) <==> GoesOut(env(0).script, |Print(|file|, Count(|file|, s))|))
    ensures ok ==> (CarriesFile(f, Wires(logs), file, s) <==> !logs[0].stalled && !logs[0].blocked)
  {
    var slices, newJobs;
    slices, s, newJobs := SplitFile(file, configured, jobs);
    ok, packings, logs := SendCut(f, e, slices, file, s, streamIn, streamOut, env);
  }

  ghost predicate SoundFor<C(!new)>(e: Encoder<C>, data: seq<Byte>, streamIn: nat, streamOut: nat, env: Env) {
    && env.connected && env.context
    && forall sizes :: PacksAs(e, data, streamIn, streamOut, sizes) ==> Takes(env.script, sizes)
  }

  /** The library gives out contexts and does not fail, and every connection takes what the encoder makes of its
      slice. */
  ghost predicate SoundNetwork<C(!new)>(e: Encoder<C>, file: seq<Byte>, s: nat, streamIn: nat, streamOut: nat,
                                        env: nat -> Env)
    requires 0 < s <= |file|
  {
    && NeverFails(e) && Announced(file, s, env(0))
    && forall i: nat :: i < Count(|file|, s) ==> SoundFor(e, Window(file, s, i), streamIn, streamOut, env(i + 1))
  }

  /** With a sound library and a sound network every job succeeds. */
  lemma SoundNetworkSends<C(!new)>(f: Format, e: Encoder<C>, file: seq<Byte>, s: nat, streamIn: nat, streamOut: nat,
                                   env: nat -> Env, ok: bool, packings: seq<Packing>, logs: seq<Log>)
    requires 0 < s <= |file| && Account(f, e, file, s, streamIn, streamOut, env, ok, packings, logs)
    requires SoundNetwork(e, file, s, streamIn, streamOut, env)
    ensures ok
  {
    var rest := logs[1..];
    forall i: nat | i < |rest| ensures Smooth(packings[i], env(i + 1)) {
      assert Report(f, e, file, s, i, streamIn, streamOut, env(i + 1), packings[i], rest[i]);
      assert SoundFor(e, Window(file, s, i), streamIn, streamOut, env(i + 1));
    }
  }
}
