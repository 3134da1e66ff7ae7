/**
 * All connection handlers of one transfer, interleaved.  A step is one wake-up of one handler with any number
 * of the bytes that are on the way, or one decoder call of one handler writing to the shared output file.
 * Connection 0 carries the text header and connection i + 1 carries slice i.
 */
module Delivery {
  import opened Bytes
  import opened Codec
  import opened Framing
  import opened TextHeader
  import opened Reception
  import opened Decompression
  import opened Receiver

  datatype Phase<+D> =
    | Reading(l: Local)
    | Decoding(index: nat, st: D, inPos: nat, outIndex: nat)
    | Exited(outcome: Outcome)

  datatype Conn<+D> = Conn(pos: nat, phase: Phase<D>)

  /** `fault` is set by undefined behaviour, after which nothing is claimed. */
  datatype Net<+D> = Net(sh: Shared, out: seq<Byte>, conns: seq<Conn<D>>, fault: bool)

  /** What is on the connections, the library that decodes it, and what it is meant to be: a file of
      `size` bytes whose part `i` belongs at `i * stride`. */
  datatype Job<!D> = Job(f: Format, d: Decoder<D>, wires: seq<seq<Byte>>, size: nat, stride: nat,
                         parts: seq<seq<Byte>>)

  datatype Event =
    | WakeUp(c: nat, n: nat)  // a wake-up of handler `c` reads `n` bytes
    | ReadFails(c: nat)       // a read reports an error
    | NoContext(c: nat)       // the library has no decoder context to give
    | DecodeCall(c: nat)
    | DecodeEnd(c: nat)

  function Init<D>(job: Job<D>): Net<D> {
    Net(Shared(0, 0, 0, 0, false, map[]), [], seq(|job.wires|, _ => Conn(0, Reading(Fresh))), false)
  }

  predicate Enabled<D>(job: Job<D>, s: Net<D>, e: Event) {
    && !s.fault && e.c < |s.conns| == |job.wires|
    && var conn := s.conns[e.c];
       match e
       case WakeUp(c, n) =>
         && conn.phase.Reading? && Active(s.sh, conn.phase.l)
         && n <= Quota(s.sh, conn.phase.l) && conn.pos + n <= |job.wires[c]|
       case ReadFails(c) => conn.phase.Reading?
       case NoContext(c) => conn.phase.Decoding? && conn.phase.inPos == 0 && conn.phase.outIndex == 0
       case DecodeCall(c) =>
         && conn.phase.Decoding? && conn.phase.index in s.sh.slices
         && conn.phase.inPos < |s.sh.slices[conn.phase.index].got|
         && conn.phase.outIndex <= s.sh.slices[conn.phase.index].len != 0
       case DecodeEnd(c) =>
         && conn.phase.Decoding? && conn.phase.index in s.sh.slices
         && conn.phase.inPos >= |s.sh.slices[conn.phase.index].got|
  }

  function AfterWake<D>(d: Decoder<D>, l: Local): Phase<D> {
    match l
    case Complete(i) => Decoding(i, d.init, 0, 0)
    case Left(o) => Exited(o)
    case _ => Reading(l)
  }

  function Zeros(n: nat): (s: seq<Byte>)
    ensures |s| == n
  {
    seq(n, _ => 0)
  }

  /** The state after a wake-up that read `n` bytes and came to `r`. */
  function Woken<D>(job: Job<D>, s: Net<D>, c: nat, n: nat, r: (Shared, Local)): Net<D>
    requires c < |s.conns|
  {
    Net(r.0, if r.0.mapped && !s.sh.mapped then Zeros(r.0.fileSize) else s.out,
        s.conns[c := Conn(s.conns[c].pos + n, AfterWake(job.d, r.1))], r.1 == Left(Undefined))
  }

  function NextWake<D>(job: Job<D>, s: Net<D>, c: nat, n: nat): Net<D>
    requires Enabled(job, s, WakeUp(c, n))
  {
    var conn := s.conns[c];
    Woken(job, s, c, n, Wake(s.sh, conn.phase.l, job.wires[c][conn.pos..conn.pos + n]))
  }

  /** The state after a decoder call that gave `r`, with its output to be written at `at`. */
  function Called<D>(s: Net<D>, c: nat, at: nat, r: DecodeResult<D>): Net<D>
    requires c < |s.conns| && s.conns[c].phase.Decoding?
  {
    var conn := s.conns[c];
    match r
    case DecodeError => s.(conns := s.conns[c := conn.(phase := Exited(Code(-1)))])
    case Decoded(st, consumed, output) =>
      if at + |output| > |s.out| then s.(fault := true)
      else
        s.(out := Splice(s.out, at, output),
           conns := s.conns[c := conn.(phase := Decoding(conn.phase.index, st, conn.phase.inPos + consumed,
                                                         conn.phase.outIndex + |output|))])
  }

  function NextDecode<D>(job: Job<D>, s: Net<D>, c: nat): Net<D>
    requires Enabled(job, s, DecodeCall(c))
  {
    var p := s.conns[c].phase;
    var info := s.sh.slices[p.index];
    Called(s, c, info.base + p.outIndex, job.d.call(p.st, info.got[p.inPos..], info.len - p.outIndex))
  }

  function Next<D>(job: Job<D>, s: Net<D>, e: Event): Net<D>
    requires Enabled(job, s, e)
  {
    var conn := s.conns[e.c];
    match e
    case WakeUp(c, n) => NextWake(job, s, c, n)
    case ReadFails(c) => s.(conns := s.conns[c := conn.(phase := Exited(Code(-1)))])
    case NoContext(c) => s.(conns := s.conns[c := conn.(phase := Exited(Code(-1)))])
    case DecodeCall(c) => NextDecode(job, s, c)
    case DecodeEnd(c) =>
      var p := conn.phase;
      s.(conns := s.conns[c := conn.(phase := Exited(DecompressOutcome(ToInt32(p.outIndex),
                                                                       s.sh.slices[p.index].len)))])
  }

  /** What the design relies on: the text header arrives in one piece and before any slice is looked at,
      and the first wake-up of a slice connection brings its whole slice header. */
  predicate Disciplined<D>(job: Job<D>, s: Net<D>, e: Event)
    requires Enabled(job, s, e)
  {
    e.WakeUp? && s.conns[e.c].phase == Reading(Fresh) ==>
      if e.c == 0 then e.n == |job.wires[0]| && !s.sh.mapped else s.sh.mapped && e.n >= HEADER_LEN
  }

  ghost predicate Reaches<D>(job: Job<D>, s: Net<D>, es: seq<Event>, t: Net<D>)
    decreases |es|
  {
    if es == [] then s == t
    else Enabled(job, s, es[0]) && Disciplined(job, s, es[0]) && Reaches(job, Next(job, s, es[0]), es[1..], t)
  }

  // ---- invariants ----

  function Payload<D>(job: Job<D>, i: nat): seq<Byte>
    requires i + 1 < |job.wires|
  {
    var wire := job.wires[i + 1];
    if |wire| < HEADER_LEN then [] else wire[HEADER_LEN..]
  }

  /** Connection i + 1 carries part `i`. */
  ghost predicate PartOk<D>(job: Job<D>, i: nat)
    requires i < |job.parts| && i + 1 < |job.wires|
  {
    && WellFramed(job.wires[i + 1], i, |job.parts[i]|)
    && job.f.isFrame(Payload(job, i)) && job.f.plain(Payload(job, i)) == job.parts[i]
    && 0 < |job.parts[i]| < TWO32
  }

  ghost predicate Works<D(!new)>(job: Job<D>) {
    && FormatContract(job.f) && DecoderContract(job.f, job.d)
    && |job.wires| == |job.parts| + 1 && job.parts != []
    && forall i: nat :: i < |job.parts| ==> PartOk(job, i)
  }

  /** The text header on connection 0 announces the size and the number of parts. */
  ghost predicate Announces<D>(job: Job<D>) {
    && job.wires != [] && job.parts != []
    && 0 < |job.wires[0]| <= TEXT_MAX
    && Parse(job.wires[0]) == Parsed(job.size, |job.parts|)
    && job.stride == job.size / |job.parts|
  }

  /** What the header handler has left in the shared variables. */
  ghost predicate Announced<D>(job: Job<D>, sh: Shared) {
    && sh.mapped && sh.splitLen == job.stride && sh.fileSize == job.size && sh.slicesNum == |job.parts|
    && sh.readsMax >= SMALL_READ
  }

  /** The handler of slice `i`: reassembly of its payload, then decoding in step, then a result. */
  ghost predicate SliceOk<D>(job: Job<D>, net: Net<D>, i: nat)
    requires i < |job.parts| && |net.conns| == |job.wires| == |job.parts| + 1
  {
    var conn, z, len, base := net.conns[i + 1], Payload(job, i), |job.parts[i]|, i * job.stride;
    match conn.phase
    case Reading(l) => Active(net.sh, l) && Reassembled(net.sh, l, i, len, z, conn.pos)
    case Decoding(index, st, inPos, outIndex) =>
      && index == i && i in net.sh.slices && net.sh.slices[i] == Info(len, |z|, base, z)
      && Tracks(job.f, job.d, z, st, inPos)
      && outIndex == |job.d.out(st)| <= len
      && (outIndex > 0 ==> base + outIndex <= job.size)
    case Exited(outcome) =>
      && (outcome == Code(0) || outcome == Code(-1))
      && (outcome == Code(0) ==> len < TWO31 && base + len <= job.size)
  }

  ghost predicate Before<D>(net: Net<D>) {
    && net.sh == Shared(0, 0, 0, 0, false, map[])
    && forall c :: 0 <= c < |net.conns| ==>
         net.conns[c].pos == 0 && (net.conns[c].phase == Reading(Fresh) || net.conns[c].phase == Exited(Code(-1)))
  }

  ghost predicate After<D>(job: Job<D>, net: Net<D>)
    requires |net.conns| == |job.wires| == |job.parts| + 1
  {
    && Announced(job, net.sh)
    && |net.out| == job.size
    && net.conns[0].phase == Exited(Code(0))
    && forall i: nat :: i < |job.parts| ==> SliceOk(job, net, i)
  }

  ghost predicate Inv<D>(job: Job<D>, net: Net<D>) {
    && |net.conns| == |job.wires| == |job.parts| + 1
    && (!net.fault ==> if net.sh.mapped then After(job, net) else Before(net))
  }

  // ---- steps ----

  /** The one wake-up of the header handler. */
  lemma HeaderStep<D>(job: Job<D>, net: Net<D>)
    requires Announces(job) && Inv(job, net) && !net.sh.mapped
    requires Enabled(job, net, WakeUp(0, |job.wires[0]|))
    ensures var t := NextWake(job, net, 0, |job.wires[0]|);
            && !t.fault && t.conns[0].phase == Exited(Code(0))
            && Announced(job, t.sh) && t.sh.slices == map[] && |t.out| == job.size
  {
    assert job.wires[0][0..|job.wires[0]|] == job.wires[0];
  }

  /** The handler of slice `i` after its reassembly has advanced. */
  ghost predicate WokenOk<D>(job: Job<D>, net: Net<D>, t: Net<D>, i: nat)
    requires i < |job.parts| && |t.conns| == |job.wires| == |job.parts| + 1
  {
    && i in t.sh.slices && t.sh == net.sh.(slices := net.sh.slices[i := t.sh.slices[i]])
    && SliceOk(job, t, i)
    && !t.conns[i + 1].phase.Exited?
    && (t.conns[i + 1].phase.Decoding? ==> t.conns[i + 1].phase == Decoding(i, job.d.init, 0, 0))
  }

  lemma AfterAdvance<D(!new)>(job: Job<D>, net: Net<D>, i: nat, n: nat, r: (Shared, Local))
    requires FormatContract(job.f) && DecoderContract(job.f, job.d)
    requires i < |job.parts| && |net.conns| == |job.wires| == |job.parts| + 1
    requires Announced(job, net.sh) && net.conns[i + 1].pos + n > 0
    requires Advanced(net.sh, r, i, |job.parts[i]|, Payload(job, i), net.conns[i + 1].pos + n)
    ensures var t := Woken(job, net, i + 1, n, r); !t.fault && t.out == net.out && WokenOk(job, net, t, i)
  {
    var z := Payload(job, i);
    if r.1.Complete? {
      TracksInit(job.f, job.d, z);
      assert z[..|z|] == z;
    }
  }

  /** The reassembly that a wake-up of slice `i` makes. */
  lemma WakeAdvances<D>(job: Job<D>, net: Net<D>, i: nat, n: nat)
    requires |net.conns| == |job.wires| == |job.parts| + 1 && i < |job.parts|
    requires PartOk(job, i) && SliceOk(job, net, i) && Announced(job, net.sh)
    requires var e := WakeUp(i + 1, n); Enabled(job, net, e) && Disciplined(job, net, e)
    ensures var conn := net.conns[i + 1];
            && conn.pos + n > 0
            && Advanced(net.sh, Wake(net.sh, conn.phase.l, job.wires[i + 1][conn.pos..conn.pos + n]), i,
                        |job.parts[i]|, Payload(job, i), conn.pos + n)
  {
    var conn := net.conns[i + 1];
    WakeReassembles(net.sh, conn.phase.l, i, |job.parts[i]|, job.wires[i + 1], conn.pos, n);
  }

  lemma WakeKeeps<D(!new)>(job: Job<D>, net: Net<D>, i: nat, n: nat)
    requires FormatContract(job.f) && DecoderContract(job.f, job.d)
    requires |net.conns| == |job.wires| == |job.parts| + 1 && i < |job.parts|
    requires PartOk(job, i) && SliceOk(job, net, i) && Announced(job, net.sh)
    requires var e := WakeUp(i + 1, n); Enabled(job, net, e) && Disciplined(job, net, e)
    ensures var t := NextWake(job, net, i + 1, n); !t.fault && t.out == net.out && WokenOk(job, net, t, i)
  {
    var conn := net.conns[i + 1];
    WakeAdvances(job, net, i, n);
    AfterAdvance(job, net, i, n, Wake(net.sh, conn.phase.l, job.wires[i + 1][conn.pos..conn.pos + n]));
  }

  /** A wake-up of the handler of slice `i` keeps its own part of the invariant. */
  lemma WakeOwn<D(!new)>(job: Job<D>, net: Net<D>, i: nat, n: nat)
    requires Works(job) && Inv(job, net) && net.sh.mapped && i < |job.parts|
    requires var e := WakeUp(i + 1, n); Enabled(job, net, e) && Disciplined(job, net, e)
    ensures var t := NextWake(job, net, i + 1, n); !t.fault && t.out == net.out && WokenOk(job, net, t, i)
  {
    assert PartOk(job, i) && SliceOk(job, net, i);
    WakeKeeps(job, net, i, n);
  }

  /** The result of the decoder call that slice `i` makes next. */
  function CallOf<D>(job: Job<D>, net: Net<D>, i: nat): DecodeResult<D>
    requires Enabled(job, net, DecodeCall(i + 1))
  {
    var p := net.conns[i + 1].phase;
    var info := net.sh.slices[p.index];
    job.d.call(p.st, info.got[p.inPos..], info.len - p.outIndex)
  }

  /** The call succeeds, stays inside the slice and keeps in step with the stream. */
  lemma CallFacts<D(!new)>(job: Job<D>, net: Net<D>, i: nat)
    requires Works(job) && Inv(job, net) && net.sh.mapped && i < |job.parts|
    requires Enabled(job, net, DecodeCall(i + 1))
    ensures var p, r := net.conns[i + 1].phase, CallOf(job, net, i);
            && r.Decoded? && p.outIndex + |r.output| <= |job.parts[i]|
            && job.d.out(r.state) == job.d.out(p.st) + r.output
            && Tracks(job.f, job.d, Payload(job, i), r.state, p.inPos + r.consumed)
  {
    assert PartOk(job, i) && SliceOk(job, net, i);
    var p := net.conns[i + 1].phase;
    CallTracks(job.f, job.d, Payload(job, i), p.st, p.inPos);
  }

  /** Where the next decoder call of slice `i` writes. */
  function WriteAt<D>(job: Job<D>, net: Net<D>, i: nat): nat
    requires Enabled(job, net, DecodeCall(i + 1))
  {
    i * job.stride + net.conns[i + 1].phase.outIndex
  }

  /** A decoder call of slice `i` writes behind what the slice has written; it faults only if the region
      of the slice does not fit the file. */
  lemma DecodeOwn<D(!new)>(job: Job<D>, net: Net<D>, i: nat)
    requires Works(job) && Inv(job, net) && net.sh.mapped && i < |job.parts|
    requires Enabled(job, net, DecodeCall(i + 1))
    ensures CallOf(job, net, i).Decoded?
    ensures var t, r := NextDecode(job, net, i + 1), CallOf(job, net, i);
            if t.fault then i * job.stride + |job.parts[i]| > job.size
            else
              && WriteAt(job, net, i) + |r.output| <= job.size
              && t == net.(out := Splice(net.out, WriteAt(job, net, i), r.output), conns := t.conns)
              && t.conns == net.conns[i + 1 := t.conns[i + 1]]
              && t.conns[i + 1].phase.Decoding?
              && t.conns[i + 1].phase.st == r.state
              && t.conns[i + 1].phase.inPos == net.conns[i + 1].phase.inPos + r.consumed
              && t.conns[i + 1].phase.outIndex == net.conns[i + 1].phase.outIndex + |r.output|
              && SliceOk(job, t, i)
  {
    assert SliceOk(job, net, i);
    CallFacts(job, net, i);
  }

  /** The result of slice `i`: the whole of it was decoded, and it is accepted if its length fits an int. */
  lemma EndOwn<D(!new)>(job: Job<D>, net: Net<D>, i: nat)
    requires Works(job) && Inv(job, net) && net.sh.mapped && i < |job.parts|
    requires Enabled(job, net, DecodeEnd(i + 1))
    ensures job.d.out(net.conns[i + 1].phase.st) == job.parts[i]
    ensures var t := Next(job, net, DecodeEnd(i + 1));
            && SliceOk(job, t, i)
            && (t.conns[i + 1].phase == Exited(Code(0)) <==> |job.parts[i]| < TWO31)
  {
    assert PartOk(job, i) && SliceOk(job, net, i);
    var p, z := net.conns[i + 1].phase, Payload(job, i);
    TracksPrefix(job.f, job.d, z, p.st, p.inPos);
    WholeSliceAcceptedIff(|job.parts[i]|);
  }

  /** A step of slice `i` changes its own connection and its own table entry at most. */
  ghost predicate OnlyOwn<D>(net: Net<D>, t: Net<D>, i: nat)
    requires i + 1 < |net.conns|
  {
    && |t.conns| == |net.conns| && t.conns == net.conns[i + 1 := t.conns[i + 1]]
    && (t.sh == net.sh || (i in t.sh.slices && t.sh == net.sh.(slices := net.sh.slices[i := t.sh.slices[i]])))
  }

  lemma OthersKept<D>(job: Job<D>, net: Net<D>, t: Net<D>, i: nat, k: nat)
    requires i < |job.parts| && k < |job.parts| && k != i
    requires |net.conns| == |job.wires| == |job.parts| + 1
    requires OnlyOwn(net, t, i) && SliceOk(job, net, k)
    ensures SliceOk(job, t, k)
  {
    assert t.conns[k + 1] == net.conns[k + 1];
  }

  lemma AfterFromOwn<D>(job: Job<D>, net: Net<D>, t: Net<D>, i: nat)
    requires |net.conns| == |job.wires| == |job.parts| + 1 && After(job, net)
    requires i < |job.parts| && OnlyOwn(net, t, i) && |t.out| == |net.out| && SliceOk(job, t, i)
    ensures After(job, t)
  {
    assert t.conns[0] == net.conns[0];
    forall k: nat | k < |job.parts| ensures SliceOk(job, t, k) {
      if k != i {
        OthersKept(job, net, t, i, k);
      }
    }
  }

  /** Every region lies in the file. */
  ghost predicate RegionsFit<D>(job: Job<D>) {
    forall i: nat :: i < |job.parts| ==> RegionEnd(job, i) <= job.size
  }

  function RegionStart<D>(job: Job<D>, i: nat): nat {
    i * job.stride
  }

  function RegionEnd<D>(job: Job<D>, i: nat): nat
    requires i < |job.parts|
  {
    RegionStart(job, i) + |job.parts[i]|
  }

  lemma SliceStep<D(!new)>(job: Job<D>, net: Net<D>, e: Event)
    requires Works(job) && Inv(job, net) && net.sh.mapped
    requires Enabled(job, net, e) && Disciplined(job, net, e)
    ensures e.c > 0
    ensures var t := Next(job, net, e); t.fault || (OnlyOwn(net, t, e.c - 1) && t.sh.mapped && After(job, t))
    ensures Next(job, net, e).fault ==> !RegionsFit(job)
    ensures !e.DecodeCall? ==> !Next(job, net, e).fault && Next(job, net, e).out == net.out
  {
    assert net.conns[0].phase.Exited?;
    var i, t := e.c - 1, Next(job, net, e);
    match e {
      case WakeUp(_, n) => WakeOwn(job, net, i, n);
      case DecodeCall(_) =>
        DecodeOwn(job, net, i);
        assert t.fault ==> RegionEnd(job, i) > job.size;
      case DecodeEnd(_) => EndOwn(job, net, i);
      case _ =>
    }
    if !t.fault {
      AfterFromOwn(job, net, t, i);
    }
  }

  lemma BeforeStep<D(!new)>(job: Job<D>, net: Net<D>, e: Event)
    requires Announces(job) && Inv(job, net) && !net.sh.mapped
    requires Enabled(job, net, e) && Disciplined(job, net, e)
    ensures Inv(job, Next(job, net, e)) && !Next(job, net, e).fault
    ensures Next(job, net, e).sh.mapped ==>
              forall c :: 1 <= c < |net.conns| ==> Next(job, net, e).conns[c] == net.conns[c]
  {
    if e.WakeUp? {
      HeaderStep(job, net);
      var t := Next(job, net, e);
      forall i: nat | i < |job.parts| ensures SliceOk(job, t, i) {
        assert t.conns[i + 1] == net.conns[i + 1];
      }
    }
  }

  lemma InvStep<D(!new)>(job: Job<D>, net: Net<D>, e: Event)
    requires Works(job) && Announces(job) && Inv(job, net)
    requires Enabled(job, net, e) && Disciplined(job, net, e)
    ensures Inv(job, Next(job, net, e))
    ensures Next(job, net, e).fault ==> !RegionsFit(job)
  {
    if net.sh.mapped {
      SliceStep(job, net, e);
    } else {
      BeforeStep(job, net, e);
    }
  }

  // ---- the output file ----

  /** What a handler has decoded is in the file at `base`. */
  ghost predicate OutAt<D>(d: Decoder<D>, out: seq<Byte>, phase: Phase<D>, base: nat, data: seq<Byte>) {
    match phase
    case Reading(_) => true
    case Decoding(_, st, _, outIndex) =>
      outIndex <= |data| && base + outIndex <= |out| && out[base..base + outIndex] == d.out(st)
    case Exited(outcome) =>
      outcome == Code(0) ==> base + |data| <= |out| && out[base..base + |data|] == data
  }

  ghost predicate OutOk<D>(job: Job<D>, net: Net<D>, i: nat)
    requires i < |job.parts| && i + 1 < |net.conns|
  {
    OutAt(job.d, net.out, net.conns[i + 1].phase, i * job.stride, job.parts[i])
  }

  /** What every slice has decoded is in its place. */
  ghost predicate OutInv<D>(job: Job<D>, net: Net<D>)
    requires Inv(job, net)
  {
    !net.fault && net.sh.mapped ==> forall i: nat :: i < |job.parts| ==> OutOk(job, net, i)
  }

  /** The regions lie in the file and do not meet. */
  ghost predicate Tiled<D>(job: Job<D>) {
    && RegionsFit(job)
    && forall i: nat, k: nat :: i < k < |job.parts| ==> RegionEnd(job, i) <= RegionStart(job, k)
  }

  lemma SpliceOwn(out: seq<Byte>, base: nat, k: nat, bytes: seq<Byte>)
    requires base + k + |bytes| <= |out|
    ensures Splice(out, base + k, bytes)[base..base + k + |bytes|] == out[base..base + k] + bytes
  {
  }

  lemma SpliceOther(out: seq<Byte>, at: nat, bytes: seq<Byte>, from: nat, to: nat)
    requires at + |bytes| <= |out| && from <= to <= |out|
    requires to <= at || at + |bytes| <= from
    ensures Splice(out, at, bytes)[from..to] == out[from..to]
  {
  }

  lemma OutAtKept<D>(d: Decoder<D>, out: seq<Byte>, phase: Phase<D>, base: nat, data: seq<Byte>,
                     at: nat, bytes: seq<Byte>)
    requires at + |bytes| <= |out| && OutAt(d, out, phase, base, data)
    requires base + |data| <= at || at + |bytes| <= base
    ensures OutAt(d, Splice(out, at, bytes), phase, base, data)
  {
    match phase
    case Decoding(_, _, _, outIndex) => SpliceOther(out, at, bytes, base, base + outIndex);
    case Exited(o) => if o == Code(0) { SpliceOther(out, at, bytes, base, base + |data|); }
    case _ =>
  }

  lemma OutDecodeOwn<D(!new)>(job: Job<D>, net: Net<D>, i: nat)
    requires Works(job) && Inv(job, net) && net.sh.mapped && RegionsFit(job)
    requires i < |job.parts| && Enabled(job, net, DecodeCall(i + 1)) && OutOk(job, net, i)
    ensures OutOk(job, NextDecode(job, net, i + 1), i)
  {
    DecodeOwn(job, net, i);
    CallFacts(job, net, i);
    assert RegionEnd(job, i) <= job.size;
    SpliceOwn(net.out, i * job.stride, net.conns[i + 1].phase.outIndex, CallOf(job, net, i).output);
  }

  lemma OutDecodeOther<D(!new)>(job: Job<D>, net: Net<D>, i: nat, k: nat)
    requires Works(job) && Inv(job, net) && net.sh.mapped && Tiled(job)
    requires i < |job.parts| && k < |job.parts| && i != k && Enabled(job, net, DecodeCall(i + 1))
    requires OutOk(job, net, k)
    ensures OutOk(job, NextDecode(job, net, i + 1), k)
  {
    DecodeOwn(job, net, i);
    CallFacts(job, net, i);
    assert RegionEnd(job, i) <= job.size;
    assert if k < i then RegionEnd(job, k) <= RegionStart(job, i) else RegionEnd(job, i) <= RegionStart(job, k);
    OutAtKept(job.d, net.out, net.conns[k + 1].phase, RegionStart(job, k), job.parts[k],
              WriteAt(job, net, i), CallOf(job, net, i).output);
  }

  lemma SpliceCommutes(out: seq<Byte>, at: nat, a: seq<Byte>, at': nat, b: seq<Byte>)
    requires at + |a| <= at' && at' + |b| <= |out|
    ensures Splice(Splice(out, at, a), at', b) == Splice(Splice(out, at', b), at, a)
  {
  }

  /** What the next decoder call of slice `k` does, in terms of the job. */
  lemma DecodeIsCall<D(!new)>(job: Job<D>, net: Net<D>, k: nat)
    requires Works(job) && Inv(job, net) && net.sh.mapped && RegionsFit(job) && k < |job.parts|
    requires Enabled(job, net, DecodeCall(k + 1))
    ensures NextDecode(job, net, k + 1) == Called(net, k + 1, WriteAt(job, net, k), CallOf(job, net, k))
    ensures CallOf(job, net, k).Decoded?
    ensures WriteAt(job, net, k) + |CallOf(job, net, k).output| <= RegionEnd(job, k) <= |net.out|
  {
    assert SliceOk(job, net, k);
    CallFacts(job, net, k);
  }

  lemma CalledElsewhere<D>(net: Net<D>, x: Net<D>, c: nat, at: nat, r: DecodeResult<D>)
    requires c < |net.conns| == |x.conns| && x.conns[c] == net.conns[c] && net.conns[c].phase.Decoding?
    requires r.Decoded? && at + |r.output| <= |net.out| == |x.out|
    ensures Called(x, c, at, r)
         == x.(out := Splice(x.out, at, r.output), conns := x.conns[c := Called(net, c, at, r).conns[c]])
  {
  }

  /** A decoder call does the same in a state that differs elsewhere only. */
  lemma DecodeElsewhere<D(!new)>(job: Job<D>, net: Net<D>, x: Net<D>, k: nat)
    requires Works(job) && Inv(job, net) && net.sh.mapped && RegionsFit(job) && k < |job.parts|
    requires Enabled(job, net, DecodeCall(k + 1))
    requires x == net.(out := x.out, conns := x.conns) && |x.out| == |net.out|
    requires |x.conns| == |net.conns| && x.conns[k + 1] == net.conns[k + 1]
    ensures CallOf(job, net, k).Decoded? && WriteAt(job, net, k) + |CallOf(job, net, k).output| <= |x.out|
    ensures Enabled(job, x, DecodeCall(k + 1))
    ensures NextDecode(job, x, k + 1)
         == x.(out := Splice(x.out, WriteAt(job, net, k), CallOf(job, net, k).output),
               conns := x.conns[k + 1 := NextDecode(job, net, k + 1).conns[k + 1]])
  {
    DecodeIsCall(job, net, k);
    CalledElsewhere(net, x, k + 1, WriteAt(job, net, k), CallOf(job, net, k));
    assert SliceOk(job, net, k);
  }

  /** Decoder calls of different slices commute: in either order they lead to the same state. */
  lemma DecodesCommute<D(!new)>(job: Job<D>, net: Net<D>, i: nat, k: nat)
    requires Works(job) && Inv(job, net) && net.sh.mapped && Tiled(job) && i < k < |job.parts|
    requires Enabled(job, net, DecodeCall(i + 1)) && Enabled(job, net, DecodeCall(k + 1))
    ensures Enabled(job, NextDecode(job, net, i + 1), DecodeCall(k + 1))
    ensures Enabled(job, NextDecode(job, net, k + 1), DecodeCall(i + 1))
    ensures NextDecode(job, NextDecode(job, net, i + 1), k + 1)
         == NextDecode(job, NextDecode(job, net, k + 1), i + 1)
  {
    DecodeElsewhere(job, net, net, i);
    DecodeElsewhere(job, net, net, k);
    var x, y := NextDecode(job, net, i + 1), NextDecode(job, net, k + 1);
    DecodeElsewhere(job, net, x, k);
    DecodeElsewhere(job, net, y, i);
    WritesApart(job, net, i, k);
    SpliceCommutes(net.out, WriteAt(job, net, i), CallOf(job, net, i).output,
                   WriteAt(job, net, k), CallOf(job, net, k).output);
    assert net.conns[i + 1 := x.conns[i + 1]][k + 1 := y.conns[k + 1]]
        == net.conns[k + 1 := y.conns[k + 1]][i + 1 := x.conns[i + 1]];
  }

  lemma WritesApart<D(!new)>(job: Job<D>, net: Net<D>, i: nat, k: nat)
    requires Works(job) && Inv(job, net) && net.sh.mapped && Tiled(job) && i < k < |job.parts|
    requires Enabled(job, net, DecodeCall(i + 1)) && Enabled(job, net, DecodeCall(k + 1))
    ensures CallOf(job, net, i).Decoded?
    ensures WriteAt(job, net, i) + |CallOf(job, net, i).output| <= WriteAt(job, net, k)
  {
    CallFacts(job, net, i);
    assert RegionEnd(job, i) <= RegionStart(job, k);
  }

  lemma OutOther<D(!new)>(job: Job<D>, net: Net<D>, e: Event, k: nat)
    requires Works(job) && Inv(job, net) && net.sh.mapped && Tiled(job)
    requires Enabled(job, net, e) && Disciplined(job, net, e) && !e.DecodeCall?
    requires k < |job.parts| && OutOk(job, net, k)
    ensures k + 1 < |Next(job, net, e).conns| && OutOk(job, Next(job, net, e), k)
  {
    SliceStep(job, net, e);
    var t := Next(job, net, e);
    if e.c != k + 1 {
      assert t.conns[k + 1] == net.conns[k + 1];
    } else {
      OutOwn(job, net, e, k);
    }
  }

  lemma OutOwn<D(!new)>(job: Job<D>, net: Net<D>, e: Event, i: nat)
    requires Works(job) && Inv(job, net) && net.sh.mapped && RegionsFit(job)
    requires Enabled(job, net, e) && Disciplined(job, net, e) && !e.DecodeCall?
    requires i < |job.parts| && e.c == i + 1 && OutOk(job, net, i)
    ensures i + 1 < |Next(job, net, e).conns| && OutOk(job, Next(job, net, e), i)
  {
    match e
    case WakeUp(_, n) =>
      WakeOwn(job, net, i, n);
      assert RegionEnd(job, i) <= job.size;
      var base := i * job.stride;
      assert net.out[base..base + 0] == [];
    case DecodeEnd(_) =>
      assert SliceOk(job, net, i);
      EndOwn(job, net, i);
    case _ =>
  }

  lemma OutInvStep<D(!new)>(job: Job<D>, net: Net<D>, e: Event)
    requires Works(job) && Announces(job) && Inv(job, net) && OutInv(job, net) && Tiled(job)
    requires Enabled(job, net, e) && Disciplined(job, net, e)
    ensures Inv(job, Next(job, net, e)) && OutInv(job, Next(job, net, e)) && !Next(job, net, e).fault
  {
    InvStep(job, net, e);
    var t := Next(job, net, e);
    if t.sh.mapped {
      forall k: nat | k < |job.parts| ensures OutOk(job, t, k) {
        if !net.sh.mapped {
          BeforeStep(job, net, e);
          assert t.conns[k + 1] == net.conns[k + 1];
        } else {
          SliceStep(job, net, e);
          assert OutOk(job, net, k);
          if e.DecodeCall? && e.c == k + 1 {
            OutDecodeOwn(job, net, k);
          } else if e.DecodeCall? {
            OutDecodeOther(job, net, e.c - 1, k);
          } else {
            OutOther(job, net, e, k);
          }
        }
      }
    }
  }

  // ---- runs ----

  lemma InitInv<D>(job: Job<D>)
    requires |job.wires| == |job.parts| + 1
    ensures Inv(job, Init(job)) && OutInv(job, Init(job))
  {
  }

  /** Every state of every run meets the invariant; when the regions tile the file nothing faults and the
      file is right as far as it is written. */
  lemma {:induction false} NetRun<D(!new)>(job: Job<D>, net: Net<D>, es: seq<Event>, t: Net<D>)
    requires Works(job) && Announces(job) && Inv(job, net) && Reaches(job, net, es, t)
    requires Tiled(job) ==> !net.fault && OutInv(job, net)
    ensures Inv(job, t)
    ensures Tiled(job) ==> !t.fault && OutInv(job, t)
    decreases |es|
  {
    if es != [] {
      InvStep(job, net, es[0]);
      if Tiled(job) {
        OutInvStep(job, net, es[0]);
      }
      NetRun(job, Next(job, net, es[0]), es[1..], t);
    }
  }

  predicate Failure(e: Event) {
    e.ReadFails? || e.NoContext?
  }

  ghost predicate NobodyFailed<D>(net: Net<D>) {
    forall c :: 0 <= c < |net.conns| && net.conns[c].phase.Exited? ==> net.conns[c].phase == Exited(Code(0))
  }

  ghost predicate NoFailures(es: seq<Event>) {
    forall k :: 0 <= k < |es| ==> !Failure(es[k])
  }

  /** Every part is shorter than 2 GiB. */
  ghost predicate ShortParts<D>(job: Job<D>) {
    forall i: nat :: i < |job.parts| ==> |job.parts[i]| < TWO31
  }

  /** A slice handler that returns without a failing call returns 0. */
  lemma CleanSlice<D(!new)>(job: Job<D>, net: Net<D>, e: Event)
    requires Works(job) && Inv(job, net) && net.sh.mapped && ShortParts(job)
    requires Enabled(job, net, e) && Disciplined(job, net, e) && !Failure(e) && e.c > 0
    ensures var t := Next(job, net, e);
            || t.conns == net.conns
            || (e.c < |t.conns| && (t.conns[e.c].phase.Exited? ==> t.conns[e.c].phase == Exited(Code(0))))
  {
    var i := e.c - 1;
    match e
    case WakeUp(_, n) => WakeOwn(job, net, i, n);
    case DecodeCall(_) => DecodeOwn(job, net, i);
    case DecodeEnd(_) => EndOwn(job, net, i);
  }

  lemma CleanStep<D(!new)>(job: Job<D>, net: Net<D>, e: Event)
    requires Works(job) && Announces(job) && Inv(job, net) && ShortParts(job)
    requires Enabled(job, net, e) && Disciplined(job, net, e) && !Failure(e) && NobodyFailed(net)
    ensures NobodyFailed(Next(job, net, e))
  {
    var t := Next(job, net, e);
    if !net.sh.mapped {
      HeaderStep(job, net);
    } else {
      SliceStep(job, net, e);
      CleanSlice(job, net, e);
      if !t.fault {
        assert t.conns == net.conns[e.c := t.conns[e.c]];
      }
    }
  }

  lemma {:induction false} CleanRun<D(!new)>(job: Job<D>, net: Net<D>, es: seq<Event>, t: Net<D>)
    requires Works(job) && Announces(job) && Inv(job, net) && ShortParts(job)
    requires Reaches(job, net, es, t) && NobodyFailed(net) && NoFailures(es)
    ensures NobodyFailed(t)
    decreases |es|
  {
    if es != [] {
      CleanStep(job, net, es[0]);
      InvStep(job, net, es[0]);
      CleanRun(job, Next(job, net, es[0]), es[1..], t);
    }
  }

  /** An event that brings the transfer forward. */
  ghost predicate Productive<D>(job: Job<D>, net: Net<D>, e: Event) {
    Enabled(job, net, e) && Disciplined(job, net, e) && !Failure(e) && (e.WakeUp? ==> e.n > 0)
  }

  lemma HeaderCanWake<D(!new)>(job: Job<D>, net: Net<D>) returns (e: Event)
    requires Announces(job) && Inv(job, net) && !net.fault && !net.sh.mapped && NobodyFailed(net)
    ensures Productive(job, net, e)
  {
    e := WakeUp(0, |job.wires[0]|);
    assert net.conns[0].phase == Reading(Fresh);
  }

  lemma SliceCanStep<D(!new)>(job: Job<D>, net: Net<D>, i: nat) returns (e: Event)
    requires Works(job) && Inv(job, net) && !net.fault && net.sh.mapped && i < |job.parts|
    requires !net.conns[i + 1].phase.Exited?
    ensures Productive(job, net, e) && e.c == i + 1
  {
    assert PartOk(job, i) && SliceOk(job, net, i);
    var conn, z := net.conns[i + 1], Payload(job, i);
    if conn.phase.Decoding? {
      e := if conn.phase.inPos < |z| then DecodeCall(i + 1) else DecodeEnd(i + 1);
    } else {
      e := WakeUp(i + 1, if conn.pos == 0 then HEADER_LEN else 1);
    }
  }
}
