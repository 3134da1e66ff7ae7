/** A transfer without failing calls has no dead end: it can be completed from every state it can be in. */
module Completion {
  import opened Bytes
  import opened Codec
  import opened Geometry
  import opened Reception
  import opened Delivery
  import opened Transfer
  import Framing
  import StoredCodec
  import TextHeader

  /** Nothing went wrong so far, and the header handler is over. */
  ghost predicate OnCourse<D(!new)>(job: Job<D>, net: Net<D>) {
    Inv(job, net) && !net.fault && net.sh.mapped && NobodyFailed(net)
  }

  ghost predicate Fine<D(!new)>(job: Job<D>) {
    Works(job) && Announces(job) && Tiled(job) && ShortParts(job)
  }

  function Stage<D>(phase: Phase<D>): nat {
    match phase
    case Reading(_) => 2
    case Decoding(_, _, _, _) => 1
    case Exited(_) => 0
  }

  function Short(all: nat, used: nat): nat {
    if used <= all then all - used else 0
  }

  function InLeft<D>(job: Job<D>, net: Net<D>, i: nat): nat
    requires i + 1 < |net.conns| && i + 1 < |job.wires|
  {
    match net.conns[i + 1].phase
    case Decoding(_, _, inPos, _) => Short(|Payload(job, i)|, inPos)
    case _ => Short(|job.wires[i + 1]|, net.conns[i + 1].pos)
  }

  function OutLeft<D>(job: Job<D>, net: Net<D>, i: nat): nat
    requires i + 1 < |net.conns| && i < |job.parts|
  {
    match net.conns[i + 1].phase
    case Decoding(_, _, _, outIndex) => Short(|job.parts[i]|, outIndex)
    case _ => 0
  }

  function Patience<D>(job: Job<D>, net: Net<D>, i: nat): nat
    requires i + 1 < |net.conns|
  {
    match net.conns[i + 1].phase
    case Decoding(_, st, _, _) => job.d.patience(st)
    case _ => 0
  }

  /** The handler of slice `i` is nearer to its end. */
  ghost predicate Nearer<D>(job: Job<D>, net: Net<D>, t: Net<D>, i: nat)
    requires i < |job.parts| && |net.conns| == |t.conns| == |job.wires| == |job.parts| + 1
  {
    var s, s' := Stage(net.conns[i + 1].phase), Stage(t.conns[i + 1].phase);
    var a, a' := InLeft(job, net, i), InLeft(job, t, i);
    var o, o' := OutLeft(job, net, i), OutLeft(job, t, i);
    s' < s || (s' == s && (a' < a || (a' == a && (o' < o || (o' == o && Patience(job, t, i) < Patience(job, net, i))))))
  }

  lemma WakeNearer<D(!new)>(job: Job<D>, net: Net<D>, i: nat, n: nat)
    requires Works(job) && Inv(job, net) && net.sh.mapped && i < |job.parts| && n > 0
    requires var e := WakeUp(i + 1, n); Enabled(job, net, e) && Disciplined(job, net, e)
    ensures |NextWake(job, net, i + 1, n).conns| == |net.conns|
    ensures Nearer(job, net, NextWake(job, net, i + 1, n), i)
  {
    WakeOwn(job, net, i, n);
  }

  lemma CallConsumes<D(!new)>(job: Job<D>, net: Net<D>, i: nat)
    requires Works(job) && Inv(job, net) && net.sh.mapped && i < |job.parts|
    requires Enabled(job, net, DecodeCall(i + 1))
    ensures var p, r := net.conns[i + 1].phase, CallOf(job, net, i);
            && r.Decoded? && p.inPos + r.consumed <= |Payload(job, i)| && p.outIndex + |r.output| <= |job.parts[i]|
            && (r.consumed == 0 && r.output == [] ==> job.d.patience(r.state) < job.d.patience(p.st))
  {
    assert SliceOk(job, net, i);
    CallFacts(job, net, i);
    var p := net.conns[i + 1].phase;
    var info := net.sh.slices[i];
    assert DecodeCallOk(job.f, job.d, p.st, info.got[p.inPos..], info.len - p.outIndex);
  }

  lemma DecodeNearer<D(!new)>(job: Job<D>, net: Net<D>, i: nat)
    requires Works(job) && Inv(job, net) && net.sh.mapped && i < |job.parts| && Enabled(job, net, DecodeCall(i + 1))
    requires !NextDecode(job, net, i + 1).fault
    ensures |NextDecode(job, net, i + 1).conns| == |net.conns|
    ensures Nearer(job, net, NextDecode(job, net, i + 1), i)
  {
    assert SliceOk(job, net, i);
    CallConsumes(job, net, i);
    DecodeOwn(job, net, i);
  }

  lemma EndNearer<D(!new)>(job: Job<D>, net: Net<D>, i: nat)
    requires Works(job) && Inv(job, net) && net.sh.mapped && i < |job.parts| && Enabled(job, net, DecodeEnd(i + 1))
    ensures |Next(job, net, DecodeEnd(i + 1)).conns| == |net.conns|
    ensures Nearer(job, net, Next(job, net, DecodeEnd(i + 1)), i)
  {
  }

  /** The next productive step of slice `i`: a fault, or it brings the slice nearer and leaves the others alone. */
  lemma StepForward<D(!new)>(job: Job<D>, net: Net<D>, i: nat) returns (e: Event)
    requires Works(job) && Inv(job, net) && !net.fault && net.sh.mapped && i < |job.parts|
    requires !net.conns[i + 1].phase.Exited?
    ensures Productive(job, net, e) && e.c == i + 1
    ensures var t := Next(job, net, e);
            t.fault || (Inv(job, t) && t.sh.mapped && OnlyOwn(net, t, i) && Nearer(job, net, t, i))
  {
    e := SliceCanStep(job, net, i);
    SliceStep(job, net, e);
    if e.WakeUp? {
      WakeNearer(job, net, i, e.n);
    } else if e.DecodeEnd? {
      EndNearer(job, net, i);
    } else if !Next(job, net, e).fault {
      DecodeNearer(job, net, i);
    }
  }

  /** When nothing can fault, it brings the slice nearer to acceptance. */
  lemma StepNearer<D(!new)>(job: Job<D>, net: Net<D>, i: nat) returns (e: Event)
    requires Fine(job) && OnCourse(job, net) && i < |job.parts| && !net.conns[i + 1].phase.Exited?
    ensures Enabled(job, net, e) && Disciplined(job, net, e) && !Failure(e) && e.c == i + 1
    ensures var t := Next(job, net, e);
            && OnCourse(job, t) && OnlyOwn(net, t, i) && Nearer(job, net, t, i)
  {
    e := StepForward(job, net, i);
    InvStep(job, net, e);
    CleanStep(job, net, e);
  }

  lemma ReachesCons<D(!new)>(job: Job<D>, s: Net<D>, e: Event, es: seq<Event>, t: Net<D>)
    requires Enabled(job, s, e) && Disciplined(job, s, e) && Reaches(job, Next(job, s, e), es, t)
    ensures Reaches(job, s, [e] + es, t)
  {
    assert ([e] + es)[1..] == es;
  }

  /** The steps of handler `c` that lead from `net` to `t`, none of them a failing call. */
  ghost predicate CodeRun<D>(job: Job<D>, net: Net<D>, es: seq<Event>, t: Net<D>, c: nat) {
    Reaches(job, net, es, t) && forall k :: 0 <= k < |es| ==> es[k].c == c && !Failure(es[k])
  }

  lemma CodeCons<D(!new)>(job: Job<D>, net: Net<D>, e: Event, es: seq<Event>, t: Net<D>, c: nat)
    requires Enabled(job, net, e) && Disciplined(job, net, e) && !Failure(e) && e.c == c
    requires CodeRun(job, Next(job, net, e), es, t, c)
    ensures CodeRun(job, net, [e] + es, t, c)
  {
    ReachesCons(job, net, e, es, t);
  }

  /** The handler of slice `i` can be run to its end while the others wait. */
  lemma {:induction false} FinishSlice<D(!new)>(job: Job<D>, net: Net<D>, i: nat) returns (es: seq<Event>, t: Net<D>)
    requires Fine(job) && OnCourse(job, net) && i < |job.parts|
    ensures CodeRun(job, net, es, t, i + 1) && OnCourse(job, t)
    ensures t.conns[i + 1].phase == Exited(Code(0))
    ensures forall c :: 0 <= c < |net.conns| && c != i + 1 ==> t.conns[c] == net.conns[c]
    decreases Stage(net.conns[i + 1].phase), InLeft(job, net, i), OutLeft(job, net, i), Patience(job, net, i)
  {
    if net.conns[i + 1].phase.Exited? {
      return [], net;
    }
    var e := StepNearer(job, net, i);
    es, t := FinishSlice(job, Next(job, net, e), i);
    CodeCons(job, net, e, es, t, i + 1);
    es := [e] + es;
  }

  lemma {:induction false} ReachesAppend<D(!new)>(job: Job<D>, s: Net<D>, es: seq<Event>, t: Net<D>, fs: seq<Event>,
                                                  u: Net<D>)
    requires Reaches(job, s, es, t) && Reaches(job, t, fs, u)
    ensures Reaches(job, s, es + fs, u)
    decreases |es|
  {
    if es == [] {
      assert es + fs == fs;
    } else {
      ReachesAppend(job, Next(job, s, es[0]), es[1..], t, fs, u);
      ReachesCons(job, s, es[0], es[1..] + fs, u);
      assert [es[0]] + (es[1..] + fs) == es + fs;
    }
  }

  lemma NoFailuresAppend(es: seq<Event>, fs: seq<Event>)
    requires NoFailures(es) && NoFailures(fs)
    ensures NoFailures(es + fs)
  {
  }

  lemma {:induction false} FinishAll<D(!new)>(job: Job<D>, net: Net<D>, k: nat) returns (es: seq<Event>, t: Net<D>)
    requires Fine(job) && OnCourse(job, net) && k <= |job.parts|
    requires forall c :: 1 <= c <= k ==> net.conns[c].phase == Exited(Code(0))
    ensures Reaches(job, net, es, t) && NoFailures(es) && OnCourse(job, t) && AllAccepted(t)
    decreases |job.parts| - k
  {
    if k == |job.parts| {
      return [], net;
    }
    var first, m := FinishSlice(job, net, k);
    var rest;
    rest, t := FinishAll(job, m, k + 1);
    ReachesAppend(job, net, first, m, rest, t);
    NoFailuresAppend(first, rest);
    es := first + rest;
  }

  lemma AnnounceFirst<D(!new)>(job: Job<D>, net: Net<D>) returns (es: seq<Event>, t: Net<D>)
    requires Fine(job) && Inv(job, net) && !net.fault && NobodyFailed(net)
    ensures Reaches(job, net, es, t) && NoFailures(es) && OnCourse(job, t)
  {
    if net.sh.mapped {
      return [], net;
    }
    var e := HeaderCanWake(job, net);
    t := Next(job, net, e);
    InvStep(job, net, e);
    CleanStep(job, net, e);
    HeaderStep(job, net);
    es := [e];
  }

  lemma FinishFrom<D(!new)>(job: Job<D>, net: Net<D>) returns (es: seq<Event>, t: Net<D>)
    requires Fine(job) && Inv(job, net) && !net.fault && NobodyFailed(net)
    ensures Reaches(job, net, es, t) && NoFailures(es) && !t.fault && AllAccepted(t)
  {
    var first, m := AnnounceFirst(job, net);
    var rest;
    rest, t := FinishAll(job, m, 0);
    ReachesAppend(job, net, first, m, rest, t);
    NoFailuresAppend(first, rest);
    es := first + rest;
  }

  /**
   * When the strides agree and every slice length fits an `int`: from every state that a run without
   * failing calls can be in, such a run can go on until the output file is the input file.
   */
  lemma CanAlwaysFinish<D(!new)>(f: Format, d: Decoder<D>, wires: seq<seq<Byte>>, file: seq<Byte>, s: nat,
                                 es: seq<Event>, net: Net<D>)
    returns (more: seq<Event>, t: Net<D>)
    requires Ready(f, d, wires, file, s) && Agree(|file|, s) && ShortSlices(|file|, s)
    requires var job := JobOf(f, d, wires, file, s); Reaches(job, Delivery.Init(job), es, net)
    requires NoFailures(es)
    ensures NoFailures(more) && Reaches(JobOf(f, d, wires, file, s), net, more, t)
    ensures !t.fault && AllAccepted(t) && t.out == file
  {
    var job := JobOf(f, d, wires, file, s);
    ReadyJob(f, d, wires, file, s);
    AgreementTiles(f, d, wires, file, s);
    InitInv(job);
    NetRun(job, Delivery.Init(job), es, net);
    CleanRun(job, Delivery.Init(job), es, net);
    more, t := FinishFrom(job, net);
    ReachesAppend(job, Delivery.Init(job), es, net, more, t);
    DeliveredMeansEqual(f, d, wires, file, s, es + more, t);
  }

  /** Some run ends with every slice accepted and nothing undefined done. */
  ghost predicate Deliverable<D(!new)>(job: Job<D>) {
    exists es, t :: Reaches(job, Delivery.Init(job), es, t) && !t.fault && AllAccepted(t)
  }

  /** A file can be delivered exactly when the strides agree and every slice length fits an `int`. */
  lemma DeliverableIff<D(!new)>(f: Format, d: Decoder<D>, wires: seq<seq<Byte>>, file: seq<Byte>, s: nat)
    requires Ready(f, d, wires, file, s)
    ensures Deliverable(JobOf(f, d, wires, file, s)) <==> Agree(|file|, s) && ShortSlices(|file|, s)
  {
    var job := JobOf(f, d, wires, file, s);
    if Deliverable(job) {
      var es, t :| Reaches(job, Delivery.Init(job), es, t) && !t.fault && AllAccepted(t);
      DeliveredMeansEqual(f, d, wires, file, s, es, t);
      forall i: nat | i < Count(|file|, s) ensures SliceLen(|file|, s, i) < TWO31 {
        AcceptedOnlyIf(f, d, wires, file, s, es, t, i);
        assert t.conns[i + 1].phase == Exited(Code(0));
      }
    }
    if Agree(|file|, s) && ShortSlices(|file|, s) {
      var more, t := CanAlwaysFinish(f, d, wires, file, s, [], Delivery.Init(job));
      assert Reaches(job, Delivery.Init(job), more, t);
    }
  }

  /** A segment size derived from the job count delivers as long as the slices stay clear of 2 GiB. */
  lemma DerivedSegmentDelivers<D(!new)>(f: Format, d: Decoder<D>, wires: seq<seq<Byte>>, file: seq<Byte>, jobs: nat)
    requires 1 <= jobs <= |file| && |file| / jobs + 2 * jobs <= TWO31
    requires Ready(f, d, wires, file, Segment(|file|, 0, jobs))
    ensures Deliverable(JobOf(f, d, wires, file, Segment(|file|, 0, jobs)))
  {
    var s := Segment(|file|, 0, jobs);
    assert s == |file| / jobs;
    DerivedSegmentAgrees(|file|, jobs);
    DerivedSegmentCount(|file|, jobs);
    DeliverableIff(f, d, wires, file, s);
  }

  /** With stored frames, every file within the limits is ready to be transferred. */
  lemma EveryFileCanBeReady(file: seq<Byte>, s: nat) returns (wires: seq<seq<Byte>>)
    requires 0 < s <= |file| < TWO64 && Count(|file|, s) < TWO16
    requires |TextHeader.Decimal(|file|)| + |TextHeader.Decimal(Count(|file|, s))| <= 15
    requires forall i: nat :: i < Count(|file|, s) ==> SliceLen(|file|, s, i) < TWO32 - 1
    ensures Ready(StoredCodec.Stored, StoredCodec.Fetcher, wires, file, s)
  {
    StoredCodec.ContractsSatisfiable();
    var n := Count(|file|, s);
    var rest := seq(n, i requires 0 <= i < n => StoredWire(i, Window(file, s, i)));
    wires := [TextHeader.Print(|file|, n)] + rest;
    forall i: nat | i < n
      ensures Framing.CarriesSlice(StoredCodec.Stored, wires[i + 1], i, Window(file, s, i))
      ensures FieldsFit(wires[i + 1], SliceLen(|file|, s, i))
    {
      StoredWireCarries(i, Window(file, s, i));
      assert wires[i + 1] == rest[i];
    }
  }

  function StoredWire(i: nat, data: seq<Byte>): seq<Byte> {
    Framing.Wire(i, |data|, [StoredCodec.MARK] + data)
  }

  lemma StoredWireCarries(i: nat, data: seq<Byte>)
    ensures Framing.CarriesSlice(StoredCodec.Stored, StoredWire(i, data), i, data)
    ensures |StoredWire(i, data)| == Framing.HEADER_LEN + 1 + |data|
  {
    assert StoredWire(i, data)[Framing.HEADER_LEN..] == [StoredCodec.MARK] + data;
  }

  // ---- strides that disagree ----

  /** A slice that comes to its end lies in the file. */
  lemma EndFits<D(!new)>(job: Job<D>, net: Net<D>, i: nat)
    requires Works(job) && Inv(job, net) && net.sh.mapped && i < |job.parts| && Enabled(job, net, DecodeEnd(i + 1))
    ensures RegionEnd(job, i) <= job.size
  {
    EndOwn(job, net, i);
    assert SliceOk(job, net, i) && PartOk(job, i);
  }

  /** The next productive step of such a slice is a fault or brings it nearer to one. */
  lemma StepToFault<D(!new)>(job: Job<D>, net: Net<D>, i: nat) returns (e: Event)
    requires Works(job) && Inv(job, net) && !net.fault && net.sh.mapped && i < |job.parts|
    requires RegionEnd(job, i) > job.size && !net.conns[i + 1].phase.Exited?
    ensures Enabled(job, net, e) && Disciplined(job, net, e)
    ensures var t := Next(job, net, e);
            t.fault ||
            (Inv(job, t) && t.sh.mapped && !t.conns[i + 1].phase.Exited? && Nearer(job, net, t, i))
  {
    e := StepForward(job, net, i);
    match e
    case WakeUp(_, n) => WakeOwn(job, net, i, n);
    case DecodeCall(_) => DecodeOwn(job, net, i);
    case DecodeEnd(_) => EndFits(job, net, i);
  }

  /** Run on its own, the handler of such a slice writes outside the file. */
  lemma {:induction false} DriveToFault<D(!new)>(job: Job<D>, net: Net<D>, i: nat) returns (es: seq<Event>, t: Net<D>)
    requires Works(job) && Inv(job, net) && !net.fault && net.sh.mapped && i < |job.parts|
    requires RegionEnd(job, i) > job.size && !net.conns[i + 1].phase.Exited?
    ensures Reaches(job, net, es, t) && t.fault
    decreases Stage(net.conns[i + 1].phase), InLeft(job, net, i), OutLeft(job, net, i), Patience(job, net, i)
  {
    var e := StepToFault(job, net, i);
    var m := Next(job, net, e);
    if m.fault {
      es, t := [e], m;
    } else {
      es, t := DriveToFault(job, m, i);
      ReachesCons(job, net, e, es, t);
      es := [e] + es;
    }
  }

  /** The header handler first, then the handler whose region leaves the file. */
  lemma CanFault<D(!new)>(job: Job<D>, i: nat) returns (es: seq<Event>, t: Net<D>)
    requires Works(job) && Announces(job) && i < |job.parts| && RegionEnd(job, i) > job.size
    ensures Reaches(job, Delivery.Init(job), es, t) && t.fault
  {
    var net := Delivery.Init(job);
    InitInv(job);
    var e := HeaderCanWake(job, net);
    HeaderStep(job, net);
    BeforeStep(job, net, e);
    var m := Next(job, net, e);
    assert m.conns[i + 1] == net.conns[i + 1];
    es, t := DriveToFault(job, m, i);
    ReachesCons(job, net, e, es, t);
    es := [e] + es;
  }

  /** No run does anything undefined. */
  ghost predicate Safe<D(!new)>(job: Job<D>) {
    forall es, t :: Reaches(job, Delivery.Init(job), es, t) ==> !t.fault
  }

  /** Every run is safe exactly when the two strides agree: otherwise some run writes outside the file. */
  lemma SafeIff<D(!new)>(f: Format, d: Decoder<D>, wires: seq<seq<Byte>>, file: seq<Byte>, s: nat)
    requires Ready(f, d, wires, file, s)
    ensures Safe(JobOf(f, d, wires, file, s)) <==> Agree(|file|, s)
  {
    var job := JobOf(f, d, wires, file, s);
    if Agree(|file|, s) {
      forall es, t | Reaches(job, Delivery.Init(job), es, t) ensures !t.fault {
        AgreementIsSafe(f, d, wires, file, s, es, t);
      }
    } else {
      ReadyJob(f, d, wires, file, s);
      LastRegionInBoundsIff(|file|, s);
      var es, t := CanFault(job, |job.parts| - 1);
    }
  }
}
