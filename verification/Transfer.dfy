/** The transfer of a file from end to end: what the sender writes, what the receiver's handlers make of it in
    every interleaving, and what the end marker says. */
module Transfer {
  import opened Bytes
  import opened Codec
  import opened Framing
  import opened TextHeader
  import opened Geometry
  import opened Reception
  import opened Sockets
  import opened Sending
  import opened Delivery

  /** The connections carry the file, within the limits of the header fields and of the text header. */
  ghost predicate Ready<D(!new)>(f: Format, d: Decoder<D>, wires: seq<seq<Byte>>, file: seq<Byte>, s: nat) {
    && FormatContract(f) && DecoderContract(f, d)
    && CarriesFile(f, wires, file, s)
    && |file| < TWO64 && Count(|file|, s) < TWO16
    && |Decimal(|file|)| + |Decimal(Count(|file|, s))| <= 15
    && forall i: nat :: i < Count(|file|, s) ==> FieldsFit(wires[i + 1], SliceLen(|file|, s, i))
  }

  predicate FieldsFit(wire: seq<Byte>, len: nat) {
    |wire| < TWO32 + HEADER_LEN && len < TWO32
  }

  function Parts(file: seq<Byte>, s: nat): (parts: seq<seq<Byte>>)
    requires 0 < s <= |file|
    ensures |parts| == Count(|file|, s)
    ensures forall i: nat :: i < |parts| ==> parts[i] == Window(file, s, i)
  {
    seq(Count(|file|, s), i requires 0 <= i < Count(|file|, s) => Window(file, s, i))
  }

  /** The receiver's side of the transfer. */
  function JobOf<D>(f: Format, d: Decoder<D>, wires: seq<seq<Byte>>, file: seq<Byte>, s: nat): Job<D>
    requires 0 < s <= |file|
  {
    Job(f, d, wires, |file|, Stride(|file|, s), Parts(file, s))
  }

  lemma ReadyPart<D(!new)>(f: Format, d: Decoder<D>, wires: seq<seq<Byte>>, file: seq<Byte>, s: nat, i: nat)
    requires Ready(f, d, wires, file, s) && i < Count(|file|, s)
    ensures PartOk(JobOf(f, d, wires, file, s), i)
  {
    assert CarriesSlice(f, wires[i + 1], i, Window(file, s, i));
    assert FieldsFit(wires[i + 1], SliceLen(|file|, s, i));
    WireWellFramedIff(i, SliceLen(|file|, s, i), wires[i + 1][HEADER_LEN..]);
  }

  lemma ReadyText<D(!new)>(f: Format, d: Decoder<D>, wires: seq<seq<Byte>>, file: seq<Byte>, s: nat)
    requires Ready(f, d, wires, file, s)
    ensures Announces(JobOf(f, d, wires, file, s))
  {
    TextRoundTripIff(|file|, Count(|file|, s));
    assert Received(wires[0]) == wires[0];
  }

  lemma ReadyJob<D(!new)>(f: Format, d: Decoder<D>, wires: seq<seq<Byte>>, file: seq<Byte>, s: nat)
    requires Ready(f, d, wires, file, s)
    ensures Works(JobOf(f, d, wires, file, s)) && Announces(JobOf(f, d, wires, file, s))
  {
    var job := JobOf(f, d, wires, file, s);
    forall i: nat | i < |job.parts| ensures PartOk(job, i) {
      ReadyPart(f, d, wires, file, s, i);
    }
    ReadyText(f, d, wires, file, s);
  }

  lemma RegionIsWindow<D>(job: Job<D>, b: nat, s: nat, i: nat)
    requires 0 < s <= b && Agree(b, s) && job.stride == Stride(b, s) && i < |job.parts| == Count(b, s)
    requires |job.parts[i]| == SliceLen(b, s, i)
    ensures RegionStart(job, i) == i * s && RegionEnd(job, i) == i * s + SliceLen(b, s, i) <= b
  {
    OffsetsAgreeIff(b, s);
    WindowInBounds(b, s, i);
  }

  lemma AgreementTiles<D>(f: Format, d: Decoder<D>, wires: seq<seq<Byte>>, file: seq<Byte>, s: nat)
    requires 0 < s <= |file| && Agree(|file|, s)
    ensures Tiled(JobOf(f, d, wires, file, s))
  {
    var job, b := JobOf(f, d, wires, file, s), |file|;
    forall i: nat | i < |job.parts| ensures RegionEnd(job, i) <= job.size {
      RegionIsWindow(job, b, s, i);
    }
    forall i: nat, k: nat | i < k < |job.parts| ensures RegionEnd(job, i) <= RegionStart(job, k) {
      RegionIsWindow(job, b, s, i);
      RegionIsWindow(job, b, s, k);
      RegionsDisjoint(b, s, i, k);
    }
  }

  /** The handler of every slice has returned 0. */
  ghost predicate AllAccepted<D>(net: Net<D>) {
    forall c :: 1 <= c < |net.conns| ==> net.conns[c].phase == Exited(Code(0))
  }

  /**
   * A slice is accepted only if its region lies in the file and its length fits an `int`; so with strides
   * that disagree, no run ever accepts the last slice.
   */
  lemma AcceptedOnlyIf<D(!new)>(f: Format, d: Decoder<D>, wires: seq<seq<Byte>>, file: seq<Byte>, s: nat,
                                es: seq<Event>, t: Net<D>, i: nat)
    requires Ready(f, d, wires, file, s) && i < Count(|file|, s)
    requires var job := JobOf(f, d, wires, file, s); Reaches(job, Init(job), es, t)
    requires !t.fault
    ensures i + 1 < |t.conns|
    ensures t.conns[i + 1].phase == Exited(Code(0)) ==>
              && SliceLen(|file|, s, i) < TWO31
              && i * Stride(|file|, s) + SliceLen(|file|, s, i) <= |file|
              && (i + 1 == Count(|file|, s) ==> Agree(|file|, s))
  {
    var job := JobOf(f, d, wires, file, s);
    ReadyJob(f, d, wires, file, s);
    InitInv(job);
    NetRun(job, Init(job), es, t);
    if t.sh.mapped {
      assert SliceOk(job, t, i);
    }
    assert t.conns[i + 1].phase == Exited(Code(0)) && i + 1 == Count(|file|, s) ==> Agree(|file|, s) by {
      LastRegionInBoundsIff(|file|, s);
    }
  }

  lemma ByteInPlace<D>(job: Job<D>, file: seq<Byte>, s: nat, net: Net<D>, j: nat)
    requires 0 < s <= |file| && Agree(|file|, s) && job.stride == Stride(|file|, s)
    requires job.parts == Parts(file, s) && job.size == |file| && j < |file|
    requires Inv(job, net) && OutInv(job, net) && !net.fault && net.sh.mapped && AllAccepted(net)
    ensures |net.out| == |file| && net.out[j] == file[j]
  {
    var i := Owner(|file|, s, j);
    RegionIsWindow(job, |file|, s, i);
    assert OutOk(job, net, i);
    assert net.conns[i + 1].phase == Exited(Code(0));
    SameAt(net.out, file, i * s, i * s + SliceLen(|file|, s, i), j);
  }

  lemma SameAt(a: seq<Byte>, b: seq<Byte>, from: nat, to: nat, j: nat)
    requires from <= j < to <= |a| == |b| && a[from..to] == b[from..to]
    ensures a[j] == b[j]
  {
    assert a[j] == a[from..to][j - from];
    assert b[j] == b[from..to][j - from];
  }

  /**
   * For every interleaving of the connections and every fragmentation of their bytes: if the handler of
   * every slice has returned 0, then the strides agree and the output file is the input file.
   */
  lemma DeliveredMeansEqual<D(!new)>(f: Format, d: Decoder<D>, wires: seq<seq<Byte>>, file: seq<Byte>, s: nat,
                                     es: seq<Event>, t: Net<D>)
    requires Ready(f, d, wires, file, s)
    requires var job := JobOf(f, d, wires, file, s); Reaches(job, Init(job), es, t)
    requires !t.fault && AllAccepted(t)
    ensures Agree(|file|, s) && t.out == file
  {
    var job := JobOf(f, d, wires, file, s);
    AcceptedOnlyIf(f, d, wires, file, s, es, t, Count(|file|, s) - 1);
    ReadyJob(f, d, wires, file, s);
    AgreementTiles(f, d, wires, file, s);
    InitInv(job);
    NetRun(job, Init(job), es, t);
    assert t.conns[1].phase == Exited(Code(0));
    assert |t.out| == |file|;
    forall j | 0 <= j < |file| ensures t.out[j] == file[j] {
      ByteInPlace(job, file, s, t, j);
    }
  }

  /** Under agreement no run does anything undefined. */
  lemma AgreementIsSafe<D(!new)>(f: Format, d: Decoder<D>, wires: seq<seq<Byte>>, file: seq<Byte>, s: nat,
                                 es: seq<Event>, t: Net<D>)
    requires Ready(f, d, wires, file, s) && Agree(|file|, s)
    requires var job := JobOf(f, d, wires, file, s); Reaches(job, Init(job), es, t)
    ensures !t.fault
  {
    var job := JobOf(f, d, wires, file, s);
    ReadyJob(f, d, wires, file, s);
    AgreementTiles(f, d, wires, file, s);
    InitInv(job);
    NetRun(job, Init(job), es, t);
  }

  ghost predicate ShortSlices(b: nat, s: nat)
    requires 0 < s <= b
  {
    forall i: nat :: i < Count(b, s) ==> SliceLen(b, s, i) < TWO31
  }

  /** The announcement fits the receiver's read, and the slices fit the length field of their header. */
  predicate WithinLimits(file: seq<Byte>, s: nat, logs: seq<Log>)
    requires 0 < s <= |file|
  {
    && |file| < TWO64 && |Decimal(|file|)| + |Decimal(Count(|file|, s))| <= 15
    && forall i :: 0 <= i < |logs| ==> |logs[i].sent| < TWO32 + HEADER_LEN
  }

  /** The same limits in terms of the input: a slice of the longest length can be compressed to less than 4 GiB. */
  predicate InputWithinLimits(b: nat, s: nat)
    requires 0 < s <= b
  {
    b < TWO64 && |Decimal(b)| + |Decimal(Count(b, s))| <= 15 && OutBound(s + b % s) < TWO32
  }

  lemma InputLimitsSuffice<C(!new)>(f: Format, e: Encoder<C>, file: seq<Byte>, s: nat, streamIn: nat, streamOut: nat,
                                    env: nat -> Env, packings: seq<Packing>, logs: seq<Log>)
    requires 0 < s <= |file| && InputWithinLimits(|file|, s)
    requires Account(f, e, file, s, streamIn, streamOut, env, true, packings, logs)
    ensures WithinLimits(file, s, logs)
  {
    var rest := logs[1..];
    forall i | 0 <= i < |logs| ensures |logs[i].sent| < TWO32 + HEADER_LEN {
      if i > 0 {
        assert rest[i - 1] == logs[i] && Smooth(packings[i - 1], env(i));
        assert Report(f, e, file, s, i - 1, streamIn, streamOut, env(i), packings[i - 1], rest[i - 1]);
      }
    }
  }

  lemma SentIsReady<D(!new)>(f: Format, d: Decoder<D>, logs: seq<Log>, file: seq<Byte>, configured: nat, jobs: nat)
    requires FormatContract(f) && DecoderContract(f, d) && (configured == 0 ==> jobs > 0)
    requires var s := Segment(|file|, configured, jobs);
             && 0 < s <= |file| && Count(|file|, s) < TWO16
             && CarriesFile(f, Wires(logs), file, s) && WithinLimits(file, s, logs)
    ensures Ready(f, d, Wires(logs), file, Segment(|file|, configured, jobs))
  {
    var s, wires := Segment(|file|, configured, jobs), Wires(logs);
    forall i: nat | i < Count(|file|, s) ensures FieldsFit(wires[i + 1], SliceLen(|file|, s, i)) {
      ClampedLengthsFit(|file|, configured, jobs, i);
      assert |logs[i + 1].sent| < TWO32 + HEADER_LEN;
    }
  }

  /**
   * The sender's run and every run of the receiver on what it has sent.  For every behaviour of the network on
   * the sending side: when all jobs succeed and the announcement is not cut short, then, within the limits of
   * the headers, in every interleaving and fragmentation on the receiving side accepted slices make up the
   * input file.
   */
  method SendAndDeliver<C(!new), D(!new)>(f: Format, e: Encoder<C>, d: Decoder<D>, file: seq<Byte>, configured: nat,
                                          jobs: nat, streamIn: nat, streamOut: nat, env: nat -> Env)
    returns (ok: bool, s: nat, packings: seq<Packing>, logs: seq<Log>)
    requires FormatContract(f) && EncoderContract(f, e) && DecoderContract(f, d) && streamIn > 0 && streamOut > 0
    requires configured == 0 ==> 1 <= jobs <= |file|
    requires 0 < Segment(|file|, configured, jobs) <= |file|
    requires Count(|file|, Segment(|file|, configured, jobs)) < TWO16
    ensures s == Segment(|file|, configured, jobs)
    ensures Account(f, e, file, s, streamIn, streamOut, env, ok, packings, logs)
    ensures ok && InputWithinLimits(|file|, s) ==> WithinLimits(file, s, logs)
    ensures ok && GoesOut(env(0).script, |Print(|file|, Count(|file|, s))|) && WithinLimits(file, s, logs) ==>
              var job := JobOf(f, d, Wires(logs), file, s);
              && Ready(f, d, Wires(logs), file, s)
              && forall es, t :: Reaches(job, Init(job), es, t) && !t.fault && AllAccepted(t) ==> t.out == file
  {
    ok, s, packings, logs := SendFile(f, e, file, configured, jobs, streamIn, streamOut, env);
    if ok && InputWithinLimits(|file|, s) {
      InputLimitsSuffice(f, e, file, s, streamIn, streamOut, env, packings, logs);
    }
    if ok && GoesOut(env(0).script, |Print(|file|, Count(|file|, s))|) && WithinLimits(file, s, logs) {
      SentIsReady(f, d, logs, file, configured, jobs);
      ghost var job := JobOf(f, d, Wires(logs), file, s);
      forall es, t | Reaches(job, Init(job), es, t) && !t.fault && AllAccepted(t) ensures t.out == file {
        DeliveredMeansEqual(f, d, Wires(logs), file, s, es, t);
      }
    }
  }
}
