/**
 * The receiver as a whole: the accept loop, the pool and the supervisor together with the connection handlers
 * that the workers run.  Connection c is task c + 1.  Every run of the whole is a run of each of its parts.
 */
module System {
  import opened Bytes
  import opened Codec
  import opened Geometry
  import opened Reception
  import opened Transfer
  import DL = Delivery
  import SV = Supervision
  import TP = ThreadPool

  datatype State<+D> = State(ctl: SV.Control, net: DL.Net<D>)

  datatype Event = Control(c: SV.Event) | Task(t: DL.Event)

  function Init<D>(job: DL.Job<D>, size: nat): State<D> {
    State(SV.Init(size), DL.Init(job))
  }

  /** A task finishes only when its code has returned, and its code advances only while a worker runs it. */
  predicate Enabled<D>(job: DL.Job<D>, s: State<D>, e: Event) {
    match e
    case Control(c) =>
      && c != SV.Publish
      && SV.Enabled(|job.parts|, s.ctl, c)
      && (c.Work? && c.e.Finish? && s.ctl.pool.workers[c.e.w].task > 0 ==>
            var k := s.ctl.pool.workers[c.e.w].task - 1; k < |s.net.conns| && s.net.conns[k].phase.Exited?)
    case Task(t) =>
      && DL.Enabled(job, s.net, t) && DL.Disciplined(job, s.net, t)
      && TP.Busy(t.c + 1) in s.ctl.pool.workers
  }

  /** The supervisor reads the slice count that the header handler stores. */
  function Next<D>(job: DL.Job<D>, s: State<D>, e: Event): State<D>
    requires Enabled(job, s, e)
  {
    match e
    case Control(c) => s.(ctl := SV.Next(|job.parts|, s.ctl, c))
    case Task(t) =>
      var net := DL.Next(job, s.net, t);
      State(s.ctl.(slicesNum := net.sh.slicesNum), net)
  }

  ghost predicate Reaches<D>(job: DL.Job<D>, s: State<D>, es: seq<Event>, t: State<D>)
    decreases |es|
  {
    if es == [] then s == t else Enabled(job, s, es[0]) && Reaches(job, Next(job, s, es[0]), es[1..], t)
  }

  lemma Cons<D>(job: DL.Job<D>, s: State<D>, e: Event, es: seq<Event>, t: State<D>)
    requires Enabled(job, s, e) && Reaches(job, Next(job, s, e), es, t)
    ensures Reaches(job, s, [e] + es, t)
  {
    assert ([e] + es)[1..] == es;
  }

  // ---- every run is a run of the handlers ----

  function Tasks(es: seq<Event>): seq<DL.Event> {
    if es == [] then [] else if es[0].Task? then [es[0].t] + Tasks(es[1..]) else Tasks(es[1..])
  }

  lemma TasksCons(e: Event, es: seq<Event>)
    ensures Tasks([e] + es) == (if e.Task? then [e.t] else []) + Tasks(es)
  {
    assert ([e] + es)[1..] == es;
  }

  lemma {:induction false} RunsHandlers<D(!new)>(job: DL.Job<D>, s: State<D>, es: seq<Event>, t: State<D>)
    requires Reaches(job, s, es, t)
    ensures DL.Reaches(job, s.net, Tasks(es), t.net)
    decreases |es|
  {
    if es != [] {
      RunsHandlers(job, Next(job, s, es[0]), es[1..], t);
      if es[0].Task? {
        assert Tasks(es)[1..] == Tasks(es[1..]);
      }
    }
  }

  // ---- every run is a run of the supervision ----

  /** The two machines agree on the slice count and on which tasks are over. */
  ghost predicate Coupled<D>(s: State<D>) {
    && s.ctl.slicesNum == s.net.sh.slicesNum
    && forall t :: t in s.ctl.pool.done && t > 0 ==> t - 1 < |s.net.conns| && s.net.conns[t - 1].phase.Exited?
  }

  ghost predicate Inv<D>(job: DL.Job<D>, s: State<D>) {
    DL.Inv(job, s.net) && Coupled(s)
  }

  /** Tasks that have exited stay exited. */
  lemma ExitedStays<D>(job: DL.Job<D>, net: DL.Net<D>, e: DL.Event, c: nat)
    requires DL.Enabled(job, net, e) && c < |net.conns| && net.conns[c].phase.Exited?
    ensures |DL.Next(job, net, e).conns| == |net.conns| && DL.Next(job, net, e).conns[c] == net.conns[c]
  {
    assert e.c != c;
  }

  lemma CoupledAfterTask<D>(job: DL.Job<D>, s: State<D>, e: DL.Event)
    requires Coupled(s) && Enabled(job, s, Task(e))
    ensures Coupled(Next(job, s, Task(e)))
  {
    var t := Next(job, s, Task(e));
    forall k | k in t.ctl.pool.done && k > 0
      ensures k - 1 < |t.net.conns| && t.net.conns[k - 1].phase.Exited?
    {
      ExitedStays(job, s.net, e, k - 1);
    }
  }

  lemma CoupledAfterControl<D>(job: DL.Job<D>, s: State<D>, c: SV.Event)
    requires Coupled(s) && Enabled(job, s, Control(c))
    ensures Coupled(Next(job, s, Control(c)))
  {
  }

  lemma InvStep<D(!new)>(job: DL.Job<D>, s: State<D>, e: Event)
    requires DL.Works(job) && DL.Announces(job) && Inv(job, s) && Enabled(job, s, e)
    ensures Inv(job, Next(job, s, e))
  {
    match e
    case Control(c) => CoupledAfterControl(job, s, c);
    case Task(t) =>
      DL.InvStep(job, s.net, t);
      CoupledAfterTask(job, s, t);
  }

  /** A step of a slice handler leaves the slice count alone. */
  lemma CountStays<D(!new)>(job: DL.Job<D>, net: DL.Net<D>, e: DL.Event)
    requires DL.Works(job) && DL.Inv(job, net) && net.sh.mapped
    requires DL.Enabled(job, net, e) && DL.Disciplined(job, net, e)
    ensures DL.Next(job, net, e).sh.slicesNum == net.sh.slicesNum
  {
    DL.SliceStep(job, net, e);
  }

  /** Before the announcement only the header handler stores a count, and it is the number of parts. */
  lemma CountAnnounced<D(!new)>(job: DL.Job<D>, net: DL.Net<D>, e: DL.Event)
    requires DL.Announces(job) && DL.Inv(job, net) && !net.sh.mapped
    requires DL.Enabled(job, net, e) && DL.Disciplined(job, net, e)
    ensures var sh := DL.Next(job, net, e).sh;
            sh.slicesNum == net.sh.slicesNum || (e.c == 0 && sh.slicesNum == |job.parts|)
  {
    DL.BeforeStep(job, net, e);
  }

  /** To the supervision, a step of a handler is nothing or the storing of the count. */
  lemma TaskIsPublish<D(!new)>(job: DL.Job<D>, s: State<D>, e: DL.Event)
    requires DL.Works(job) && DL.Announces(job) && Inv(job, s) && Enabled(job, s, Task(e))
    ensures var c := Next(job, s, Task(e)).ctl;
            || c == s.ctl
            || (SV.Enabled(|job.parts|, s.ctl, SV.Publish) && c == SV.Next(|job.parts|, s.ctl, SV.Publish))
  {
    if s.net.sh.mapped {
      CountStays(job, s.net, e);
    } else {
      CountAnnounced(job, s.net, e);
    }
  }

  /** The events of the supervision in a run: a step of a handler counts if it stores the slice count. */
  function Controls<D>(job: DL.Job<D>, s: State<D>, es: seq<Event>): seq<SV.Event>
    decreases |es|
  {
    if es == [] || !Enabled(job, s, es[0]) then []
    else
      var m := Next(job, s, es[0]);
      var rest := Controls(job, m, es[1..]);
      match es[0]
      case Control(c) => [c] + rest
      case Task(_) => if m.ctl == s.ctl then rest else [SV.Publish] + rest
  }

  lemma {:induction false} RunsSupervision<D(!new)>(job: DL.Job<D>, s: State<D>, es: seq<Event>, t: State<D>)
    requires DL.Works(job) && DL.Announces(job) && Inv(job, s) && Reaches(job, s, es, t)
    ensures SV.Reaches(|job.parts|, s.ctl, Controls(job, s, es), t.ctl) && Inv(job, t)
    decreases |es|
  {
    if es != [] {
      var m := Next(job, s, es[0]);
      InvStep(job, s, es[0]);
      RunsSupervision(job, m, es[1..], t);
      var rest := Controls(job, m, es[1..]);
      match es[0]
      case Control(c) => SV.Reaches1(|job.parts|, s.ctl, c, rest, t.ctl);
      case Task(e) =>
        TaskIsPublish(job, s, e);
        if m.ctl != s.ctl {
          SV.Reaches1(|job.parts|, s.ctl, SV.Publish, rest, t.ctl);
        }
    }
  }

  lemma InitInv<D>(job: DL.Job<D>, size: nat)
    requires |job.wires| == |job.parts| + 1
    ensures Inv(job, Init(job, size))
  {
    DL.InitInv(job);
  }

  // ---- who runs ----

  /** A handler that has done something was started by a worker. */
  ghost predicate Manned<D>(s: State<D>) {
    && TP.Inv(s.ctl.pool) && Coupled(s) && s.ctl.pool.issued == s.ctl.accepted + 1
    && forall c: nat :: c < |s.net.conns| && s.net.conns[c] != DL.Conn(0, DL.Reading(Fresh)) ==>
         c + 1 < |s.ctl.pool.started|
  }

  lemma MannedStep<D>(job: DL.Job<D>, s: State<D>, e: Event)
    requires Manned(s) && Enabled(job, s, e)
    ensures Manned(Next(job, s, e)) && |Next(job, s, e).net.conns| == |s.net.conns|
  {
    match e
    case Control(c) =>
      SV.PoolStep(|job.parts|, s.ctl, c);
      CoupledAfterControl(job, s, c);
      assert s.ctl.pool.started <= Next(job, s, e).ctl.pool.started;
    case Task(t) =>
      CoupledAfterTask(job, s, t);
      var w :| 0 <= w < |s.ctl.pool.workers| && s.ctl.pool.workers[w] == TP.Busy(t.c + 1);
      var net := DL.Next(job, s.net, t);
      assert net.conns == s.net.conns[t.c := net.conns[t.c]];
  }

  lemma {:induction false} MannedRun<D>(job: DL.Job<D>, s: State<D>, es: seq<Event>, t: State<D>)
    requires Manned(s) && Reaches(job, s, es, t)
    ensures Manned(t) && |t.net.conns| == |s.net.conns|
    decreases |es|
  {
    if es != [] {
      MannedStep(job, s, es[0]);
      MannedRun(job, Next(job, s, es[0]), es[1..], t);
    }
  }

  /** No other worker does what worker `w` does. */
  predicate Alone(ws: seq<TP.Worker>, w: nat)
    requires w < |ws|
  {
    forall v :: 0 <= v < |ws| && v != w ==> ws[v] != ws[w]
  }

  /** In every run, whatever is on the connections: a handler between its first step and its last holds a worker of
      its own, from the first step on to the last. */
  lemma HandlersHoldWorkers<D>(job: DL.Job<D>, size: nat, es: seq<Event>, t: State<D>, c: nat)
    requires Reaches(job, Init(job, size), es, t)
    requires c < |t.net.conns| && t.net.conns[c] != DL.Conn(0, DL.Reading(Fresh))
    ensures |t.net.conns| == |job.wires| && t.ctl.accepted > c
    ensures t.net.conns[c].phase.Exited? ||
              exists w :: 0 <= w < |t.ctl.pool.workers| && t.ctl.pool.workers[w] == TP.Busy(c + 1) &&
                          Alone(t.ctl.pool.workers, w)
  {
    var s := Init(job, size);
    SV.InitInv(|job.parts|, size);
    MannedRun(job, s, es, t);
    if !t.net.conns[c].phase.Exited? {
      assert TP.Busy(c + 1) in t.ctl.pool.workers;
      var w :| 0 <= w < |t.ctl.pool.workers| && t.ctl.pool.workers[w] == TP.Busy(c + 1);
      assert Alone(t.ctl.pool.workers, w);
    }
  }

  // ---- the end marker ----

  /** The supervisor took the bounds of a short list of futures, because the slice count was stored between the
      two loads of its wait condition. */
  ghost predicate ShortList<D>(job: DL.Job<D>, size: nat, es: seq<Event>) {
    SV.ShortListIn(|job.parts|, Controls(job, Init(job, size), es))
  }

  /** In every run of the whole receiver, for at most 32767 slices: the supervisor collects, and writes the end marker
      after, the futures of all handlers if and only if its list was not short. */
  lemma CollectsAllIff<D(!new)>(job: DL.Job<D>, size: nat, es: seq<Event>, t: State<D>)
    requires DL.Works(job) && DL.Announces(job) && |job.parts| <= SV.SHORT_MAX
    requires Reaches(job, Init(job, size), es, t) && SV.Begun(t.ctl)
    ensures t.ctl.supervisor.all == |job.parts| + 1 <==> !ShortList(job, size, es)
  {
    InitInv(job, size);
    RunsSupervision(job, Init(job, size), es, t);
    SV.ListCompleteIff(|job.parts|, size, Controls(job, Init(job, size), es), t.ctl);
  }

  /** Unless the list was short, the marker is written only after the handler of every connection has returned. */
  lemma MarkedMeansExited<D(!new)>(job: DL.Job<D>, size: nat, es: seq<Event>, t: State<D>)
    requires DL.Works(job) && DL.Announces(job) && |job.parts| <= SV.SHORT_MAX
    requires Reaches(job, Init(job, size), es, t) && t.ctl.supervisor.Marked? && !ShortList(job, size, es)
    ensures forall c :: 0 <= c < |t.net.conns| ==> t.net.conns[c].phase.Exited?
  {
    InitInv(job, size);
    RunsSupervision(job, Init(job, size), es, t);
    SV.EndMarkerAfterAllTasks(|job.parts|, size, Controls(job, Init(job, size), es), t.ctl);
    forall c | 0 <= c < |t.net.conns| ensures t.net.conns[c].phase.Exited? {
      assert c + 1 in t.ctl.pool.done;
    }
  }

  /**
   * The end marker, for at most 32767 slices: in every run of the whole receiver, with any number of workers, any
   * interleaving and any fragmentation, in which the supervisor's list of futures was not short, once the marker is
   * written every connection handler has returned; and if nothing undefined was done and every slice handler has
   * returned 0, the strides agree and the output file is the input file.
   */
  lemma EndMarkerMeansTransferred<D(!new)>(f: Format, d: Decoder<D>, wires: seq<seq<Byte>>, file: seq<Byte>, s: nat,
                                           size: nat, es: seq<Event>, t: State<D>)
    requires Ready(f, d, wires, file, s) && Count(|file|, s) <= SV.SHORT_MAX
    requires var job := JobOf(f, d, wires, file, s); Reaches(job, Init(job, size), es, t) && !ShortList(job, size, es)
    requires t.ctl.supervisor.Marked?
    ensures forall c :: 0 <= c < |t.net.conns| ==> t.net.conns[c].phase.Exited?
    ensures !t.net.fault && AllAccepted(t.net) ==> Agree(|file|, s) && t.net.out == file
  {
    var job := JobOf(f, d, wires, file, s);
    ReadyJob(f, d, wires, file, s);
    MarkedMeansExited(job, size, es, t);
    RunsHandlers(job, Init(job, size), es, t);
    if !t.net.fault && AllAccepted(t.net) {
      DeliveredMeansEqual(f, d, wires, file, s, Tasks(es), t.net);
    }
  }

  /** No read fails and no decoder context is refused. */
  ghost predicate NoFailures(es: seq<Event>) {
    DL.NoFailures(Tasks(es))
  }

  /** Without failing calls and short lists, and with slices shorter than 2 GiB, the end marker alone means that the
      strides agree and the output file is the input file, or something undefined was done. */
  lemma EndMarkerWithoutFailures<D(!new)>(f: Format, d: Decoder<D>, wires: seq<seq<Byte>>, file: seq<Byte>, s: nat,
                                          size: nat, es: seq<Event>, t: State<D>)
    requires Ready(f, d, wires, file, s) && Count(|file|, s) <= SV.SHORT_MAX
    requires ShortSlices(|file|, s) && NoFailures(es)
    requires var job := JobOf(f, d, wires, file, s); Reaches(job, Init(job, size), es, t) && !ShortList(job, size, es)
    requires t.ctl.supervisor.Marked? && !t.net.fault
    ensures Agree(|file|, s) && t.net.out == file
  {
    var job := JobOf(f, d, wires, file, s);
    ReadyJob(f, d, wires, file, s);
    DL.InitInv(job);
    RunsHandlers(job, Init(job, size), es, t);
    DL.CleanRun(job, DL.Init(job), Tasks(es), t.net);
    EndMarkerMeansTransferred(f, d, wires, file, s, size, es, t);
  }
}
