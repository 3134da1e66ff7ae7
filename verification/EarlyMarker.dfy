/**
 * The end marker of the whole receiver can come before any slice: the storing of the slice count falls between
 * the two loads of the supervisor's wait condition.
 */
module EarlyMarker {
  import opened Bytes
  import opened Codec
  import opened Geometry
  import opened Reception
  import opened Transfer
  import opened System
  import DL = Delivery
  import SC = Schedules
  import SV = Supervision
  import TP = ThreadPool

  /** Steps of the supervision that need nothing of the handlers. */
  ghost predicate Alone(cs: seq<SV.Event>) {
    forall k :: 0 <= k < |cs| ==> cs[k] != SV.Publish && !(cs[k].Work? && cs[k].e.Finish?)
  }

  /** Such steps are steps of the whole; `rest` follows. */
  lemma {:induction false} LiftAlone<D(!new)>(job: DL.Job<D>, s: State<D>, cs: seq<SV.Event>, d: SV.Control,
                                              rest: seq<Event>, t: State<D>)
    returns (es: seq<Event>)
    requires SV.Reaches(|job.parts|, s.ctl, cs, d) && Alone(cs) && Reaches(job, s.(ctl := d), rest, t)
    ensures Reaches(job, s, es, t) && Tasks(es) == Tasks(rest)
    decreases |cs|
  {
    if cs == [] {
      return rest;
    }
    assert cs[0] != SV.Publish && !(cs[0].Work? && cs[0].e.Finish?);
    es := LiftAlone(job, Next(job, s, Control(cs[0])), cs[1..], d, rest, t);
    Cons(job, s, Control(cs[0]), es, t);
    TasksCons(Control(cs[0]), es);
    es := [Control(cs[0])] + es;
  }

  /** No slice connection has been read from. */
  ghost predicate Untouched<D>(net: DL.Net<D>) {
    forall c :: 1 <= c < |net.conns| ==> net.conns[c] == DL.Conn(0, DL.Reading(Fresh))
  }

  /** The wake-up of the header handler. */
  lemma HeaderWakes<D(!new)>(job: DL.Job<D>) returns (e: DL.Event, net: DL.Net<D>)
    requires DL.Announces(job) && |job.wires| == |job.parts| + 1
    ensures e == DL.WakeUp(0, |job.wires[0]|)
    ensures DL.Enabled(job, DL.Init(job), e) && DL.Disciplined(job, DL.Init(job), e)
    ensures net == DL.Next(job, DL.Init(job), e)
    ensures !net.fault && net.conns[0].phase == DL.Exited(Code(0)) && net.sh.slicesNum == |job.parts|
    ensures Untouched(net) && net.out == DL.Zeros(job.size)
  {
    DL.InitInv(job);
    e := DL.HeaderCanWake(job, DL.Init(job));
    DL.HeaderStep(job, DL.Init(job));
    net := DL.Next(job, DL.Init(job), e);
  }

  /** The header handler has returned and the supervisor collects its future alone. */
  lemma MarkHeader<D(!new)>(job: DL.Job<D>, s: State<D>) returns (es: seq<Event>, t: State<D>)
    requires |s.ctl.pool.workers| >= 2 && s.ctl.pool.workers[1] == TP.Busy(1) && s.ctl.futures == [1]
    requires s.ctl.supervisor == SV.Connecting && |s.net.conns| > 0 && s.net.conns[0].phase.Exited?
    ensures Reaches(job, s, es, t) && Tasks(es) == [] && t.net == s.net && t.ctl.supervisor == SV.Marked(1)
  {
    var connect, finish := Control(SV.Connect), Control(SV.Work(TP.Finish(1)));
    var s1 := Next(job, s, connect);
    var s2 := Next(job, s1, finish);
    var s3 := Next(job, s2, Control(SV.Collect));
    t := Next(job, s3, Control(SV.Mark));
    Cons(job, s3, Control(SV.Mark), [], t);
    TasksCons(Control(SV.Mark), []);
    es := [Control(SV.Mark)] + [];
    Cons(job, s2, Control(SV.Collect), es, t);
    TasksCons(Control(SV.Collect), es);
    es := [Control(SV.Collect)] + es;
    Cons(job, s1, finish, es, t);
    TasksCons(finish, es);
    es := [finish] + es;
    Cons(job, s, connect, es, t);
    TasksCons(connect, es);
    es := [connect] + es;
  }

  /** The supervisor has compared with a count of 0; then the header handler stores the count. */
  lemma StoreAfter<D(!new)>(job: DL.Job<D>, c: SV.Control) returns (es: seq<Event>, t: State<D>)
    requires DL.Announces(job) && |job.wires| == |job.parts| + 1
    requires |c.pool.workers| >= 2 && c.pool.workers[1] == TP.Busy(1) && c.futures == [1]
    requires c.slicesNum == 0 && c.supervisor == SV.Checking
    ensures Reaches(job, State(c, DL.Init(job)), es, t) && t.ctl.supervisor == SV.Marked(1)
    ensures Tasks(es) == [DL.WakeUp(0, |job.wires[0]|)]
    ensures !t.net.fault && Untouched(t.net) && t.net.out == DL.Zeros(job.size)
  {
    var e, net := HeaderWakes(job);
    var s1 := State(c, DL.Init(job));
    assert Next(job, s1, Task(e)) == State(c.(slicesNum := |job.parts|), net);
    var s2 := Next(job, s1, Task(e));
    var s3 := Next(job, s2, Control(SV.LoadAgain));
    es, t := MarkHeader(job, s3);
    Cons(job, s2, Control(SV.LoadAgain), es, t);
    TasksCons(Control(SV.LoadAgain), es);
    es := [Control(SV.LoadAgain)] + es;
    Cons(job, s1, Task(e), es, t);
    TasksCons(Task(e), es);
    es := [Task(e)] + es;
  }

  lemma StoreBetween<D(!new)>(job: DL.Job<D>, s: State<D>) returns (es: seq<Event>, t: State<D>)
    requires DL.Announces(job) && |job.wires| == |job.parts| + 1 && s.net == DL.Init(job)
    requires SC.Staged(1, s.ctl) && s.ctl.slicesNum == 0 && s.ctl.supervisor == SV.Testing
    ensures Reaches(job, s, es, t) && t.ctl.supervisor == SV.Marked(1)
    ensures Tasks(es) == [DL.WakeUp(0, |job.wires[0]|)]
    ensures !t.net.fault && Untouched(t.net) && t.net.out == DL.Zeros(job.size)
  {
    var c := s.ctl.(supervisor := SV.Checking);
    assert c.futures == [1];
    es, t := StoreAfter(job, c);
    Compares(|job.parts|, s.ctl);
    es := LiftAlone(job, s, [SV.LoadCounter, SV.LoadCount], c, es, t);
  }

  lemma Compares(n: nat, c: SV.Control)
    requires SC.Staged(1, c) && c.slicesNum == 0 && c.supervisor == SV.Testing
    ensures SV.Reaches(n, c, [SV.LoadCounter, SV.LoadCount], c.(supervisor := SV.Checking))
  {
    var c1 := SV.Next(n, c, SV.LoadCounter);
    var c2 := SV.Next(n, c1, SV.LoadCount);
    assert c2 == c.(supervisor := SV.Checking);
    SV.Reaches1(n, c1, SV.LoadCount, [], c2);
    SV.Reaches1(n, c, SV.LoadCounter, [SV.LoadCount] + [], c2);
    assert [SV.LoadCounter] + ([SV.LoadCount] + []) == [SV.LoadCounter, SV.LoadCount];
  }

  /**
   * For every file and every cut of it, with two workers, some run of the whole receiver without failing calls
   * writes the end marker when it has read nothing but the announcement: no slice connection was looked at, and
   * the output file is all zero.
   */
  lemma MarkerWithoutSlices<D(!new)>(f: Format, d: Decoder<D>, wires: seq<seq<Byte>>, file: seq<Byte>, s: nat,
                                     size: nat)
    returns (es: seq<Event>, t: State<D>)
    requires Ready(f, d, wires, file, s) && size >= 2
    ensures var job := JobOf(f, d, wires, file, s); Reaches(job, Init(job, size), es, t) && NoFailures(es)
    ensures t.ctl.supervisor == SV.Marked(1) && !t.net.fault
    ensures Untouched(t.net) && t.net.out == DL.Zeros(|file|)
  {
    var job := JobOf(f, d, wires, file, s);
    ReadyJob(f, d, wires, file, s);
    var cs, c := SC.CanBeReady(|job.parts|, size, 1);
    var rest;
    rest, t := StoreBetween(job, Init(job, size).(ctl := c));
    forall k | 0 <= k < |cs| ensures cs[k] != SV.Publish && !(cs[k].Work? && cs[k].e.Finish?) {
      assert SC.Opening(cs[k]);
    }
    es := LiftAlone(job, Init(job, size), cs, c, rest, t);
  }
}
