/**
 * The whole receiver has no dead end: whatever has happened without failing calls, some continuation writes the
 * end marker over the exact file.
 */
module Liveness {
  import opened Bytes
  import opened Codec
  import opened Geometry
  import opened Reception
  import opened Transfer
  import opened Completion
  import opened System
  import DL = Delivery
  import SV = Supervision
  import TP = ThreadPool

  // ---- the supervision ----

  /** The accept loop owes the pool a notification exactly where it stands between pushing and notifying, and
      the supervisor keeps its worker until it is through. */
  ghost predicate Tidy(c: SV.Control) {
    && c.pool.notices == (if c.main == SV.Starting || c.main == SV.Notifying then 1 else 0)
    && (0 in c.pool.done ==> c.supervisor.Marked?)
    && c.supervisor != SV.Aborted
  }

  lemma TidyStep(n: nat, c: SV.Control, e: SV.Event)
    requires Tidy(c) && SV.Enabled(n, c, e) && e != SV.Abort
    ensures Tidy(SV.Next(n, c, e))
  {
  }

  lemma {:induction false} TidyRun(n: nat, c: SV.Control, es: seq<SV.Event>, d: SV.Control)
    requires Tidy(c) && SV.Reaches(n, c, es, d) && SV.Abort !in es
    ensures Tidy(d)
    decreases |es|
  {
    if es != [] {
      TidyStep(n, c, es[0]);
      TidyRun(n, SV.Next(n, c, es[0]), es[1..], d);
    }
  }

  /** The supervisor does not depend on a notification any more: it is about to test its condition or past its wait,
      and if it has loaded the counter, the counter was right. */
  predicate Looking(n: nat, c: SV.Control) {
    !SV.Resting(c) && (c.supervisor.Counter? ==> SV.Enough(c.supervisor.t, n))
  }

  /** A supervisor that collects does so from a complete list. */
  predicate Complete(n: nat, c: SV.Control) {
    SV.Begun(c) ==> c.supervisor.all == n + 1
  }

  /** A step that brings the supervisor neither to rest nor to a short list. */
  predicate Harmless(n: nat, c: SV.Control, d: SV.Control) {
    (Looking(n, c) ==> Looking(n, d)) && (Complete(n, c) ==> Complete(n, d))
  }

  function Rank(main: SV.MainPc): nat {
    match main
    case Starting => 4
    case Notifying => 4
    case Pushing => 3
    case Counting => 2
    case Signalling => 1
    case Accepting => 0
  }

  /** The accept loop can always go on until all connections are there. */
  lemma NextAccept(n: nat, c: SV.Control) returns (e: SV.Event)
    requires SV.Inv(n, c) && Tidy(c) && !(c.main == SV.Accepting && c.accepted == n + 1)
    ensures SV.Enabled(n, c, e) && (e == SV.Accept || e.DeliverNotice? || e == SV.PushFuture || e == SV.Increment
                                    || e == SV.Signal)
    ensures var d := SV.Next(n, c, e);
            && c.accepted <= d.accepted <= n + 1
            && (d.accepted > c.accepted || (d.accepted == c.accepted && Rank(d.main) < Rank(c.main)))
            && Harmless(n, c, d)
  {
    match c.main
    case Accepting => e := SV.Accept;
    case Starting => e := Notice(n, c);
    case Notifying => e := Notice(n, c);
    case Pushing => e := SV.PushFuture;
    case Counting => e := SV.Increment;
    case Signalling => e := SV.Signal;
  }

  lemma Notice(n: nat, c: SV.Control) returns (e: SV.Event)
    requires Tidy(c) && (c.main == SV.Starting || c.main == SV.Notifying)
    ensures e.DeliverNotice? && SV.Enabled(n, c, e)
  {
    if TP.SomeAsleep(c.pool) {
      var w :| 0 <= w < |c.pool.workers| && c.pool.workers[w] == TP.Asleep;
      e := SV.DeliverNotice(w);
    } else {
      e := SV.DeliverNotice(0);
    }
  }

  /** A worker runs a connection handler. */
  predicate Serving(p: TP.Pool) {
    exists w :: 0 <= w < |p.workers| && p.workers[w].Busy? && p.workers[w].task > 0
  }

  /** With a second worker and no notification under way, a queued handler finds a worker that is about to look
      when nobody runs another one. */
  lemma SomebodyLooks(p: TP.Pool) returns (w: nat)
    requires TP.Inv(p) && !p.stop && |p.workers| >= 2 && p.notices == 0 && p.queue != [] && !Serving(p)
    ensures w < |p.workers| && p.workers[w] == TP.Awake
  {
    if TP.SomeAsleep(p) {
      TP.AwakeExists(p.workers);
      w :| 0 <= w < |p.workers| && p.workers[w] == TP.Awake;
    } else {
      assert p.workers[0] in p.workers && p.workers[1] in p.workers;
      assert p.workers[0] != TP.Asleep && p.workers[1] != TP.Asleep;
      assert p.workers[0].Busy? ==> p.workers[0].task == 0;
      assert p.workers[1].Busy? ==> p.workers[1].task == 0;
      w := if p.workers[0] == TP.Awake then 0 else 1;
    }
  }

  /** Taking a task and finishing one bring the pool nearer to rest. */
  lemma WorkShrinks(p: TP.Pool, e: TP.Event)
    requires TP.Enabled(p, e) && (e.Finish? || (e.Look? && p.queue != []))
    ensures TP.Remaining(TP.Next(p, e)) < TP.Remaining(p)
  {
    TP.WeightsUpdate(p.workers, e.w, TP.Next(p, e).workers[e.w]);
  }

  /** The steps of the supervisor alone. */
  predicate Own(e: SV.Event) {
    || e == SV.LoadCounter || e == SV.LoadCount || e == SV.LoadAgain || e == SV.Doze || e == SV.SpuriousWake
    || e == SV.Connect || e == SV.Collect || e == SV.Mark
  }

  ghost predicate OwnSteps(es: seq<SV.Event>) {
    forall k :: 0 <= k < |es| ==> Own(es[k])
  }

  /** All connections are notified about, the count is stored and all handlers are done. */
  ghost predicate Settled(n: nat, c: SV.Control) {
    && SV.Inv(n, c) && 0 < n <= SV.SHORT_MAX && c.main == SV.Accepting && c.accepted == n + 1 && c.slicesNum == n
    && c.supervisor != SV.Aborted && (c.supervisor.Marked? || TP.Busy(0) in c.pool.workers)
    && forall j :: 0 <= j < |c.futures| ==> c.futures[j] in c.pool.done
  }

  /** How far the supervisor is from collecting the futures. */
  function Distance(n: nat, pc: SV.SupervisorPc): nat {
    match pc
    case Counter(t) => if SV.Enough(t, n) then 3 else 7
    case Dozing => 6
    case Asleep => 5
    case Testing => 4
    case Number(_) => 3
    case Checking => 2
    case Connecting => 1
    case _ => 0
  }

  lemma OwnStep(n: nat, c: SV.Control) returns (e: SV.Event)
    requires Settled(n, c) && !SV.Begun(c)
    ensures Own(e) && SV.Enabled(n, c, e) && (Looking(n, c) ==> e != SV.SpuriousWake)
    ensures var d := SV.Next(n, c, e);
            Settled(n, d) && Harmless(n, c, d) && Distance(n, d.supervisor) < Distance(n, c.supervisor)
  {
    e := match c.supervisor
         case Testing => SV.LoadCounter
         case Counter(_) => SV.LoadCount
         case Number(_) => SV.LoadCounter
         case Checking => SV.LoadAgain
         case Dozing => SV.Doze
         case Asleep => SV.SpuriousWake
         case _ => SV.Connect;
    SV.GuardHolds(n, c);
    SV.InvStep(n, c, e);
  }

  /** When all is settled, the supervisor can write the end marker; it needs a spurious wake-up only if it is not
      looking. */
  lemma {:induction false} WrapUp(n: nat, c: SV.Control) returns (es: seq<SV.Event>, d: SV.Control)
    requires Settled(n, c)
    ensures SV.Reaches(n, c, es, d) && d.supervisor.Marked? && OwnSteps(es)
    ensures Looking(n, c) ==> SV.SpuriousWake !in es
    ensures Complete(n, c) ==> d.supervisor == SV.Marked(n + 1)
    decreases Distance(n, c.supervisor)
  {
    if c.supervisor.Marked? {
      es, d := [], c;
    } else if c.supervisor.Collecting? {
      es, d := SV.CollectAll(n, c, c.supervisor.k, c.supervisor.all);
    } else {
      var e := OwnStep(n, c);
      es, d := WrapUp(n, SV.Next(n, c, e));
      SV.Reaches1(n, c, e, es, d);
      es := [e] + es;
    }
  }

  // ---- the whole receiver ----

  /** Nothing has failed. */
  ghost predicate Calm<D(!new)>(job: DL.Job<D>, s: State<D>) {
    && SV.Inv(|job.parts|, s.ctl) && Tidy(s.ctl) && |s.ctl.pool.workers| >= 2
    && Inv(job, s) && !s.net.fault && DL.NobodyFailed(s.net)
  }

  ghost predicate Sound<D(!new)>(job: DL.Job<D>) {
    Fine(job) && |job.parts| <= SV.SHORT_MAX
  }

  /** Neither a failing call nor an abort of the supervisor. */
  predicate Clean(e: Event) {
    match e
    case Control(c) => c != SV.Abort
    case Task(t) => !DL.Failure(t)
  }

  /** No spurious wake-up in the pool, and none of the supervisor if it is `looking`. */
  predicate Plain(e: Event, looking: bool) {
    && Clean(e)
    && (e.Control? && e.c.Work? ==> !e.c.e.Spurious?)
    && (looking ==> e != Control(SV.SpuriousWake))
  }

  ghost predicate AllPlain(es: seq<Event>, looking: bool) {
    forall k :: 0 <= k < |es| ==> Plain(es[k], looking)
  }

  lemma CalmControl<D(!new)>(job: DL.Job<D>, s: State<D>, c: SV.Event)
    requires Sound(job) && Calm(job, s) && Enabled(job, s, Control(c)) && c != SV.Abort
    ensures Calm(job, Next(job, s, Control(c)))
  {
    SV.InvStep(|job.parts|, s.ctl, c);
    TidyStep(|job.parts|, s.ctl, c);
    InvStep(job, s, Control(c));
  }

  lemma CalmTask<D(!new)>(job: DL.Job<D>, s: State<D>, e: DL.Event)
    requires Sound(job) && Calm(job, s) && Enabled(job, s, Task(e)) && !DL.Failure(e)
    ensures Calm(job, Next(job, s, Task(e)))
  {
    InvStep(job, s, Task(e));
    DL.InvStep(job, s.net, e);
    DL.CleanStep(job, s.net, e);
    TaskIsPublish(job, s, e);
    if SV.Enabled(|job.parts|, s.ctl, SV.Publish) {
      SV.InvStep(|job.parts|, s.ctl, SV.Publish);
    }
  }

  lemma LiftStep<D(!new)>(job: DL.Job<D>, s: State<D>, e: DL.Event, c: nat)
    requires e.c == c && DL.Enabled(job, s.net, e) && DL.Disciplined(job, s.net, e)
    requires TP.Busy(c + 1) in s.ctl.pool.workers && s.ctl.slicesNum == s.net.sh.slicesNum
    ensures Enabled(job, s, Task(e))
    ensures var m := Next(job, s, Task(e));
            && m.net == DL.Next(job, s.net, e) && m.ctl == s.ctl.(slicesNum := m.net.sh.slicesNum)
  {
  }

  /** A handler that a worker runs makes its steps in the whole; `rest` follows. */
  lemma {:induction false} LiftHandler<D(!new)>(job: DL.Job<D>, s: State<D>, es: seq<DL.Event>, net: DL.Net<D>, c: nat,
                                                rest: seq<Event>, t: State<D>)
    returns (fs: seq<Event>)
    requires CodeRun(job, s.net, es, net, c)
    requires TP.Busy(c + 1) in s.ctl.pool.workers && s.ctl.slicesNum == s.net.sh.slicesNum
    requires Reaches(job, State(s.ctl.(slicesNum := net.sh.slicesNum), net), rest, t)
    ensures Reaches(job, s, fs, t)
    ensures forall looking :: AllPlain(rest, looking) ==> AllPlain(fs, looking)
    decreases |es|
  {
    if es == [] {
      return rest;
    }
    LiftStep(job, s, es[0], c);
    fs := LiftHandler(job, Next(job, s, Task(es[0])), es[1..], net, c, rest, t);
    Cons(job, s, Task(es[0]), fs, t);
    fs := [Task(es[0])] + fs;
  }

  lemma {:induction false} LiftOwn<D(!new)>(job: DL.Job<D>, s: State<D>, cs: seq<SV.Event>, d: SV.Control)
    returns (es: seq<Event>)
    requires SV.Reaches(|job.parts|, s.ctl, cs, d) && OwnSteps(cs)
    ensures Reaches(job, s, es, s.(ctl := d)) && AllPlain(es, SV.SpuriousWake !in cs)
    decreases |cs|
  {
    if cs == [] {
      return [];
    }
    assert Own(cs[0]);
    es := LiftOwn(job, Next(job, s, Control(cs[0])), cs[1..], d);
    Cons(job, s, Control(cs[0]), es, s.(ctl := d));
    es := [Control(cs[0])] + es;
  }

  /** All connections are accepted and notified about. */
  predicate Full<D>(job: DL.Job<D>, s: State<D>) {
    s.ctl.main == SV.Accepting && s.ctl.accepted == |job.parts| + 1
  }

  predicate Idle<D>(s: State<D>) {
    s.ctl.pool.queue == [] && !Serving(s.ctl.pool)
  }

  /** When all is served, every connection handler is done and the supervisor still has its worker. */
  lemma IdlePool(n: nat, c: SV.Control)
    requires TP.Inv(c.pool) && SV.Bookkeeping(n, c) && Tidy(c) && c.main == SV.Accepting && c.accepted == n + 1
    requires c.pool.queue == [] && !Serving(c.pool)
    ensures forall t :: 1 <= t <= n + 1 ==> t in c.pool.done
    ensures c.supervisor.Marked? || TP.Busy(0) in c.pool.workers
    ensures forall j :: 0 <= j < |c.futures| ==> c.futures[j] in c.pool.done
  {
    forall t: nat | 1 <= t <= n + 1 ensures t in c.pool.done {
      assert TP.Busy(t) !in c.pool.workers;
    }
  }

  /** Once the header handler is through, the count is announced. */
  lemma HeaderThrough<D(!new)>(job: DL.Job<D>, s: State<D>)
    requires Inv(job, s) && !s.net.fault && DL.NobodyFailed(s.net) && 1 in s.ctl.pool.done
    ensures s.net.sh.mapped && s.ctl.slicesNum == |job.parts|
  {
    assert s.net.conns[0].phase == DL.Exited(Code(0));
  }

  /** What a continuation is to reach. */
  ghost predicate Concludes<D>(job: DL.Job<D>, s: State<D>, es: seq<Event>, t: State<D>) {
    && Reaches(job, s, es, t) && AllPlain(es, Looking(|job.parts|, s.ctl))
    && t.ctl.supervisor.Marked? && !t.net.fault && AllAccepted(t.net)
    && (Complete(|job.parts|, s.ctl) ==> t.ctl.supervisor == SV.Marked(|job.parts| + 1))
  }

  /** From a state in which all is served, the supervisor finishes. */
  lemma Conclude<D(!new)>(job: DL.Job<D>, s: State<D>) returns (es: seq<Event>, t: State<D>)
    requires Sound(job) && Calm(job, s) && Full(job, s) && Idle(s)
    ensures Concludes(job, s, es, t)
  {
    IdlePool(|job.parts|, s.ctl);
    HeaderThrough(job, s);
    var cs, d := WrapUp(|job.parts|, s.ctl);
    es := LiftOwn(job, s, cs, d);
    t := s.(ctl := d);
    forall c | 1 <= c < |s.net.conns| ensures s.net.conns[c].phase == DL.Exited(Code(0)) {
      assert c + 1 in s.ctl.pool.done;
    }
  }

  lemma ConcludesCons<D>(job: DL.Job<D>, s: State<D>, e: Event, es: seq<Event>, t: State<D>)
    requires Enabled(job, s, e) && Concludes(job, Next(job, s, e), es, t)
    requires Plain(e, true) && Harmless(|job.parts|, s.ctl, Next(job, s, e).ctl)
    ensures Concludes(job, s, [e] + es, t)
  {
    Cons(job, s, e, es, t);
  }

  // ---- serving the queue ----

  /** While nothing is announced and some handler runs, the header handler runs. */
  lemma HeaderRuns<D(!new)>(job: DL.Job<D>, s: State<D>)
    requires TP.Inv(s.ctl.pool) && Inv(job, s) && !s.net.fault && DL.NobodyFailed(s.net)
    requires !s.net.sh.mapped && Serving(s.ctl.pool)
    ensures TP.Busy(1) in s.ctl.pool.workers
  {
    assert s.net.conns[0].phase == DL.Reading(Fresh);
    assert 1 !in s.ctl.pool.done;
  }

  lemma AnnounceStep<D(!new)>(job: DL.Job<D>, s: State<D>) returns (e: DL.Event)
    requires Sound(job) && Calm(job, s) && !s.net.sh.mapped && Serving(s.ctl.pool)
    ensures Enabled(job, s, Task(e)) && !DL.Failure(e)
    ensures var t := Next(job, s, Task(e));
            Calm(job, t) && t.net.sh.mapped && t.ctl == s.ctl.(slicesNum := |job.parts|)
  {
    HeaderRuns(job, s);
    e := DL.HeaderCanWake(job, s.net);
    DL.HeaderStep(job, s.net);
    assert e.c == 0;
    CalmTask(job, s, e);
  }

  /** Somebody takes a task from the queue. */
  lemma LookStep<D(!new)>(job: DL.Job<D>, s: State<D>) returns (e: SV.Event)
    requires Sound(job) && Calm(job, s) && Full(job, s) && s.ctl.pool.queue != [] && !Serving(s.ctl.pool)
    ensures e.Work? && e.e.Look? && Enabled(job, s, Control(e))
    ensures var t := Next(job, s, Control(e));
            && Calm(job, t) && t.net == s.net && t.ctl == s.ctl.(pool := t.ctl.pool)
            && TP.Remaining(t.ctl.pool) < TP.Remaining(s.ctl.pool)
  {
    var w := SomebodyLooks(s.ctl.pool);
    e := SV.Work(TP.Look(w));
    CalmControl(job, s, e);
    WorkShrinks(s.ctl.pool, TP.Look(w));
  }

  /** A handler that has returned leaves its worker. */
  lemma FinishStep<D(!new)>(job: DL.Job<D>, s: State<D>, w: nat) returns (e: SV.Event)
    requires Sound(job) && Calm(job, s) && w < |s.ctl.pool.workers|
    requires s.ctl.pool.workers[w].Busy? && s.ctl.pool.workers[w].task > 0
    requires var k := s.ctl.pool.workers[w].task - 1; k < |s.net.conns| && s.net.conns[k].phase.Exited?
    ensures e.Work? && e.e.Finish? && Enabled(job, s, Control(e))
    ensures var t := Next(job, s, Control(e));
            && Calm(job, t) && t.net == s.net && t.ctl == s.ctl.(pool := t.ctl.pool)
            && TP.Remaining(t.ctl.pool) < TP.Remaining(s.ctl.pool)
  {
    e := SV.Work(TP.Finish(w));
    CalmControl(job, s, e);
    WorkShrinks(s.ctl.pool, TP.Finish(w));
  }

  /** The code of the handler of connection `c` can be run to its end. */
  lemma RunCode<D(!new)>(job: DL.Job<D>, net: DL.Net<D>, c: nat) returns (es: seq<DL.Event>, t: DL.Net<D>)
    requires Fine(job) && OnCourse(job, net) && c <= |job.parts|
    ensures CodeRun(job, net, es, t, c)
    ensures OnCourse(job, t) && c < |t.conns| && t.conns[c].phase.Exited?
  {
    if c == 0 {
      es, t := [], net;
    } else {
      es, t := FinishSlice(job, net, c - 1);
    }
  }

  lemma TaskBound<D(!new)>(job: DL.Job<D>, s: State<D>, w: nat)
    requires TP.Inv(s.ctl.pool) && SV.Bookkeeping(|job.parts|, s.ctl) && w < |s.ctl.pool.workers|
    requires s.ctl.pool.workers[w].Busy?
    ensures s.ctl.pool.workers[w].task <= |job.parts| + 1
  {
  }

  /** Exchanging the handlers' state for a later one keeps the rest calm. */
  lemma CalmNet<D(!new)>(job: DL.Job<D>, s: State<D>, es: seq<DL.Event>, net: DL.Net<D>)
    requires Calm(job, s) && s.net.sh.mapped && DL.Reaches(job, s.net, es, net) && OnCourse(job, net)
    ensures Calm(job, s.(net := net)) && net.sh.slicesNum == s.net.sh.slicesNum
  {
    forall t | t in s.ctl.pool.done && t > 0
      ensures t - 1 < |net.conns| && net.conns[t - 1].phase.Exited?
    {
      ExitedForever(job, s.net, es, net, t - 1);
    }
  }

  lemma {:induction false} ExitedForever<D(!new)>(job: DL.Job<D>, net: DL.Net<D>, es: seq<DL.Event>, t: DL.Net<D>,
                                                  c: nat)
    requires DL.Reaches(job, net, es, t) && c < |net.conns| && net.conns[c].phase.Exited?
    ensures c < |t.conns| && t.conns[c].phase.Exited?
    decreases |es|
  {
    if es != [] {
      ExitedStays(job, net, es[0], c);
      ExitedForever(job, DL.Next(job, net, es[0]), es[1..], t, c);
    }
  }

  /** A running handler is run to its end and leaves its worker. */
  lemma ServeOne<D(!new)>(job: DL.Job<D>, s: State<D>)
    returns (c: nat, es: seq<DL.Event>, m: State<D>, e: Event, t: State<D>)
    requires Sound(job) && Calm(job, s) && s.net.sh.mapped && Serving(s.ctl.pool)
    ensures TP.Busy(c + 1) in s.ctl.pool.workers && CodeRun(job, s.net, es, m.net, c)
    ensures m.ctl == s.ctl && m.net.sh.slicesNum == s.net.sh.slicesNum
    ensures Plain(e, true) && Enabled(job, m, e) && t == Next(job, m, e)
    ensures Calm(job, t) && t.net == m.net && t.net.sh.mapped && t.ctl == s.ctl.(pool := t.ctl.pool)
    ensures TP.Remaining(t.ctl.pool) < TP.Remaining(s.ctl.pool)
  {
    var w :| 0 <= w < |s.ctl.pool.workers| && s.ctl.pool.workers[w].Busy? && s.ctl.pool.workers[w].task > 0;
    TaskBound(job, s, w);
    c := s.ctl.pool.workers[w].task - 1;
    assert s.ctl.pool.workers[w] == TP.Busy(c + 1);
    var net;
    es, net := RunCode(job, s.net, c);
    CalmNet(job, s, es, net);
    m := s.(net := net);
    var f := FinishStep(job, m, w);
    e, t := Control(f), Next(job, m, Control(f));
  }

  /** With all connections accepted, the receiver can come to its end. */
  lemma {:induction false} ServeAll<D(!new)>(job: DL.Job<D>, s: State<D>) returns (es: seq<Event>, t: State<D>)
    requires Sound(job) && Calm(job, s) && Full(job, s)
    ensures Concludes(job, s, es, t)
    decreases if s.net.sh.mapped then 0 else 1, TP.Remaining(s.ctl.pool), 1
  {
    if Idle(s) {
      es, t := Conclude(job, s);
    } else if !Serving(s.ctl.pool) {
      var e := LookStep(job, s);
      es, t := ServeAll(job, Next(job, s, Control(e)));
      ConcludesCons(job, s, Control(e), es, t);
      es := [Control(e)] + es;
    } else if !s.net.sh.mapped {
      var e := AnnounceStep(job, s);
      es, t := ServeAll(job, Next(job, s, Task(e)));
      ConcludesCons(job, s, Task(e), es, t);
      es := [Task(e)] + es;
    } else {
      es, t := ServeNext(job, s);
    }
  }

  /** A running handler is run to its end, and then the others. */
  lemma {:induction false} ServeNext<D(!new)>(job: DL.Job<D>, s: State<D>) returns (es: seq<Event>, t: State<D>)
    requires Sound(job) && Calm(job, s) && Full(job, s) && s.net.sh.mapped && Serving(s.ctl.pool)
    ensures Concludes(job, s, es, t)
    decreases 0, TP.Remaining(s.ctl.pool), 0
  {
    var c, code, m, e, next := ServeOne(job, s);
    es, t := ServeAll(job, next);
    ConcludesCons(job, m, e, es, t);
    es := ConcludesAfter(job, s, code, m, c, [e] + es, t);
  }

  lemma ConcludesAfter<D(!new)>(job: DL.Job<D>, s: State<D>, code: seq<DL.Event>, m: State<D>, c: nat,
                                rest: seq<Event>, t: State<D>)
    returns (es: seq<Event>)
    requires Coupled(s) && m.ctl == s.ctl && m.net.sh.slicesNum == s.net.sh.slicesNum
    requires TP.Busy(c + 1) in s.ctl.pool.workers && CodeRun(job, s.net, code, m.net, c)
    requires Concludes(job, m, rest, t)
    ensures Concludes(job, s, es, t)
  {
    assert m == State(s.ctl.(slicesNum := m.net.sh.slicesNum), m.net);
    es := LiftHandler(job, s, code, m.net, c, rest, t);
  }

  lemma AcceptStep<D(!new)>(job: DL.Job<D>, s: State<D>) returns (e: SV.Event)
    requires Sound(job) && Calm(job, s) && !Full(job, s)
    ensures Enabled(job, s, Control(e)) && Plain(Control(e), true)
    ensures var t := Next(job, s, Control(e));
            && Calm(job, t) && s.ctl.accepted <= t.ctl.accepted <= |job.parts| + 1
            && (t.ctl.accepted == s.ctl.accepted ==> Rank(t.ctl.main) < Rank(s.ctl.main))
            && Harmless(|job.parts|, s.ctl, t.ctl)
  {
    e := NextAccept(|job.parts|, s.ctl);
    CalmControl(job, s, e);
  }

  /** From every calm state the receiver can come to its end. */
  lemma {:induction false} FinishReceiver<D(!new)>(job: DL.Job<D>, s: State<D>) returns (es: seq<Event>, t: State<D>)
    requires Sound(job) && Calm(job, s)
    ensures Concludes(job, s, es, t)
    decreases |job.parts| + 1 - s.ctl.accepted, Rank(s.ctl.main)
  {
    if Full(job, s) {
      es, t := ServeAll(job, s);
    } else {
      var e := AcceptStep(job, s);
      es, t := FinishReceiver(job, Next(job, s, Control(e)));
      ConcludesCons(job, s, Control(e), es, t);
      es := [Control(e)] + es;
    }
  }

  // ---- every run ----

  ghost predicate AllClean(es: seq<Event>) {
    forall k :: 0 <= k < |es| ==> Clean(es[k])
  }

  lemma {:induction false} CalmRun<D(!new)>(job: DL.Job<D>, s: State<D>, es: seq<Event>, t: State<D>)
    requires Sound(job) && Calm(job, s) && Reaches(job, s, es, t) && AllClean(es)
    ensures Calm(job, t)
    decreases |es|
  {
    if es != [] {
      assert Clean(es[0]);
      match es[0] {
        case Control(c) => CalmControl(job, s, c);
        case Task(e) => CalmTask(job, s, e);
      }
      CalmRun(job, Next(job, s, es[0]), es[1..], t);
    }
  }

  lemma InitCalm<D(!new)>(job: DL.Job<D>, size: nat)
    requires Sound(job) && size >= 2
    ensures Calm(job, Init(job, size))
  {
    SV.InitInv(|job.parts|, size);
    InitInv(job, size);
  }

  lemma SoundJob<D(!new)>(f: Format, d: Decoder<D>, wires: seq<seq<Byte>>, file: seq<Byte>, s: nat)
    requires Ready(f, d, wires, file, s) && Agree(|file|, s) && ShortSlices(|file|, s)
    requires Count(|file|, s) <= SV.SHORT_MAX
    ensures Sound(JobOf(f, d, wires, file, s))
  {
    ReadyJob(f, d, wires, file, s);
    AgreementTiles(f, d, wires, file, s);
  }

  /**
   * When the strides agree, every slice is shorter than 2 GiB, there are at most 32767 slices and the pool has two
   * workers: from every state that a run of the whole receiver without failing calls can be in, such a run can go
   * on until all handlers have accepted, the file is exact and the end marker is written; unless the supervisor's
   * list of futures was short before, the marker then rests on all handlers.  It needs no spurious wake-up, except
   * of a supervisor that rests or has loaded the counter too early.
   */
  lemma ReceiverCanAlwaysFinish<D(!new)>(f: Format, d: Decoder<D>, wires: seq<seq<Byte>>, file: seq<Byte>, s: nat,
                                         size: nat, es: seq<Event>, st: State<D>)
    returns (more: seq<Event>, t: State<D>)
    requires Ready(f, d, wires, file, s) && Agree(|file|, s) && ShortSlices(|file|, s)
    requires Count(|file|, s) <= SV.SHORT_MAX && size >= 2
    requires var job := JobOf(f, d, wires, file, s); Reaches(job, Init(job, size), es, st)
    requires AllClean(es)
    ensures Reaches(JobOf(f, d, wires, file, s), st, more, t) && AllPlain(more, Looking(Count(|file|, s), st.ctl))
    ensures t.ctl.supervisor.Marked? && !t.net.fault && AllAccepted(t.net) && t.net.out == file
    ensures !ShortList(JobOf(f, d, wires, file, s), size, es) ==> t.ctl.supervisor == SV.Marked(Count(|file|, s) + 1)
  {
    var job := JobOf(f, d, wires, file, s);
    SoundJob(f, d, wires, file, s);
    InitCalm(job, size);
    CalmRun(job, Init(job, size), es, st);
    if SV.Begun(st.ctl) {
      CollectsAllIff(job, size, es, st);
    }
    more, t := FinishReceiver(job, st);
    RunsHandlers(job, Init(job, size), es, st);
    RunsHandlers(job, st, more, t);
    ReachesAppend(job, DL.Init(job), Tasks(es), st.net, Tasks(more), t.net);
    DeliveredMeansEqual(f, d, wires, file, s, Tasks(es) + Tasks(more), t.net);
  }
}
