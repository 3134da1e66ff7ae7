/**
 * The thread pool as a machine of atomic steps: the sections under the mutex, the notifications that
 * follow them outside of it, and the wake-ups of the condition variable, spurious ones included.
 */
module ThreadPool {
  /** A worker is about to look at the queue, sleeps on the condition variable, runs a task, or has
      returned. */
  datatype Worker = Awake | Asleep | Busy(task: nat) | Gone

  /**
   * `notices` counts enqueue calls that have left the mutex and still owe their `notify_one`;
   * `broadcast` says that the destructor still owes its `notify_all`.  Tasks are numbered in the order
   * in which they are enqueued; `issued`, `started` and `done` record the past.
   */
  datatype Pool = Pool(
    workers: seq<Worker>, queue: seq<nat>, stop: bool, notices: nat, broadcast: bool,
    issued: nat, started: seq<nat>, done: set<nat>)

  datatype Event =
    | Enqueue           // push a task under the mutex
    | Notify(w: nat)    // deliver an owed notify_one, to `w` if anybody sleeps
    | Look(w: nat)      // take the mutex and test the wait predicate
    | Finish(w: nat)    // a task returns
    | Spurious(w: nat)  // wake up without a notification
    | Stop              // the destructor sets the flag under the mutex
    | Broadcast         // the destructor's notify_all

  function Init(size: nat): Pool {
    Pool(seq(size, _ => Awake), [], false, 0, false, 0, [], {})
  }

  predicate SomeAsleep(p: Pool) {
    exists w :: 0 <= w < |p.workers| && p.workers[w] == Asleep
  }

  /** An object under destruction takes no more tasks. */
  predicate Enabled(p: Pool, e: Event) {
    match e
    case Enqueue => !p.stop
    case Notify(w) => p.notices > 0 && (SomeAsleep(p) ==> w < |p.workers| && p.workers[w] == Asleep)
    case Look(w) => w < |p.workers| && p.workers[w] == Awake
    case Finish(w) => w < |p.workers| && p.workers[w].Busy?
    case Spurious(w) => w < |p.workers| && p.workers[w] == Asleep
    case Stop => !p.stop
    case Broadcast => p.broadcast
  }

  function WakeAll(ws: seq<Worker>): (r: seq<Worker>)
    ensures |r| == |ws|
    ensures forall w :: 0 <= w < |ws| ==> r[w] == if ws[w] == Asleep then Awake else ws[w]
  {
    seq(|ws|, i requires 0 <= i < |ws| => if ws[i] == Asleep then Awake else ws[i])
  }

  function Next(p: Pool, e: Event): Pool
    requires Enabled(p, e)
  {
    match e
    case Enqueue => p.(queue := p.queue + [p.issued], issued := p.issued + 1, notices := p.notices + 1)
    case Notify(w) =>
      p.(notices := p.notices - 1, workers := if SomeAsleep(p) then p.workers[w := Awake] else p.workers)
    case Look(w) =>
      if p.queue != [] then
        p.(queue := p.queue[1..], started := p.started + [p.queue[0]], workers := p.workers[w := Busy(p.queue[0])])
      else p.(workers := p.workers[w := if p.stop then Gone else Asleep])
    case Finish(w) => p.(done := p.done + {p.workers[w].task}, workers := p.workers[w := Awake])
    case Spurious(w) => p.(workers := p.workers[w := Awake])
    case Stop => p.(stop := true, broadcast := true)
    case Broadcast => p.(broadcast := false, workers := WakeAll(p.workers))
  }

  /** The events lead from `p` to `q`. */
  ghost predicate Reaches(p: Pool, es: seq<Event>, q: Pool)
    decreases |es|
  {
    if es == [] then p == q else Enabled(p, es[0]) && Reaches(Next(p, es[0]), es[1..], q)
  }

  function AwakeCount(ws: seq<Worker>): nat {
    if ws == [] then 0 else (if ws[0] == Awake then 1 else 0) + AwakeCount(ws[1..])
  }

  // ---- invariants ----

  /** Tasks leave the queue in the order in which they came. */
  ghost predicate Fifo(p: Pool) {
    && |p.started| + |p.queue| == p.issued
    && (forall k :: 0 <= k < |p.started| ==> p.started[k] == k)
    && (forall k :: 0 <= k < |p.queue| ==> p.queue[k] == |p.started| + k)
  }

  /** Only started tasks are done, and a worker holds a started task that is not done. */
  ghost predicate HeldOrDone(p: Pool) {
    && (forall t :: t in p.done ==> t < |p.started|)
    && (forall w :: 0 <= w < |p.workers| && p.workers[w].Busy? ==>
          p.workers[w].task < |p.started| && p.workers[w].task !in p.done)
  }

  ghost predicate HeldOnce(p: Pool) {
    forall v, w :: 0 <= v < w < |p.workers| && p.workers[v].Busy? ==> p.workers[v] != p.workers[w]
  }

  ghost predicate NothingDropped(p: Pool) {
    forall t: nat :: t < |p.started| && t !in p.done ==> Busy(t) in p.workers
  }

  /** A started task is done or held by exactly one worker. */
  ghost predicate Conserved(p: Pool) {
    HeldOrDone(p) && HeldOnce(p) && NothingDropped(p)
  }

  /** No lost wake-up: while somebody sleeps, every queued task has a notification under way or a worker
      on its way to the queue; and nobody sleeps through the end. */
  ghost predicate NoLostWakeUp(p: Pool) {
    && (SomeAsleep(p) ==> |p.queue| <= p.notices + AwakeCount(p.workers))
    && (p.stop && SomeAsleep(p) ==> p.broadcast)
  }

  ghost predicate LeftInOrder(p: Pool) {
    && (p.broadcast ==> p.stop)
    && (Gone in p.workers ==> p.stop && p.queue == [])
  }

  ghost predicate Inv(p: Pool) {
    Fifo(p) && Conserved(p) && NoLostWakeUp(p) && LeftInOrder(p)
  }

  lemma {:induction false} AwakeCountUpdate(ws: seq<Worker>, i: nat, v: Worker)
    requires i < |ws|
    ensures AwakeCount(ws[i := v])
         == AwakeCount(ws) - (if ws[i] == Awake then 1 else 0) + (if v == Awake then 1 else 0)
  {
    if i > 0 {
      assert ws[i := v][1..] == ws[1..][i - 1 := v];
      AwakeCountUpdate(ws[1..], i - 1, v);
    } else {
      assert ws[i := v][1..] == ws[1..];
    }
  }

  lemma FifoStep(p: Pool, e: Event)
    requires Fifo(p) && Enabled(p, e)
    ensures Fifo(Next(p, e))
  {
  }

  lemma HeldOrDoneStep(p: Pool, e: Event)
    requires Fifo(p) && HeldOrDone(p) && HeldOnce(p) && Enabled(p, e)
    ensures HeldOrDone(Next(p, e))
  {
  }

  lemma HeldOnceStep(p: Pool, e: Event)
    requires Fifo(p) && HeldOrDone(p) && HeldOnce(p) && Enabled(p, e)
    ensures HeldOnce(Next(p, e))
  {
  }

  lemma NothingDroppedStep(p: Pool, e: Event)
    requires Fifo(p) && NothingDropped(p) && Enabled(p, e)
    ensures NothingDropped(Next(p, e))
  {
    var q := Next(p, e);
    forall t: nat | t < |q.started| && t !in q.done ensures Busy(t) in q.workers {
      if t < |p.started| {
        var w :| 0 <= w < |p.workers| && p.workers[w] == Busy(t);
        assert q.workers[w] == Busy(t);
      } else {
        assert q.workers[e.w] == Busy(t);
      }
    }
  }

  lemma ConservedStep(p: Pool, e: Event)
    requires Fifo(p) && Conserved(p) && Enabled(p, e)
    ensures Conserved(Next(p, e))
  {
    HeldOrDoneStep(p, e);
    HeldOnceStep(p, e);
    NothingDroppedStep(p, e);
  }

  lemma NoLostWakeUpStep(p: Pool, e: Event)
    requires NoLostWakeUp(p) && Enabled(p, e)
    ensures NoLostWakeUp(Next(p, e))
  {
    match e
    case Notify(w) =>
      if SomeAsleep(p) { AwakeCountUpdate(p.workers, w, Awake); }
    case Look(w) =>
      var q := Next(p, e);
      AwakeCountUpdate(p.workers, w, q.workers[w]);
      if SomeAsleep(q) && p.queue != [] {
        var v :| 0 <= v < |q.workers| && q.workers[v] == Asleep;
        assert p.workers[v] == Asleep;
      }
      if SomeAsleep(q) && p.stop {
        var v :| 0 <= v < |q.workers| && q.workers[v] == Asleep;
        assert p.workers[v] == Asleep;
      }
    case Finish(w) =>
      AwakeCountUpdate(p.workers, w, Awake);
      SleeperBefore(p, w);
    case Spurious(w) =>
      AwakeCountUpdate(p.workers, w, Awake);
      SleeperBefore(p, w);
    case _ =>
  }

  lemma SleeperBefore(p: Pool, w: nat)
    requires w < |p.workers|
    ensures SomeAsleep(p.(workers := p.workers[w := Awake])) ==> SomeAsleep(p)
  {
    var q := p.(workers := p.workers[w := Awake]);
    if SomeAsleep(q) {
      var v :| 0 <= v < |q.workers| && q.workers[v] == Asleep;
      assert p.workers[v] == Asleep;
    }
  }

  lemma LeftInOrderStep(p: Pool, e: Event)
    requires LeftInOrder(p) && Enabled(p, e)
    ensures LeftInOrder(Next(p, e))
  {
    var q := Next(p, e);
    if Gone in q.workers && Gone !in p.workers {
      var w :| 0 <= w < |q.workers| && q.workers[w] == Gone;
      assert p.workers[w] in p.workers;
    }
  }

  lemma InvStep(p: Pool, e: Event)
    requires Inv(p) && Enabled(p, e)
    ensures Inv(Next(p, e)) && |Next(p, e).workers| == |p.workers|
  {
    FifoStep(p, e);
    ConservedStep(p, e);
    NoLostWakeUpStep(p, e);
    LeftInOrderStep(p, e);
  }

  lemma {:induction false} InvRun(p: Pool, es: seq<Event>, q: Pool)
    requires Inv(p) && Reaches(p, es, q)
    ensures Inv(q) && |q.workers| == |p.workers|
    decreases |es|
  {
    if es != [] {
      InvStep(p, es[0]);
      InvRun(Next(p, es[0]), es[1..], q);
    }
  }

  /** Every state of every run of a pool of any size meets the invariant. */
  lemma PoolInvariant(size: nat, es: seq<Event>, p: Pool)
    requires Reaches(Init(size), es, p)
    ensures Inv(p) && |p.workers| == size
  {
    InvRun(Init(size), es, p);
  }

  /** A queued task is never stranded: somebody runs, is about to look, or is owed a notification. */
  lemma QueuedTaskNotStranded(size: nat, es: seq<Event>, p: Pool)
    requires Reaches(Init(size), es, p) && size > 0 && p.queue != []
    ensures p.notices > 0 || exists w :: 0 <= w < |p.workers| && (p.workers[w] == Awake || p.workers[w].Busy?)
  {
    PoolInvariant(size, es, p);
    if p.workers[0] == Asleep && p.notices == 0 {
      AwakeExists(p.workers);
    } else {
      assert p.workers[0] != Gone;
    }
  }

  lemma {:induction false} AwakeExists(ws: seq<Worker>)
    requires AwakeCount(ws) > 0
    ensures exists w :: 0 <= w < |ws| && ws[w] == Awake
  {
    if ws[0] != Awake {
      AwakeExists(ws[1..]);
      var w :| 0 <= w < |ws| - 1 && ws[1..][w] == Awake;
      assert ws[w + 1] == Awake;
    }
  }

  /** Any sleeper may be the one that a notification wakes, and any may wake up without one. */
  lemma AnySleeperMayWake(p: Pool, w: nat)
    requires w < |p.workers| && p.workers[w] == Asleep
    ensures Reaches(p, [Spurious(w)], p.(workers := p.workers[w := Awake]))
    ensures p.notices > 0 ==>
              Reaches(p, [Notify(w)], p.(workers := p.workers[w := Awake], notices := p.notices - 1))
  {
    assert [Spurious(w)][1..] == [] && [Notify(w)][1..] == [];
  }

  // ---- coming to rest ----

  function RestWeight(w: Worker): nat {
    match w
    case Busy(_) => 2
    case Awake => 1
    case _ => 0
  }

  function RestWeights(ws: seq<Worker>): nat {
    if ws == [] then 0 else RestWeight(ws[0]) + RestWeights(ws[1..])
  }

  lemma {:induction false} RestWeightsUpdate(ws: seq<Worker>, i: nat, v: Worker)
    requires i < |ws|
    ensures RestWeights(ws[i := v]) == RestWeights(ws) - RestWeight(ws[i]) + RestWeight(v)
  {
    if i > 0 {
      assert ws[i := v][1..] == ws[1..][i - 1 := v];
      RestWeightsUpdate(ws[1..], i - 1, v);
    } else {
      assert ws[i := v][1..] == ws[1..];
    }
  }

  /** Work that is there already: nothing is enqueued, nobody stops the pool, nobody wakes up for nothing. */
  predicate Settling(e: Event) {
    e.Notify? || e.Look? || e.Finish?
  }

  lemma SettlingStep(p: Pool, e: Event)
    requires !p.stop && Enabled(p, e) && Settling(e)
    ensures var q := Next(p, e);
            && !q.stop
            && 2 * |q.queue| + 2 * q.notices + RestWeights(q.workers)
             < 2 * |p.queue| + 2 * p.notices + RestWeights(p.workers)
  {
    match e
    case Notify(w) =>
      if SomeAsleep(p) { RestWeightsUpdate(p.workers, w, Awake); }
    case Look(w) => RestWeightsUpdate(p.workers, w, Next(p, e).workers[w]);
    case Finish(w) => RestWeightsUpdate(p.workers, w, Awake);
  }

  /** A running pool settles: every schedule of the work that is there has a bounded number of steps, two for each
      queued task and each owed notification, two for each busy worker and one for each that is about to look. */
  lemma {:induction false} SettlesSoon(p: Pool, es: seq<Event>, q: Pool)
    requires !p.stop && Reaches(p, es, q) && forall e :: e in es ==> Settling(e)
    ensures |es| <= 2 * |p.queue| + 2 * p.notices + RestWeights(p.workers)
    decreases |es|
  {
    if es != [] {
      assert es[0] in es;
      SettlingStep(p, es[0]);
      SettlesSoon(Next(p, es[0]), es[1..], q);
    }
  }

  /** A settled pool is at rest: everybody sleeps, nothing is queued, and every task ever enqueued is done. */
  lemma AtRest(size: nat, es: seq<Event>, p: Pool)
    requires Reaches(Init(size), es, p) && size > 0 && !p.stop
    requires forall e :: Settling(e) ==> !Enabled(p, e)
    ensures |p.workers| == size && forall w :: 0 <= w < size ==> p.workers[w] == Asleep
    ensures p.queue == [] && p.notices == 0 && forall t: nat :: t < p.issued <==> t in p.done
  {
    PoolInvariant(size, es, p);
    forall w: nat | w < size ensures p.workers[w] == Asleep {
      assert !Enabled(p, Look(w)) && !Enabled(p, Finish(w));
      assert p.workers[w] in p.workers;
    }
    assert !Enabled(p, Notify(0));
    if AwakeCount(p.workers) > 0 {
      AwakeExists(p.workers);
    }
  }

  // ---- shutdown ----

  function Weight(w: Worker): nat {
    match w
    case Asleep => 2
    case Busy(_) => 2
    case Awake => 1
    case Gone => 0
  }

  function Weights(ws: seq<Worker>): nat {
    if ws == [] then 0 else Weight(ws[0]) + Weights(ws[1..])
  }

  /** How many steps a stopped pool can still make. */
  function Remaining(p: Pool): nat {
    2 * |p.queue| + Weights(p.workers) + p.notices + (if p.broadcast then 1 else 0)
  }

  lemma {:induction false} WeightsUpdate(ws: seq<Worker>, i: nat, v: Worker)
    requires i < |ws|
    ensures Weights(ws[i := v]) == Weights(ws) - Weight(ws[i]) + Weight(v)
  {
    if i > 0 {
      assert ws[i := v][1..] == ws[1..][i - 1 := v];
      WeightsUpdate(ws[1..], i - 1, v);
    } else {
      assert ws[i := v][1..] == ws[1..];
    }
  }

  lemma {:induction false} WakeAllLighter(ws: seq<Worker>)
    ensures Weights(WakeAll(ws)) <= Weights(ws)
  {
    if ws != [] {
      assert WakeAll(ws)[1..] == WakeAll(ws[1..]);
      WakeAllLighter(ws[1..]);
    }
  }

  lemma StoppedStep(p: Pool, e: Event)
    requires p.stop && Enabled(p, e)
    ensures Next(p, e).stop && Remaining(Next(p, e)) < Remaining(p)
  {
    match e
    case Notify(w) =>
      if SomeAsleep(p) { WeightsUpdate(p.workers, w, Awake); }
    case Look(w) => WeightsUpdate(p.workers, w, Next(p, e).workers[w]);
    case Finish(w) => WeightsUpdate(p.workers, w, Awake);
    case Spurious(w) => WeightsUpdate(p.workers, w, Awake);
    case Broadcast => WakeAllLighter(p.workers);
    case _ =>
  }

  /** The destructor ends: once the flag is set, every schedule has at most `Remaining` steps. */
  lemma {:induction false} ShutdownBounded(p: Pool, es: seq<Event>, q: Pool)
    requires p.stop && Reaches(p, es, q)
    ensures q.stop && |es| + Remaining(q) <= Remaining(p)
    decreases |es|
  {
    if es != [] {
      StoppedStep(p, es[0]);
      ShutdownBounded(Next(p, es[0]), es[1..], q);
    }
  }

  /** While a worker has not returned, a stopped pool has a step to make that is not a spurious one. */
  lemma ShutdownProgress(size: nat, es: seq<Event>, p: Pool) returns (e: Event)
    requires Reaches(Init(size), es, p) && p.stop
    requires exists w :: 0 <= w < |p.workers| && p.workers[w] != Gone
    ensures Enabled(p, e) && !e.Spurious?
  {
    PoolInvariant(size, es, p);
    var w :| 0 <= w < |p.workers| && p.workers[w] != Gone;
    e := match p.workers[w]
         case Awake => Look(w)
         case Busy(_) => Finish(w)
         case Asleep => Broadcast
         case Gone => Stop;
  }

  /** When the joins are over, every task that was ever enqueued is done. */
  lemma JoinedMeansAllDone(size: nat, es: seq<Event>, p: Pool)
    requires Reaches(Init(size), es, p) && size > 0
    requires forall w :: 0 <= w < |p.workers| ==> p.workers[w] == Gone
    ensures forall t: nat :: t < p.issued <==> t in p.done
  {
    PoolInvariant(size, es, p);
    assert p.workers[0] in p.workers;
  }
}
