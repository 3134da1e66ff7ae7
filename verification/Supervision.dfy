/**
 * The receiver's accept loop and its supervisor over the thread pool.  Task 0 is the supervisor; the
 * k-th accepted connection is task k, and the first of them carries the text header.  A transfer of
 * `n` slices makes exactly n + 1 connections.
 */
module Supervision {
  import opened Bytes
  import TP = ThreadPool

  /** The next thing the accept loop does. */
  datatype MainPc =
    | Starting    // has enqueued the supervisor, owes its notify_one
    | Accepting
    | Notifying   // has enqueued a connection handler, owes its notify_one
    | Pushing     // owes the future to the list
    | Counting    // owes the increment
    | Signalling  // owes the supervisor a notification

  /**
   * The supervisor.  Its wait condition compares the counter with the count and then tests the count: three loads
   * of atomic variables that no common lock protects.  The operands of the comparison are loaded in either order.
   */
  datatype SupervisorPc =
    | Testing                         // about to evaluate its wait condition
    | Counter(t: int)                 // has loaded the counter
    | Number(m: nat)                  // has loaded the count
    | Checking                        // the comparison held; owes the second load of the count
    | Dozing                          // the condition was false; about to sleep
    | Asleep
    | Connecting                      // past its wait
    | Collecting(k: nat, all: nat)    // has collected `k` of the `all` futures that it found in the list
    | Marked(all: nat)                // has written the end marker after collecting `all` futures
    | Aborted

  datatype Control = Control(
    pool: TP.Pool, main: MainPc, accepted: nat, futures: seq<nat>, threads: int, slicesNum: nat,
    supervisor: SupervisorPc)

  datatype Event =
    | Accept | DeliverNotice(w: nat) | PushFuture | Increment | Signal
    | Work(e: TP.Event)  // a worker looks, finishes or wakes up
    | Publish            // the header handler stores the slice count
    | LoadCounter        // the supervisor loads the counter for the comparison,
    | LoadCount          // and the count for the comparison,
    | LoadAgain          // and, if the comparison held, the count once more
    | Doze               // it goes to sleep after its condition was false
    | SpuriousWake       // it wakes up without a notification
    | Connect            // it connects to the sender and takes the bounds of the list of futures
    | Collect            // a future is ready
    | Mark               // the end marker is written
    | Abort              // the supervisor cannot connect, or a future rethrows

  const SHORT_MAX: nat := 32767

  /** A 16-bit signed counter. */
  function ToShort(x: nat): int {
    var m := x % TWO16;
    if m <= SHORT_MAX then m else m - TWO16
  }

  /** The comparison: the signed counter is converted to unsigned. */
  predicate Enough(t: int, m: nat) {
    t % TWO32 >= (m + 1) % TWO32
  }

  /** The wait condition. */
  predicate Guard(c: Control) {
    Enough(c.threads, c.slicesNum) && c.slicesNum != 0
  }

  function Init(size: nat): Control {
    Control(TP.Next(TP.Init(size), TP.Enqueue), Starting, 0, [], 0, 0, Testing)
  }

  /** The supervisor has taken the bounds of the list of futures. */
  predicate Begun(c: Control) {
    c.supervisor.Collecting? || c.supervisor.Marked?
  }

  /** The supervisor is past its wait. */
  predicate Past(c: Control) {
    c.supervisor == Connecting || Begun(c) || c.supervisor == Aborted
  }

  /** The supervisor does not look at its condition until it is woken up. */
  predicate Resting(c: Control) {
    c.supervisor == Dozing || c.supervisor == Asleep
  }

  /** The wait condition holds, the supervisor does not look, and nobody is going to notify it. */
  predicate Hung(n: nat, c: Control) {
    Resting(c) && Guard(c) && c.main == Accepting && c.accepted == n + 1
  }

  predicate Enabled(n: nat, c: Control, e: Event) {
    match e
    case Accept => c.main == Accepting && c.accepted < n + 1 && TP.Enabled(c.pool, TP.Enqueue)
    case DeliverNotice(w) => (c.main == Starting || c.main == Notifying) && TP.Enabled(c.pool, TP.Notify(w))
    case PushFuture => c.main == Pushing
    case Increment => c.main == Counting
    case Signal => c.main == Signalling
    case Work(e) =>
      && (e.Look? || e.Finish? || e.Spurious?)
      && TP.Enabled(c.pool, e)
      && (e.Finish? && c.pool.workers[e.w] == TP.Busy(0) ==> c.supervisor.Marked? || c.supervisor == Aborted)
    case Publish => TP.Busy(1) in c.pool.workers
    case LoadCounter => (c.supervisor == Testing || c.supervisor.Number?) && TP.Busy(0) in c.pool.workers
    case LoadCount => (c.supervisor == Testing || c.supervisor.Counter?) && TP.Busy(0) in c.pool.workers
    case LoadAgain => c.supervisor == Checking
    case Doze => c.supervisor == Dozing
    case SpuriousWake => c.supervisor == Asleep
    case Connect => c.supervisor == Connecting
    case Collect =>
      && c.supervisor.Collecting? && c.supervisor.k < c.supervisor.all && c.supervisor.k < |c.futures|
      && c.futures[c.supervisor.k] in c.pool.done
    case Mark => c.supervisor.Collecting? && c.supervisor.k >= c.supervisor.all
    case Abort => c.supervisor == Connecting || c.supervisor.Collecting?
  }

  /** What the supervisor does after the comparison. */
  function Compared(t: int, m: nat): SupervisorPc {
    if Enough(t, m) then Checking else Dozing
  }

  function Next(n: nat, c: Control, e: Event): Control
    requires Enabled(n, c, e)
  {
    match e
    case Accept => c.(pool := TP.Next(c.pool, TP.Enqueue), main := Notifying, accepted := c.accepted + 1)
    case DeliverNotice(w) =>
      c.(pool := TP.Next(c.pool, TP.Notify(w)), main := if c.main == Starting then Accepting else Pushing)
    case PushFuture => c.(futures := c.futures + [c.accepted], main := Counting)
    case Increment => c.(threads := ToShort((c.threads + 1) % TWO16), main := Signalling)
    case Signal => // sent without the mutex: a supervisor that is about to sleep misses it
      c.(main := Accepting, supervisor := if c.supervisor == Asleep then Testing else c.supervisor)
    case Work(e) => c.(pool := TP.Next(c.pool, e))
    case Publish => c.(slicesNum := n) // without a notification
    case LoadCounter =>
      c.(supervisor := if c.supervisor.Number? then Compared(c.threads, c.supervisor.m) else Counter(c.threads))
    case LoadCount =>
      c.(supervisor := if c.supervisor.Counter? then Compared(c.supervisor.t, c.slicesNum) else Number(c.slicesNum))
    case LoadAgain => c.(supervisor := if c.slicesNum != 0 then Connecting else Dozing)
    case Doze => c.(supervisor := Asleep)
    case SpuriousWake => c.(supervisor := Testing)
    case Connect => c.(supervisor := Collecting(0, |c.futures|))
    case Collect => c.(supervisor := Collecting(c.supervisor.k + 1, c.supervisor.all))
    case Mark => c.(supervisor := Marked(c.supervisor.all))
    case Abort => c.(supervisor := Aborted)
  }

  ghost predicate Reaches(n: nat, c: Control, es: seq<Event>, d: Control)
    decreases |es|
  {
    if es == [] then c == d else Enabled(n, c, es[0]) && Reaches(n, Next(n, c, es[0]), es[1..], d)
  }

  // ---- invariants ----

  /** The connections whose increment has happened. */
  function Counted(c: Control): int {
    if c.main == Notifying || c.main == Pushing || c.main == Counting then c.accepted - 1 else c.accepted
  }

  ghost predicate Bookkeeping(n: nat, c: Control) {
    && c.pool.issued == c.accepted + 1 && !c.pool.stop
    && c.accepted <= n + 1
    && (c.main == Starting ==> c.accepted == 0) && (c.main != Starting && c.main != Accepting ==> c.accepted > 0)
    && |c.futures| == (if c.main == Notifying || c.main == Pushing then c.accepted - 1 else c.accepted)
    && (forall k :: 0 <= k < |c.futures| ==> c.futures[k] == k + 1)
    && c.threads == ToShort(Counted(c))
    && (c.slicesNum == 0 || c.slicesNum == n)
    && (c.supervisor.Number? ==> c.supervisor.m == 0 || c.supervisor.m == n)
  }

  /** The futures that the supervisor counts as collected are those of handlers that have returned. */
  ghost predicate Collected(c: Control) {
    match c.supervisor
    case Collecting(k, all) => k <= all <= |c.futures| && forall j :: 0 <= j < k ==> c.futures[j] in c.pool.done
    case Marked(all) => all <= |c.futures| && forall j :: 0 <= j < all ==> c.futures[j] in c.pool.done
    case _ => true
  }

  ghost predicate Inv(n: nat, c: Control) {
    TP.Inv(c.pool) && Bookkeeping(n, c) && Collected(c)
  }

  lemma ModNext(x: nat)
    ensures (x + 1) % TWO16 == if x % TWO16 == TWO16 - 1 then 0 else x % TWO16 + 1
  {
    assert x == x / TWO16 * TWO16 + x % TWO16;
  }

  lemma ToShortStep(x: nat)
    ensures ToShort((ToShort(x) + 1) % TWO16) == ToShort(x + 1)
  {
    ModNext(x);
    var m := x % TWO16;
    var v := ToShort(x) + 1;
    assert v == if m <= SHORT_MAX then m + 1 else m + 1 - TWO16;
    assert v % TWO16 == (x + 1) % TWO16;
  }

  lemma PoolStep(n: nat, c: Control, e: Event)
    requires TP.Inv(c.pool) && Enabled(n, c, e)
    ensures TP.Inv(Next(n, c, e).pool) && |Next(n, c, e).pool.workers| == |c.pool.workers|
    ensures Next(n, c, e).pool.stop == c.pool.stop
    ensures Next(n, c, e).pool.issued == if e == Accept then c.pool.issued + 1 else c.pool.issued
    ensures c.pool.done <= Next(n, c, e).pool.done
  {
    match e
    case Accept => TP.InvStep(c.pool, TP.Enqueue);
    case DeliverNotice(w) => TP.InvStep(c.pool, TP.Notify(w));
    case Work(e) => TP.InvStep(c.pool, e);
    case _ =>
  }

  lemma BookkeepingStep(n: nat, c: Control, e: Event)
    requires Bookkeeping(n, c) && Enabled(n, c, e)
    requires Next(n, c, e).pool.stop == c.pool.stop
    requires Next(n, c, e).pool.issued == if e == Accept then c.pool.issued + 1 else c.pool.issued
    ensures Bookkeeping(n, Next(n, c, e))
  {
    if e == Increment {
      ToShortStep(Counted(c));
    }
  }

  lemma CollectedStep(n: nat, c: Control, e: Event)
    requires Collected(c) && Enabled(n, c, e)
    ensures Collected(Next(n, c, e))
  {
    assert c.futures <= Next(n, c, e).futures;
    assert c.pool.done <= Next(n, c, e).pool.done;
  }

  lemma InvStep(n: nat, c: Control, e: Event)
    requires Inv(n, c) && Enabled(n, c, e)
    ensures Inv(n, Next(n, c, e)) && |Next(n, c, e).pool.workers| == |c.pool.workers|
  {
    PoolStep(n, c, e);
    BookkeepingStep(n, c, e);
    CollectedStep(n, c, e);
  }

  lemma {:induction false} InvRun(n: nat, c: Control, es: seq<Event>, d: Control)
    requires Inv(n, c) && Reaches(n, c, es, d)
    ensures Inv(n, d) && |d.pool.workers| == |c.pool.workers|
    decreases |es|
  {
    if es != [] {
      InvStep(n, c, es[0]);
      InvRun(n, Next(n, c, es[0]), es[1..], d);
    }
  }

  lemma InitInv(n: nat, size: nat)
    ensures Inv(n, Init(size))
  {
    TP.InvStep(TP.Init(size), TP.Enqueue);
  }

  /** With at most 32767 slices the comparison with their number holds only when every connection is counted. */
  lemma EnoughMeansAll(n: nat, c: Control)
    requires Inv(n, c) && 0 < n <= SHORT_MAX && Enough(c.threads, n)
    ensures Counted(c) == n + 1
  {
  }

  lemma GuardHolds(n: nat, c: Control)
    requires Bookkeeping(n, c) && 0 < n <= SHORT_MAX
    requires c.main == Accepting && c.accepted == n + 1 && c.slicesNum != 0
    ensures Guard(c)
  {
  }

  /** The supervisor cannot starve those it waits for: with one more worker, somebody runs one of
      them, is about to look at the queue, or is owed a notification. */
  lemma SupervisorDoesNotStarve(n: nat, size: nat, es: seq<Event>, c: Control)
    requires size >= 2 && Reaches(n, Init(size), es, c)
    requires c.supervisor.Collecting? && c.supervisor.k < c.supervisor.all
    ensures c.supervisor.k < |c.futures|
    ensures c.futures[c.supervisor.k] !in c.pool.done ==>
              || c.pool.notices > 0
              || exists w :: 0 <= w < |c.pool.workers| &&
                   (c.pool.workers[w] == TP.Awake || (c.pool.workers[w].Busy? && c.pool.workers[w].task > 0))
  {
    InitInv(n, size);
    InvRun(n, Init(size), es, c);
    assert c.futures[c.supervisor.k] == c.supervisor.k + 1;
    if c.futures[c.supervisor.k] !in c.pool.done {
      PoolServes(c.pool, c.supervisor.k + 1);
    }
  }

  /** A pool of two workers does not lose a task that is not the supervisor's. */
  lemma PoolServes(p: TP.Pool, t: nat)
    requires TP.Inv(p) && !p.stop && |p.workers| >= 2 && 0 < t < p.issued && t !in p.done
    ensures p.notices > 0
         || exists w :: 0 <= w < |p.workers| &&
              (p.workers[w] == TP.Awake || (p.workers[w].Busy? && p.workers[w].task > 0))
  {
    if t < |p.started| {
      assert TP.Busy(t) in p.workers;
    } else if TP.SomeAsleep(p) {
      assert p.queue[t - |p.started|] == t;
      if p.notices == 0 {
        TP.AwakeExists(p.workers);
      }
    } else {
      assert p.workers[0] in p.workers && p.workers[1] in p.workers;
      assert p.workers[0] != TP.Asleep && p.workers[1] != TP.Asleep;
      assert p.workers[0].Busy? ==> p.workers[0] != p.workers[1];
    }
  }

  /** A supervisor that gives up stays with that: a run with an abort writes no end marker. */
  lemma {:induction false} AbortedForGood(n: nat, c: Control, es: seq<Event>, d: Control)
    requires Reaches(n, c, es, d) && (c.supervisor == Aborted || Abort in es)
    ensures d.supervisor == Aborted
    decreases |es|
  {
    if es != [] {
      assert es == [es[0]] + es[1..];
      AbortedForGood(n, Next(n, c, es[0]), es[1..], d);
    }
  }

  // ---- who runs ----

  /** The supervisor does nothing before a worker runs it and returns only at its end; the count needs its handler. */
  ghost predicate Running(c: Control) {
    && (c.pool.started == [] ==> c.supervisor == Testing)
    && (0 in c.pool.done ==> c.supervisor.Marked? || c.supervisor == Aborted)
    && (c.slicesNum != 0 ==> |c.pool.started| > 1)
  }

  lemma RunningStep(n: nat, c: Control, e: Event)
    requires TP.Inv(c.pool) && Running(c) && Enabled(n, c, e)
    ensures Running(Next(n, c, e))
  {
    if TP.Busy(0) in c.pool.workers {
      var w :| 0 <= w < |c.pool.workers| && c.pool.workers[w] == TP.Busy(0);
      assert c.pool.started != [] && 0 !in c.pool.done;
    }
    if TP.Busy(1) in c.pool.workers {
      var w :| 0 <= w < |c.pool.workers| && c.pool.workers[w] == TP.Busy(1);
      assert |c.pool.started| > 1;
    }
  }

  lemma {:induction false} RunningRun(n: nat, c: Control, es: seq<Event>, d: Control)
    requires TP.Inv(c.pool) && Running(c) && Reaches(n, c, es, d)
    ensures TP.Inv(d.pool) && Running(d)
    decreases |es|
  {
    if es != [] {
      PoolStep(n, c, es[0]);
      RunningStep(n, c, es[0]);
      RunningRun(n, Next(n, c, es[0]), es[1..], d);
    }
  }

  /** The supervisor holds a worker of the pool from its first load to its end, asleep or awake, and gives it back only
      with the end marker written or aborted; and the count has been stored by a handler that a worker ran. */
  lemma SupervisorHoldsWorker(n: nat, size: nat, es: seq<Event>, c: Control)
    requires Reaches(n, Init(size), es, c)
    ensures c.supervisor != Testing && 0 !in c.pool.done ==> TP.Busy(0) in c.pool.workers
    ensures 0 in c.pool.done ==> c.supervisor.Marked? || c.supervisor == Aborted
    ensures c.slicesNum != 0 ==> c.accepted > 0 && (1 in c.pool.done || TP.Busy(1) in c.pool.workers)
  {
    InitInv(n, size);
    InvRun(n, Init(size), es, c);
    RunningRun(n, Init(size), es, c);
  }

  /** The three loads with nothing in between are the wait condition, whichever operand of the comparison is loaded
      first: the signed counter as an unsigned number is at least the count plus one, and the count is not zero. */
  lemma UntornTest(n: nat, c: Control, counterFirst: bool) returns (es: seq<Event>)
    requires c.supervisor == Testing && TP.Busy(0) in c.pool.workers
    ensures Guard(c) <==>
            c.threads % 0x1_0000_0000 >= (c.slicesNum + 1) % 0x1_0000_0000 && c.slicesNum != 0
    ensures Reaches(n, c, es, c.(supervisor := if Guard(c) then Connecting else Dozing))
    ensures |es| >= 2 && es[..2] == if counterFirst then [LoadCounter, LoadCount] else [LoadCount, LoadCounter]
    ensures forall e :: e in es[2..] ==> e == LoadAgain
  {
    var a := if counterFirst then LoadCounter else LoadCount;
    var b := if counterFirst then LoadCount else LoadCounter;
    var c1 := Next(n, c, a);
    var c2 := Next(n, c1, b);
    var end := c.(supervisor := if Guard(c) then Connecting else Dozing);
    var rest := if c2.supervisor == Checking then [LoadAgain] else [];
    if c2.supervisor == Checking {
      Reaches1(n, c2, LoadAgain, [], end);
      assert [LoadAgain] + [] == [LoadAgain];
    }
    Reaches1(n, c1, b, rest, end);
    Reaches1(n, c, a, [b] + rest, end);
    es := [a] + ([b] + rest);
  }

  /** Whatever the others do, a sleeping supervisor may wake up without a notification, and one that connects or
      collects may give up. */
  lemma SupervisorMayStray(n: nat, c: Control)
    ensures c.supervisor == Asleep ==> Reaches(n, c, [SpuriousWake], c.(supervisor := Testing))
    ensures c.supervisor == Connecting || c.supervisor.Collecting? ==>
              Reaches(n, c, [Abort], c.(supervisor := Aborted))
  {
    assert [SpuriousWake][1..] == [] && [Abort][1..] == [];
  }

  // ---- the wait condition is read in parts ----

  /** The count was stored after its last load for the comparison, which is event `i`. */
  predicate StraddledAt(es: seq<Event>, i: nat)
    requires i < |es|
  {
    es[i] == LoadCount && LoadCount !in es[i + 1..] && Publish !in es[..i] && Publish in es[i..]
  }

  ghost predicate Straddled(es: seq<Event>) {
    exists i: nat :: i < |es| && StraddledAt(es, i)
  }

  /** At event `b` the supervisor takes the bounds of a list of at most `n` futures, because the count was stored
      between its two loads. */
  ghost predicate ShortListAt(n: nat, es: seq<Event>, b: nat)
    requires b < |es|
  {
    es[b] == Connect && Straddled(es[..b]) && multiset(es[..b])[PushFuture] <= n
  }

  ghost predicate ShortListIn(n: nat, es: seq<Event>) {
    exists b: nat :: b < |es| && ShortListAt(n, es, b)
  }

  /** The count that is stored after the events. */
  function Stored(n: nat, es: seq<Event>): nat {
    if Publish in es then n else 0
  }

  ghost predicate Tallied(n: nat, es: seq<Event>, c: Control) {
    && c.slicesNum == Stored(n, es)
    && Counted(c) == multiset(es)[Increment]
    && |c.futures| == multiset(es)[PushFuture]
  }

  predicate LastLoad(es: seq<Event>, i: nat) {
    i < |es| && es[i] == LoadCount && LoadCount !in es[i + 1..]
  }

  /** Event `i` loaded the count for the comparison that held. */
  ghost predicate HeldAt(n: nat, es: seq<Event>, c: Control, i: nat) {
    LastLoad(es, i) && (Publish in es[..i] ==> Counted(c) == n + 1)
  }

  /** What the supervisor has loaded so far tells when it loaded it. */
  ghost predicate Traced(n: nat, es: seq<Event>, c: Control) {
    match c.supervisor
    case Counter(t) => Enough(t, n) ==> Counted(c) == n + 1
    case Number(m) => exists i: nat :: LastLoad(es, i) && m == Stored(n, es[..i])
    case Checking => exists i: nat :: HeldAt(n, es, c, i)
    case Connecting => Publish in es && exists i: nat :: HeldAt(n, es, c, i)
    case _ => true
  }

  /** Event `b` took the bounds of a list of `all` futures, and no other event did. */
  ghost predicate TookAt(n: nat, es: seq<Event>, all: nat, b: nat) {
    && b < |es| && es[b] == Connect && Connect !in es[..b] && Connect !in es[b + 1..]
    && all == multiset(es[..b])[PushFuture] && (all <= n ==> Straddled(es[..b]))
  }

  ghost predicate Took(n: nat, es: seq<Event>, c: Control) {
    match c.supervisor
    case Collecting(_, all) => exists b: nat :: TookAt(n, es, all, b)
    case Marked(all) => exists b: nat :: TookAt(n, es, all, b)
    case Aborted => true
    case _ => Connect !in es
  }

  ghost predicate Trail(n: nat, es: seq<Event>, c: Control) {
    Tallied(n, es, c) && Traced(n, es, c) && Took(n, es, c)
  }

  lemma TalliedStep(n: nat, es: seq<Event>, c: Control, e: Event)
    requires Bookkeeping(n, c) && Tallied(n, es, c) && Enabled(n, c, e)
    ensures Tallied(n, es + [e], Next(n, c, e))
  {
  }

  lemma LastLoadStays(es: seq<Event>, e: Event, i: nat)
    requires LastLoad(es, i) && e != LoadCount
    ensures LastLoad(es + [e], i) && (es + [e])[..i] == es[..i]
  {
    assert (es + [e])[i + 1..] == es[i + 1..] + [e];
  }

  lemma LoadsNow(es: seq<Event>)
    ensures LastLoad(es + [LoadCount], |es|) && (es + [LoadCount])[..|es|] == es
  {
  }

  lemma CountedGrows(n: nat, c: Control, e: Event)
    requires Bookkeeping(n, c) && Enabled(n, c, e)
    ensures Counted(c) <= Counted(Next(n, c, e)) <= n + 1
  {
  }

  lemma LoadStep(n: nat, es: seq<Event>, c: Control, e: Event)
    requires Inv(n, c) && 0 < n <= SHORT_MAX && Tallied(n, es, c) && Traced(n, es, c) && Enabled(n, c, e)
    requires e == LoadCounter || e == LoadCount
    ensures Traced(n, es + [e], Next(n, c, e))
  {
    if Enough(c.threads, n) {
      EnoughMeansAll(n, c);
    }
    var d := Next(n, c, e);
    if e == LoadCount {
      LoadsNow(es);
      assert d.supervisor == Checking ==> HeldAt(n, es + [e], d, |es|);
    } else if c.supervisor.Number? {
      var i: nat :| LastLoad(es, i) && c.supervisor.m == Stored(n, es[..i]);
      LastLoadStays(es, e, i);
      assert d.supervisor == Checking ==> HeldAt(n, es + [e], d, i);
    }
  }

  lemma TracedStep(n: nat, es: seq<Event>, c: Control, e: Event)
    requires Inv(n, c) && 0 < n <= SHORT_MAX && Tallied(n, es, c) && Traced(n, es, c) && Enabled(n, c, e)
    ensures Traced(n, es + [e], Next(n, c, e))
  {
    var d := Next(n, c, e);
    CountedGrows(n, c, e);
    if e == LoadCounter || e == LoadCount {
      LoadStep(n, es, c, e);
    } else if d.supervisor.Number? {
      var i: nat :| LastLoad(es, i) && c.supervisor.m == Stored(n, es[..i]);
      LastLoadStays(es, e, i);
    } else if d.supervisor == Checking || d.supervisor == Connecting {
      var i: nat :| HeldAt(n, es, c, i);
      LastLoadStays(es, e, i);
      assert HeldAt(n, es + [e], d, i);
    }
  }

  /** A comparison that held with connections missing was made before the count was stored. */
  lemma HeldEarly(n: nat, es: seq<Event>, c: Control, i: nat)
    requires HeldAt(n, es, c, i) && Publish in es && Counted(c) <= n
    ensures StraddledAt(es, i)
  {
    assert es == es[..i] + es[i..];
  }

  lemma TookStays(n: nat, es: seq<Event>, e: Event, all: nat, b: nat)
    requires TookAt(n, es, all, b) && e != Connect
    ensures TookAt(n, es + [e], all, b)
  {
    assert (es + [e])[b + 1..] == es[b + 1..] + [e] && (es + [e])[..b] == es[..b];
  }

  lemma ConnectStep(n: nat, es: seq<Event>, c: Control)
    requires Inv(n, c) && Trail(n, es, c) && c.supervisor == Connecting
    ensures Took(n, es + [Connect], Next(n, c, Connect))
  {
    var es', all := es + [Connect], |c.futures|;
    assert es'[..|es|] == es && es'[|es| + 1..] == [];
    if all <= n {
      EarlyMeansStraddled(n, es, c);
    }
    assert TookAt(n, es', all, |es|);
  }

  lemma TookStep(n: nat, es: seq<Event>, c: Control, e: Event)
    requires Inv(n, c) && Trail(n, es, c) && Enabled(n, c, e)
    ensures Took(n, es + [e], Next(n, c, e))
  {
    if e == Connect {
      ConnectStep(n, es, c);
    } else if Begun(c) && Begun(Next(n, c, e)) {
      var all := c.supervisor.all;
      var b: nat :| TookAt(n, es, all, b);
      TookStays(n, es, e, all, b);
    }
  }

  lemma {:induction false} TrailRun(n: nat, past: seq<Event>, c: Control, es: seq<Event>, d: Control)
    requires Inv(n, c) && 0 < n <= SHORT_MAX && Trail(n, past, c) && Reaches(n, c, es, d)
    ensures Trail(n, past + es, d)
    decreases |es|
  {
    if es == [] {
      assert past + es == past;
    } else {
      InvStep(n, c, es[0]);
      TalliedStep(n, past, c, es[0]);
      TracedStep(n, past, c, es[0]);
      TookStep(n, past, c, es[0]);
      TrailRun(n, past + [es[0]], Next(n, c, es[0]), es[1..], d);
      assert past + [es[0]] + es[1..] == past + es;
    }
  }

  lemma RunTrail(n: nat, size: nat, es: seq<Event>, c: Control)
    requires 0 < n <= SHORT_MAX && Reaches(n, Init(size), es, c)
    ensures Inv(n, c) && Trail(n, es, c)
  {
    InitInv(n, size);
    InvRun(n, Init(size), es, c);
    TrailRun(n, [], Init(size), es, c);
    assert [] + es == es;
  }

  /**
   * When the wait ends early, for at most 32767 slices: after the second load of the count the supervisor is past
   * its wait with connections missing exactly if the count was stored between its two loads and that second load
   * came before the last increment.
   */
  lemma WaitEndsEarlyIff(n: nat, size: nat, es: seq<Event>, c: Control)
    requires 0 < n <= SHORT_MAX && Reaches(n, Init(size), es, c) && c.supervisor == Checking
    ensures Past(Next(n, c, LoadAgain)) && Counted(c) <= n <==> Straddled(es) && multiset(es)[Increment] <= n
  {
    RunTrail(n, size, es, c);
    CheckedEarlyIff(n, es, c);
    CheckedAgain(n, c);
  }

  lemma CheckedAgain(n: nat, c: Control)
    requires c.supervisor == Checking
    ensures Past(Next(n, c, LoadAgain)) <==> c.slicesNum != 0
  {
  }

  lemma CheckedEarlyIff(n: nat, es: seq<Event>, c: Control)
    requires 0 < n && Tallied(n, es, c) && Traced(n, es, c) && c.supervisor == Checking
    ensures c.slicesNum != 0 && Counted(c) <= n <==> Straddled(es) && multiset(es)[Increment] <= n
  {
    if Publish in es && Counted(c) <= n {
      EarlyMeansStraddled(n, es, c);
    }
    StraddledMeansStored(es);
  }

  lemma EarlyMeansStraddled(n: nat, es: seq<Event>, c: Control)
    requires Traced(n, es, c) && Publish in es && Counted(c) <= n
    ensures c.supervisor == Checking || c.supervisor == Connecting ==> Straddled(es)
  {
    if c.supervisor == Checking || c.supervisor == Connecting {
      var i: nat :| HeldAt(n, es, c, i);
      HeldEarly(n, es, c, i);
    }
  }

  lemma StraddledMeansStored(es: seq<Event>)
    ensures Straddled(es) ==> Publish in es
  {
    if Straddled(es) {
      var i: nat :| i < |es| && StraddledAt(es, i);
      assert es == es[..i] + es[i..];
    }
  }

  /**
   * When the list of futures is complete, for at most 32767 slices: the supervisor collects the futures of all
   * connections exactly if it did not take the bounds of a short list after a test that straddled the storing of
   * the count.
   */
  lemma ListCompleteIff(n: nat, size: nat, es: seq<Event>, c: Control)
    requires 0 < n <= SHORT_MAX && Reaches(n, Init(size), es, c) && Begun(c)
    ensures c.supervisor.all == n + 1 <==> !ShortListIn(n, es)
  {
    RunTrail(n, size, es, c);
    ShortListIff(n, es, c.supervisor.all);
  }

  lemma ShortListIff(n: nat, es: seq<Event>, all: nat)
    requires exists b: nat :: TookAt(n, es, all, b)
    ensures all <= n <==> ShortListIn(n, es)
  {
    var b: nat :| TookAt(n, es, all, b);
    if ShortListIn(n, es) {
      var k: nat :| k < |es| && ShortListAt(n, es, k);
      assert k == b;
    }
    if all <= n {
      assert ShortListAt(n, es, b);
    }
  }

  /** Once the supervisor collects and its list was not short, the list is complete and stays as it is. */
  lemma FuturesComplete(n: nat, size: nat, es: seq<Event>, c: Control, more: seq<Event>, d: Control)
    requires 0 < n <= SHORT_MAX && Reaches(n, Init(size), es, c) && Begun(c) && !ShortListIn(n, es)
    requires Reaches(n, c, more, d)
    ensures |c.futures| == n + 1 && d.futures == c.futures
  {
    ListCompleteIff(n, size, es, c);
    InitInv(n, size);
    InvRun(n, Init(size), es, c);
    FullListStays(n, c, more, d);
  }

  lemma {:induction false} FullListStays(n: nat, c: Control, es: seq<Event>, d: Control)
    requires Inv(n, c) && |c.futures| == n + 1 && Reaches(n, c, es, d)
    ensures d.futures == c.futures
    decreases |es|
  {
    if es != [] {
      InvStep(n, c, es[0]);
      assert es[0] != PushFuture;
      FullListStays(n, Next(n, c, es[0]), es[1..], d);
    }
  }

  /** An end marker written after collecting the futures of all connections: all handlers have returned. */
  lemma AllCollected(n: nat, c: Control)
    requires Inv(n, c) && c.supervisor == Marked(n + 1)
    ensures c.accepted == n + 1 && forall t :: 1 <= t <= n + 1 ==> t in c.pool.done
  {
    forall t | 1 <= t <= n + 1 ensures t in c.pool.done {
      assert c.futures[t - 1] == t;
    }
  }

  /** Unless its list was short, the supervisor writes the end marker only after the header handler and all slice
      handlers have returned. */
  lemma EndMarkerAfterAllTasks(n: nat, size: nat, es: seq<Event>, c: Control)
    requires 0 < n <= SHORT_MAX
    requires Reaches(n, Init(size), es, c) && c.supervisor.Marked? && !ShortListIn(n, es)
    ensures c.accepted == n + 1 && forall t :: 1 <= t <= n + 1 ==> t in c.pool.done
  {
    ListCompleteIff(n, size, es, c);
    InitInv(n, size);
    InvRun(n, Init(size), es, c);
    AllCollected(n, c);
  }

  // ---- joining runs ----

  lemma {:induction false} ReachesAppend(n: nat, c: Control, es: seq<Event>, d: Control, fs: seq<Event>, f: Control)
    requires Reaches(n, c, es, d) && Reaches(n, d, fs, f)
    ensures Reaches(n, c, es + fs, f)
    decreases |es|
  {
    if es == [] {
      assert es + fs == fs;
    } else {
      assert (es + fs)[1..] == es[1..] + fs;
      ReachesAppend(n, Next(n, c, es[0]), es[1..], d, fs, f);
    }
  }

  lemma Reaches1(n: nat, c: Control, e: Event, es: seq<Event>, d: Control)
    requires Enabled(n, c, e) && Reaches(n, Next(n, c, e), es, d)
    ensures Reaches(n, c, [e] + es, d)
  {
    assert ([e] + es)[1..] == es;
  }

  lemma {:induction false} CollectAll(n: nat, c: Control, k: nat, all: nat) returns (es: seq<Event>, d: Control)
    requires c.supervisor == Collecting(k, all) && k <= all <= |c.futures|
    requires forall j :: 0 <= j < |c.futures| ==> c.futures[j] in c.pool.done
    ensures Reaches(n, c, es, d) && d == c.(supervisor := Marked(all))
    ensures forall k :: 0 <= k < |es| ==> es[k] == Collect || es[k] == Mark
    decreases all - k
  {
    if k == all {
      es, d := [Mark], Next(n, c, Mark);
      Reaches1(n, c, Mark, [], d);
    } else {
      var rest;
      rest, d := CollectAll(n, Next(n, c, Collect), k + 1, all);
      Reaches1(n, c, Collect, rest, d);
      es := [Collect] + rest;
    }
  }

  // ---- the notification can be missed ----

  /**
   * The step that makes the supervisor miss its last notification: the notification comes while the supervisor
   * is on its way to sleep, or the slice count is stored after the last notification while the supervisor is not
   * looking, or after the last notification the supervisor compares a counter that it loaded too early.
   */
  predicate Misses(n: nat, c: Control, e: Event) {
    c.accepted == n + 1 &&
    match e
    case Signal => c.supervisor == Dozing && c.slicesNum != 0
    case Publish => c.slicesNum == 0 && c.main == Accepting && Resting(c)
    case LoadCount =>
      c.supervisor.Counter? && !Enough(c.supervisor.t, n) && c.slicesNum != 0 && c.main == Accepting
    case _ => false
  }

  /** A supervisor hangs after a step exactly if the step makes it miss its notification or it hung before and
      was not woken up without one. */
  lemma HungStep(n: nat, c: Control, e: Event)
    requires Inv(n, c) && 0 < n <= SHORT_MAX && Enabled(n, c, e)
    ensures Hung(n, Next(n, c, e)) <==> Misses(n, c, e) || (Hung(n, c) && e != SpuriousWake)
  {
  }

  /** The state before event `k`. */
  function At(n: nat, c: Control, es: seq<Event>, k: nat): Control
    requires k <= |es|
    decreases k
  {
    if k == 0 || !Enabled(n, c, es[0]) then c else At(n, Next(n, c, es[0]), es[1..], k - 1)
  }

  /** Event `k` makes the supervisor miss its notification, and no spurious wake-up follows. */
  predicate MissedAt(n: nat, c: Control, es: seq<Event>, k: nat)
    requires k < |es|
  {
    Misses(n, At(n, c, es, k), es[k]) && SpuriousWake !in es[k + 1..]
  }

  ghost predicate MissedIn(n: nat, c: Control, es: seq<Event>) {
    exists k: nat :: k < |es| && MissedAt(n, c, es, k)
  }

  lemma MissedInRest(n: nat, c: Control, es: seq<Event>)
    requires es != [] && Enabled(n, c, es[0])
    ensures MissedIn(n, c, es) <==>
            (Misses(n, c, es[0]) && SpuriousWake !in es[1..]) || MissedIn(n, Next(n, c, es[0]), es[1..])
  {
    var c', rest := Next(n, c, es[0]), es[1..];
    forall k: nat | k < |rest| ensures MissedAt(n, c, es, k + 1) <==> MissedAt(n, c', rest, k) {
      assert es[k + 1] == rest[k] && es[k + 2..] == rest[k + 1..];
    }
    assert MissedAt(n, c, es, 0) <==> Misses(n, c, es[0]) && SpuriousWake !in es[1..];
    if MissedIn(n, c, es) {
      var k: nat :| k < |es| && MissedAt(n, c, es, k);
      assert k > 0 ==> MissedAt(n, c', rest, k - 1);
    }
    if MissedIn(n, c', rest) {
      var k: nat :| k < |rest| && MissedAt(n, c', rest, k);
      assert MissedAt(n, c, es, k + 1);
    }
  }

  lemma {:induction false} HungRun(n: nat, c: Control, es: seq<Event>, d: Control)
    requires Inv(n, c) && 0 < n <= SHORT_MAX && Reaches(n, c, es, d)
    ensures Hung(n, d) <==> MissedIn(n, c, es) || (Hung(n, c) && SpuriousWake !in es)
    decreases |es|
  {
    if es != [] {
      InvStep(n, c, es[0]);
      HungStep(n, c, es[0]);
      HungRun(n, Next(n, c, es[0]), es[1..], d);
      MissedInRest(n, c, es);
      assert es == [es[0]] + es[1..];
    }
  }

  /**
   * The supervisor hangs after a run exactly if some event of the run made it miss its last notification and no
   * spurious wake-up followed.
   */
  lemma WaitHangsIffMissed(n: nat, size: nat, es: seq<Event>, c: Control)
    requires 0 < n <= SHORT_MAX && Reaches(n, Init(size), es, c)
    ensures Hung(n, c) <==> MissedIn(n, Init(size), es)
  {
    InitInv(n, size);
    HungRun(n, Init(size), es, c);
  }

  /** Once all connections are notified about and the count is stored, the supervisor looks at its condition or is
      past its wait, unless it hangs. */
  lemma HungOrOn(n: nat, size: nat, es: seq<Event>, c: Control)
    requires 0 < n <= SHORT_MAX && Reaches(n, Init(size), es, c)
    requires c.main == Accepting && c.accepted == n + 1 && c.slicesNum != 0
    ensures !Resting(c) <==> !MissedIn(n, Init(size), es)
  {
    InitInv(n, size);
    InvRun(n, Init(size), es, c);
    GuardHolds(n, c);
    WaitHangsIffMissed(n, size, es, c);
  }

  /** A supervisor that hangs does so for good: without a spurious wake-up no run goes on to the end marker. */
  lemma HungForever(n: nat, size: nat, es: seq<Event>, c: Control, more: seq<Event>, d: Control)
    requires 0 < n <= SHORT_MAX && Reaches(n, Init(size), es, c) && Hung(n, c)
    requires Reaches(n, c, more, d) && SpuriousWake !in more
    ensures Hung(n, d) && !d.supervisor.Marked?
  {
    InitInv(n, size);
    InvRun(n, Init(size), es, c);
    HungRun(n, c, more, d);
  }
}
