/**
 * Schedules of the supervision: runs that end the wait early, write the end marker early or hang, and with them
 * the exact conditions under which every run is right.
 */
module Schedules {
  import opened Bytes
  import opened Supervision
  import TP = ThreadPool

  // ---- building runs ----

  lemma Reaches4(n: nat, c: Control, e1: Event, e2: Event, e3: Event, e4: Event, d: Control)
    requires Enabled(n, c, e1)
    requires var c1 := Next(n, c, e1);
             Enabled(n, c1, e2) &&
             var c2 := Next(n, c1, e2);
             Enabled(n, c2, e3) &&
             var c3 := Next(n, c2, e3);
             Enabled(n, c3, e4) && d == Next(n, c3, e4)
    ensures Reaches(n, c, [e1, e2, e3, e4], d)
  {
    var c1 := Next(n, c, e1);
    var c2 := Next(n, c1, e2);
    var c3 := Next(n, c2, e3);
    Reaches1(n, c3, e4, [], d);
    Reaches1(n, c2, e3, [e4], d);
    Reaches1(n, c1, e2, [e3, e4], d);
    Reaches1(n, c, e1, [e2, e3, e4], d);
    assert [e4] + [] == [e4] && [e3] + [e4] == [e3, e4] && [e2] + [e3, e4] == [e2, e3, e4];
    assert [e1] + [e2, e3, e4] == [e1, e2, e3, e4];
  }

  function UpTo(from: nat, to: nat): seq<nat>
    requires from <= to
  {
    seq(to - from, i requires 0 <= i < to - from => from + i)
  }

  /** `j` connections are accepted and nobody has looked at the queue yet. */
  function Backlog(size: nat, j: nat): Control {
    Control(TP.Pool(seq(size, _ => TP.Awake), UpTo(0, j + 1), false, 0, false, j + 1, [], {}),
            Accepting, j, UpTo(1, j + 1), ToShort(j), 0, Testing)
  }

  /** Neither a load of the count, nor its storing, nor the end of a task. */
  predicate Opening(e: Event) {
    e != LoadCount && e != Publish && !(e.Work? && e.e.Finish?)
  }

  ghost predicate Openings(es: seq<Event>) {
    forall k :: 0 <= k < |es| ==> Opening(es[k])
  }

  /** The accept loop accepts a connection and enqueues its handler; nobody sleeps. */
  lemma Enqueued(n: nat, c: Control)
    requires c.main == Accepting && c.accepted <= n && !c.pool.stop && !TP.SomeAsleep(c.pool) && c.pool.notices == 0
    ensures Reaches(n, c, [Accept] + [DeliverNotice(0)],
                    c.(pool := c.pool.(queue := c.pool.queue + [c.pool.issued], issued := c.pool.issued + 1),
                       main := Pushing, accepted := c.accepted + 1))
  {
    var c1 := Next(n, c, Accept);
    assert !TP.SomeAsleep(c1.pool);
    var c2 := Next(n, c1, DeliverNotice(0));
    Reaches1(n, c1, DeliverNotice(0), [], c2);
    assert [DeliverNotice(0)] + [] == [DeliverNotice(0)];
    Reaches1(n, c, Accept, [DeliverNotice(0)], c2);
  }

  /** It pushes the future, counts the connection and notifies the supervisor. */
  lemma Filed(n: nat, c: Control)
    requires c.main == Pushing && c.supervisor == Testing
    ensures Reaches(n, c, [PushFuture] + ([Increment] + ([Signal] + [])),
                    c.(main := Accepting, futures := c.futures + [c.accepted],
                       threads := ToShort((c.threads + 1) % TWO16)))
  {
    var c1 := Next(n, c, PushFuture);
    var c2 := Next(n, c1, Increment);
    var c3 := Next(n, c2, Signal);
    Reaches1(n, c2, Signal, [], c3);
    Reaches1(n, c1, Increment, [Signal] + [], c3);
    Reaches1(n, c, PushFuture, [Increment] + ([Signal] + []), c3);
  }

  lemma TakeIn(n: nat, c: Control) returns (es: seq<Event>)
    requires c.main == Accepting && c.accepted <= n && c.supervisor == Testing
    requires !c.pool.stop && !TP.SomeAsleep(c.pool) && c.pool.notices == 0
    ensures Openings(es)
    ensures Reaches(n, c, es,
                    c.(pool := c.pool.(queue := c.pool.queue + [c.pool.issued], issued := c.pool.issued + 1),
                       accepted := c.accepted + 1, futures := c.futures + [c.accepted + 1],
                       threads := ToShort((c.threads + 1) % TWO16)))
  {
    var pool := c.pool.(queue := c.pool.queue + [c.pool.issued], issued := c.pool.issued + 1);
    var c1 := c.(pool := pool, main := Pushing, accepted := c.accepted + 1);
    var c2 := c1.(main := Accepting, futures := c.futures + [c.accepted + 1],
                  threads := ToShort((c.threads + 1) % TWO16));
    Enqueued(n, c);
    Filed(n, c1);
    var first, second := [Accept] + [DeliverNotice(0)], [PushFuture] + ([Increment] + ([Signal] + []));
    ReachesAppend(n, c, first, c1, second, c2);
    es := first + second;
  }

  lemma OneMoreConnection(n: nat, size: nat, j: nat) returns (es: seq<Event>)
    requires j <= n
    ensures Reaches(n, Backlog(size, j), es, Backlog(size, j + 1)) && Openings(es)
  {
    ToShortStep(j);
    assert UpTo(0, j + 1) + [j + 1] == UpTo(0, j + 2);
    assert UpTo(1, j + 1) + [j + 1] == UpTo(1, j + 2);
    es := TakeIn(n, Backlog(size, j));
  }

  lemma {:induction false} ManyConnections(n: nat, size: nat, j: nat) returns (es: seq<Event>)
    requires j <= n + 1
    ensures Reaches(n, Init(size), es, Backlog(size, j)) && Openings(es)
  {
    if j == 0 {
      es := [DeliverNotice(0)];
      assert !TP.SomeAsleep(Init(size).pool);
      assert Next(n, Init(size), es[0]) == Backlog(size, 0);
    } else {
      var before := ManyConnections(n, size, j - 1);
      var more := OneMoreConnection(n, size, j - 1);
      ReachesAppend(n, Init(size), before, Backlog(size, j - 1), more, Backlog(size, j));
      es := before + more;
    }
  }

  /** `j` connections are accepted; one worker has taken the supervisor and another the header handler. */
  ghost predicate Staged(j: nat, c: Control) {
    && j >= 1
    && |c.pool.workers| >= 2 && c.pool.workers[0] == TP.Busy(0) && c.pool.workers[1] == TP.Busy(1)
    && c.pool.queue == UpTo(2, j + 1) && c.futures == UpTo(1, j + 1)
    && c.main == Accepting && c.accepted == j && c.threads == ToShort(j)
  }

  lemma CanBeReady(n: nat, size: nat, j: nat) returns (es: seq<Event>, c: Control)
    requires 1 <= j <= n + 1 && size >= 2
    ensures Reaches(n, Init(size), es, c) && Openings(es) && LoadCount !in es
    ensures Staged(j, c) && c.slicesNum == 0 && c.supervisor == Testing
  {
    var before := ManyConnections(n, size, j);
    var c0 := Backlog(size, j);
    var look0, look1 := Work(TP.Look(0)), Work(TP.Look(1));
    var c1 := Next(n, c0, look0);
    c := Next(n, c1, look1);
    assert UpTo(0, j + 1)[1..][1..] == UpTo(2, j + 1);
    Reaches1(n, c1, look1, [], c);
    Reaches1(n, c0, look0, [look1] + [], c);
    es := [look0] + ([look1] + []);
    ReachesAppend(n, Init(size), before, c0, es, c);
    es := before + es;
  }

  lemma TestPasses(n: nat, j: nat, c: Control)
    requires Staged(j, c) && c.supervisor == Testing && 0 < n && Enough(ToShort(j), n)
    ensures Reaches(n, c, [Publish, LoadCounter, LoadCount, LoadAgain],
                    c.(slicesNum := n, supervisor := Connecting))
  {
    Reaches4(n, c, Publish, LoadCounter, LoadCount, LoadAgain, c.(slicesNum := n, supervisor := Connecting));
  }

  /** A supervisor that tests when `j` connections are counted and the count is stored passes its wait. */
  lemma WaitEndsAt(n: nat, size: nat, j: nat) returns (es: seq<Event>, c: Control)
    requires 0 < n && 1 <= j <= n + 1 && size >= 2 && Enough(ToShort(j), n)
    ensures Reaches(n, Init(size), es, c) && Staged(j, c) && c.supervisor == Connecting
    ensures StoredFirst(es)
  {
    var start, c0 := CanBeReady(n, size, j);
    var test := [Publish, LoadCounter, LoadCount, LoadAgain];
    c := c0.(slicesNum := n, supervisor := Connecting);
    TestPasses(n, j, c0);
    ReachesAppend(n, Init(size), start, c0, test, c);
    es := start + test;
    assert StoredAt(es, |start|);
  }

  predicate StoredAt(es: seq<Event>, k: nat) {
    k < |es| && es[k] == Publish && LoadCount !in es[..k]
  }

  /** The count is stored before its first load. */
  ghost predicate StoredFirst(es: seq<Event>) {
    exists k: nat :: StoredAt(es, k)
  }

  /** Then no test straddles the storing. */
  lemma NeverStraddled(n: nat, es: seq<Event>, fs: seq<Event>)
    requires StoredFirst(es)
    ensures !Straddled(es + fs) && !ShortListIn(n, es + fs)
  {
    var k: nat :| StoredAt(es, k);
    var all := es + fs;
    forall b: nat | b <= |all| ensures !Straddled(all[..b]) {
      forall i: nat | i < |all[..b]| ensures !StraddledAt(all[..b], i) {
        if i < k {
          assert all[..b][i] == es[..k][i];
        } else if i > k {
          assert all[..b][..i][k] == Publish;
        }
      }
    }
    assert all[..|all|] == all;
  }

  lemma TestTorn(n: nat, j: nat, c: Control)
    requires Staged(j, c) && j < TWO16 && c.supervisor == Testing && c.slicesNum == 0 && 0 < n
    ensures Reaches(n, c, [LoadCounter, LoadCount, Publish, LoadAgain],
                    c.(slicesNum := n, supervisor := Connecting))
    ensures Reaches(n, c, [LoadCounter, LoadCount, LoadAgain, Publish], c.(slicesNum := n, supervisor := Dozing))
  {
    assert Enough(ToShort(j), 0);
    Reaches4(n, c, LoadCounter, LoadCount, Publish, LoadAgain, c.(slicesNum := n, supervisor := Connecting));
    Reaches4(n, c, LoadCounter, LoadCount, LoadAgain, Publish, c.(slicesNum := n, supervisor := Dozing));
  }

  /** A supervisor whose test straddles the storing of the count passes its wait after any number of connections. */
  lemma WaitTornAt(n: nat, size: nat, j: nat) returns (es: seq<Event>, c: Control)
    requires 0 < n && 1 <= j <= n + 1 && j < TWO16 && size >= 2
    ensures Reaches(n, Init(size), es, c) && Staged(j, c) && c.supervisor == Connecting
  {
    var start, c0 := CanBeReady(n, size, j);
    c := c0.(slicesNum := n, supervisor := Connecting);
    TestTorn(n, j, c0);
    es := start + [LoadCounter, LoadCount, Publish, LoadAgain];
    ReachesAppend(n, Init(size), start, c0, [LoadCounter, LoadCount, Publish, LoadAgain], c);
  }

  lemma WrappedCounter(n: nat)
    requires SHORT_MAX < n < TWO16
    ensures Enough(ToShort(SHORT_MAX + 1), n)
  {
    assert ToShort(SHORT_MAX + 1) == -32768;
    assert -32768 % TWO32 == TWO32 - 32768;
  }

  // ---- the wait and the end marker ----

  /** With more than 32767 slices the counter turns negative, compares as a huge unsigned number, and
      the supervisor stops waiting although connections are missing, even if it loads the count once only. */
  lemma WaitEndsEarly(n: nat, size: nat) returns (es: seq<Event>, c: Control)
    requires SHORT_MAX < n < TWO16 && size >= 2
    ensures Reaches(n, Init(size), es, c) && Past(c) && c.accepted < n + 1 && !Straddled(es)
  {
    WrappedCounter(n);
    es, c := WaitEndsAt(n, size, SHORT_MAX + 1);
    NeverStraddled(n, es, []);
    assert es + [] == es;
  }

  /** Unless a test straddles the storing of the count, the wait ends only with every connection counted. */
  ghost predicate WaitIsSafe(n: nat, size: nat) {
    forall es, c :: Reaches(n, Init(size), es, c) && c.supervisor == Connecting && !Straddled(es) ==>
      Counted(c) == n + 1
  }

  /** But for such tests, the wait condition is right exactly up to 32767 slices. */
  lemma WaitIsSafeIff(n: nat, size: nat)
    requires 0 < n < TWO16 && size >= 2
    ensures WaitIsSafe(n, size) <==> n <= SHORT_MAX
  {
    if n <= SHORT_MAX {
      forall es, c | Reaches(n, Init(size), es, c) && c.supervisor == Connecting && !Straddled(es)
        ensures Counted(c) == n + 1
      {
        RunTrail(n, size, es, c);
        if Counted(c) <= n {
          EarlyMeansStraddled(n, es, c);
        }
      }
    } else {
      WrappedCounter(n);
      var es, c := WaitEndsAt(n, size, SHORT_MAX + 1);
      NeverStraddled(n, es, []);
      assert es + [] == es;
      assert Counted(c) != n + 1;
    }
  }

  /** The second worker runs the handlers `t` to `m` one after the other. */
  lemma {:induction false} DrainQueue(n: nat, c: Control, t: nat, m: nat) returns (es: seq<Event>, d: Control)
    requires |c.pool.workers| >= 2 && c.pool.workers[1] == TP.Busy(t) && 1 <= t <= m
    requires c.pool.queue == UpTo(t + 1, m + 1) && forall k: nat :: 1 <= k < t ==> k in c.pool.done
    ensures Reaches(n, c, es, d) && d == c.(pool := d.pool)
    ensures forall k: nat :: 1 <= k <= m ==> k in d.pool.done
    decreases m - t
  {
    var finish, look := Work(TP.Finish(1)), Work(TP.Look(1));
    var c1 := Next(n, c, finish);
    if t == m {
      es, d := [finish], c1;
      Reaches1(n, c, finish, [], d);
    } else {
      var c2 := Next(n, c1, look);
      assert UpTo(t + 1, m + 1)[1..] == UpTo(t + 2, m + 1);
      var rest;
      rest, d := DrainQueue(n, c2, t + 1, m);
      Reaches1(n, c1, look, rest, d);
      Reaches1(n, c, finish, [look] + rest, d);
      es := [finish] + ([look] + rest);
    }
  }

  /** When the wait has ended after `j` connections, the end marker can be written. */
  lemma MarkAfter(n: nat, size: nat, j: nat, es: seq<Event>, c: Control) returns (fs: seq<Event>, d: Control)
    requires j >= 1 && Reaches(n, Init(size), es, c) && Staged(j, c) && c.supervisor == Connecting
    ensures Reaches(n, Init(size), es + fs, d) && d.supervisor == Marked(j) && d.accepted == j
  {
    var c1 := Next(n, c, Connect);
    var second, c2 := DrainQueue(n, c1, 1, j);
    var third;
    third, d := CollectAll(n, c2, 0, j);
    ReachesAppend(n, c1, second, c2, third, d);
    Reaches1(n, c, Connect, second + third, d);
    fs := [Connect] + (second + third);
    ReachesAppend(n, Init(size), es, c, fs, d);
  }

  /** For every number of slices some run writes the end marker after any number of connections, the header
      connection alone among them: the count is stored between its two loads. */
  lemma EndMarkerTorn(n: nat, size: nat, j: nat) returns (es: seq<Event>, c: Control)
    requires 0 < n && 1 <= j <= n + 1 && j < TWO16 && size >= 2
    ensures Reaches(n, Init(size), es, c) && c.supervisor == Marked(j) && c.accepted == j
  {
    var first, c0 := WaitTornAt(n, size, j);
    var rest;
    rest, c := MarkAfter(n, size, j, first, c0);
    es := first + rest;
  }

  /** With more than 32767 slices some run writes the end marker while connections are missing, although no test
      straddles the storing of the count. */
  lemma EndMarkerEarly(n: nat, size: nat) returns (es: seq<Event>, c: Control)
    requires SHORT_MAX < n < TWO16 && size >= 2
    ensures Reaches(n, Init(size), es, c) && c.supervisor == Marked(SHORT_MAX + 1) && !ShortListIn(n, es)
  {
    WrappedCounter(n);
    var first, c0 := WaitEndsAt(n, size, SHORT_MAX + 1);
    var rest;
    rest, c := MarkAfter(n, size, SHORT_MAX + 1, first, c0);
    NeverStraddled(n, first, rest);
    es := first + rest;
  }

  /** Unless the list was short, the end marker is right: every connection has been accepted and its handler has
      returned. */
  ghost predicate EndMarkerIsRight(n: nat, size: nat) {
    forall es, c :: Reaches(n, Init(size), es, c) && c.supervisor.Marked? && !ShortListIn(n, es) ==>
      c.supervisor.all == c.accepted == n + 1 && forall t :: 1 <= t <= n + 1 ==> t in c.pool.done
  }

  /** But for short lists, the end marker is right in every run exactly up to 32767 slices. */
  lemma EndMarkerRightIff(n: nat, size: nat)
    requires 0 < n < TWO16 && size >= 2
    ensures EndMarkerIsRight(n, size) <==> n <= SHORT_MAX
  {
    if n <= SHORT_MAX {
      forall es, c | Reaches(n, Init(size), es, c) && c.supervisor.Marked? && !ShortListIn(n, es)
        ensures c.supervisor.all == c.accepted == n + 1 && forall t :: 1 <= t <= n + 1 ==> t in c.pool.done
      {
        ListCompleteIff(n, size, es, c);
        EndMarkerAfterAllTasks(n, size, es, c);
      }
    } else {
      var es, c := EndMarkerEarly(n, size);
      assert c.supervisor.all != n + 1;
    }
  }

  // ---- hanging ----

  /** For every number of slices and workers there is a run that hangs: the connections are accepted before
      the header handler gets to store the count. */
  lemma CanHang(n: nat, size: nat) returns (es: seq<Event>, c: Control)
    requires 0 < n <= SHORT_MAX && size >= 2
    ensures Reaches(n, Init(size), es, c) && Hung(n, c)
  {
    var start, c0 := CanBeReady(n, size, n + 1);
    var last := [LoadCounter, LoadCount, LoadAgain, Publish];
    c := c0.(slicesNum := n, supervisor := Dozing);
    TestTorn(n, n + 1, c0);
    es := start + last;
    ReachesAppend(n, Init(size), start, c0, last, c);
    StoredTooLate(n, c);
  }

  lemma StoredTooLate(n: nat, c: Control)
    requires 0 < n <= SHORT_MAX && Staged(n + 1, c) && c.slicesNum == n && c.supervisor == Dozing
    ensures Hung(n, c)
  {
  }
}
