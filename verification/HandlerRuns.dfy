/**
 * The handler `Recv`, undisturbed, is a run of the handler machine: turn for turn, decoder call for decoder call,
 * with the same effect on what the handlers share and on the output file, and with the same code in the end.
 */
module HandlerRuns {
  import opened Bytes
  import opened Codec
  import opened Sockets
  import opened Reception
  import opened Decompression
  import opened Receiver
  import opened Delivery

  /** The steps lead from `s` to `t`. */
  ghost predicate Steps<D>(job: Job<D>, s: Net<D>, es: seq<Event>, t: Net<D>)
    decreases |es|
  {
    if es == [] then s == t else Enabled(job, s, es[0]) && Steps(job, Next(job, s, es[0]), es[1..], t)
  }

  lemma StepsCons<D>(job: Job<D>, s: Net<D>, e: Event, es: seq<Event>, t: Net<D>)
    requires Enabled(job, s, e) && Steps(job, Next(job, s, e), es, t)
    ensures Steps(job, s, [e] + es, t)
  {
    assert ([e] + es)[1..] == es;
  }

  lemma {:induction false} StepsSnoc<D>(job: Job<D>, s: Net<D>, es: seq<Event>, m: Net<D>, e: Event)
    requires Steps(job, s, es, m) && Enabled(job, m, e)
    ensures Steps(job, s, es + [e], Next(job, m, e))
    decreases |es|
  {
    if es == [] {
      assert (es + [e])[0] == e && (es + [e])[1..] == [];
    } else {
      assert (es + [e])[1..] == es[1..] + [e];
      StepsSnoc(job, Next(job, s, es[0]), es[1..], m, e);
    }
  }

  lemma {:induction false} StepsTrans<D>(job: Job<D>, s: Net<D>, es: seq<Event>, m: Net<D>, fs: seq<Event>, t: Net<D>)
    requires Steps(job, s, es, m) && Steps(job, m, fs, t)
    ensures Steps(job, s, es + fs, t)
    decreases |es|
  {
    if es == [] {
      assert es + fs == fs;
    } else {
      StepsTrans(job, Next(job, s, es[0]), es[1..], m, fs, t);
      StepsCons(job, s, es[0], es[1..] + fs, t);
      assert es + fs == [es[0]] + (es[1..] + fs);
    }
  }

  // ---- the turns ----

  /** One wake-up for each turn. */
  function WakeUps(c: nat, bursts: seq<seq<Byte>>): (es: seq<Event>)
    ensures |es| == |bursts| && forall k :: 0 <= k < |es| ==> es[k] == WakeUp(c, |bursts[k]|)
  {
    seq(|bursts|, k requires 0 <= k < |bursts| => WakeUp(c, |bursts[k]|))
  }

  /** Handler `c` has read up to `pos` and stands at `l`. */
  ghost predicate StandsAt<D>(job: Job<D>, s: Net<D>, c: nat, pos: nat, l: Local) {
    && c < |s.conns| == |job.wires| && s.conns[c] == Conn(pos, AfterWake(job.d, l)) && pos <= |job.wires[c]|
    && (s.fault <==> l == Left(Undefined))
  }

  /** What the turns on `bursts` make of the state. */
  function Turned<D>(job: Job<D>, s: Net<D>, c: nat, l: Local, bursts: seq<seq<Byte>>): Net<D>
    requires c < |s.conns|
  {
    Woken(job, s, c, |Flatten(bursts)|, Wakes((s.sh, l), bursts))
  }

  lemma FirstOnWire(wire: seq<Byte>, pos: nat, bursts: seq<seq<Byte>>)
    requires bursts != [] && pos + |Flatten(bursts)| <= |wire|
    requires Flatten(bursts) == wire[pos..pos + |Flatten(bursts)|]
    ensures |Flatten(bursts)| == |bursts[0]| + |Flatten(bursts[1..])|
    ensures bursts[0] == wire[pos..pos + |bursts[0]|]
    ensures Flatten(bursts[1..]) == wire[pos + |bursts[0]|..pos + |Flatten(bursts)|]
  {
    assert Flatten(bursts) == bursts[0] + Flatten(bursts[1..]);
    assert bursts[0] == Flatten(bursts)[..|bursts[0]|] && Flatten(bursts[1..]) == Flatten(bursts)[|bursts[0]|..];
  }

  lemma TurnStep<D>(job: Job<D>, s: Net<D>, c: nat, pos: nat, l: Local, b: seq<Byte>)
    requires StandsAt(job, s, c, pos, l) && Active(s.sh, l) && |b| <= Quota(s.sh, l)
    requires pos + |b| <= |job.wires[c]| && b == job.wires[c][pos..pos + |b|]
    ensures Enabled(job, s, WakeUp(c, |b|)) && NextWake(job, s, c, |b|) == Woken(job, s, c, |b|, Wake(s.sh, l, b))
    ensures StandsAt(job, NextWake(job, s, c, |b|), c, pos + |b|, Wake(s.sh, l, b).1)
    ensures var (sh', l') := Wake(s.sh, l, b);
            && (s.sh.mapped ==> sh'.mapped) && (sh'.mapped && !s.sh.mapped ==> !Active(sh', l'))
  {
    MapsOnce(s.sh, l, b);
  }

  /** Two wake-ups come to what the second comes to. */
  lemma WokenTwice<D>(job: Job<D>, s: Net<D>, c: nat, n: nat, m: (Shared, Local), k: nat, r: (Shared, Local))
    requires c < |s.conns| && (s.sh.mapped ==> m.0.mapped) && (m.0.mapped && !s.sh.mapped ==> r == m)
    ensures Woken(job, Woken(job, s, c, n, m), c, k, r) == Woken(job, s, c, n + k, r)
  {
  }

  /** A turn, and then the others. */
  lemma TurnedCons<D>(job: Job<D>, s: Net<D>, c: nat, l: Local, bursts: seq<seq<Byte>>)
    requires bursts != [] && c < |s.conns| && Active(s.sh, l)
    ensures var r := Wake(s.sh, l, bursts[0]);
            Turned(job, Woken(job, s, c, |bursts[0]|, r), c, r.1, bursts[1..]) == Turned(job, s, c, l, bursts)
  {
    var b, rest := bursts[0], bursts[1..];
    var r := Wake(s.sh, l, b);
    MapsOnce(s.sh, l, b);
    assert Wakes((s.sh, l), bursts) == Wakes(r, rest) && r == (r.0, r.1);
    assert Flatten(bursts) == b + Flatten(rest);
    WokenTwice(job, s, c, |b|, r, |Flatten(rest)|, Wakes(r, rest));
  }

  lemma TurnedStands<D>(job: Job<D>, s: Net<D>, c: nat, pos: nat, l: Local, bursts: seq<seq<Byte>>)
    requires StandsAt(job, s, c, pos, l) && pos + |Flatten(bursts)| <= |job.wires[c]|
    ensures StandsAt(job, Turned(job, s, c, l, bursts), c, pos + |Flatten(bursts)|, Wakes((s.sh, l), bursts).1)
  {
  }

  /** The turns of the handler are wake-ups of the machine. */
  lemma {:induction false} TurnsAreSteps<D>(job: Job<D>, s: Net<D>, c: nat, pos: nat, l: Local, bursts: seq<seq<Byte>>)
    requires StandsAt(job, s, c, pos, l) && Asked((s.sh, l), bursts)
    requires pos + |Flatten(bursts)| <= |job.wires[c]|
    requires Flatten(bursts) == job.wires[c][pos..pos + |Flatten(bursts)|]
    ensures Steps(job, s, WakeUps(c, bursts), Turned(job, s, c, l, bursts))
    decreases |bursts|
  {
    if bursts == [] {
      assert s.conns[c := s.conns[c]] == s.conns;
    } else {
      var b, rest := bursts[0], bursts[1..];
      FirstOnWire(job.wires[c], pos, bursts);
      TurnStep(job, s, c, pos, l, b);
      TurnsAreSteps(job, NextWake(job, s, c, |b|), c, pos + |b|, Wake(s.sh, l, b).1, rest);
      TurnedCons(job, s, c, l, bursts);
      StepsCons(job, s, WakeUp(c, |b|), WakeUps(c, rest), Turned(job, s, c, l, bursts));
      assert WakeUps(c, bursts) == [WakeUp(c, |b|)] + WakeUps(c, rest);
    }
  }

  // ---- the decoder calls ----

  function DecodeCalls(c: nat, k: nat): seq<Event> {
    seq(k, _ => DecodeCall(c))
  }

  /** The file with what fits of the bytes at their place: all of them or nothing. */
  function Holding(was: seq<Byte>, base: nat, bytes: seq<Byte>): seq<Byte> {
    if base + |bytes| <= |was| then Splice(was, base, bytes) else was
  }

  /** Handler `c` is at cursor `k` of its decoding of slice `i`. */
  function AtCursor<D>(s: Net<D>, c: nat, i: nat, base: nat, cur: Cursor<D>): Net<D>
    requires c < |s.conns|
  {
    s.(out := Holding(s.out, base, cur.out),
       conns := s.conns[c := s.conns[c].(phase := Decoding(i, cur.state, cur.pos, |cur.out|))])
  }

  lemma {:induction false} OutGrows<D>(d: Decoder<D>, input: seq<Byte>, size: nat, streamOut: nat,
                                       run: seq<Cursor<D>>, k: nat)
    requires Calls(d, input, size, streamOut, run) && k < |run|
    ensures run[k].out <= run[|run| - 1].out && InBounds(input, size, run[k])
    decreases |run| - k
  {
    if k < |run| - 1 {
      OutGrows(d, input, size, streamOut, run, k + 1);
      assert NextCursor(d, input, size, streamOut, run[k], run[k + 1]);
    }
  }

  /** Slice `i`, complete, is what handler `c` decodes. */
  ghost predicate Decodes<D>(job: Job<D>, s: Net<D>, c: nat, i: nat, info: Info) {
    && c < |s.conns| == |job.wires| && !s.fault && s.conns[c].phase == Decoding(i, job.d.init, 0, 0)
    && i in s.sh.slices && s.sh.slices[i] == info && info.len != 0
  }

  lemma CursorStep<D>(job: Job<D>, s: Net<D>, c: nat, i: nat, info: Info, streamOut: nat, cur: Cursor<D>, n: Cursor<D>)
    requires Decodes(job, s, c, i, info) && NextCursor(job.d, info.got, info.len, streamOut, cur, n)
    requires info.base + |n.out| <= |s.out|
    ensures var m := AtCursor(s, c, i, info.base, cur);
            Enabled(job, m, DecodeCall(c)) && Next(job, m, DecodeCall(c)) == AtCursor(s, c, i, info.base, n)
  {
    var r := CallAt(job.d, info.got, info.len, streamOut, cur);
    SpliceTwice(s.out, info.base, cur.out, r.output);
  }

  /** The run of the decoder is a run of the machine. */
  lemma {:induction false} CursorsAreSteps<D>(job: Job<D>, s: Net<D>, c: nat, i: nat, info: Info, streamOut: nat,
                                              run: seq<Cursor<D>>, k: nat)
    requires Decodes(job, s, c, i, info) && k < |run| && Calls(job.d, info.got, info.len, streamOut, run)
    requires |run| > 1 ==> info.base + |run[|run| - 1].out| <= |s.out|
    ensures Steps(job, s, DecodeCalls(c, k), AtCursor(s, c, i, info.base, run[k]))
  {
    if k == 0 {
      assert s.conns[c := s.conns[c]] == s.conns;
      assert info.base <= |s.out| ==> Splice(s.out, info.base, []) == s.out;
    } else {
      CursorsAreSteps(job, s, c, i, info, streamOut, run, k - 1);
      var m := AtCursor(s, c, i, info.base, run[k - 1]);
      assert NextCursor(job.d, info.got, info.len, streamOut, run[k - 1], run[k]);
      OutGrows(job.d, info.got, info.len, streamOut, run, k);
      CursorStep(job, s, c, i, info, streamOut, run[k - 1], run[k]);
      StepsSnoc(job, s, DecodeCalls(c, k - 1), m, DecodeCall(c));
      assert DecodeCalls(c, k) == DecodeCalls(c, k - 1) + [DecodeCall(c)];
    }
  }

  /** The handler has come to its end in the machine: with the code, or with a fault. */
  ghost predicate EndsWith<D>(t: Net<D>, c: nat, outcome: Outcome) {
    && c < |t.conns|
    && (t.fault <==> outcome == Undefined)
    && (outcome != Undefined ==> t.conns[c].phase == Exited(outcome))
  }

  /** The step after the last cursor. */
  lemma LastStep<D>(job: Job<D>, s: Net<D>, c: nat, i: nat, info: Info, streamOut: nat, cur: Cursor<D>, ending: Ending,
                    outcome: Outcome)
    returns (e: Event)
    requires Decodes(job, s, c, i, info) && info.len < TWO32 && InBounds(info.got, info.len, cur)
    requires cur.out == [] || info.base + |cur.out| <= |s.out|
    requires EndsAt(job.d, info.got, info.len, streamOut, info.base, |s.out|, cur, ending)
    requires outcome == match ending
                        case Through => Verdict(|cur.out|, info.len)
                        case Rejected => Code(-1)
                        case Outside => Undefined
    ensures e.c == c && var m := AtCursor(s, c, i, info.base, cur);
            && Enabled(job, m, e) && EndsWith(Next(job, m, e), c, outcome)
            && Next(job, m, e).sh == s.sh && Next(job, m, e).out == m.out
  {
    AcceptedIff(|cur.out|, info.len);
    e := if ending == Through then DecodeEnd(c) else DecodeCall(c);
  }

  /** The decoding of a completed slice is a run of the machine. */
  lemma DecodingIsSteps<D>(job: Job<D>, s: Net<D>, c: nat, i: nat, info: Info, streamOut: nat,
                           run: seq<Cursor<D>>, ending: Ending, outcome: Outcome, written: seq<Byte>)
    returns (es: seq<Event>, t: Net<D>)
    requires Decodes(job, s, c, i, info) && info.len < TWO32
    requires DecodesBy(job.d, info, streamOut, |s.out|, run, ending, outcome, written)
    ensures Steps(job, s, es, t) && (forall e :: e in es ==> e.c == c) && EndsWith(t, c, outcome)
    ensures t.sh == s.sh && t.out == Holding(s.out, info.base, written)
  {
    var k := |run| - 1;
    CursorsAreSteps(job, s, c, i, info, streamOut, run, k);
    var m := AtCursor(s, c, i, info.base, run[k]);
    var e := LastStep(job, s, c, i, info, streamOut, run[k], ending, outcome);
    StepsSnoc(job, s, DecodeCalls(c, k), m, e);
    es, t := DecodeCalls(c, k) + [e], Next(job, m, e);
  }

  // ---- the whole handler ----

  function FileOf(server: Server): seq<Byte>
    reads server, server.output
  {
    if server.output == null then [] else server.output[..]
  }

  /** The machine is about to run handler `c` on what the server holds and on the connection. */
  ghost predicate Mirrors<D>(job: Job<D>, s: Net<D>, c: nat, server: Server, conn: InSocket)
    reads server, server.output, conn
  {
    && s.sh == server.View() && s.out == FileOf(server) && !s.fault
    && c < |s.conns| == |job.wires| && s.conns[c] == Conn(0, Reading(Fresh))
    && conn.data == job.wires[c] && conn.pos == 0
  }

  /** What a run of the machine has to match. */
  ghost predicate Matches<D>(t: Net<D>, c: nat, outcome: Outcome, sh: Shared, out: seq<Byte>) {
    EndsWith(t, c, outcome) && t.out == out && sh == t.sh.(readsMax := sh.readsMax)
  }

  /** The handling of a completed slice. */
  lemma CompletedIsSteps<D(!new)>(job: Job<D>, s: Net<D>, c: nat, i: nat, info: Info, streamOut: nat, context: bool,
                                  out: seq<Byte>, outcome: Outcome, written: seq<Byte>)
    returns (es: seq<Event>, t: Net<D>)
    requires Decodes(job, s, c, i, info) && info.len < TWO32
    requires SliceOutcome(job.f, job.d, info, streamOut, context, s.out, out, outcome, written)
    ensures Steps(job, s, es, t) && (forall e :: e in es ==> e.c == c) && Matches(t, c, outcome, s.sh, out)
  {
    if context {
      var run: seq<Cursor<D>>, ending: Ending :|
        DecodesBy(job.d, info, streamOut, |s.out|, run, ending, outcome, written);
      es, t := DecodingIsSteps(job, s, c, i, info, streamOut, run, ending, outcome, written);
    } else {
      es, t := [NoContext(c)], Next(job, s, NoContext(c));
      assert Steps(job, t, es[1..], t);
    }
  }

  /** The turns, up to the end of the reading. */
  lemma ReadingIsSteps<D>(job: Job<D>, s: Net<D>, c: nat, bursts: seq<seq<Byte>>, failed: bool, sh: Shared, last: Local)
    returns (es: seq<Event>, t: Net<D>)
    requires StandsAt(job, s, c, 0, Fresh) && Turns(s.sh, bursts, failed, sh, last)
    requires |Flatten(bursts)| <= |job.wires[c]| && Flatten(bursts) == job.wires[c][..|Flatten(bursts)|]
    ensures Steps(job, s, es, t) && (forall e :: e in es ==> e.c == c)
    ensures sh == t.sh.(readsMax := sh.readsMax)
    ensures t.out == if t.sh.mapped && !s.sh.mapped then Zeros(t.sh.fileSize) else s.out
    ensures failed ==> EndsWith(t, c, Code(-1))
    ensures !failed ==> StandsAt(job, t, c, |Flatten(bursts)|, last)
  {
    var wire := job.wires[c];
    if failed {
      var n := |bursts| - 1;
      var before, b := bursts[..n], bursts[n];
      assert bursts == before + [b];
      FlattenSnoc(before, b);
      assert Flatten(before) == Flatten(bursts)[..|Flatten(before)|];
      TurnsAreSteps(job, s, c, 0, Fresh, before);
      TurnedStands(job, s, c, 0, Fresh, before);
      var m := Turned(job, s, c, Fresh, before);
      StepsSnoc(job, s, WakeUps(c, before), m, ReadFails(c));
      es, t := WakeUps(c, before) + [ReadFails(c)], Next(job, m, ReadFails(c));
    } else {
      TurnsAreSteps(job, s, c, 0, Fresh, bursts);
      TurnedStands(job, s, c, 0, Fresh, bursts);
      es, t := WakeUps(c, bursts), Turned(job, s, c, Fresh, bursts);
    }
  }

  /** What the handler comes to: where its turns have left it decides the code and the output file. */
  ghost predicate Came<D(!new)>(job: Job<D>, s: Net<D>, failed: bool, sh: Shared, last: Local, streamOut: nat,
                                context: bool, out: seq<Byte>, outcome: Outcome, written: seq<Byte>)
  {
    if !failed && last.Complete? then
      && s.sh.mapped && last.index in sh.slices && sh.slices[last.index].len < TWO32
      && SliceOutcome(job.f, job.d, sh.slices[last.index], streamOut, context, s.out, out, outcome, written)
    else
      && (failed || last.Left?) && outcome == (if failed then Code(-1) else last.outcome)
      && out == if sh.mapped && !s.sh.mapped then Zeros(sh.fileSize) else s.out
  }

  lemma HandlerIsSteps<D(!new)>(job: Job<D>, s: Net<D>, c: nat, bursts: seq<seq<Byte>>, failed: bool, sh: Shared,
                                last: Local, streamOut: nat, context: bool, out: seq<Byte>, outcome: Outcome,
                                written: seq<Byte>)
    returns (es: seq<Event>, t: Net<D>)
    requires StandsAt(job, s, c, 0, Fresh) && Turns(s.sh, bursts, failed, sh, last)
    requires |Flatten(bursts)| <= |job.wires[c]| && Flatten(bursts) == job.wires[c][..|Flatten(bursts)|]
    requires Came(job, s, failed, sh, last, streamOut, context, out, outcome, written)
    requires forall i :: i in sh.slices ==> sh.slices[i].len != 0
    ensures Steps(job, s, es, t) && (forall e :: e in es ==> e.c == c) && Matches(t, c, outcome, sh, out)
  {
    es, t := ReadingIsSteps(job, s, c, bursts, failed, sh, last);
    if !failed && last.Complete? {
      var fs, u := CompletedIsSteps(job, t, c, last.index, sh.slices[last.index], streamOut, context, out, outcome,
                                    written);
      StepsTrans(job, s, es, t, fs, u);
      es, t := es + fs, u;
    }
  }

  lemma AllZero(bytes: seq<Byte>)
    ensures (forall b :: b in bytes ==> b == 0) ==> bytes == Zeros(|bytes|)
  {
    if forall b :: b in bytes ==> b == 0 {
      forall k | 0 <= k < |bytes| ensures bytes[k] == Zeros(|bytes|)[k] {
        assert bytes[k] in bytes;
      }
    }
  }

  /**
   * Runs the handler.  Unless a slice without bytes is announced, there is a run of the machine with steps of this
   * handler only that does the same: it leaves the shared variables and the output file as the handler leaves them (but
   * for the read size after a failed read) and ends with the same code, or with a fault exactly when the handler does.
   */
  method RunAlone<D(!new)>(job: Job<D>, s: Net<D>, c: nat, server: Server, conn: InSocket, streamOut: nat,
                           context: bool)
    returns (outcome: Outcome, ghost es: seq<Event>, ghost t: Net<D>)
    requires FormatContract(job.f) && DecoderContract(job.f, job.d)
    requires server.Valid() && Mirrors(job, s, c, server, conn) && !conn.last.Broken?
    modifies server, conn, if server.output == null then {} else {server.output}
    ensures (forall i :: i in server.slices ==> server.slices[i].len != 0) ==>
              && Steps(job, s, es, t) && (forall e :: e in es ==> e.c == c)
              && Matches(t, c, outcome, server.View(), FileOf(server))
  {
    ghost var last, bursts, written;
    outcome, last, bursts, written := server.Recv(job.f, job.d, conn, streamOut, context);
    if ExpectsText(s.sh) && !conn.last.Broken? {
      TextTurns(s.sh, bursts, server.View(), last);
    }
    AllZero(FileOf(server));
    if forall i :: i in server.slices ==> server.slices[i].len != 0 {
      es, t := HandlerIsSteps(job, s, c, bursts, conn.last.Broken?, server.View(), last, streamOut, context,
                              FileOf(server), outcome, written);
    } else {
      es, t := [], s;
    }
  }
}
