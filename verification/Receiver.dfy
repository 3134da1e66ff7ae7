/** The receiving server and its connection handler `Recv`, run on a connection of its own. */
module Receiver {
  import opened Bytes
  import opened Codec
  import opened Framing
  import opened TextHeader
  import opened Sockets
  import opened Reception
  import opened Decompression

  /** How a handler ends once it has decompressed: the count comes back as an `int` and is compared as a
      `size_t` with the announced length. */
  function DecompressOutcome(r: int, len: nat): Outcome {
    if r == -1 then Code(-1) else if ToSizeT(r) == len then Code(0) else Code(-1)
  }

  /** A slice of which `n` bytes came out is accepted exactly when the count, as far as an `int` keeps it, is the
      announced length, which has to fit an `int`. */
  lemma AcceptedIff(n: nat, len: nat)
    requires len < TWO32
    ensures DecompressOutcome(ToInt32(n), len) == Code(0) <==> n % 0x1_0000_0000 == len < 0x8000_0000
    ensures DecompressOutcome(ToInt32(n), len) == Code(0) || DecompressOutcome(ToInt32(n), len) == Code(-1)
    ensures n <= len ==> (DecompressOutcome(ToInt32(n), len) == Code(0) <==> n == len < 0x8000_0000)
  {
    var m := n % TWO32;
    if m >= TWO31 {
      assert ToInt32(n) == m - TWO32;
      assert (m - TWO32) % TWO64 == TWO64 + m - TWO32;
    }
  }

  /** A slice that was written whole is accepted exactly when its length fits an `int`. */
  lemma WholeSliceAcceptedIff(len: nat)
    requires len < TWO32
    ensures DecompressOutcome(ToInt32(len), len) == Code(0) <==> len < TWO31
    ensures DecompressOutcome(ToInt32(len), len).Code?
  {
    AcceptedIff(len, len);
  }

  /** The code of a handler whose decoder has used up its input and has given `n` bytes. */
  function Verdict(n: nat, len: nat): Outcome {
    if n % 0x1_0000_0000 == len < 0x8000_0000 then Code(0) else Code(-1)
  }

  /**
   * How a completed slice ends: the decoder, run from its start, uses up the payload, and the code says whether as
   * many bytes came out as were announced; or it refuses a call, which gives -1; or it writes outside the file.
   */
  ghost predicate DecodesBy<D>(d: Decoder<D>, info: Info, streamOut: nat, length: nat, run: seq<Cursor<D>>,
                               ending: Ending, outcome: Outcome, written: seq<Byte>)
  {
    && Calls(d, info.got, info.len, streamOut, run) && run[|run| - 1].out == written
    && EndsAt(d, info.got, info.len, streamOut, info.base, length, run[|run| - 1], ending)
    && (|run| > 1 ==> info.base + |written| <= length)
    && match ending
       case Through => info.len < TWO32 ==> outcome == Verdict(|written|, info.len)
       case Rejected => outcome == Code(-1)
       case Outside => outcome == Undefined
  }

  ghost predicate DecodesTo<D(!new)>(d: Decoder<D>, info: Info, streamOut: nat, length: nat, outcome: Outcome,
                                     written: seq<Byte>)
  {
    exists run: seq<Cursor<D>>, ending: Ending :: DecodesBy(d, info, streamOut, length, run, ending, outcome, written)
  }

  /**
   * What a completed slice comes to: what was written lies at its base; a stream that decodes to the announced length
   * is written whole, and accepted if the length fits an `int`, unless its region leaves the file, which is a fault;
   * and a slice is accepted only if as many bytes were written as announced.
   */
  ghost predicate SliceOutcome<D(!new)>(f: Format, d: Decoder<D>, info: Info, streamOut: nat, context: bool,
                                        was: seq<Byte>, out: seq<Byte>, outcome: Outcome, written: seq<Byte>)
  {
    && Placed(was, info.base, written, out) && (info.len != 0 ==> |written| <= info.len)
    && (if context then DecodesTo(d, info, streamOut, |was|, outcome, written)
        else outcome == Code(-1) && written == [])
    && (context && Exact(f, info.got, info.len) && info.len < TWO32 ==>
          if info.base + info.len > |was| then outcome == Undefined
          else outcome == (if info.len < 0x8000_0000 then Code(0) else Code(-1)) && written == f.plain(info.got))
    && (outcome == Code(0) && 0 < info.len < TWO32 ==> |written| == info.len < 0x8000_0000)
    && (outcome == Undefined && info.len != 0 ==> info.base + info.len > |was|)
  }

  /** The turns of a handler have read `bursts`, each within what was asked for; a failed read leaves what the handlers
      share but for the read size. */
  ghost predicate Turns(was: Shared, bursts: seq<seq<Byte>>, failed: bool, sh: Shared, last: Local) {
    if failed then
      && bursts != [] && Asked((was, Fresh), bursts[..|bursts| - 1])
      && var (before, l) := Wakes((was, Fresh), bursts[..|bursts| - 1]);
         l == last && Active(before, l) && sh == before.(readsMax := sh.readsMax)
    else Asked((was, Fresh), bursts) && Wakes((was, Fresh), bursts) == (sh, last) && !Active(sh, last)
  }

  /** One more turn. */
  lemma OneMoreTurn(was: Shared, bursts: seq<seq<Byte>>, before: Shared, l: Local, burst: seq<Byte>, sh: Shared)
    requires Asked((was, Fresh), bursts) && Wakes((was, Fresh), bursts) == (before, l)
    requires Active(before, l) && |burst| <= Quota(before, l)
    ensures Asked((was, Fresh), bursts + [burst]) && Wakes((was, Fresh), bursts + [burst]) == Wake(before, l, burst)
    ensures sh == before.(readsMax := sh.readsMax) ==> Turns(was, bursts + [burst], true, sh, l)
  {
    WakesSnoc((was, Fresh), bursts, burst);
    AskedSnoc((was, Fresh), bursts, burst);
    assert (bursts + [burst])[..|bursts|] == bursts;
  }

  /** The text header takes one turn. */
  lemma TextTurns(was: Shared, bursts: seq<seq<Byte>>, sh: Shared, last: Local)
    requires ExpectsText(was) && Turns(was, bursts, false, sh, last)
    ensures |bursts| == 1 && last.Left? && Wake(was, Fresh, bursts[0]) == (sh, last)
  {
    assert bursts != [];
    TextVerdict(was, bursts[0]);
    var r := Wake(was, Fresh, bursts[0]);
    assert Asked(r, bursts[1..]) && r.1.Left?;
    assert bursts[1..] == [] && Wakes((was, Fresh), bursts) == Wakes(r, bursts[1..]);
  }

  /** A turn maps the output file only by ending the handler, and nothing unmaps it. */
  lemma MapsOnce(sh: Shared, l: Local, burst: seq<Byte>)
    requires Active(sh, l)
    ensures var (sh', l') := Wake(sh, l, burst);
            && (sh.mapped ==> sh'.mapped) && (sh'.mapped && !sh.mapped ==> l' == Left(Code(0)))
  {
  }

  class Server {
    var splitLen: nat
    var fileSize: nat
    var slicesNum: nat
    var readsMax: nat
    var slices: map<nat, Info>
    var output: array?<Byte>

    constructor ()
      ensures View() == Shared(0, 0, 0, 0, false, map[]) && output == null
    {
      splitLen, fileSize, slicesNum, readsMax, slices, output := 0, 0, 0, 0, map[], null;
    }

    function View(): Shared
      reads this
    {
      Shared(splitLen, fileSize, slicesNum, readsMax, output != null, slices)
    }

    ghost predicate Valid()
      reads this
    {
      && (!ExpectsText(View()) ==> readsMax > 0 && output != null)
      && forall i :: i in slices ==> slices[i].len < TWO32 && slices[i].cLen < TWO32
    }

    /** The read loop of one wake-up: it ends when the quota is filled, the socket would block, or the
        stream ends. */
    method ReadBurst(conn: InSocket, quota: nat) returns (ok: bool, burst: seq<Byte>)
      requires quota > 0 && conn.pos <= |conn.data|
      modifies conn
      ensures old(conn.pos) <= conn.pos <= |conn.data| && burst == conn.data[old(conn.pos)..conn.pos]
      ensures |burst| <= quota
      ensures ok ==> |conn.script| < old(|conn.script|)
      ensures ok <==> !conn.last.Broken?
      ensures ok ==> |burst| == quota || conn.last == WouldBlock || conn.last == Moved(0)
    {
      ghost var from := conn.pos;
      burst := [];
      var again := true;
      while again
        invariant from <= conn.pos <= |conn.data| && burst == conn.data[from..conn.pos] && |burst| <= quota
        invariant again ==> |burst| < quota && |conn.script| <= old(|conn.script|)
        invariant !again ==> |conn.script| < old(|conn.script|) && !conn.last.Broken?
        invariant !again ==> |burst| == quota || conn.last == Moved(0)
        decreases again, |conn.script|
      {
        ghost var mid := conn.pos;
        var r, bytes := conn.Read(quota - |burst|);
        Adjacent(conn.data, from, mid, conn.pos);
        if r.Broken? {
          return false, burst + bytes;
        }
        if r == WouldBlock {
          break;
        }
        burst := burst + bytes;
        again := quota - |burst| > 0 && r != Moved(0);
      }
      ok := true;
    }

    /** One turn of the receive loop, up to the completion of the slice. */
    method Turn(l: Local, conn: InSocket) returns (ok: bool, l': Local, burst: seq<Byte>)
      requires Valid() && Active(View(), l) && Consistent(View(), l) && conn.pos <= |conn.data|
      modifies this, conn
      ensures Valid()
      ensures old(conn.pos) <= conn.pos <= |conn.data| && burst == conn.data[old(conn.pos)..conn.pos]
      ensures |burst| <= old(Quota(View(), l))
      ensures ok ==>
                || conn.last == WouldBlock || conn.last == Moved(0)
                || |burst| == old(if l.Receiving? && |slices[l.index].got| < slices[l.index].cLen
                                  then Min(slices[l.index].cLen - |slices[l.index].got|, readsMax)
                                  else if l.Fresh? && splitLen == 0 && output == null then 17
                                  else readsMax)
      ensures ok && l.Receiving? && old(|slices[l.index].got| < slices[l.index].cLen) ==> l' != Left(Undefined)
      ensures ok ==> (View(), l') == Wake(old(View()), l, burst) && |conn.script| < old(|conn.script|)
      ensures !ok ==> View() == old(View()).(readsMax := readsMax)
      ensures ok <==> !conn.last.Broken?
      ensures old(output) != null ==> output == old(output)
      ensures old(output) == null && output != null ==>
                fresh(output) && output.Length == fileSize && forall i :: 0 <= i < fileSize ==> output[i] == 0
    {
      l' := l;
      var expectsText := l.Fresh? && ExpectsText(View());
      var quota := Quota(View(), l);
      if expectsText {
        readsMax := TEXT_MAX;
      }
      ok, burst := ReadBurst(conn, quota);
      if !ok {
        return;
      }
      if l.Receiving? {
        var (sh, next) := Append(View(), l.index, burst);
        slices, l' := sh.slices, next;
      } else if expectsText {
        match Parse(burst)
        case Malformed => l' := Left(Code(-1));
        case Thrown => l' := Left(Exception);
        case Parsed(size, num) =>
          l' := Announced(size, num);
      } else if |burst| < HEADER_LEN {
        l' := Left(Undefined);
      } else {
        var h := ParseHeader(burst);
        slices := slices[h.index := Info(h.len, h.cLen, h.index * splitLen, [])];
        l' := Receiving(h.index);
        if |burst| != HEADER_LEN {
          var (sh, next) := Append(View(), h.index, burst[HEADER_LEN..]);
          slices, l' := sh.slices, next;
        }
      }
    }

    /** Stores the announced size and count and maps the output file, which is all zero bytes. */
    method Announced(size: nat, num: nat) returns (l: Local)
      requires output == null && readsMax == TEXT_MAX
      modifies this
      ensures (View(), l) == Announce(old(View()), size, num)
      ensures output != null ==>
                fresh(output) && output.Length == fileSize && forall i :: 0 <= i < fileSize ==> output[i] == 0
    {
      fileSize, slicesNum := size, num;
      if num == 0 {
        return Left(Undefined);
      }
      splitLen := size / num;
      readsMax := if splitLen >= BIG_READ then BIG_READ else SMALL_READ;
      output := new Byte[size](_ => 0);
      l := Left(Code(0));
    }

    /**
     * The whole handler.  Its turns are `Wakes` on the bytes it has read; it stops reading only when the
     * slice is complete, when the text header has been dealt with, or when a read fails.  A completed
     * slice is decoded into its place in the output file.
     */
    method Recv<D(!new)>(f: Format, d: Decoder<D>, conn: InSocket, streamOut: nat, context: bool)
      returns (outcome: Outcome, ghost last: Local, ghost bursts: seq<seq<Byte>>, ghost written: seq<Byte>)
      requires FormatContract(f) && DecoderContract(f, d)
      requires Valid() && conn.pos == 0 && !conn.last.Broken?
      modifies this, conn, if output == null then {} else {output}
      ensures conn.pos <= |conn.data| && conn.data[..conn.pos] == Flatten(bursts)
      ensures Turns(old(View()), bursts, conn.last.Broken?, View(), last)
      ensures conn.last.Broken? ==> outcome == Code(-1)
      ensures last.Left? ==> outcome == last.outcome
      ensures last.Left? || last.Complete? || conn.last.Broken?
      ensures old(output) == null && output != null ==>
                output.Length == fileSize && forall b :: b in output[..] ==> b == 0
      ensures !last.Complete? && old(output) != null ==> output == old(output) && output[..] == old(output[..])
      ensures last.Complete? ==>
                && old(output) != null && output == old(output)
                && last.index in slices && slices[last.index].len < TWO32
                && SliceOutcome(f, d, slices[last.index], streamOut, context, old(output[..]), output[..], outcome,
                                written)
      ensures old(ExpectsText(View())) && !conn.last.Broken? ==>
                && |bursts| == 1
                && (outcome == Code(-1) <==> bursts[0] == [] || bursts[0][0] != 83 || 35 !in bursts[0])
                && (outcome == Code(0) <==> Parse(bursts[0]).Parsed? && Parse(bursts[0]).num > 0)
                && (outcome == Exception <==> Parse(bursts[0]).Thrown?)
    {
      var ok, l;
      written := [];
      ok, l, bursts := ReadAll(conn);
      last := l;
      if !ok {
        return Code(-1), last, bursts, written;
      }
      if old(ExpectsText(View())) {
        TextTurns(old(View()), bursts, View(), l);
        TextVerdict(old(View()), bursts[0]);
      }
      if l.Left? {
        return l.outcome, last, bursts, written;
      }
      outcome, written := Finish(f, d, slices[l.index], streamOut, context);
    }

    /** The receive loop: turn after turn until the slice is complete, the text header has been dealt with, or a read
        fails. */
    method ReadAll(conn: InSocket) returns (ok: bool, l: Local, ghost bursts: seq<seq<Byte>>)
      requires Valid() && conn.pos == 0 && !conn.last.Broken?
      modifies this, conn
      ensures Valid() && (ok <==> !conn.last.Broken?)
      ensures conn.pos <= |conn.data| && conn.data[..conn.pos] == Flatten(bursts)
      ensures Turns(old(View()), bursts, !ok, View(), l)
      ensures ok ==> l.Left? || (l.Complete? && l.index in slices)
      ensures old(output) != null ==> output == old(output) && output[..] == old(output[..])
      ensures output != old(output) ==> output.Length == fileSize && l.Left? && forall b :: b in output[..] ==> b == 0
    {
      ghost var was := View();
      bursts, l := [], Fresh;
      assert conn.data[..0] == [];
      while Active(View(), l)
        invariant Valid() && conn.pos <= |conn.data| && conn.data[..conn.pos] == Flatten(bursts)
        invariant Asked((was, Fresh), bursts) && Wakes((was, Fresh), bursts) == (View(), l) && Consistent(View(), l)
        invariant old(output) != null ==> output == old(output) && output[..] == old(output[..])
        invariant old(output) == null && output != null ==>
                    fresh(output) && output.Length == fileSize && l.Left? && forall b :: b in output[..] ==> b == 0
        invariant !conn.last.Broken?
        decreases |conn.script|
      {
        ghost var sh, pos, before := View(), conn.pos, bursts;
        var l', burst;
        ok, l', burst := Turn(l, conn);
        WakeConsistent(sh, l, burst);
        Adjacent(conn.data, 0, pos, conn.pos);
        FlattenSnoc(bursts, burst);
        OneMoreTurn(was, bursts, sh, l, burst, View());
        MapsOnce(sh, l, burst);
        bursts := bursts + [burst];
        if !ok {
          return;
        }
        l := l';
      }
      ok := true;
    }

    /** Decodes a completed slice into its place and compares lengths. */
    method Finish<D(!new)>(f: Format, d: Decoder<D>, info: Info, streamOut: nat, context: bool)
      returns (outcome: Outcome, ghost written: seq<Byte>)
      requires FormatContract(f) && DecoderContract(f, d) && output != null
      modifies output
      ensures SliceOutcome(f, d, info, streamOut, context, old(output[..]), output[..], outcome, written)
    {
      var fault, r;
      ghost var run, ending;
      fault, r, written, run, ending :=
        Decompress(f, d, info.got, output, info.base, info.len, streamOut, context);
      if info.len < TWO32 {
        AcceptedIff(|written|, info.len);
        AcceptedIff(info.len, info.len);
      }
      outcome := if fault then Undefined else DecompressOutcome(r, info.len);
      assert context ==> DecodesBy(d, info, streamOut, output.Length, run, ending, outcome, written);
    }
  }
}
