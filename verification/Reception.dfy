/** The receiver's connection handler: one wake-up at a time, then the whole handler. */
module Reception {
  import opened Bytes
  import opened Codec
  import opened Framing
  import opened TextHeader

  const BIG_READ: nat := 6 * 1024 * 1024
  const SMALL_READ: nat := 128 * 1024

  /** A slice under reassembly; `got` is the filled part of its buffer of `cLen` bytes. */
  datatype Info = Info(len: nat, cLen: nat, base: nat, got: seq<Byte>)

  /** What the connection handlers share; `mapped` tells whether the output file exists. */
  datatype Shared = Shared(splitLen: nat, fileSize: nat, slicesNum: nat, readsMax: nat, mapped: bool,
                           slices: map<nat, Info>)

  /** How a handler ends.  `Undefined` stands for a memory or arithmetic fault. */
  datatype Outcome = Code(code: int) | Exception | Undefined

  /** Where a handler stands between two wake-ups. */
  datatype Local = Fresh | Receiving(index: nat) | Complete(index: nat) | Left(outcome: Outcome)

  predicate ExpectsText(sh: Shared) {
    sh.splitLen == 0 && !sh.mapped
  }

  predicate Active(sh: Shared, l: Local) {
    l.Fresh? || (l.Receiving? && l.index in sh.slices)
  }

  /** The number of bytes a wake-up asks for. */
  function Quota(sh: Shared, l: Local): nat
    requires Active(sh, l)
  {
    if l.Fresh? then if ExpectsText(sh) then TEXT_MAX else sh.readsMax
    else
      var info := sh.slices[l.index];
      if |info.got| < info.cLen && info.cLen - |info.got| < sh.readsMax then info.cLen - |info.got|
      else sh.readsMax
  }

  /** The stride and the read size follow from the size and the count; the file is mapped. */
  function Announce(sh: Shared, size: nat, num: nat): (Shared, Local) {
    if num == 0 then (sh.(readsMax := TEXT_MAX, fileSize := size, slicesNum := num), Left(Undefined))
    else
      var splitLen := size / num;
      (Shared(splitLen, size, num, if splitLen >= BIG_READ then BIG_READ else SMALL_READ, true, sh.slices),
       Left(Code(0)))
  }

  function WakeText(sh: Shared, burst: seq<Byte>): (Shared, Local) {
    match Parse(burst)
    case Malformed => (sh.(readsMax := TEXT_MAX), Left(Code(-1)))
    case Thrown => (sh.(readsMax := TEXT_MAX), Left(Exception))
    case Parsed(size, num) => Announce(sh, size, num)
  }

  /** Bytes for a slice: past the buffer the copy is a fault, at its end the slice is complete. */
  function Append(sh: Shared, index: nat, bytes: seq<Byte>): (Shared, Local)
    requires index in sh.slices
  {
    var info := sh.slices[index];
    var got := info.got + bytes;
    if |got| > info.cLen then (sh, Left(Undefined))
    else
      (sh.(slices := sh.slices[index := info.(got := got)]),
       if |got| == info.cLen then Complete(index) else Receiving(index))
  }

  /** The first burst of a slice connection starts with the slice header. */
  function WakeFirst(sh: Shared, burst: seq<Byte>): (Shared, Local) {
    if |burst| < HEADER_LEN then (sh, Left(Undefined))
    else
      var h := ParseHeader(burst);
      var sh' := sh.(slices := sh.slices[h.index := Info(h.len, h.cLen, h.index * sh.splitLen, [])]);
      if |burst| == HEADER_LEN then (sh', Receiving(h.index))
      else Append(sh', h.index, burst[HEADER_LEN..])
  }

  /** One turn of the receive loop with the bytes its reads have delivered. */
  function Wake(sh: Shared, l: Local, burst: seq<Byte>): (Shared, Local)
    requires Active(sh, l)
  {
    if l.Receiving? then Append(sh, l.index, burst)
    else if ExpectsText(sh) then WakeText(sh, burst)
    else WakeFirst(sh, burst)
  }

  /** A handler that has read a slice header runs after the announcement and owns a table entry. */
  ghost predicate Consistent(sh: Shared, l: Local) {
    l.Receiving? || l.Complete? ==> !ExpectsText(sh) && l.index in sh.slices
  }

  lemma WakeConsistent(sh: Shared, l: Local, burst: seq<Byte>)
    requires Active(sh, l) && Consistent(sh, l)
    ensures var (sh', l') := Wake(sh, l, burst); Consistent(sh', l')
  {
  }

  /** The turns of one handler; nothing happens after it has stopped reading. */
  function Wakes(r: (Shared, Local), bursts: seq<seq<Byte>>): (Shared, Local)
    decreases |bursts|
  {
    if bursts == [] || !Active(r.0, r.1) then r else Wakes(Wake(r.0, r.1, bursts[0]), bursts[1..])
  }

  lemma {:induction false} WakesSnoc(r: (Shared, Local), bursts: seq<seq<Byte>>, b: seq<Byte>)
    requires var (sh, l) := Wakes(r, bursts); Active(sh, l)
    ensures var (sh, l) := Wakes(r, bursts); Wakes(r, bursts + [b]) == Wake(sh, l, b)
    decreases |bursts|
  {
    if bursts == [] {
      assert (bursts + [b])[0] == b;
    } else {
      assert (bursts + [b])[1..] == bursts[1..] + [b];
      WakesSnoc(Wake(r.0, r.1, bursts[0]), bursts[1..], b);
    }
  }

  /** The reads of each turn deliver no more than the turn has asked for. */
  ghost predicate Asked(r: (Shared, Local), bursts: seq<seq<Byte>>)
    decreases |bursts|
  {
    bursts == [] ||
    (Active(r.0, r.1) && |bursts[0]| <= Quota(r.0, r.1) && Asked(Wake(r.0, r.1, bursts[0]), bursts[1..]))
  }

  lemma {:induction false} AskedSnoc(r: (Shared, Local), bursts: seq<seq<Byte>>, b: seq<Byte>)
    requires Asked(r, bursts)
    requires var (sh, l) := Wakes(r, bursts); Active(sh, l) && |b| <= Quota(sh, l)
    ensures Asked(r, bursts + [b])
    decreases |bursts|
  {
    if bursts == [] {
      assert (bursts + [b])[0] == b && (bursts + [b])[1..] == [];
    } else {
      assert (bursts + [b])[1..] == bursts[1..] + [b];
      AskedSnoc(Wake(r.0, r.1, bursts[0]), bursts[1..], b);
    }
  }

  // ---- verdicts ----

  /** The first burst of the first connection decides: -1 without a leading 'S' or without a '#', an exception when a
      number cannot be read, a division by zero for a count of zero, and 0 with everything set up otherwise. */
  lemma TextVerdict(sh: Shared, burst: seq<Byte>)
    requires ExpectsText(sh)
    ensures var (t, l) := Wake(sh, Fresh, burst);
            && (l == Left(Code(-1)) <==> burst == [] || burst[0] != 83 || 35 !in burst)
            && (l == Left(Code(0)) <==> Parse(burst).Parsed? && Parse(burst).num > 0)
            && (l == Left(Undefined) <==> Parse(burst).Parsed? && Parse(burst).num == 0)
            && (l == Left(Exception) <==> Parse(burst).Thrown?)
    ensures var (t, l) := Wake(sh, Fresh, burst);
            if l != Left(Code(0)) then ExpectsText(t) && t.slices == sh.slices && t.readsMax == 17
            else
              var size, num := Parse(burst).size, Parse(burst).num;
              t == Shared(size / num, size, num, if size / num >= 6291456 then 6291456 else 131072, true, sh.slices)
  {
    if burst != [] && FindHash(burst) < |burst| {
      assert burst[FindHash(burst)] == 35;
    }
  }

  /** Further bytes of a slice: past the announced length they are a fault, at it the slice is complete. */
  lemma AppendVerdict(sh: Shared, i: nat, bytes: seq<Byte>)
    requires i in sh.slices
    ensures var (t, l) := Wake(sh, Receiving(i), bytes);
            var info := sh.slices[i];
            && (l == Left(Undefined) <==> |info.got| + |bytes| > info.cLen)
            && (l == Complete(i) <==> |info.got| + |bytes| == info.cLen)
            && (l == Receiving(i) <==> |info.got| + |bytes| < info.cLen)
            && t == if l == Left(Undefined) then sh
                    else sh.(slices := sh.slices[i := info.(got := info.got + bytes)])
  {
  }

  /** The first burst of a slice connection, whatever it holds. */
  lemma FirstVerdict(sh: Shared, burst: seq<Byte>)
    requires !ExpectsText(sh)
    ensures |burst| < 10 ==> Wake(sh, Fresh, burst) == (sh, Left(Undefined))
    ensures |burst| >= 10 ==>
              var (t, l) := Wake(sh, Fresh, burst);
              var h := ParseHeader(burst);
              && (l == Left(Undefined) <==> |burst| > 10 + h.cLen)
              && (l == Complete(h.index) <==> |burst| == 10 + h.cLen && h.cLen > 0)
              && (l == Receiving(h.index) <==> |burst| < 10 + h.cLen || |burst| == 10)
              && h.index in t.slices
              && t == sh.(slices := sh.slices[h.index := t.slices[h.index]])
              && t.slices[h.index].(got := []) == Info(h.len, h.cLen, h.index * sh.splitLen, [])
              && (!l.Left? ==> t.slices[h.index].got == burst[10..])
  {
  }

  // ---- reassembly ----

  /** The table entry of slice `i` after `k` payload bytes. */
  function Entry(sh: Shared, i: nat, len: nat, z: seq<Byte>, k: nat): Info
    requires k <= |z|
  {
    Info(len, |z|, i * sh.splitLen, z[..k])
  }

  /** A connection that carries slice `i` has delivered its first `pos` bytes to its handler. */
  ghost predicate Reassembled(sh: Shared, l: Local, i: nat, len: nat, z: seq<Byte>, pos: nat) {
    if pos == 0 then l == Fresh
    else
      && HEADER_LEN <= pos <= HEADER_LEN + |z|
      && i in sh.slices
      && sh.slices[i] == Entry(sh, i, len, z, pos - HEADER_LEN)
      && l == if pos - HEADER_LEN == |z| then Complete(i) else Receiving(i)
  }

  /** From `sh`, the handler has come to `pos` and has touched only the entry of its own slice. */
  ghost predicate Advanced(sh: Shared, r: (Shared, Local), i: nat, len: nat, z: seq<Byte>, pos: nat) {
    && Reassembled(r.0, r.1, i, len, z, pos)
    && r.0 == if pos == 0 then sh
              else sh.(slices := sh.slices[i := Entry(sh, i, len, z, pos - HEADER_LEN)])
  }

  lemma AdvancedTrans(sh: Shared, m: (Shared, Local), r: (Shared, Local), i: nat, len: nat, z: seq<Byte>,
                      pos: nat, pos': nat)
    requires Advanced(sh, m, i, len, z, pos) && Advanced(m.0, r, i, len, z, pos') && pos <= pos'
    ensures Advanced(sh, r, i, len, z, pos')
  {
  }

  lemma AdvancedRefl(sh: Shared, l: Local, i: nat, len: nat, z: seq<Byte>, pos: nat)
    requires Reassembled(sh, l, i, len, z, pos)
    ensures Advanced(sh, (sh, l), i, len, z, pos)
  {
    if pos > 0 {
      assert sh.slices[i := Entry(sh, i, len, z, pos - HEADER_LEN)] == sh.slices;
    }
  }

  lemma AppendReassembles(sh: Shared, i: nat, len: nat, z: seq<Byte>, k: nat, n: nat)
    requires k + n <= |z| && i in sh.slices && sh.slices[i] == Entry(sh, i, len, z, k)
    ensures Advanced(sh, Append(sh, i, z[k..k + n]), i, len, z, HEADER_LEN + k + n)
  {
    Adjacent(z, k, k, k + n);
  }

  lemma FirstReassembles(sh: Shared, i: nat, len: nat, z: seq<Byte>, burst: seq<Byte>)
    requires HEADER_LEN <= |burst| <= HEADER_LEN + |z| && z != []
    requires ParseHeader(burst) == SliceHeader(i, len, |z|)
    requires burst[HEADER_LEN..] == z[..|burst| - HEADER_LEN]
    ensures Advanced(sh, WakeFirst(sh, burst), i, len, z, |burst|)
  {
    var n := |burst| - HEADER_LEN;
    assert z[..0] == [];
    var sh' := sh.(slices := sh.slices[i := Entry(sh, i, len, z, 0)]);
    if n > 0 {
      assert burst[HEADER_LEN..] == z[0..n];
      AppendReassembles(sh', i, len, z, 0, n);
    }
  }

  lemma HeaderOfPrefix(wire: seq<Byte>, n: nat)
    requires HEADER_LEN <= n <= |wire|
    ensures ParseHeader(wire[..n]) == ParseHeader(wire)
  {
    var b := wire[..n];
    assert b[..2] == wire[..2] && b[2..6] == wire[2..6] && b[6..10] == wire[6..10];
  }

  /** One wake-up with any number of further bytes keeps the reassembly invariant and touches only
      the entry of its own slice.  It is a fault exactly when it brings a first burst shorter than
      the header. */
  lemma WakeReassembles(sh: Shared, l: Local, i: nat, len: nat, wire: seq<Byte>, pos: nat, n: nat)
    requires WellFramed(wire, i, len) && !ExpectsText(sh)
    requires Active(sh, l) && Reassembled(sh, l, i, len, wire[HEADER_LEN..], pos)
    requires pos + n <= |wire|
    ensures var r := Wake(sh, l, wire[pos..pos + n]);
            if pos == 0 && n < HEADER_LEN then r == (sh, Left(Undefined))
            else Advanced(sh, r, i, len, wire[HEADER_LEN..], pos + n)
  {
    var burst, z := wire[pos..pos + n], wire[HEADER_LEN..];
    if pos > 0 {
      WindowOfTail(wire, HEADER_LEN, pos, pos + n);
      AppendReassembles(sh, i, len, z, pos - HEADER_LEN, n);
    } else if n >= HEADER_LEN {
      TailOfPrefix(wire, HEADER_LEN, n);
      HeaderOfPrefix(wire, n);
      FirstReassembles(sh, i, len, z, burst);
    }
  }

  /** The bursts are the stretch of the wire from `pos` to `end`, with the header in one piece. */
  ghost predicate Fragments(wire: seq<Byte>, pos: nat, bursts: seq<seq<Byte>>, end: nat) {
    && pos <= end <= |wire|
    && Flatten(bursts) == wire[pos..end]
    && (pos == 0 && bursts != [] ==> |bursts[0]| >= HEADER_LEN)
  }

  lemma FragmentsRest(wire: seq<Byte>, pos: nat, bursts: seq<seq<Byte>>, end: nat)
    requires Fragments(wire, pos, bursts, end) && bursts != []
    ensures pos + |bursts[0]| <= end
    ensures bursts[0] == wire[pos..pos + |bursts[0]|]
    ensures Fragments(wire, pos + |bursts[0]|, bursts[1..], end)
  {
    var n := |bursts[0]|;
    assert bursts[0] == Flatten(bursts)[..n];
    assert Flatten(bursts[1..]) == Flatten(bursts)[n..];
  }

  /**
   * Whatever the fragmentation, a handler that has been handed the first bytes of a slice connection
   * (ten or more in its first wake-up) holds exactly that much of the payload, and it is complete
   * exactly when it holds all of it.
   */
  lemma {:induction false} FragmentationImmaterial(r: (Shared, Local), i: nat, len: nat, wire: seq<Byte>, pos: nat,
                                                   bursts: seq<seq<Byte>>, end: nat)
    requires WellFramed(wire, i, len) && !ExpectsText(r.0)
    requires Reassembled(r.0, r.1, i, len, wire[HEADER_LEN..], pos)
    requires Fragments(wire, pos, bursts, end)
    ensures Advanced(r.0, Wakes(r, bursts), i, len, wire[HEADER_LEN..], end)
    decreases |bursts|, 0
  {
    var z := wire[HEADER_LEN..];
    AdvancedRefl(r.0, r.1, i, len, z, pos);
    if bursts != [] {
      FragmentsRest(wire, pos, bursts, end);
      if Active(r.0, r.1) {
        var n := |bursts[0]|;
        WakeReassembles(r.0, r.1, i, len, wire, pos, n);
        RestOfFragments(r, Wake(r.0, r.1, bursts[0]), i, len, wire, pos, bursts, end);
      }
    }
  }

  lemma {:induction false} RestOfFragments(r: (Shared, Local), m: (Shared, Local), i: nat, len: nat,
                                           wire: seq<Byte>, pos: nat, bursts: seq<seq<Byte>>, end: nat)
    requires WellFramed(wire, i, len) && !ExpectsText(r.0) && bursts != []
    requires Advanced(r.0, m, i, len, wire[HEADER_LEN..], pos + |bursts[0]|)
    requires Fragments(wire, pos + |bursts[0]|, bursts[1..], end)
    ensures Advanced(r.0, Wakes(m, bursts[1..]), i, len, wire[HEADER_LEN..], end)
    decreases |bursts| - 1, 1
  {
    FragmentationImmaterial(m, i, len, wire, pos + |bursts[0]|, bursts[1..], end);
    AdvancedTrans(r.0, m, Wakes(m, bursts[1..]), i, len, wire[HEADER_LEN..], pos + |bursts[0]|, end);
  }

  /** A handler that has read the whole of a slice connection holds its payload, ready to be decoded into
      its place. */
  lemma WholeConnection(sh: Shared, f: Format, wire: seq<Byte>, i: nat, data: seq<Byte>, bursts: seq<seq<Byte>>)
    requires FormatContract(f) && CarriesSlice(f, wire, i, data) && !ExpectsText(sh)
    requires i < TWO16 && |data| < TWO32 && |wire| < TWO32 + HEADER_LEN
    requires Fragments(wire, 0, bursts, |wire|)
    ensures var (sh', l) := Wakes((sh, Fresh), bursts);
            && l == Complete(i) && i in sh'.slices
            && var info := sh'.slices[i];
               info.base == i * sh.splitLen && info.len == |data| && f.isFrame(info.got) && f.plain(info.got) == data
  {
    var z := wire[HEADER_LEN..];
    WireWellFramedIff(i, |data|, z);
    FragmentationImmaterial((sh, Fresh), i, |data|, wire, 0, bursts, |wire|);
    assert z[..|z|] == z;
  }
}
