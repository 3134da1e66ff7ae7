/**
 * The streaming compression library as the program sees it: a format, an encoder and a decoder that
 * are called repeatedly with an input window and an output room.  The library itself is not modelled;
 * an encoder or decoder is any pair of functions that meets the contract below.  The histories `fed`
 * and `out` are the bytes a context has consumed and produced since it was created; an encoder context is `open`
 * until it has ended its first frame.
 */
module Codec {
  import opened Bytes

  datatype Mode = Continue | End

  datatype EncodeResult<+C> =
    | EncodeError
    | Encoded(state: C, consumed: nat, output: seq<Byte>, remaining: nat)

  datatype DecodeResult<+D> =
    | DecodeError
    | Decoded(state: D, consumed: nat, output: seq<Byte>)

  /** `isFrame` tells complete streams; `plain(p)` is what can be decoded from the bytes `p`. */
  datatype Format = Format(isFrame: seq<Byte> -> bool, plain: seq<Byte> -> seq<Byte>)

  datatype Encoder<!C> = Encoder(
    init: C,
    call: (C, seq<Byte>, nat, Mode) -> EncodeResult<C>,
    fed: C -> seq<Byte>,
    out: C -> seq<Byte>,
    open: C -> bool,
    work: (C, seq<Byte>, nat, Mode) -> nat)

  datatype Decoder<!D> = Decoder(
    init: D,
    call: (D, seq<Byte>, nat) -> DecodeResult<D>,
    fed: D -> seq<Byte>,
    out: D -> seq<Byte>,
    patience: D -> nat)

  ghost predicate FormatContract(f: Format) {
    && f.plain([]) == []
    && (forall z :: f.isFrame(z) ==> z != [])
    && (forall p: seq<Byte>, z :: f.isFrame(z) && p <= z ==> f.plain(p) <= f.plain(z))
  }

  /** The loop condition of the caller: no further call is made for this window. */
  predicate Finished<C>(r: EncodeResult<C>, input: seq<Byte>, mode: Mode)
    requires r.Encoded?
  {
    if mode == End then r.remaining == 0 else r.consumed == |input|
  }

  /** A generous bound on what compression can add. */
  function OutBound(n: nat): nat {
    2 * n + 1024
  }

  /** One encoder call: a prefix of the input goes in, at most `room` bytes come out, the first frame is not much
      longer than what it holds, and calls that do not finish the window come closer to finishing it. */
  ghost predicate EncodeCallOk<C>(f: Format, e: Encoder<C>, c: C, input: seq<Byte>, room: nat, mode: Mode) {
    var r := e.call(c, input, room, mode);
    r.Encoded? ==>
      && r.consumed <= |input|
      && |r.output| <= room
      && e.fed(r.state) == e.fed(c) + input[..r.consumed]
      && e.out(r.state) == e.out(c) + r.output
      && (mode == End && r.remaining == 0 ==>
            && r.consumed == |input|
            && f.isFrame(e.out(r.state))
            && f.plain(e.out(r.state)) == e.fed(r.state))
      && (e.open(c) ==>
            if mode == End && r.remaining == 0 then |e.out(r.state)| <= OutBound(|e.fed(r.state)|)
            else e.open(r.state))
      && (room > 0 && !Finished(r, input, mode) ==>
            e.work(r.state, input[r.consumed..], room, mode) < e.work(c, input, room, mode))
  }

  ghost predicate EncoderContract<C(!new)>(f: Format, e: Encoder<C>) {
    && e.fed(e.init) == [] && e.out(e.init) == [] && e.open(e.init)
    && forall c, input, room: nat, mode :: EncodeCallOk(f, e, c, input, room, mode)
  }

  /** Decoding in step with a complete stream: what came out is decodable from what went in. */
  ghost predicate InStep<D>(f: Format, d: Decoder<D>, st: D, rest: seq<Byte>) {
    f.isFrame(d.fed(st) + rest) && d.out(st) <= f.plain(d.fed(st))
  }

  /** One decoder call.  On a complete stream with room for all of it the call succeeds, and whatever
      can be decoded is flushed unless the room is full.  A call that neither reads nor writes uses up
      the decoder's patience. */
  ghost predicate DecodeCallOk<D>(f: Format, d: Decoder<D>, st: D, input: seq<Byte>, room: nat) {
    var r := d.call(st, input, room);
    && (r.Decoded? ==>
          && r.consumed <= |input|
          && |r.output| <= room
          && d.fed(r.state) == d.fed(st) + input[..r.consumed]
          && d.out(r.state) == d.out(st) + r.output
          && (r.consumed == 0 && r.output == [] && input != [] ==> d.patience(r.state) < d.patience(st)))
    && (InStep(f, d, st, input) && |f.plain(d.fed(st) + input)| <= |d.out(st)| + room ==>
          && r.Decoded?
          && d.out(r.state) <= f.plain(d.fed(r.state))
          && (|r.output| < room ==> d.out(r.state) == f.plain(d.fed(r.state))))
  }

  ghost predicate DecoderContract<D(!new)>(f: Format, d: Decoder<D>) {
    && d.fed(d.init) == [] && d.out(d.init) == []
    && forall st, input, room: nat :: DecodeCallOk(f, d, st, input, room)
  }
}

/** A codec that stores its input behind one mark byte: the contracts above can be met, by an encoder
    that holds back output when the room is small. */
module StoredCodec {
  import opened Bytes
  import opened Codec

  const MARK: Byte := 0

  function IsStored(z: seq<Byte>): bool {
    |z| > 0 && z[0] == MARK
  }

  function Unmark(p: seq<Byte>): seq<Byte> {
    if p == [] then [] else p[1..]
  }

  const Stored: Format := Format(IsStored, Unmark)

  /** The bytes taken in and how many of the marked bytes were given out. */
  datatype Context = Context(taken: seq<Byte>, given: nat)

  function Taken(c: Context): seq<Byte> { c.taken }

  function Marked(c: Context): seq<Byte> { [MARK] + c.taken }

  function GivenMarked(c: Context): seq<Byte> {
    Marked(c)[..Min(c.given, |Marked(c)|)]
  }

  function Store(c: Context, input: seq<Byte>, room: nat, mode: Mode): EncodeResult<Context> {
    var all := [MARK] + c.taken + input;
    var from := Min(c.given, |c.taken| + 1);
    var to := Min(from + room, |all|);
    Encoded(Context(c.taken + input, to), |input|, all[from..to], |all| - to)
  }

  function Unended(c: Context): bool { true }

  function StoreWork(c: Context, input: seq<Byte>, room: nat, mode: Mode): nat {
    |c.taken| + 1 + |input| - Min(c.given, |c.taken| + 1)
  }

  const Storer: Encoder<Context> := Encoder(Context([], 0), Store, Taken, GivenMarked, Unended, StoreWork)

  function GivenPlain(c: Context): seq<Byte> {
    Unmark(c.taken)[..Min(c.given, |Unmark(c.taken)|)]
  }

  function Fetch(c: Context, input: seq<Byte>, room: nat): DecodeResult<Context> {
    var all := Unmark(c.taken + input);
    var from := Min(c.given, |Unmark(c.taken)|);
    var to := Min(from + room, |all|);
    Decoded(Context(c.taken + input, to), |input|, all[from..to])
  }

  function NoPatience(c: Context): nat { 0 }

  const Fetcher: Decoder<Context> := Decoder(Context([], 0), Fetch, Taken, GivenPlain, NoPatience)

  /** Giving out from where the shorter string was left off. */
  lemma GiveMore(shorter: seq<Byte>, all: seq<Byte>, from: nat, to: nat)
    requires shorter <= all && from <= |shorter| && from <= to <= |all|
    ensures shorter[..from] + all[from..to] == all[..to]
  {
    assert shorter[..from] == all[..from];
  }

  lemma StoreCallOk(c: Context, input: seq<Byte>, room: nat, mode: Mode)
    ensures EncodeCallOk(Stored, Storer, c, input, room, mode)
  {
    var r := Store(c, input, room, mode);
    var all := [MARK] + c.taken + input;
    assert Marked(r.state) == all;
    GiveMore(Marked(c), all, Min(c.given, |Marked(c)|), r.state.given);
    assert input[..|input|] == input;
    if r.remaining == 0 {
      assert all[..|all|] == all;
      assert all[1..] == c.taken + input;
    }
  }

  lemma UnmarkGrows(p: seq<Byte>, q: seq<Byte>)
    ensures Unmark(p) <= Unmark(p + q)
  {
    if p != [] {
      assert (p + q)[1..] == p[1..] + q;
    }
  }

  lemma FetchCallOk(c: Context, input: seq<Byte>, room: nat)
    ensures DecodeCallOk(Stored, Fetcher, c, input, room)
  {
    var r := Fetch(c, input, room);
    var plain, all := Unmark(c.taken), Unmark(c.taken + input);
    UnmarkGrows(c.taken, input);
    GiveMore(plain, all, Min(c.given, |plain|), r.state.given);
    assert input[..|input|] == input;
    assert GivenPlain(r.state) == all[..r.state.given];
    if |r.output| < room {
      assert all[..|all|] == all;
    }
  }

  /** The codec contracts are satisfiable. */
  lemma ContractsSatisfiable()
    ensures FormatContract(Stored) && EncoderContract(Stored, Storer) && DecoderContract(Stored, Fetcher)
  {
    forall c, input, room: nat, mode ensures EncodeCallOk(Stored, Storer, c, input, room, mode) {
      StoreCallOk(c, input, room, mode);
    }
    forall c, input, room: nat ensures DecodeCallOk(Stored, Fetcher, c, input, room) {
      FetchCallOk(c, input, room);
    }
  }
}
