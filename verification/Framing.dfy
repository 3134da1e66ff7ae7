/** The 10-byte slice header: index, plain length and compressed length in network byte order. */
module Framing {
  import opened Bytes
  import opened Codec

  const HEADER_LEN: nat := 10

  datatype SliceHeader = SliceHeader(index: nat, len: nat, cLen: nat)

  /** The header bytes; each field is cut to its width, as the casts do. */
  function Header(index: nat, len: nat, cLen: nat): (b: seq<Byte>)
    ensures |b| == HEADER_LEN
  {
    U16(index % TWO16) + U32(len % TWO32) + U32(cLen % TWO32)
  }

  /** The receiver's reading of the first ten bytes of a burst. */
  function ParseHeader(b: seq<Byte>): (h: SliceHeader)
    requires |b| >= HEADER_LEN
  {
    SliceHeader(ReadU16(b[..2]), ReadU32(b[2..6]), ReadU32(b[6..10]))
  }

  /** The layout of the header in numbers: two bytes, four bytes, four bytes. */
  lemma HeaderLayout(index: nat, len: nat, cLen: nat)
    requires index < 0x1_0000 && len < 0x1_0000_0000 && cLen < 0x1_0000_0000
    ensures Header(index, len, cLen)[..2] == [(index / 256) as Byte, (index % 256) as Byte]
    ensures Header(index, len, cLen)[2..6] ==
            [(len / 0x100_0000) as Byte, (len / 0x1_0000 % 256) as Byte, (len / 256 % 256) as Byte,
             (len % 256) as Byte]
    ensures Header(index, len, cLen)[6..] ==
            [(cLen / 0x100_0000) as Byte, (cLen / 0x1_0000 % 256) as Byte, (cLen / 256 % 256) as Byte,
             (cLen % 256) as Byte]
  {
    assert index % TWO16 == index && len % TWO32 == len && cLen % TWO32 == cLen;
    var a, b, c := U16(index), U32(len), U32(cLen);
    assert Header(index, len, cLen) == a + b + c;
    assert (a + b + c)[..2] == a && (a + b + c)[2..6] == b && (a + b + c)[6..] == c;
    U16InNetworkOrder(index);
    U32InNetworkOrder(len);
    U32InNetworkOrder(cLen);
  }

  /** Parsing undoes printing, whatever follows the header, up to the widths of the fields. */
  lemma HeaderRoundTrip(index: nat, len: nat, cLen: nat, tail: seq<Byte>)
    ensures ParseHeader(Header(index, len, cLen) + tail)
         == SliceHeader(index % TWO16, len % TWO32, cLen % TWO32)
  {
    var b := Header(index, len, cLen) + tail;
    assert b[..2] == U16(index % TWO16);
    assert b[2..6] == U32(len % TWO32);
    assert b[6..10] == U32(cLen % TWO32);
    U16RoundTrip(index % TWO16);
    U32RoundTrip(len % TWO32);
    U32RoundTrip(cLen % TWO32);
  }

  /** The bytes of one slice on the wire. */
  function Wire(index: nat, len: nat, payload: seq<Byte>): seq<Byte> {
    Header(index, len, |payload|) + payload
  }

  lemma AfterHeader(index: nat, len: nat, payload: seq<Byte>)
    ensures Wire(index, len, payload)[HEADER_LEN..] == payload
  {
  }

  /** The header cannot be confused: equal wires carry equal fields and payloads. */
  lemma WireInjective(i: nat, l: nat, z: seq<Byte>, i': nat, l': nat, z': seq<Byte>)
    requires i < TWO16 && i' < TWO16 && l < TWO32 && l' < TWO32
    requires Wire(i, l, z) == Wire(i', l', z')
    ensures i == i' && l == l' && z == z'
  {
    HeaderRoundTrip(i, l, |z|, z);
    HeaderRoundTrip(i', l', |z'|, z');
    AfterHeader(i, l, z);
    AfterHeader(i', l', z');
  }

  /** The bytes are one framed slice: header, then a complete stream that decodes to `data`. */
  ghost predicate CarriesSlice(f: Format, wire: seq<Byte>, index: nat, data: seq<Byte>) {
    && |wire| >= HEADER_LEN
    && var z := wire[HEADER_LEN..];
       wire == Wire(index, |data|, z) && f.isFrame(z) && f.plain(z) == data
  }

  /** The bytes parse as slice `i` of plain length `len`, and the length field counts the payload. */
  predicate WellFramed(wire: seq<Byte>, i: nat, len: nat) {
    |wire| > HEADER_LEN && ParseHeader(wire) == SliceHeader(i, len, |wire| - HEADER_LEN)
  }

  /** Framing is well formed exactly when no field was cut to its width. */
  lemma WireWellFramedIff(i: nat, len: nat, z: seq<Byte>)
    requires z != []
    ensures WellFramed(Wire(i, len, z), i, len) <==> i < TWO16 && len < TWO32 && |z| < TWO32
  {
    HeaderRoundTrip(i, len, |z|, z);
  }
}
