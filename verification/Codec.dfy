/**
 The wire format: a packed 12-byte header in network byte order whose last four bytes are a CRC of
 the first eight taken with TR cleared, then a payload followed by its own CRC. The CRC is any
 function from bytes to 32-bit values.
 */
module Codec {
  import opened Types

  type Crc = seq<byte> -> uint32

  /** What a packet says, whatever its CRC fields and the unused part of its payload buffer hold. */
  datatype Pkt = Pkt(
    ptype: bits2,
    tr: bool,
    window: bits5,
    seqnum: byte,
    length: uint16,
    timestamp: uint32,
    payload: seq<byte>
  ) {
    /** pkt_get_length: nothing follows the header of a truncated packet. */
    function EffectiveLength(): uint16 {
      if tr then 0 else length
    }

    /** The payload is the part of the buffer that the length covers. */
    predicate WellFormed() {
      |payload| == EffectiveLength() <= MAX_PAYLOAD_SIZE
    }

    predicate Encodable() {
      WellFormed() && ptype != 0 && (tr ==> ptype == PTYPE_DATA)
    }
  }

  /* ---------- numbers in network byte order ---------- */

  function Bytes16(n: uint16): (r: seq<byte>)
    ensures |r| == 2
  {
    [n / 0x100, n % 0x100]
  }

  function Number16(hi: byte, lo: byte): uint16 {
    hi * 0x100 + lo
  }

  function Bytes32(n: uint32): (r: seq<byte>)
    ensures |r| == 4
  {
    var q1 := n / 0x100;
    var q2 := q1 / 0x100;
    [q2 / 0x100, q2 % 0x100, q1 % 0x100, n % 0x100]
  }

  function Number32(a: byte, b: byte, c: byte, d: byte): uint32 {
    ((a * 0x100 + b) * 0x100 + c) * 0x100 + d
  }

  lemma DigitOf(q: int, d: byte)
    ensures (q * 0x100 + d) / 0x100 == q && (q * 0x100 + d) % 0x100 == d
  {
  }

  lemma Bytes32OfNumber32(a: byte, b: byte, c: byte, d: byte)
    ensures Bytes32(Number32(a, b, c, d)) == [a, b, c, d]
  {
    DigitOf((a * 0x100 + b) * 0x100 + c, d);
    DigitOf(a * 0x100 + b, c);
    DigitOf(a, b);
  }

  /** The number held by the four bytes of `d` at offset `at`. */
  function Number32At(d: seq<byte>, at: nat): uint32
    requires at + 4 <= |d|
  {
    Number32(d[at], d[at + 1], d[at + 2], d[at + 3])
  }

  lemma Number32OfBytes(n: uint32)
    ensures var b := Bytes32(n); Number32(b[0], b[1], b[2], b[3]) == n
  {
    var q1 := n / 0x100;
    var q2 := q1 / 0x100;
    assert n == q1 * 0x100 + n % 0x100;
    assert q1 == q2 * 0x100 + q1 % 0x100;
    assert q2 == q2 / 0x100 * 0x100 + q2 % 0x100;
  }

  /* ---------- the header ---------- */

  /** Bit fields are allocated from the low bits: window, then TR, then type. */
  function Flags(p: Pkt): byte {
    p.window + (if p.tr then 32 else 0) + p.ptype * 64
  }

  lemma FlagBits(b: byte)
    ensures b / 64 * 64 + (if b / 32 % 2 == 1 then 32 else 0) + b % 32 == b
  {
    var h := b / 32;
    assert b == h * 32 + b % 32;
    assert b / 64 == h / 2;
  }

  /** The first eight bytes of the header. */
  function Header(p: Pkt): (r: seq<byte>)
    ensures |r| == 8
  {
    [Flags(p), p.seqnum] + Bytes16(p.length) + Bytes32(p.timestamp)
  }

  /** CRC of the header with its TR field taken as 0. */
  function Crc1(crc: Crc, p: Pkt): uint32 {
    crc(Header(p.(tr := false)))
  }

  /** Size of the packet on the wire. */
  function TotalSize(p: Pkt): nat {
    HEADER_SIZE + p.EffectiveLength() + (if p.EffectiveLength() > 0 then 4 else 0)
  }

  /** The bytes put on the wire. */
  function Encode(crc: Crc, p: Pkt): (r: seq<byte>)
    ensures p.WellFormed() ==> |r| == TotalSize(p)
  {
    Header(p) + Bytes32(Crc1(crc, p)) + (if p.payload == [] then [] else p.payload + Bytes32(crc(p.payload)))
  }

  /** The fields of a header, with no payload yet. */
  function ReadHeader(d: seq<byte>): Pkt
    requires |d| >= HEADER_SIZE
  {
    Pkt(d[0] / 64, d[0] / 32 % 2 == 1, d[0] % 32, d[1], Number16(d[2], d[3]), Number32At(d, 4), [])
  }

  lemma HeaderOfReadHeader(d: seq<byte>)
    requires |d| >= HEADER_SIZE
    ensures Header(ReadHeader(d)) == d[..8]
  {
    var p := ReadHeader(d);
    assert Flags(p) == d[0] by { FlagBits(d[0]); }
    assert Bytes16(p.length) == [d[2], d[3]];
    Bytes32OfNumber32(d[4], d[5], d[6], d[7]);
    assert Header(p) == [d[0], d[1]] + [d[2], d[3]] + [d[4], d[5], d[6], d[7]];
  }

  /** The checks on a header, in the order in which it declares its fields. */
  function HeaderStatus(crc: Crc, p: Pkt, len: nat, storedCrc: uint32): Status {
    if p.ptype == 0 then EType
    else if p.ptype != PTYPE_DATA && p.tr then ETr
    else if p.window > MAX_WINDOW_SIZE then EWindow
    else if p.EffectiveLength() > MAX_PAYLOAD_SIZE then ELength
    else if len != TotalSize(p) then EUnconsistent
    else if storedCrc != Crc1(crc, p) then ECrc
    else PktOk
  }

  /** What follows the reading of header `h`, which holds the CRC `storedCrc`. */
  function DecodeBody(crc: Crc, d: seq<byte>, h: Pkt, storedCrc: uint32): Result<Pkt> {
    var n := h.EffectiveLength();
    var code := HeaderStatus(crc, h, |d|, storedCrc);
    if code != PktOk then Err(code)
    else if n > 0 && Number32At(d, 12 + n) != crc(d[12..12 + n]) then Err(ECrc)
    else Ok(h.(payload := d[12..12 + n]))
  }

  function Decode(crc: Crc, d: seq<byte>): Result<Pkt> {
    if |d| < HEADER_SIZE then Err(ENoHeader)
    else DecodeBody(crc, d, ReadHeader(d), Number32At(d, 8))
  }

  /* ---------- round trips ---------- */

  lemma FlagFields(p: Pkt)
    ensures Flags(p) / 64 == p.ptype
    ensures Flags(p) / 32 % 2 == (if p.tr then 1 else 0)
    ensures Flags(p) % 32 == p.window
  {
  }

  lemma HeaderFields(p: Pkt, d: seq<byte>)
    requires |d| >= HEADER_SIZE && d[..8] == Header(p)
    ensures ReadHeader(d) == p.(payload := [])
  {
    assert d[0] == Flags(p) && d[1] == p.seqnum by { assert d[0] == d[..8][0] && d[1] == d[..8][1]; }
    FlagFields(p);
    assert d[2..4] == Bytes16(p.length) by { assert d[2..4] == d[..8][2..4]; }
    assert d[2] == d[2..4][0] && d[3] == d[2..4][1];
    assert d[4..8] == Bytes32(p.timestamp) by { assert d[4..8] == d[..8][4..8]; }
    Number32AtBytes(d, 4, p.timestamp);
  }

  lemma Number32AtBytes(d: seq<byte>, at: nat, n: uint32)
    requires at + 4 <= |d| && d[at..at + 4] == Bytes32(n)
    ensures Number32At(d, at) == n
  {
    var b := d[at..at + 4];
    assert b[0] == d[at] && b[1] == d[at + 1] && b[2] == d[at + 2] && b[3] == d[at + 3];
    Number32OfBytes(n);
  }

  lemma EncodingParts(crc: Crc, p: Pkt)
    requires p.WellFormed()
    ensures var d, n := Encode(crc, p), p.EffectiveLength();
            && |d| == TotalSize(p)
            && d[..8] == Header(p) && d[8..12] == Bytes32(Crc1(crc, p))
            && d[12..12 + n] == p.payload
            && (n > 0 ==> d[12 + n..12 + n + 4] == Bytes32(crc(p.payload)))
  {
  }

  /** Decoding what was encoded gives the packet back. */
  lemma DecodeAfterEncode(crc: Crc, p: Pkt)
    requires p.Encodable()
    ensures Decode(crc, Encode(crc, p)) == Ok(p)
  {
    var d, h := Encode(crc, p), p.(payload := []);
    var n := p.EffectiveLength();
    EncodingParts(crc, p);
    HeaderFields(p, d);
    SameHeader(h, p);
    Number32AtBytes(d, 8, Crc1(crc, p));
    if n > 0 {
      Number32AtBytes(d, 12 + n, crc(p.payload));
    }
    assert HeaderStatus(crc, h, |d|, Crc1(crc, p)) == PktOk;
    DecodeByParts(crc, d, h);
  }

  lemma DecodeByParts(crc: Crc, d: seq<byte>, h: Pkt)
    requires |d| >= HEADER_SIZE && ReadHeader(d) == h
    requires HeaderStatus(crc, h, |d|, Number32At(d, 8)) == PktOk
    requires var n := h.EffectiveLength(); n > 0 ==> Number32At(d, 12 + n) == crc(d[12..12 + n])
    ensures Decode(crc, d) == Ok(h.(payload := d[12..12 + h.EffectiveLength()]))
  {
  }

  /** Encoding what was decoded gives the bytes back. */
  lemma EncodeAfterDecode(crc: Crc, d: seq<byte>)
    requires Decode(crc, d).Ok?
    ensures Decode(crc, d).value.Encodable()
    ensures Encode(crc, Decode(crc, d).value) == d
  {
    var h, p := ReadHeader(d), Decode(crc, d).value;
    HeaderOfReadHeader(d);
    SameHeader(h, p);
    Bytes32OfNumber(d, 8);
    if p.EffectiveLength() > 0 {
      Bytes32OfNumber(d, 12 + p.EffectiveLength());
    }
    PartsOfEncoding(crc, p, d);
  }

  /** The header does not depend on the payload. */
  lemma SameHeader(h: Pkt, p: Pkt)
    requires h.(payload := []) == p.(payload := [])
    ensures Header(h) == Header(p)
    ensures Header(h.(tr := false)) == Header(p.(tr := false))
  {
  }

  lemma PartsOfEncoding(crc: Crc, p: Pkt, d: seq<byte>)
    requires p.WellFormed() && |d| == TotalSize(p)
    requires d[..8] == Header(p) && d[8..12] == Bytes32(Crc1(crc, p))
    requires var n := p.EffectiveLength();
             d[12..12 + n] == p.payload && (n > 0 ==> d[12 + n..12 + n + 4] == Bytes32(crc(p.payload)))
    ensures Encode(crc, p) == d
  {
    var n := p.EffectiveLength();
    if n > 0 {
      assert d == d[..8] + d[8..12] + (d[12..12 + n] + d[12 + n..12 + n + 4]);
    } else {
      assert d == d[..8] + d[8..12] + [];
    }
  }

  lemma Bytes32OfNumber(d: seq<byte>, at: nat)
    requires at + 4 <= |d|
    ensures Bytes32(Number32At(d, at)) == d[at..at + 4]
  {
    Bytes32OfNumber32(d[at], d[at + 1], d[at + 2], d[at + 3]);
  }

  /** Exactly the encodings of encodable packets are accepted, each as the one packet it encodes. */
  lemma DecodeAcceptsExactlyEncodings(crc: Crc, d: seq<byte>, p: Pkt)
    ensures Decode(crc, d) == Ok(p) <==> p.Encodable() && d == Encode(crc, p)
  {
    if Decode(crc, d) == Ok(p) {
      EncodeAfterDecode(crc, d);
    }
    if p.Encodable() && d == Encode(crc, p) {
      DecodeAfterEncode(crc, p);
    }
  }

  lemma EncodeIsInjective(crc: Crc, p: Pkt, q: Pkt)
    requires p.Encodable() && q.Encodable()
    requires Encode(crc, p) == Encode(crc, q)
    ensures p == q
  {
    DecodeAfterEncode(crc, p);
    DecodeAfterEncode(crc, q);
  }

  /* ---------- truncation in the network ---------- */

  /** A router keeps the header only and sets TR. */
  function Truncate(d: seq<byte>): (r: seq<byte>)
    requires |d| >= HEADER_SIZE && d[0] / 32 % 2 == 0
    ensures |r| == HEADER_SIZE
  {
    [d[0] + 32] + d[1..12]
  }

  function Truncated(p: Pkt): Pkt {
    p.(tr := true, payload := [])
  }

  lemma EncodedFlag(crc: Crc, p: Pkt)
    ensures |Encode(crc, p)| >= HEADER_SIZE
    ensures Encode(crc, p)[0] / 32 % 2 == (if p.tr then 1 else 0)
  {
    assert Encode(crc, p)[0] == Flags(p);
    FlagFields(p);
  }

  /** CRC1 ignores TR: what is left of a truncated DATA packet is a proper encoding. */
  lemma TruncateOfEncode(crc: Crc, p: Pkt)
    requires p.WellFormed() && !p.tr
    ensures |Encode(crc, p)| >= HEADER_SIZE && Encode(crc, p)[0] / 32 % 2 == 0
    ensures Truncate(Encode(crc, p)) == Encode(crc, Truncated(p))
  {
    EncodedFlag(crc, p);
    var d, q := Encode(crc, p), Truncated(p);
    assert d[1..8] == Header(p)[1..] == Header(q)[1..];
    assert d[8..12] == Bytes32(Crc1(crc, p));
    assert q.(tr := false) == p.(payload := []);
    assert Header(q.(tr := false)) == Header(p.(tr := false));
    assert d[1..12] == d[1..8] + d[8..12];
    assert Encode(crc, q) == [Flags(q)] + Header(q)[1..] + Bytes32(Crc1(crc, q));
  }

  /** A truncated DATA datagram still decodes, and only TR and the payload differ; others do not. */
  lemma TruncationIsTransparent(crc: Crc, p: Pkt)
    requires p.Encodable() && !p.tr
    ensures |Encode(crc, p)| >= HEADER_SIZE && Encode(crc, p)[0] / 32 % 2 == 0
    ensures Decode(crc, Truncate(Encode(crc, p)))
         == if p.ptype == PTYPE_DATA then Ok(Truncated(p)) else Err(ETr)
  {
    TruncateOfEncode(crc, p);
    var q := Truncated(p);
    if p.ptype == PTYPE_DATA {
      DecodeAfterEncode(crc, q);
    } else {
      var t := Encode(crc, q);
      assert t[..8] == Header(q);
      HeaderFields(q, t);
    }
  }
}
