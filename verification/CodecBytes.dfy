/** The wire format, byte by byte. */
module CodecBytes {
  import opened Types
  import opened Codec

  predicate TrBit(b: byte) {
    b / 32 % 2 == 1
  }

  /** The header without its CRC, with the TR bit cleared: what the header CRC is taken of. */
  function ClearedHeader(d: seq<byte>): (r: seq<byte>)
    requires |d| >= HEADER_SIZE
    ensures |r| == 8
  {
    [if TrBit(d[0]) then d[0] as int - 32 else d[0]] + d[1..8]
  }

  /** Four bytes, the most significant one first. */
  function Word(d: seq<byte>, at: nat): int
    requires at + 4 <= |d|
  {
    d[at] as int * 0x1000000 + d[at + 1] as int * 0x10000 + d[at + 2] as int * 0x100 + d[at + 3]
  }

  /** How many bytes of payload the header announces. */
  function Announced(d: seq<byte>): nat
    requires |d| >= HEADER_SIZE
  {
    if TrBit(d[0]) then 0 else d[2] as int * 0x100 + d[3]
  }

  function SizeFor(n: nat): nat {
    if n == 0 then 12 else 12 + n + 4
  }

  predicate HeaderCrcHolds(crc: Crc, d: seq<byte>)
    requires |d| >= HEADER_SIZE
  {
    Word(d, 8) == crc(ClearedHeader(d))
  }

  predicate PayloadCrcHolds(crc: Crc, d: seq<byte>)
    requires |d| >= HEADER_SIZE && |d| == SizeFor(Announced(d))
  {
    Announced(d) > 0 ==> Word(d, 12 + Announced(d)) == crc(d[12..12 + Announced(d)])
  }

  /** The bytes hold this packet. */
  predicate Holds(d: seq<byte>, p: Pkt)
    requires |d| >= HEADER_SIZE && |d| == SizeFor(Announced(d))
  {
    && d[0] == p.ptype as int * 64 + (if p.tr then 32 else 0) + p.window && d[1] == p.seqnum
    && d[2] as int * 0x100 + d[3] == p.length && Word(d, 4) == p.timestamp
    && d[12..12 + Announced(d)] == p.payload
  }

  /* ---------- decoding ---------- */

  lemma ClearedBit(h: Pkt, b: byte)
    requires b == Flags(h)
    ensures TrBit(b) <==> h.tr
    ensures Flags(h.(tr := false)) == if TrBit(b) then b as int - 32 else b
  {
    FlagFields(h);
  }

  /** The fields of a header and its CRC, on the bytes. */
  lemma HeaderOnBytes(crc: Crc, d: seq<byte>)
    requires |d| >= HEADER_SIZE
    ensures var h := ReadHeader(d);
            && d[0] == h.ptype as int * 64 + (if h.tr then 32 else 0) + h.window && h.ptype == d[0] / 64
            && d[1] == h.seqnum && d[2] as int * 0x100 + d[3] == h.length && Word(d, 4) == h.timestamp
            && (h.tr <==> TrBit(d[0])) && h.EffectiveLength() == Announced(d) && TotalSize(h) == SizeFor(Announced(d))
    ensures Crc1(crc, ReadHeader(d)) == crc(ClearedHeader(d)) && Number32At(d, 8) == Word(d, 8)
  {
    var h := ReadHeader(d);
    assert d[0] == Flags(h) by { FlagBits(d[0]); }
    ClearedBit(h, d[0]);
    HeaderIsCleared(h, d);
  }

  lemma HeaderIsCleared(h: Pkt, d: seq<byte>)
    requires |d| >= HEADER_SIZE && h == ReadHeader(d) && d[0] == Flags(h)
    ensures Header(h.(tr := false)) == ClearedHeader(d)
  {
    HeaderOfReadHeader(d);
    ClearedBit(h, d[0]);
    assert Header(h)[1..] == d[..8][1..] == d[1..8];
    assert Header(h.(tr := false)) == [Flags(h.(tr := false))] + Header(h)[1..];
  }

  /**
   Which code decoding gives, on the bytes, in the order of the checks. A header can neither hold a window
   nor a number that is out of range.
   */
  lemma StatusOnBytes(crc: Crc, d: seq<byte>)
    ensures Decode(crc, d) == Err(ENoHeader) <==> |d| < 12
    ensures |d| >= 12 ==>
              var ptype, n := d[0] / 64, Announced(d);
              var typed := d[0] >= 64;
              var tred := typed && (ptype != 1 ==> !TrBit(d[0]));
              var sized := tred && n <= 512 && |d| == SizeFor(n);
              && (Decode(crc, d) == Err(EType) <==> !typed)
              && (Decode(crc, d) == Err(ETr) <==> typed && !tred)
              && (Decode(crc, d) == Err(ELength) <==> tred && n > 512)
              && (Decode(crc, d) == Err(EUnconsistent) <==> tred && n <= 512 && |d| != SizeFor(n))
              && (Decode(crc, d) == Err(ECrc) <==> sized && !(HeaderCrcHolds(crc, d) && PayloadCrcHolds(crc, d)))
              && (Decode(crc, d).Ok? <==> sized && HeaderCrcHolds(crc, d) && PayloadCrcHolds(crc, d))
  {
    if |d| >= 12 {
      HeaderOnBytes(crc, d);
      var n := Announced(d);
      if |d| == SizeFor(n) && n > 0 {
        assert Number32At(d, 12 + n) == Word(d, 12 + n);
      }
    }
  }

  /** What is accepted: type, TR, length and size agree, and both CRCs are those of the bytes they cover. */
  lemma AcceptedOnBytes(crc: Crc, d: seq<byte>)
    requires Decode(crc, d).Ok?
    ensures |d| >= 12 && Announced(d) <= 512 && |d| == SizeFor(Announced(d))
    ensures HeaderCrcHolds(crc, d) && PayloadCrcHolds(crc, d)
    ensures Holds(d, Decode(crc, d).value) && (Decode(crc, d).value.tr <==> TrBit(d[0]))
  {
    StatusOnBytes(crc, d);
    HeaderOnBytes(crc, d);
  }

  predicate Collide(crc: Crc, x: seq<byte>, y: seq<byte>) {
    x != y && |x| == |y| && crc(x) == crc(y)
  }

  /** Two accepted datagrams with the same header CRC differ in TR only, or the CRC function collides. */
  lemma SameCrcSameHeader(crc: Crc, d: seq<byte>, e: seq<byte>)
    requires Decode(crc, d).Ok? && Decode(crc, e).Ok? && d[8..12] == e[8..12]
    ensures ClearedHeader(d) == ClearedHeader(e) || Collide(crc, ClearedHeader(d), ClearedHeader(e))
  {
    AcceptedOnBytes(crc, d);
    AcceptedOnBytes(crc, e);
    assert Word(d, 8) == Word(d[8..12], 0) && Word(e, 8) == Word(e[8..12], 0);
  }

  /** The same for payloads. */
  lemma SameCrcSamePayload(crc: Crc, d: seq<byte>, e: seq<byte>)
    requires Decode(crc, d).Ok? && Decode(crc, e).Ok?
    requires Announced(d) == Announced(e) > 0 && d[12 + Announced(d)..] == e[12 + Announced(e)..]
    ensures d[12..12 + Announced(d)] == e[12..12 + Announced(e)]
         || Collide(crc, d[12..12 + Announced(d)], e[12..12 + Announced(e)])
  {
    AcceptedOnBytes(crc, d);
    AcceptedOnBytes(crc, e);
    var n := Announced(d);
    assert Word(d, 12 + n) == Word(d[12 + n..], 0) && Word(e, 12 + n) == Word(e[12 + n..], 0);
  }

  /* ---------- encoding ---------- */

  /** What is sent, on the bytes. */
  lemma EncodeOnBytes(crc: Crc, p: Pkt)
    requires p.Encodable()
    ensures var d := Encode(crc, p);
            && |d| >= 12 && Announced(d) == |p.payload| && |d| == SizeFor(|p.payload|)
            && HeaderCrcHolds(crc, d) && PayloadCrcHolds(crc, d) && Holds(d, p)
  {
    DecodeAfterEncode(crc, p);
    AcceptedOnBytes(crc, Encode(crc, p));
  }
}
