/** The packet structure, its setters, and encoding and decoding in place. */
module PacketStruct {
  import opened Types
  import opened Codec

  /** memcpy of `src` to offset `at` of `buf`. */
  method CopyBytes(buf: array<byte>, at: nat, src: seq<byte>)
    requires at + |src| <= buf.Length
    modifies buf
    ensures buf[..at] == old(buf[..at])
    ensures buf[at..at + |src|] == src
    ensures buf[at + |src|..] == old(buf[at + |src|..])
  {
    forall i | 0 <= i < |src| {
      buf[at + i] := src[i];
    }
  }

  class Packet {
    var window: bits5
    var tr: bool
    var ptype: bits2
    var seqnum: byte
    var length: uint16
    var timestamp: uint32
    var crc1: uint32
    var payload: seq<byte>  // the inline buffer: always MAX_PAYLOAD_SIZE bytes
    var crc2: uint32

    /** The structure has its fixed layout. */
    ghost predicate Layout()
      reads this
    {
      |payload| == MAX_PAYLOAD_SIZE
    }

    /** The length stays within the buffer. */
    ghost predicate Valid()
      reads this
    {
      Layout() && GetLength() <= MAX_PAYLOAD_SIZE
    }

    /** What the packet says. */
    function Value(): (v: Pkt)
      reads this
      ensures Valid() ==> v.WellFormed()
    {
      Pkt(ptype, tr, window, seqnum, length, timestamp,
          if GetLength() <= |payload| then payload[..GetLength()] else payload)
    }

    constructor ()
      ensures Valid()
      ensures Value() == Pkt(0, false, 0, 0, 0, 0, [])
      ensures crc1 == 0 && crc2 == 0
      ensures forall i | 0 <= i < MAX_PAYLOAD_SIZE :: payload[i] == 0
    {
      window, tr, ptype, seqnum, length, timestamp, crc1, crc2 := 0, false, 0, 0, 0, 0, 0, 0;
      payload := seq(MAX_PAYLOAD_SIZE, _ => 0);
    }

    function GetLength(): uint16
      reads this
    {
      if tr then 0 else length
    }

    /** The payload, or nothing when there is none. */
    function GetPayload(): (r: Option<seq<byte>>)
      reads this
      requires Value().WellFormed()
      ensures r.None? <==> Value().payload == []
      ensures r.Some? ==> r.value == Value().payload
    {
      if GetLength() == 0 then None else Some(payload[..GetLength()])
    }

    method SetType(t: nat) returns (code: Status)
      modifies this`ptype
      ensures code == (if 1 <= t <= 3 then PktOk else EType)
      ensures ptype == (if code == PktOk then t else old(ptype))
    {
      if t == 0 || t / 4 != 0 {
        return EType;
      }
      ptype := t;
      return PktOk;
    }

    method SetTr(t: byte) returns (code: Status)
      modifies this`tr
      ensures code == (if t <= 1 then PktOk else ETr)
      ensures tr == (if code == PktOk then t == 1 else old(tr))
    {
      if t / 2 != 0 {
        return ETr;
      }
      tr := t == 1;
      return PktOk;
    }

    method SetWindow(n: byte) returns (code: Status)
      modifies this`window
      ensures code == (if n <= MAX_WINDOW_SIZE then PktOk else EWindow)
      ensures window == (if code == PktOk then n else old(window))
    {
      if n > MAX_WINDOW_SIZE {
        return EWindow;
      }
      window := n;
      return PktOk;
    }

    method SetSeqnum(n: byte) returns (code: Status)
      modifies this`seqnum
      ensures code == PktOk && seqnum == n
    {
      seqnum := n;
      return PktOk;
    }

    method SetTimestamp(t: uint32) returns (code: Status)
      modifies this`timestamp
      ensures code == PktOk && timestamp == t
    {
      timestamp := t;
      return PktOk;
    }

    /** Sets the length and clears the part of the buffer that becomes unused. */
    method SetLength(n: uint16) returns (code: Status)
      requires Layout()
      modifies this`length, this`payload
      ensures Layout()
      ensures code == (if n <= MAX_PAYLOAD_SIZE then PktOk else ELength)
      ensures code == PktOk ==> length == n && payload[..n] == old(payload[..n])
      ensures code == PktOk ==> forall i | n <= i < MAX_PAYLOAD_SIZE :: payload[i] == 0
      ensures code != PktOk ==> length == old(length) && payload == old(payload)
    {
      if n > MAX_PAYLOAD_SIZE {
        return ELength;
      }
      payload := payload[..n] + seq(MAX_PAYLOAD_SIZE - n, _ => 0);
      length := n;
      return PktOk;
    }

    /** Stores the first `n` bytes of `data`, or nothing when there is no data. */
    method SetPayload(data: Option<seq<byte>>, n: uint16) returns (code: Status)
      requires Layout()
      requires data.Some? && n <= MAX_PAYLOAD_SIZE ==> n <= |data.value|
      modifies this`length, this`payload
      ensures Layout()
      ensures code == (if data.None? || n <= MAX_PAYLOAD_SIZE then PktOk else ELength)
      ensures code == PktOk ==> length == (if data.None? then 0 else n)
      ensures code == PktOk && data.Some? ==> payload[..n] == data.value[..n]
      ensures code == PktOk ==> forall i | length <= i < MAX_PAYLOAD_SIZE :: payload[i] == 0
      ensures code != PktOk ==> length == old(length) && payload == old(payload)
    {
      var actual := if data.None? then 0 else n;
      code := SetLength(actual);
      if code != PktOk {
        return code;
      }
      if data.Some? {
        payload := data.value[..actual] + payload[actual..];
      }
      return PktOk;
    }

    /** Fills the packet from a datagram. Nothing is read past the bytes received. */
    method Decode(crc: Crc, data: array?<byte>, len: nat) returns (code: Status)
      requires Layout()
      requires data != null ==> len <= data.Length
      modifies this
      ensures Layout()
      ensures data == null ==> code == ENoHeader
      ensures data != null && code == PktOk ==>
                Codec.Decode(crc, data[..len]) == Ok(Value()) && Valid()
      ensures data != null && code != PktOk ==> Codec.Decode(crc, data[..len]) == Err(code)
      ensures code == PktOk ==> payload[GetLength()..] == old(payload)[GetLength()..]
    {
      if data == null || len < HEADER_SIZE {
        return ENoHeader;
      }
      LoadHeader(data[..len]);
      code := DecodeBody(crc, data[..len]);
    }

    /** Checks the header just loaded and takes over the payload that follows it. */
    method DecodeBody(crc: Crc, d: seq<byte>) returns (code: Status)
      requires Layout() && |d| >= HEADER_SIZE
      modifies this
      ensures Layout()
      ensures var r := Codec.DecodeBody(crc, d, old(Value().(payload := [])), old(crc1));
              if code == PktOk then Valid() && r == Ok(Value()) else r == Err(code)
      ensures code == PktOk ==> payload[GetLength()..] == old(payload)[GetLength()..]
    {
      ghost var h := Value().(payload := []);
      SameHeader(h, Value());
      code := HeaderStatus(crc, Value(), |d|, crc1);
      assert code == HeaderStatus(crc, h, |d|, crc1);
      if code != PktOk {
        return code;
      }
      var n := GetLength();
      payload := d[12..12 + n] + payload[n..];
      if n > 0 {
        crc2 := Number32At(d, 12 + n);
        if crc2 != crc(payload[..n]) {
          return ECrc;
        }
      }
      assert Value() == h.(payload := d[12..12 + n]);
      return PktOk;
    }

    /** memcpy of the header bytes over the header fields. */
    method LoadHeader(d: seq<byte>)
      requires Layout() && |d| >= HEADER_SIZE
      modifies this
      ensures payload == old(payload) && crc2 == old(crc2)
      ensures Value().(payload := []) == ReadHeader(d)
      ensures crc1 == Number32At(d, 8)
    {
      var header := ReadHeader(d);
      window, tr, ptype := header.window, header.tr, header.ptype;
      seqnum, length, timestamp := header.seqnum, header.length, header.timestamp;
      crc1 := Number32At(d, 8);
    }

    /** Writes the packet into `buf`, of which `room` bytes may be used; gives the bytes written. */
    method Encode(crc: Crc, buf: array<byte>, room: nat) returns (code: Status, len: nat)
      requires room <= buf.Length
      requires ptype != 0 && TotalSize(Value()) <= room ==> Value().WellFormed()
      modifies buf
      ensures code == if ptype == 0 then EType
                      else if TotalSize(Value()) > room then ENoMem else PktOk
      ensures code == EType ==> len == room
      ensures code == ENoMem ==> len == 0
      ensures code != PktOk ==> buf[..] == old(buf[..])
      ensures code == PktOk ==> len == TotalSize(Value()) && buf[..len] == Codec.Encode(crc, Value())
      ensures code == PktOk ==> buf[len..] == old(buf[len..])
    {
      var p := Value();
      if p.ptype == 0 {
        return EType, room;
      } else if TotalSize(p) > room {
        return ENoMem, 0;
      }
      var n := p.EffectiveLength();
      var image := Header(p) + Bytes32(Crc1(crc, p)) + p.payload;
      CopyBytes(buf, 0, image);
      var written := HEADER_SIZE + n;
      assert buf[..written] == image;
      if n > 0 {
        CopyBytes(buf, written, Bytes32(crc(p.payload)));
        assert buf[..written + 4] == buf[..written] + buf[written..written + 4];
        written := written + 4;
      }
      return PktOk, written;
    }
  }

  /** Encodes a packet into a buffer of maximal size; what is sent is what was written there. */
  method SendPacket(crc: Crc, p: Packet) returns (datagram: seq<byte>)
    requires p.Value().WellFormed() && p.ptype != 0
    ensures datagram == Codec.Encode(crc, p.Value())
  {
    var buf := new byte[MAX_PACKET_SIZE];
    var code, len := p.Encode(crc, buf, MAX_PACKET_SIZE);
    assert code == PktOk;
    datagram := buf[..len];
  }
}
