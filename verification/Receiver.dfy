/** The receiver program: one datagram in, at most one reply out, data written to the file. */
module ReceiverProgram {
  import opened Types
  import opened Codec
  import opened Lists
  import opened Buffer
  import opened PacketStruct
  import opened Window
  import Spec = ReceiverSpec

  class Receiver {
    const crc: Crc
    const w: Window
    var outfile: seq<byte>
    var sawEof: bool  // whether "received EOF packet, ready to quit" was reported

    ghost predicate Valid()
      reads this, w, w.nodes, w.pkts
    {
      && w.Valid() && Unaliased(w.pkts)
      && w.size == w.capacity == MAX_WINDOW_SIZE && w.maxSeqnum == MAX_SEQNUM
      && forall v | v in w.contents :: v.WellFormed()
    }

    /** What the receiver's behaviour depends on. */
    ghost function State(): Spec.State
      requires w.pos <= MAX_SEQNUM
      reads this, w
    {
      Spec.State(w.pos, w.contents, outfile, sawEof)
    }

    constructor (crc: Crc)
      ensures Valid() && fresh(w) && w.spine == {}
      ensures State() == Spec.INITIAL && this.crc == crc
    {
      this.crc := crc;
      w := new Window.Init(MAX_WINDOW_SIZE, MAX_WINDOW_SIZE, MAX_SEQNUM);
      outfile := [];
      sawEof := false;
    }

    /** The buffered packet that is next in sequence. */
    ghost function NextInSequence(): Packet?
      requires |w.contents| == |w.pkts|
      reads this, w
    {
      var i := FirstIndex(Seqnums(w.contents), w.pos);
      if i < |w.pkts| then w.pkts[i] else null
    }

    /** Takes a written packet out and slides, but not for EOF; false when the pop assertion fails. */
    method TakeOut(pkt: Packet, len: uint16, ghost i: nat) returns (ok: bool)
      requires Valid() && i < |w.pkts| && pkt == w.pkts[i]
      modifies this`sawEof, w, w.spine
      ensures w.spine == old(w.spine)
      ensures ok == (TimestampVictim(old(w.contents), old(w.contents)[i].timestamp) == i)
      ensures ok ==>
                && Valid()
                && w.contents == RemoveAt(old(w.contents), i)
                && w.pos == (if len == 0 then old(w.pos) else Ring.Successor(old(w.pos), MAX_SEQNUM))
                && sawEof == (old(sawEof) || len == 0)
    {
      ghost var pkts, buf := w.pkts, w.contents;
      assert pkt.timestamp == buf[i].timestamp;
      var popped := w.PopTimestamp(pkt.timestamp);
      if popped != pkt {
        return false;
      }
      assert TimestampVictim(buf, buf[i].timestamp) == i;
      UnaliasedAfterRemoval(pkts, i);
      RemoveAtMembers(buf, i);
      if len == 0 {
        sawEof := true;
      } else {
        w.Slide();
      }
      return true;
    }

    /** Writes a packet to the file and takes it out; `r` is the state before. */
    method WriteOut(pkt: Packet, ghost i: nat, ghost r: Spec.State) returns (ok: bool)
      requires Valid() && i < |w.pkts| && pkt == w.pkts[i] && r == State()
      modifies this`outfile, this`sawEof, w, w.spine
      ensures w.spine == old(w.spine)
      ensures ok == (TimestampVictim(r.buf, r.buf[i].timestamp) == i)
      ensures ok ==> Valid() && State() == Spec.Written(r, i)
    {
      ghost var v := w.contents[i];
      assert pkt.Value() == v && v in w.contents;
      var payload, len := pkt.GetPayload(), pkt.GetLength();
      if payload.Some? {
        outfile := outfile + payload.value;
      }
      assert outfile == old(outfile) + v.payload && len == |v.payload|;
      ok := TakeOut(pkt, len, i);
    }

    /** One round of the drain loop: write a packet, take it out, look for the next one. */
    method DrainOne(pkt: Packet, ghost i: nat, ghost r: Spec.State, ghost r': Spec.State)
      returns (ok: bool, next: Packet?)
      requires Valid() && i < |w.pkts| && pkt == w.pkts[i] && r == State() && r' == Spec.Written(r, i)
      modifies this`outfile, this`sawEof, w, w.spine
      ensures w.spine == old(w.spine)
      ensures ok == (TimestampVictim(r.buf, r.buf[i].timestamp) == i)
      ensures ok ==> Valid() && State() == r' && next == NextInSequence()
    {
      next := null;
      ok := WriteOut(pkt, i, r);
      if ok {
        next := w.FindSeqnum(w.pos);
      }
    }

    /** Writes packets to the file as long as the next one in sequence is buffered. */
    method Drain() returns (ok: bool)
      requires Valid()
      modifies this`outfile, this`sawEof, w, w.spine
      ensures ok <==> Spec.Drain(old(State())).Some?
      ensures ok ==> Valid() && State() == Spec.Drain(old(State())).value
      ensures w.spine == old(w.spine)
    {
      ghost var goal := Spec.Drain(State());
      ok := true;
      var pkt := w.FindSeqnum(w.pos);
      while pkt != null && ok
        invariant ok ==> Valid() && pkt == NextInSequence() && goal == Spec.Drain(State())
        invariant !ok ==> goal == None
        invariant w.spine == old(w.spine)
        decreases ok, |w.contents|
      {
        ghost var r, i := State(), FirstIndex(Seqnums(w.contents), w.pos);
        ghost var r' := Spec.Written(r, i);
        Spec.DrainStep(r, i, r', goal);
        ok, pkt := DrainOne(pkt, i, r, r');
      }
    }

    /** Stores an intact packet unless its number is buffered already. */
    method Store(pkt: Packet) returns (ghost added: set<Node>)
      requires Valid() && pkt !in w.pkts && pkt.Value().WellFormed()
      modifies w
      ensures Valid() && State() == Spec.Store(old(State()), pkt.Value())
      ensures fresh(added) && w.spine == old(w.spine) + added
    {
      added := {};
      var found := w.FindSeqnum(pkt.seqnum);
      if found == null {
        UnaliasedAfterPush(pkt, w.pkts);
        var code := w.Push(pkt);
        added := if code == 0 then {w.nodes[0]} else {};
        if code == -1 {
          assert w.IsFull();  // the source exits when a push fails although the buffer is not full
        }
      }
    }

    method SendNack(pkt: Packet) returns (datagram: seq<byte>)
      requires Valid()
      ensures datagram == Encode(crc, Pkt(PTYPE_NACK, false, 31 - |w.contents|, pkt.seqnum, 0, 0, []))
    {
      var reply := new Packet();
      var code := reply.SetType(PTYPE_NACK);
      assert code == PktOk;
      code := reply.SetWindow(w.AvailableSlots());
      assert code == PktOk;
      code := reply.SetSeqnum(pkt.seqnum);
      assert reply.Value() == Pkt(PTYPE_NACK, false, 31 - |w.contents|, pkt.seqnum, 0, 0, []);
      datagram := SendPacket(crc, reply);
    }

    method SendAck(timestamp: uint32) returns (datagram: seq<byte>)
      requires Valid()
      ensures datagram == Encode(crc, Pkt(PTYPE_ACK, false, 31 - |w.contents|, w.pos, 0, timestamp, []))
    {
      var reply := new Packet();
      var code := reply.SetType(PTYPE_ACK);
      assert code == PktOk;
      code := reply.SetWindow(w.AvailableSlots());
      assert code == PktOk;
      code := reply.SetSeqnum(w.pos);
      code := reply.SetTimestamp(timestamp);
      assert reply.Value() == Pkt(PTYPE_ACK, false, 31 - |w.contents|, w.pos, 0, timestamp, []);
      datagram := SendPacket(crc, reply);
    }

    /** Sends the ACK that the specification has for `p`. */
    method Acknowledge(timestamp: uint32, ghost p: Pkt) returns (datagram: seq<byte>)
      requires Valid() && p.timestamp == timestamp
      ensures datagram == Encode(crc, Spec.Ack(State(), p))
    {
      datagram := SendAck(timestamp);
    }

    /** Stores an intact packet, writes what is in sequence, and acknowledges. */
    method Deliver(pkt: Packet) returns (ok: bool, reply: seq<byte>, ghost added: set<Node>)
      requires Valid() && pkt !in w.pkts && pkt.Value().WellFormed()
      modifies this, w, w.spine
      ensures ok <==> Spec.Drain(Spec.Store(old(State()), old(pkt.Value()))).Some?
      ensures ok ==> Valid() && State() == Spec.Drain(Spec.Store(old(State()), old(pkt.Value()))).value
      ensures ok ==> reply == Encode(crc, Spec.Ack(State(), old(pkt.Value())))
      ensures fresh(added) && w.spine == old(w.spine) + added
    {
      ghost var p := pkt.Value();
      added := Store(pkt);
      var ackTimestamp := pkt.timestamp;
      reply := [];
      ok := Drain();
      if ok {
        reply := Acknowledge(ackTimestamp, p);
      }
    }

    /** Handles one decoded packet; `ok` is false when the source aborts on its pop assertion. */
    method HandlePacket(pkt: Packet) returns (ok: bool, reply: Option<seq<byte>>, ghost added: set<Node>)
      requires Valid() && pkt !in w.pkts && pkt.Value().WellFormed()
      modifies this, w, w.spine
      ensures fresh(added) && w.spine == old(w.spine) + added
      ensures match Spec.Handle(old(State()), old(pkt.Value()))
              case Ignored => ok && reply == None && Valid() && State() == old(State())
              case Aborted => !ok
              case Replied(after, answer) => ok && reply == Some(Encode(crc, answer)) && Valid() && State() == after
    {
      ok, reply, added := true, None, {};
      if !w.Has(pkt.seqnum) {
        return;
      }
      if pkt.tr {
        var nack := SendNack(pkt);
        reply := Some(nack);
      } else {
        var ack;
        ok, ack, added := Deliver(pkt);
        reply := if ok then Some(ack) else None;
      }
    }

    /** Handles one datagram; `reply` is what is sent back, if anything; `o` is what happens. */
    method MainLoop(data: array<byte>, len: nat, ghost o: Spec.Outcome)
      returns (ok: bool, reply: Option<seq<byte>>)
      requires Valid() && len <= data.Length
      requires o == Spec.HandleDatagram(crc, State(), data[..len])
      modifies this, w, w.spine
      ensures fresh(w.spine - old(w.spine))
      ensures match o
              case Ignored => ok && reply == None && Valid() && State() == old(State())
              case Aborted => !ok
              case Replied(after, answer) => ok && reply == Some(Encode(crc, answer)) && Valid() && State() == after
    {
      ok, reply := true, None;
      var pkt := new Packet();
      var code := pkt.Decode(crc, data, len);
      if code == PktOk {
        ghost var added;
        ok, reply, added := HandlePacket(pkt);
      }
    }
  }
}
