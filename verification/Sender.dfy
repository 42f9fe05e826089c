/** The sender program: one iteration of its loop at a time. */
module SenderProgram {
  import opened Types
  import opened Codec
  import opened Lists
  import opened Buffer
  import opened PacketStruct
  import opened Window
  import opened TimeSource
  import opened MonotonicClock
  import Spec = SenderSpec

  /** The datagrams for some packets, in order. */
  ghost function Encodings(crc: Crc, ps: seq<Pkt>): (r: seq<seq<byte>>)
    ensures |r| == |ps|
    ensures forall i | 0 <= i < |ps| :: r[i] == Encode(crc, ps[i])
  {
    seq(|ps|, i requires 0 <= i < |ps| => Encode(crc, ps[i]))
  }

  lemma EncodingsAppend(crc: Crc, a: seq<Pkt>, b: seq<Pkt>)
    ensures Encodings(crc, a + b) == Encodings(crc, a) + Encodings(crc, b)
  {
  }

  /** Sending `b` after `a` is sending both. */
  lemma SendingBoth(crc: Crc, before: seq<seq<byte>>, between: seq<seq<byte>>, a: seq<Pkt>, b: seq<Pkt>)
    requires between == before + Encodings(crc, a)
    ensures between + Encodings(crc, b) == before + Encodings(crc, a + b)
  {
    EncodingsAppend(crc, a, b);
  }

  /** A packet that can be put on the wire. */
  predicate Sendable(v: Pkt) {
    v.WellFormed() && v.ptype != 0
  }

  ghost predicate AllSendable(buf: seq<Pkt>) {
    forall v | v in buf :: Sendable(v)
  }

  lemma SendableAfterRemoval(buf: seq<Pkt>, i: nat)
    requires AllSendable(buf) && i < |buf|
    ensures AllSendable(RemoveAt(buf, i))
  {
    RemoveAtMembers(buf, i);
  }

  lemma SendableAfterRetiming(buf: seq<Pkt>, i: nat, t: uint32)
    requires AllSendable(buf) && i < |buf|
    ensures AllSendable(buf[i := buf[i].(timestamp := t)])
  {
    assert buf[i] in buf;
  }

  lemma AnyBelowAfterRemoval(buf: seq<Pkt>, i: nat, a: int, t: int)
    requires i < |buf| && buf[i].seqnum < a
    ensures Spec.AnyBelow(buf, a, t) <==> buf[i].timestamp == t || Spec.AnyBelow(RemoveAt(buf, i), a, t)
  {
    RemoveAtMembers(buf, i);
    assert buf[i] in buf;
  }

  /** When the least number is not below `a`, nothing is. */
  lemma NothingBelow(buf: seq<Pkt>, a: byte, t: int)
    requires buf != [] ==> buf[FirstMin(Seqnums(buf))].seqnum >= a
    ensures Keep(buf, Spec.NumbersFrom(a)) == buf && !Spec.AnyBelow(buf, a, t)
  {
    forall p | p in buf
      ensures p.seqnum >= a
    {
      var j :| 0 <= j < |buf| && buf[j] == p;
      assert Seqnums(buf)[FirstMin(Seqnums(buf))] <= Seqnums(buf)[j];
    }
    KeepAll(buf, Spec.NumbersFrom(a));
  }

  /** Retransmission is under way: `sent` was sent, and what is left to do leads to `r`. */
  ghost predicate Resending(source: Source, r: Spec.Resent, sent: seq<Pkt>, buf: seq<Pkt>, now: int, k: nat) {
    && Spec.Ready(source, buf, now, k)
    && var rest := Spec.Retransmit(source, buf, now, k);
       r == Spec.Resent(rest.buf, rest.calls, sent + rest.sent)
  }

  lemma ResendingStart(source: Source, buf: seq<Pkt>, now: int, k: nat)
    requires Spec.Ready(source, buf, now, k)
    ensures Resending(source, Spec.Retransmit(source, buf, now, k), [], buf, now, k)
  {
    var r := Spec.Retransmit(source, buf, now, k);
    assert [] + r.sent == r.sent;
  }

  lemma ResendingNext(source: Source, r: Spec.Resent, sent: seq<Pkt>, buf: seq<Pkt>, now: int, k: nat,
                      p: Pkt, buf': seq<Pkt>, k': nat)
    requires Resending(source, r, sent, buf, now, k)
    requires buf != [] && buf[FirstMin(Timestamps(buf))].timestamp <= now
    requires var i := FirstMin(Timestamps(buf));
             p == buf[i].(timestamp := Spec.Deadline(source, k)) && buf' == buf[i := p] && k' == k + 1
    ensures Resending(source, r, sent + [p], buf', now, k') && k < r.calls
  {
    Spec.ReadyAfterRefresh(source, buf, now, k, FirstMin(Timestamps(buf)));
    var rest := Spec.Retransmit(source, buf', now, k');
    assert sent + ([p] + rest.sent) == (sent + [p]) + rest.sent;
  }

  lemma ResendingDone(source: Source, r: Spec.Resent, sent: seq<Pkt>, buf: seq<Pkt>, now: int, k: nat)
    requires Resending(source, r, sent, buf, now, k)
    requires buf == [] || buf[FirstMin(Timestamps(buf))].timestamp > now
    ensures r == Spec.Resent(buf, k, sent)
  {
  }

  class Sender {
    const crc: Crc
    const w: Window
    const clock: Clock
    const infile: seq<byte>
    var offset: nat  // how much of the file was read
    var next: byte
    var sentEof: bool
    var wire: seq<seq<byte>>  // every datagram sent so far

    /** The window of the sender, with distinct packets that can all be sent. */
    ghost predicate WindowValid()
      reads this, w, w.nodes, w.pkts
    {
      && w.Valid() && Unaliased(w.pkts)
      && w.capacity == MAX_WINDOW_SIZE && w.maxSeqnum == MAX_SEQNUM
      && AllSendable(w.contents)
    }

    ghost predicate Valid()
      reads this, w, w.nodes, w.pkts, clock
    {
      WindowValid() && clock.Valid()
    }

    /** What the sender's behaviour depends on. */
    ghost function State(): Spec.State
      requires w.pos <= MAX_SEQNUM
      reads this, w, clock
    {
      Spec.State(w.pos, w.size, w.contents, next, sentEof, offset, clock.calls)
    }

    constructor (crc: Crc, readings: Readings, infile: seq<byte>)
      ensures Valid() && fresh(w) && fresh(clock) && w.spine == {} && w.held == {} && wire == []
      ensures State() == Spec.INITIAL
      ensures this.crc == crc && clock.times == TimesOf(readings) && this.infile == infile
    {
      this.crc := crc;
      this.infile := infile;
      w := new Window.Init(1, MAX_WINDOW_SIZE, MAX_SEQNUM);
      clock := new Clock(readings);
      offset, next, sentEof, wire := 0, 0, false, [];
    }

    /** The packet a search for the least number finds. */
    ghost function LeastNumber(): Packet?
      reads this, w
      requires |w.contents| == |w.pkts|
    {
      if w.pkts == [] then null else w.pkts[FirstMin(Seqnums(w.contents))]
    }

    /** Takes out the packet with the least number. */
    method DiscardMin(min: Packet)
      requires WindowValid() && min == LeastNumber()
      modifies w, w.spine
      ensures WindowValid() && w.spine == old(w.spine) && w.held == old(w.held) && |w.pkts| < |old(w.pkts)|
      ensures w.size == old(w.size) && w.pos == old(w.pos)
      ensures w.contents == RemoveAt(old(w.contents), FirstMin(Seqnums(old(w.contents))))
    {
      ghost var i := FirstMin(Seqnums(w.contents));
      UnaliasedAfterRemoval(w.pkts, i);
      SendableAfterRemoval(w.contents, i);
      var popped := w.PopMinSeqnum();
      assert popped == min;  // asserted by the source
    }

    /** Takes out the packet with the least number, and looks for the next one. */
    method DiscardLeast(min: Packet) returns (next: Packet?)
      requires WindowValid() && min == LeastNumber()
      modifies w, w.spine
      ensures WindowValid() && w.spine == old(w.spine) && w.held == old(w.held) && |w.pkts| < |old(w.pkts)|
      ensures w.size == old(w.size) && w.pos == old(w.pos)
      ensures w.contents == RemoveAt(old(w.contents), FirstMin(Seqnums(old(w.contents))))
      ensures next == LeastNumber()
    {
      DiscardMin(min);
      next := w.PeekMinSeqnum();
    }

    /** Takes out every packet below `a`; tells whether one of them carried timestamp `t`. */
    method DiscardBelow(a: byte, t: uint32) returns (popped: bool)
      requires WindowValid()
      modifies w, w.spine
      ensures WindowValid() && w.spine == old(w.spine) && w.held == old(w.held)
      ensures w.size == old(w.size) && w.pos == old(w.pos)
      ensures w.contents == Keep(old(w.contents), Spec.NumbersFrom(a))
      ensures popped == Spec.AnyBelow(old(w.contents), a, t)
    {
      popped := false;
      var min := w.PeekMinSeqnum();
      while min != null && min.seqnum < a
        invariant WindowValid() && w.spine == old(w.spine) && w.held == old(w.held)
        invariant w.size == old(w.size) && w.pos == old(w.pos)
        invariant min == LeastNumber()
        invariant Keep(w.contents, Spec.NumbersFrom(a)) == Keep(old(w.contents), Spec.NumbersFrom(a))
        invariant Spec.AnyBelow(old(w.contents), a, t) == (popped || Spec.AnyBelow(w.contents, a, t))
        decreases |w.pkts|
      {
        ghost var i := FirstMin(Seqnums(w.contents));
        assert min.Value() == w.contents[i];
        KeepAfterRemoval(w.contents, i, Spec.NumbersFrom(a));
        AnyBelowAfterRemoval(w.contents, i, a, t);
        if min.timestamp == t {
          popped := true;
        }
        min := DiscardLeast(min);
      }
      NothingBelow(w.contents, a, t);
    }

    /** Takes out the packet with that timestamp, or the front one, or none when there is none. */
    method DiscardTimestamp(t: uint32)
      requires WindowValid()
      modifies w, w.spine
      ensures WindowValid() && w.spine == old(w.spine) && w.held == old(w.held)
      ensures w.size == old(w.size) && w.pos == old(w.pos)
      ensures w.contents == if old(w.contents) == [] then []
                            else RemoveAt(old(w.contents), TimestampVictim(old(w.contents), t))
    {
      if w.front != null {
        UnaliasedAfterRemoval(w.pkts, TimestampVictim(w.contents, t));
        SendableAfterRemoval(w.contents, TimestampVictim(w.contents, t));
      }
      var last := w.PopTimestamp(t);
    }

    method HandleAck(ack: Packet)
      requires Valid()
      modifies w, w.spine
      ensures Valid() && w.spine == old(w.spine) && w.held == old(w.held)
      ensures State() == Spec.HandleAck(old(State()), old(ack.Value()))
    {
      var seqnum, timestamp := ack.seqnum, ack.timestamp;
      var popped := DiscardBelow(seqnum, timestamp);
      w.SlideTo(seqnum);
      if !popped {
        DiscardTimestamp(timestamp);
      }
    }

    method HandleNack(nack: Packet)
      requires Valid() && nack !in w.pkts
      modifies w`contents, w.held`timestamp, clock
      ensures Valid()
      ensures State() == Spec.HandleNack(clock.times, old(State()), old(nack.Value()))
    {
      if !w.Has(nack.seqnum) {
        return;
      }
      var pkt := w.FindSeqnum(nack.seqnum);
      if pkt == null {
        return;
      }
      Expire(pkt, FirstIndex(Seqnums(w.contents), nack.seqnum));
    }

    /** Sets the timer of one buffered packet to the current time. */
    method Expire(pkt: Packet, ghost i: nat)
      requires Valid() && i < |w.pkts| && pkt == w.pkts[i]
      modifies w`contents, w.held`timestamp, clock
      ensures Valid() && clock.calls == old(clock.calls) + 1
      ensures var t := Tick(clock.times, old(clock.calls));
              w.contents == old(w.contents)[i := old(w.contents)[i].(timestamp := t)]
    {
      var now := clock.GetMonotime();
      Retime(pkt, i, now);
    }

    /** Changes the timer of one buffered packet. */
    method Retime(pkt: Packet, ghost i: nat, t: uint32)
      requires WindowValid() && i < |w.pkts| && pkt == w.pkts[i]
      modifies w`contents, w.held`timestamp
      ensures WindowValid()
      ensures w.contents == old(w.contents)[i := old(w.contents)[i].(timestamp := t)]
    {
      RetimedAt(w.pkts, w.contents, i, t);
      SendableAfterRetiming(w.contents, i, t);
      w.SetPacketTime(pkt, t);
    }

    /** Gives the earliest packet a fresh timer; the source exits if that packet is not found. */
    method Reschedule(pkt: Packet, ghost i: nat, t: uint32, ghost p: Pkt)
      requires WindowValid() && i < |w.pkts| && pkt == w.pkts[i] && i == FirstMin(Timestamps(w.contents))
      requires p == w.contents[i].(timestamp := t)
      modifies w`contents, w.held`timestamp
      ensures WindowValid() && w.contents == old(w.contents)[i := p]
    {
      FirstMinIsFirstIndex(Timestamps(w.contents), i);
      assert pkt.timestamp == Timestamps(w.contents)[i];
      SendableAfterRetiming(w.contents, i, t);
      RetimedAt(w.pkts, w.contents, i, t);
      var code := w.UpdateTimestamp(pkt.timestamp, t);
      assert code == 0;
    }

    /** Puts one packet on the wire. */
    method Transmit(pkt: Packet)
      requires Sendable(pkt.Value())
      modifies this`wire
      ensures wire == old(wire) + Encodings(crc, [pkt.Value()])
    {
      var datagram := SendPacket(crc, pkt);
      wire := wire + [datagram];
      assert Encodings(crc, [pkt.Value()]) == [datagram];
    }

    /** The packet a search for the earliest timer finds. */
    ghost function EarliestTimer(): Packet?
      reads this, w
      requires |w.contents| == |w.pkts|
    {
      if w.pkts == [] then null else w.pkts[FirstMin(Timestamps(w.contents))]
    }

    /** Restarts the earliest timer; `p` is what the packet then says. */
    method RestartEarliest(pkt: Packet, ghost i: nat, ghost p: Pkt)
      requires Valid() && i < |w.pkts| && pkt == w.pkts[i] && i == FirstMin(Timestamps(w.contents))
      requires p == w.contents[i].(timestamp := Spec.Deadline(clock.times, clock.calls))
      modifies w`contents, w.held`timestamp, clock
      ensures Valid() && clock.calls == old(clock.calls) + 1
      ensures w.contents == old(w.contents)[i := p]
    {
      var now := clock.GetMonotime();
      Reschedule(pkt, i, (now + TIMER) % WORD32, p);
    }

    /** Sends the packet with the earliest timer again, and looks for the next one. */
    method ResendEarliest(pkt: Packet, ghost i: nat, ghost p: Pkt) returns (next: Packet?)
      requires Valid() && w.pkts != [] && pkt == EarliestTimer() && i == FirstMin(Timestamps(w.contents))
      requires p == w.contents[i].(timestamp := Spec.Deadline(clock.times, clock.calls))
      modifies this`wire, w`contents, w.held`timestamp, clock
      ensures Valid() && clock.calls == old(clock.calls) + 1 && next == EarliestTimer()
      ensures w.contents == old(w.contents)[i := p] && wire == old(wire) + Encodings(crc, [p])
    {
      RestartEarliest(pkt, i, p);
      assert pkt.Value() == w.contents[i] == p && p in w.contents;
      Transmit(pkt);
      next := w.PeekMinTimestamp();
    }

    /** One round of the retransmission loop, on the way to `r`. */
    method ResendRound(pkt: Packet, ghost r: Spec.Resent, ghost sent: seq<Pkt>, ghost now: uint32)
      returns (next: Packet?, ghost p: Pkt)
      requires Valid() && pkt == EarliestTimer() && pkt.timestamp <= now
      requires Resending(clock.times, r, sent, w.contents, now, clock.calls)
      modifies this`wire, w`contents, w.held`timestamp, clock
      ensures Valid() && next == EarliestTimer()
      ensures Resending(clock.times, r, sent + [p], w.contents, now, clock.calls)
      ensures old(clock.calls) < clock.calls <= r.calls
      ensures wire == old(wire) + Encodings(crc, [p])
    {
      ghost var buf, i, k := w.contents, FirstMin(Timestamps(w.contents)), clock.calls;
      assert pkt.Value() == buf[i];
      p := buf[i].(timestamp := Spec.Deadline(clock.times, k));
      ghost var buf', k' := buf[i := p], k + 1;
      ResendingNext(clock.times, r, sent, buf, now, k, p, buf', k');
      next := ResendEarliest(pkt, i, p);
      assert w.contents == buf' && clock.calls == k';
    }

    /** Sends every packet whose timer expired at `loopNow` again. */
    method ResendExpired(loopNow: uint32, ghost r: Spec.Resent)
      requires Valid() && Spec.Ready(clock.times, w.contents, loopNow, clock.calls)
      requires r == Spec.Retransmit(clock.times, w.contents, loopNow, clock.calls)
      modifies this`wire, w`contents, w.held`timestamp, clock
      ensures Valid()
      ensures w.contents == r.buf && clock.calls == r.calls && wire == old(wire) + Encodings(crc, r.sent)
    {
      ghost var sent: seq<Pkt> := [];
      ResendingStart(clock.times, w.contents, loopNow, clock.calls);
      var pkt := w.PeekMinTimestamp();
      assert Encodings(crc, []) == [];
      while pkt != null && pkt.timestamp <= loopNow
        invariant Valid() && pkt == EarliestTimer()
        invariant Resending(clock.times, r, sent, w.contents, loopNow, clock.calls)
        invariant wire == old(wire) + Encodings(crc, sent)
        decreases r.calls - clock.calls
      {
        ghost var p;
        ghost var sofar := wire;
        pkt, p := ResendRound(pkt, r, sent, loopNow);
        SendingBoth(crc, old(wire), sofar, sent, [p]);
        sent := sent + [p];
      }
      assert w.pkts != [] ==> w.contents[FirstMin(Timestamps(w.contents))].timestamp > loopNow;
      ResendingDone(clock.times, r, sent, w.contents, loopNow, clock.calls);
    }

    /** Sends every packet whose timer has expired again; `r` is how that goes. */
    method RetransmitPackets(ghost r: Spec.Resent)
      requires Valid()
      requires Spec.Ready(clock.times, w.contents, Tick(clock.times, clock.calls), clock.calls + 1)
      requires r == Spec.Retransmit(clock.times, w.contents, Tick(clock.times, clock.calls), clock.calls + 1)
      modifies this`wire, w`contents, w.held`timestamp, clock
      ensures Valid()
      ensures w.contents == r.buf && clock.calls == r.calls && wire == old(wire) + Encodings(crc, r.sent)
    {
      var loopNow := clock.GetMonotime();
      ResendExpired(loopNow, r);
    }

    /** The same, in terms of the whole state. */
    method Retransmit(ghost s: Spec.State, ghost r: Spec.Resent)
      requires Valid() && s == State() && Spec.ReadyToRetransmit(clock.times, s)
      requires r == Spec.Retransmit(clock.times, w.contents, Tick(clock.times, clock.calls), clock.calls + 1)
      modifies this`wire, w`contents, w.held`timestamp, clock
      ensures Valid() && State() == s.(buf := r.buf, calls := r.calls) && wire == old(wire) + Encodings(crc, r.sent)
    {
      RetransmitPackets(r);
    }

    /** EOF was sent, or as much is buffered as the window allows, or more. */
    ghost predicate CannotSend()
      reads this, w
    {
      sentEof || (w.contents != [] && w.size <= |w.contents|)
    }

    /** How long to wait: until the first timer when nothing can be sent now, not at all otherwise. */
    method GetTimeout() returns (timeout: uint32)
      requires Valid() && Spec.Running(State())
      modifies clock
      ensures clock.Valid() && clock.calls == old(clock.calls) + (if CannotSend() then 1 else 0)
      ensures !CannotSend() ==> timeout == 0
      ensures CannotSend() ==>
                && w.contents != []
                && var now := Tick(clock.times, old(clock.calls));
                   var first := w.contents[FirstMin(Timestamps(w.contents))].timestamp;
                   timeout == if first > now then first - now else 0
    {
      if (w.IsFull() && w.bufsize != 0) || sentEof {
        var pkt := w.PeekMinTimestamp();
        assert pkt == EarliestTimer() && pkt != null;
        assert pkt.Value() == w.contents[FirstMin(Timestamps(w.contents))];
        var timer := pkt.timestamp;
        var now := clock.GetMonotime();
        if timer > now {
          return timer - now;
        }
      }
      return 0;
    }

    /** Makes the packet for the next chunk of the file; the source exits if a field is refused. */
    method MakePacket(data: seq<byte>, timestamp: uint32) returns (pkt: Packet)
      requires |data| <= MAX_PAYLOAD_SIZE
      ensures fresh(pkt)
      ensures pkt.Value() == Pkt(PTYPE_DATA, false, 0, next, |data|, timestamp, data)
    {
      pkt := new Packet();
      var code := pkt.SetType(PTYPE_DATA);
      assert code == PktOk;
      code := pkt.SetSeqnum(next);
      code := pkt.SetWindow(0);
      assert code == PktOk;
      code := pkt.SetTimestamp(timestamp);
      code := pkt.SetPayload(Some(data), |data|);
      assert code == PktOk;
    }

    /** Adds a packet to the buffer; the source exits if there is no room. */
    method Remember(pkt: Packet) returns (ghost added: set<Node>)
      requires WindowValid() && pkt !in w.pkts && Sendable(pkt.Value())
      requires !Full(|w.contents|, w.size, MAX_WINDOW_SIZE)
      modifies w
      ensures WindowValid()
      ensures fresh(added) && w.spine == old(w.spine) + added && w.held == old(w.held) + {pkt}
      ensures w.size == old(w.size) && w.pos == old(w.pos)
      ensures w.contents == [old(pkt.Value())] + old(w.contents)
    {
      UnaliasedAfterPush(pkt, w.pkts);
      var code := w.Push(pkt);
      assert code == 0;
      added := {w.nodes[0]};
    }

    /** Reads the next chunk and makes the packet for it, with a fresh timer. */
    method ReadNext() returns (pkt: Packet, ghost p: Pkt)
      requires clock.Valid() && w.pos <= MAX_SEQNUM
      modifies this`offset, clock
      ensures clock.Valid() && clock.calls == old(clock.calls) + 1 && fresh(pkt)
      ensures p == Spec.NewPacket(infile, clock.times, old(State())) && pkt.Value() == p && Sendable(p)
      ensures offset == old(offset) + |p.payload|
    {
      var data := Spec.Chunk(infile, offset);
      offset := offset + |data|;
      var now := clock.GetMonotime();
      pkt := MakePacket(data, (now + TIMER) % WORD32);
      p := pkt.Value();
    }

    /** Sends a new packet and keeps it until it is acknowledged. */
    method SendAndRemember(pkt: Packet, ghost p: Pkt) returns (ghost added: set<Node>)
      requires WindowValid() && pkt !in w.pkts && pkt.Value() == p && Sendable(p)
      requires !Full(|w.contents|, w.size, MAX_WINDOW_SIZE)
      modifies this`wire, w
      ensures WindowValid()
      ensures fresh(added) && w.spine == old(w.spine) + added && w.held == old(w.held) + {pkt}
      ensures w.size == old(w.size) && w.pos == old(w.pos)
      ensures w.contents == [p] + old(w.contents) && wire == old(wire) + Encodings(crc, [p])
    {
      Transmit(pkt);
      added := Remember(pkt);
    }

    /** Moves on to the next number; an empty packet was the last one. */
    method CountPacket(len: nat)
      modifies this`next, this`sentEof
      ensures next == (old(next) + 1) % 256 && sentEof == (old(sentEof) || len == 0)
    {
      next := (next + 1) % 256;
      if len == 0 {
        sentEof := true;
      }
    }

    /** Reads and sends one more packet, for which there is room; gives its length. */
    method SendNext() returns (len: nat, ghost p: Pkt, ghost added: set<Node>, ghost kept: set<Packet>)
      requires Valid() && !Full(|w.contents|, w.size, MAX_WINDOW_SIZE)
      modifies this`offset, this`wire, w, clock
      ensures Valid() && fresh(added) && w.spine == old(w.spine) + added
      ensures fresh(kept) && w.held == old(w.held) + kept
      ensures w.size == old(w.size) && w.pos == old(w.pos)
      ensures p == Spec.NewPacket(infile, clock.times, old(State())) && len == p.length
      ensures w.contents == [p] + old(w.contents) && wire == old(wire) + Encodings(crc, [p])
      ensures offset == old(offset) + |p.payload| && clock.calls == old(clock.calls) + 1
    {
      var pkt;
      pkt, p := ReadNext();
      len := pkt.length;
      added := SendAndRemember(pkt, p);
      kept := {pkt};
    }

    /** Reads and sends one more packet, unless the buffer is full or EOF was sent. */
    method SendNew() returns (ghost added: set<Node>, ghost kept: set<Packet>)
      requires Valid()
      modifies this`offset, this`next, this`sentEof, this`wire, w, clock
      ensures Valid() && fresh(added) && w.spine == old(w.spine) + added
      ensures fresh(kept) && w.held == old(w.held) + kept
      ensures var n := Spec.SendNew(infile, clock.times, old(State()));
              State() == n.state && wire == old(wire) + Encodings(crc, n.sent)
    {
      added, kept := {}, {};
      if w.IsFull() || sentEof {
        return;
      }
      var len;
      ghost var p;
      len, p, added, kept := SendNext();
      CountPacket(len);
    }

    /** Handles an ACK or a NACK and takes over the window it advertises. */
    method HandleResponse(resp: Packet)
      requires Valid() && resp !in w.pkts
      requires resp.ptype == PTYPE_ACK || resp.ptype == PTYPE_NACK
      modifies w, w.spine, w.held`timestamp, clock
      ensures Valid() && w.spine == old(w.spine) && w.held == old(w.held)
      ensures State() == Spec.Respond(clock.times, old(State()), old(resp.Value()))
    {
      var rwin := resp.window;
      if resp.ptype == PTYPE_ACK {
        HandleAck(resp);
      } else {
        HandleNack(resp);
      }
      var result := w.Resize(Spec.Min(MAX_WINDOW_SIZE, rwin));
      assert result == 0;  // asserted by the source
    }

    /** What is received on the socket, decoded; None when it does not decode. */
    ghost function Response(data: array?<byte>, len: nat): Option<Pkt>
      requires data != null ==> len <= data.Length
      reads data
    {
      if data == null then None
      else
        var r := Decode(crc, data[..len]);
        if r.Ok? then Some(r.value) else None
    }

    /** Decodes and handles what was received; a DATA packet ends the iteration. */
    method Receive(data: array<byte>, len: nat, ghost response: Option<Pkt>) returns (stop: bool)
      requires Valid() && len <= data.Length && response == Response(data, len)
      modifies w, w.spine, w.held`timestamp, clock
      ensures Valid() && w.spine == old(w.spine) && w.held == old(w.held)
      ensures stop == (response.Some? && response.value.ptype == PTYPE_DATA)
      ensures State() == if stop then old(State()) else Spec.Receive(clock.times, old(State()), response)
    {
      var resp := new Packet();
      var code := resp.Decode(crc, data, len);
      if code != PktOk {
        return false;
      }
      if resp.ptype == PTYPE_DATA {
        return true;
      }
      HandleResponse(resp);
      return false;
    }

    /** Waits for a response, or until a timer runs out, or not at all. */
    method Wait()
      requires Valid() && Spec.Running(State())
      modifies clock
      ensures Valid() && State() == Spec.Wait(old(State()))
    {
      if sentEof || w.bufsize != 0 || w.size != 0 {
        var timeout := GetTimeout();
      }
    }

    /** Sends something new after the retransmissions `r`, which began with `sofar` sent. */
    method SendMore(ghost s: Spec.State, ghost r: Spec.Resent, ghost sofar: seq<seq<byte>>)
      returns (ghost added: set<Node>, ghost kept: set<Packet>)
      requires Valid() && State() == s.(buf := r.buf, calls := r.calls)
      requires wire == sofar + Encodings(crc, r.sent)
      modifies this`offset, this`next, this`sentEof, this`wire, w, clock
      ensures Valid() && fresh(added) && w.spine == old(w.spine) + added
      ensures fresh(kept) && w.held == old(w.held) + kept
      ensures var it := Spec.SendMore(infile, clock.times, s, r);
              State() == it.state && wire == sofar + Encodings(crc, it.sent)
    {
      ghost var n := Spec.SendNew(infile, clock.times, State());
      SendingBoth(crc, sofar, wire, r.sent, n.sent);
      added, kept := SendNew();
    }

    /** The second half of an iteration: send again what expired, then something new. */
    method SendPackets(ghost it: Spec.Iteration) returns (ghost added: set<Node>, ghost kept: set<Packet>)
      requires Valid() && Spec.ReadyToRetransmit(clock.times, State())
      requires it == Spec.SendPackets(infile, clock.times, State())
      modifies this`offset, this`next, this`sentEof, this`wire, w, w.held`timestamp, clock
      ensures Valid() && fresh(added) && w.spine == old(w.spine) + added
      ensures fresh(kept) && w.held == old(w.held) + kept
      ensures State() == it.state && wire == old(wire) + Encodings(crc, it.sent)
    {
      ghost var s, sofar := State(), wire;
      ghost var r := Spec.Retransmit(clock.times, w.contents, Tick(clock.times, clock.calls), clock.calls + 1);
      assert it == Spec.SendMore(infile, clock.times, s, r);
      Retransmit(s, r);
      added, kept := SendMore(s, r, sofar);
    }

    /** The first half of an iteration: wait, then handle what was received, if anything. */
    method WaitAndReceive(data: array?<byte>, len: nat, ghost response: Option<Pkt>) returns (stop: bool)
      requires Valid() && Spec.Running(State())
      requires (data != null ==> len <= data.Length) && response == Response(data, len)
      modifies w, w.spine, w.held`timestamp, clock
      ensures Valid() && w.spine == old(w.spine) && w.held == old(w.held)
      ensures stop == (response.Some? && response.value.ptype == PTYPE_DATA)
      ensures State() == if stop then Spec.Wait(old(State()))
                         else Spec.Receive(clock.times, Spec.Wait(old(State())), response)
    {
      Wait();
      stop := false;
      if data != null {
        stop := Receive(data, len, response);
      }
    }

    /** One iteration; `data` is null when nothing was received, `it` is what the iteration does. */
    method MainLoop(data: array?<byte>, len: nat, ghost it: Spec.Iteration)
      returns (ghost added: set<Node>, ghost kept: set<Packet>)
      requires Valid() && Spec.Running(State()) && Spec.Timely(clock.times, State())
      requires data != null ==> len <= data.Length
      requires it == Spec.Iterate(infile, clock.times, State(), Response(data, len))
      modifies this`offset, this`next, this`sentEof, this`wire, w, w.spine, w.held`timestamp, clock
      ensures Valid() && fresh(added) && w.spine == old(w.spine) + added
      ensures fresh(kept) && w.held == old(w.held) + kept
      ensures State() == it.state && wire == old(wire) + Encodings(crc, it.sent)
    {
      ghost var response := Response(data, len);
      Spec.ReceiveInTime(clock.times, State(), response);
      added, kept := {}, {};
      var stop := WaitAndReceive(data, len, response);
      if !stop {
        added, kept := SendPackets(it);
      } else {
        assert Encodings(crc, []) == [];
      }
    }
  }
}
