/** What the receiver does with each packet, on values, and what that guarantees. */
module ReceiverSpec {
  import opened Types
  import opened Codec
  import opened Lists
  import opened Buffer
  import opened Ring

  /** Window start, out-of-sequence packets, bytes written, and whether EOF was consumed. */
  datatype State = State(pos: byte, buf: seq<Pkt>, out: seq<byte>, eof: bool)

  const INITIAL := State(0, [], [], false)

  datatype Outcome = Ignored | Aborted | Replied(state: State, reply: Pkt)

  predicate Accepts(r: State, p: Pkt) {
    InWindow(r.pos, MAX_WINDOW_SIZE, MAX_SEQNUM, p.seqnum)
  }

  function FreeSlots(r: State): bits5 {
    Available(|r.buf|, MAX_WINDOW_SIZE)
  }

  function Store(r: State, p: Pkt): State {
    if p.seqnum in Seqnums(r.buf) || Full(|r.buf|, MAX_WINDOW_SIZE, MAX_WINDOW_SIZE) then r
    else r.(buf := [p] + r.buf)
  }

  /** Writes in-sequence packets as long as there is one; None when the pop assertion fails. */
  ghost function Drain(r: State): Option<State>
    decreases |r.buf|
  {
    var i := FirstIndex(Seqnums(r.buf), r.pos);
    if i == |r.buf| then Some(r)
    else if TimestampVictim(r.buf, r.buf[i].timestamp) != i then None
    else Drain(Written(r, i))
  }

  /** One round of the loop, for the packet at `i`, the first with the number at the window start. */
  lemma DrainStep(r: State, i: nat, r': State, goal: Option<State>)
    requires i == FirstIndex(Seqnums(r.buf), r.pos) < |r.buf|
    requires r' == Written(r, i) && goal == Drain(r)
    ensures goal == if TimestampVictim(r.buf, r.buf[i].timestamp) == i then Drain(r') else None
  {
  }

  /** The state after packet number `i` of the buffer was written and removed. */
  function Written(r: State, i: nat): State
    requires i < |r.buf|
  {
    var payload := r.buf[i].payload;
    State(if payload == [] then r.pos else Successor(r.pos, MAX_SEQNUM),
          RemoveAt(r.buf, i), r.out + payload, r.eof || payload == [])
  }

  function Nack(r: State, p: Pkt): Pkt {
    Pkt(PTYPE_NACK, false, FreeSlots(r), p.seqnum, 0, 0, [])
  }

  function Ack(r: State, p: Pkt): Pkt {
    Pkt(PTYPE_ACK, false, FreeSlots(r), r.pos, 0, p.timestamp, [])
  }

  /** One received packet. Its type is not looked at. */
  ghost function Handle(r: State, p: Pkt): Outcome {
    if !Accepts(r, p) then Ignored
    else if p.tr then Replied(r, Nack(r, p))
    else
      match Drain(Store(r, p))
      case None => Aborted
      case Some(after) => Replied(after, Ack(after, p))
  }

  /** One received datagram; what does not decode is ignored. */
  ghost function HandleDatagram(crc: Crc, r: State, d: seq<byte>): Outcome {
    var p := Decode(crc, d);
    if p.Ok? then Handle(r, p.value) else Ignored
  }

  function Next(r: State, o: Outcome): State
    requires !o.Aborted?
  {
    if o.Ignored? then r else o.state
  }

  /** A packet only enters the buffer when it is intact and in the window. */
  lemma StoredWasAccepted(r: State, p: Pkt, q: Pkt)
    requires !Handle(r, p).Aborted? && q in Next(r, Handle(r, p)).buf
    requires q in r.buf || q == p
    ensures q in r.buf || (q == p && Accepts(r, p) && !p.tr)
  {
  }

  /* ---------- the buffer never fills up ---------- */

  function Distance(r: State, p: Pkt): (d: nat)
    ensures d < 256
  {
    Offset(r.pos, p.seqnum, 256)
  }

  /** Distinct sequence numbers, all in the window and at least `least` after its start. */
  ghost predicate Spread(r: State, least: nat) {
    && Distinct(Seqnums(r.buf))
    && forall p | p in r.buf :: least <= Distance(r, p) < MAX_WINDOW_SIZE
  }

  lemma DistanceZero(r: State, p: Pkt)
    ensures Distance(r, p) == 0 <==> p.seqnum == r.pos
  {
    ModOnce(p.seqnum - r.pos, 256);
  }

  lemma AcceptsByDistance(r: State, p: Pkt)
    ensures Accepts(r, p) <==> Distance(r, p) < MAX_WINDOW_SIZE
  {
    InWindowIffOffset(r.pos, MAX_WINDOW_SIZE, MAX_SEQNUM, p.seqnum);
  }

  /** Pigeonhole: distances of distinct sequence numbers are distinct. */
  lemma SpreadIsSmall(r: State, least: nat)
    requires Spread(r, least) && least <= MAX_WINDOW_SIZE
    ensures |r.buf| <= MAX_WINDOW_SIZE - least
  {
    var distances := seq(|r.buf|, i requires 0 <= i < |r.buf| => Distance(r, r.buf[i]));
    forall i, j | 0 <= i < j < |r.buf|
      ensures distances[i] != distances[j]
    {
      assert Seqnums(r.buf)[i] != Seqnums(r.buf)[j];
      ModOnce(r.buf[i].seqnum - r.pos, 256);
      ModOnce(r.buf[j].seqnum - r.pos, 256);
    }
    forall x | x in distances
      ensures least <= x < MAX_WINDOW_SIZE
    {
      var i :| 0 <= i < |distances| && distances[i] == x;
      assert r.buf[i] in r.buf;
    }
    DistinctInRange(distances, least, MAX_WINDOW_SIZE);
  }

  lemma WrittenKeepsSpread(r: State, i: nat)
    requires Spread(r, 0) && i < |r.buf| && r.buf[i].seqnum == r.pos
    ensures Spread(Written(r, i), 0)
    ensures r.buf[i].payload == [] ==> Spread(Written(r, i), 1)
  {
    var after := Written(r, i);
    SeqnumsOfRemoveAt(r.buf, i);
    RemoveAtDistinct(Seqnums(r.buf), i);
    RemoveAtMembers(r.buf, i);
    forall p | p in after.buf
      ensures p.seqnum != r.pos && Distance(r, p) < MAX_WINDOW_SIZE
      ensures Distance(after, p) < MAX_WINDOW_SIZE
      ensures after.pos == r.pos ==> 1 <= Distance(after, p)
    {
      var j :| 0 <= j < |after.buf| && after.buf[j] == p;
      assert Seqnums(after.buf)[j] == p.seqnum;
      DistanceZero(r, p);
      OffsetAfterSlide(r.pos, MAX_SEQNUM, p.seqnum);
    }
  }

  /** With nothing at the window start, every distance is positive. */
  lemma NothingAtStart(r: State)
    requires Spread(r, 0) && r.pos !in Seqnums(r.buf)
    ensures Spread(r, 1)
  {
    forall p | p in r.buf
      ensures 1 <= Distance(r, p)
    {
      var j :| 0 <= j < |r.buf| && r.buf[j] == p;
      assert Seqnums(r.buf)[j] == p.seqnum;
      DistanceZero(r, p);
    }
  }

  lemma {:induction false} DrainKeepsSpread(r: State)
    requires Spread(r, 0) && Drain(r).Some?
    ensures Spread(Drain(r).value, 1)
    decreases |r.buf|
  {
    var i := FirstIndex(Seqnums(r.buf), r.pos);
    if i == |r.buf| {
      NothingAtStart(r);
    } else {
      WrittenKeepsSpread(r, i);
      DrainKeepsSpread(Written(r, i));
    }
  }

  lemma StoreKeepsSpread(r: State, p: Pkt)
    requires Spread(r, 1) && Accepts(r, p)
    ensures |r.buf| < MAX_WINDOW_SIZE
    ensures Spread(Store(r, p), 0)
    ensures p.seqnum in Seqnums(Store(r, p).buf)
  {
    SpreadIsSmall(r, 1);
    AcceptsByDistance(r, p);
    var s := Store(r, p);
    if s != r {
      assert Seqnums(s.buf) == [p.seqnum] + Seqnums(r.buf);
      assert Seqnums(s.buf)[0] == p.seqnum;
    }
  }

  /**
   Whatever packets arrive, as long as the pop assertion holds: the buffer keeps a free slot, so the
   full-buffer branch is dead, and every reply advertises a window between 1 and 31.
   */
  lemma NeverFull(r: State, p: Pkt)
    requires Spread(r, 1) && Handle(r, p).Replied?
    ensures |r.buf| <= 30 && !Full(|r.buf|, MAX_WINDOW_SIZE, MAX_WINDOW_SIZE)
    ensures Spread(Handle(r, p).state, 1)
    ensures |Handle(r, p).state.buf| <= 30
    ensures 1 <= Handle(r, p).reply.window <= 31
  {
    SpreadIsSmall(r, 1);
    if !p.tr {
      StoreKeepsSpread(r, p);
      DrainKeepsSpread(Store(r, p));
    }
    SpreadIsSmall(Handle(r, p).state, 1);
  }
}
