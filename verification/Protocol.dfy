/**
 Sender and receiver joined by a network that loses, repeats, reorders and truncates datagrams:
 whatever was sent may arrive at any time and any number of times, whole or cut to its header, and
 what arrives otherwise does not decode.
 */
module Protocol {
  import opened Types
  import opened Codec
  import opened Buffer
  import opened Ring
  import opened TimeSource
  import opened StreamSafety
  import opened SenderSpec
  import opened FileStream
  import opened SenderRuns
  import R = ReceiverSpec

  datatype Config = Config(file: seq<byte>, source: Source, crc: Crc)

  datatype System = System(sender: World, receiver: R.State, replies: seq<Pkt>, aborted: bool)

  const BEGINNING := System(START, R.INITIAL, [], false)

  datatype Event =
    | SenderIterates(arrived: Option<seq<byte>>)  // what was waiting on the sender's socket
    | ReceiverGets(datagram: seq<byte>)

  /** What the network may deliver when the packets of `sent` were put into it. */
  ghost predicate CanArrive(crc: Crc, sent: seq<Pkt>, d: seq<byte>) {
    || Decode(crc, d).Err?
    || exists m | m in sent ::
         || d == Encode(crc, m)
         || (|Encode(crc, m)| >= HEADER_SIZE && Encode(crc, m)[0] / 32 % 2 == 0 && d == Truncate(Encode(crc, m)))
  }

  function Received(crc: Crc, d: seq<byte>): Option<Pkt> {
    var r := Decode(crc, d);
    if r.Ok? then Some(r.value) else None
  }

  function Response(crc: Crc, arrived: Option<seq<byte>>): Option<Pkt> {
    if arrived.None? then None else Received(crc, arrived.value)
  }

  ghost predicate Enabled(cfg: Config, s: System, e: Event) {
    match e
    case SenderIterates(arrived) =>
      && Running(s.sender.state) && Timely(cfg.source, s.sender.state)
      && (arrived.Some? ==> CanArrive(cfg.crc, s.replies, arrived.value))
    case ReceiverGets(d) =>
      !s.aborted && CanArrive(cfg.crc, s.sender.history, d)
  }

  ghost function AfterHandling(s: System, o: R.Outcome): System {
    match o
    case Ignored => s
    case Aborted => s.(aborted := true)
    case Replied(after, reply) => s.(receiver := after, replies := s.replies + [reply])
  }

  ghost function Apply(cfg: Config, s: System, e: Event): System
    requires Enabled(cfg, s, e)
  {
    match e
    case SenderIterates(arrived) =>
      s.(sender := SenderRuns.Next(cfg.file, cfg.source, s.sender, Response(cfg.crc, arrived)))
    case ReceiverGets(d) =>
      var p := Received(cfg.crc, d);
      if p.None? then s else AfterHandling(s, R.Handle(s.receiver, p.value))
  }

  ghost predicate IsRun(cfg: Config, run: seq<System>, events: seq<Event>) {
    && |run| == |events| + 1 && run[0] == BEGINNING
    && forall k | 0 <= k < |events| :: LeadsTo(cfg, run[k], events[k], run[k + 1])
  }

  ghost predicate LeadsTo(cfg: Config, s: System, e: Event, s': System) {
    Enabled(cfg, s, e) && s' == Apply(cfg, s, e)
  }

  /** What decodes was sent, or is the header of a DATA packet that was sent. */
  lemma ArrivedWasSent(crc: Crc, sent: seq<Pkt>, d: seq<byte>)
    requires CanArrive(crc, sent, d) && Decode(crc, d).Ok?
    requires forall m | m in sent :: m.Encodable() && !m.tr
    ensures var p := Decode(crc, d).value;
            p in sent || exists m | m in sent :: m.ptype == PTYPE_DATA && p == Truncated(m)
  {
    var m :| m in sent &&
      (|| d == Encode(crc, m)
       || (|Encode(crc, m)| >= HEADER_SIZE && Encode(crc, m)[0] / 32 % 2 == 0 && d == Truncate(Encode(crc, m))));
    DecodeAfterEncode(crc, m);
    TruncationIsTransparent(crc, m);
  }

  /** The run ends in `s`. */
  ghost predicate RunsTo(cfg: Config, run: seq<System>, events: seq<Event>, s: System) {
    IsRun(cfg, run, events) && run[|run| - 1] == s
  }

  lemma StepOf(cfg: Config, run: seq<System>, events: seq<Event>, k: nat, next: nat)
    requires IsRun(cfg, run, events) && k < |events| && next == k + 1
    ensures LeadsTo(cfg, run[k], events[k], run[next])
  {
  }

  lemma RunOn(cfg: Config, run: seq<System>, events: seq<Event>, s: System, e: Event, s': System)
    requires RunsTo(cfg, run, events, s) && LeadsTo(cfg, s, e, s')
    ensures RunsTo(cfg, run + [s'], events + [e], s')
  {
    var run', events' := run + [s'], events + [e];
    forall k | 0 <= k < |events'|
      ensures LeadsTo(cfg, run'[k], events'[k], run'[k + 1])
    {
      if k < |events| {
        assert LeadsTo(cfg, run[k], events[k], run[k + 1]);
      }
    }
  }

  /** A datagram that was sent reaches the receiver. */
  lemma DeliverToReceiver(cfg: Config, s: System, p: Pkt, after: R.State, reply: Pkt) returns (e: Event)
    requires !s.aborted && p in s.sender.history && p.Encodable()
    requires R.Handle(s.receiver, p) == R.Replied(after, reply)
    ensures Enabled(cfg, s, e) && e.ReceiverGets?
    ensures Apply(cfg, s, e) == s.(receiver := after, replies := s.replies + [reply])
  {
    e := ReceiverGets(Encode(cfg.crc, p));
    DecodeAfterEncode(cfg.crc, p);
  }

  /** A reply that was sent reaches the sender. */
  lemma DeliverToSender(cfg: Config, s: System, a: Pkt) returns (e: Event)
    requires Running(s.sender.state) && Timely(cfg.source, s.sender.state)
    requires a in s.replies && a.Encodable()
    ensures Enabled(cfg, s, e) && e.SenderIterates? && Response(cfg.crc, e.arrived) == Some(a)
    ensures Apply(cfg, s, e) == s.(sender := SenderRuns.Next(cfg.file, cfg.source, s.sender, Some(a)))
  {
    e := SenderIterates(Some(Encode(cfg.crc, a)));
    DecodeAfterEncode(cfg.crc, a);
  }

  /* ---------- where the packets are ---------- */

  /** Stream packet `i` is in the sender's buffer. */
  ghost predicate Held(buf: seq<Pkt>, i: nat) {
    exists p | p in buf :: p.seqnum == i
  }

  /** Stream packet `i` was consumed by the receiver or is in its buffer. */
  ghost predicate Safe(r: R.State, i: nat) {
    Consumed(r.pos, r, i) || Held(r.buf, i)
  }

  /** Every packet sent is somewhere. */
  ghost predicate NoLoss(s: System) {
    forall i: nat | i < s.sender.count :: Held(s.sender.state.buf, i) || Safe(s.receiver, i)
  }

  /** An ACK reports the window start and echoes a datagram whose packet is safe. */
  ghost predicate Truthful(history: seq<Pkt>, r: R.State, reply: Pkt) {
    && reply.Encodable() && !reply.tr && 1 <= reply.window <= 31
    && (reply.ptype == PTYPE_ACK || reply.ptype == PTYPE_NACK)
    && (reply.ptype == PTYPE_ACK ==>
          && reply.seqnum <= r.pos
          && exists h | h in history :: h.timestamp == reply.timestamp && Safe(r, h.seqnum))
  }

  ghost predicate SoundSender(cfg: Config, w: World) {
    Stamped(cfg.source, w) && Synced(cfg.file, w) && LastSent(w)
  }

  /** `written` packets of the file were written, and what is buffered was sent. */
  ghost predicate Follows(file: seq<byte>, history: seq<Pkt>, written: nat, r: R.State) {
    && InStep(StreamOf(file), written, r) && R.Spread(r, 1)
    && forall p | p in r.buf :: p in history
  }

  ghost predicate SoundReceiver(cfg: Config, history: seq<Pkt>, r: R.State) {
    Follows(cfg.file, history, r.pos, r)
  }

  ghost predicate AllTruthful(history: seq<Pkt>, r: R.State, replies: seq<Pkt>) {
    forall reply | reply in replies :: Truthful(history, r, reply)
  }

  /** What every reachable state satisfies, whatever ACKs were handled. */
  ghost predicate Sound(cfg: Config, s: System) {
    && !s.aborted
    && SoundSender(cfg, s.sender)
    && SoundReceiver(cfg, s.sender.history, s.receiver)
    && AllTruthful(s.sender.history, s.receiver, s.replies)
  }

  lemma HistoryEncodable(cfg: Config, w: World)
    requires Synced(cfg.file, w)
    ensures forall h | h in w.history :: h.Encodable() && !h.tr && h.ptype == PTYPE_DATA
  {
  }

  /** Two datagrams with the same timestamp are the same datagram. */
  lemma TimestampTells(w: World, p: Pkt, q: Pkt)
    requires Ascending(w.history) && p in w.history && q in w.history && p.timestamp == q.timestamp
    ensures p == q
  {
  }

  /** The packet that the event brings to the receiver, if it brings one that decodes. */
  function PacketIn(cfg: Config, e: Event): Option<Pkt> {
    if e.SenderIterates? then None else Received(cfg.crc, e.datagram)
  }

  /** What arrives was sent, or is truncated, and the receiver handles it. */
  lemma ReceiverEvent(cfg: Config, s: System, e: Event)
    requires Enabled(cfg, s, e) && e.ReceiverGets? && Synced(cfg.file, s.sender)
    ensures var p := PacketIn(cfg, e);
            match p
            case None => Apply(cfg, s, e) == s
            case Some(v) =>
              && (v in s.sender.history || v.tr)
              && Apply(cfg, s, e) == AfterHandling(s, R.Handle(s.receiver, v))
  {
    if PacketIn(cfg, e).Some? {
      HistoryEncodable(cfg, s.sender);
      ArrivedWasSent(cfg.crc, s.sender.history, e.datagram);
    }
  }

  /* ---------- the receiver moves, with files of any length ---------- */

  /** Stream packet `i` is not too far from those written, or its number is not used again. */
  predicate InReach(file: seq<byte>, written: nat, i: int) {
    i <= written + 255 && (written - 225 <= i || PacketCount(file) <= i + 256)
  }

  /** An intact packet is a copy of a stream packet in reach. */
  ghost predicate Near(file: seq<byte>, written: nat, p: Pkt) {
    p.tr || exists i :: InReach(file, written, i) && IsCopy(StreamOf(file), i, p)
  }

  /** Such a packet is not taken for another one of the stream. */
  lemma NearIsPlaced(file: seq<byte>, written: nat, r: R.State, p: Pkt)
    requires r.pos == written % 256 && written < PacketCount(file)
    requires Near(file, written, p) && R.Accepts(r, p) && !p.tr
    ensures Placed(StreamOf(file), written, r, p)
  {
    var i :| InReach(file, written, i) && IsCopy(StreamOf(file), i, p);
    NearCopiesAreRecognised(StreamOf(file), written, r, i, p);
    DistanceOfCopy(written, r, i, p);
  }

  lemma ArrivalFits(file: seq<byte>, w: World, written: nat, r: R.State, p: Pkt)
    requires Ascending(w.history) && Follows(file, w.history, written, r)
    requires (p in w.history || p.tr) && Near(file, written, p)
    ensures Fits(StreamOf(file), written, r, p)
  {
    if !p.tr && R.Accepts(r, p) {
      NearIsPlaced(file, written, r, p);
      forall q | q in r.buf && q.seqnum != p.seqnum
        ensures q.timestamp != p.timestamp
      {
        if q.timestamp == p.timestamp {
          TimestampTells(w, p, q);
        }
      }
    }
  }

  /** Handling a packet moves the receiver `n` packets of the file forward. */
  lemma ReceiverFollows(file: seq<byte>, w: World, written: nat, r: R.State, p: Pkt) returns (n: nat)
    requires Ascending(w.history) && Follows(file, w.history, written, r)
    requires (p in w.history || p.tr) && Near(file, written, p)
    ensures n <= 31 && !R.Handle(r, p).Aborted?
    ensures var after := R.Next(r, R.Handle(r, p));
            StaysInStep(StreamOf(file), written, r, p, n, after) && Follows(file, w.history, written + n, after)
  {
    FileGivesStream(file);
    ArrivalFits(file, w, written, r, p);
    n := HandleStaysInStep(StreamOf(file), written, r, p);
    BufferFromHistory(w.history, written, r, p, n, R.Next(r, R.Handle(r, p)));
  }

  lemma BufferFromHistory(history: seq<Pkt>, written: nat, r: R.State, p: Pkt, n: nat, after: R.State)
    requires p in history || p.tr
    requires forall q | q in r.buf :: q in history
    requires !R.Handle(r, p).Aborted? && after == R.Next(r, R.Handle(r, p))
    requires Advanced(written, r, p, n, after)
    ensures forall q | q in after.buf :: q in history
  {
    forall q | q in after.buf
      ensures q in history
    {
      R.StoredWasAccepted(r, p, q);
    }
  }

  /* ---------- the receiver moves, with at most 256 packets ---------- */

  /** With at most 256 packets every packet sent is in reach. */
  lemma ShortIsNear(cfg: Config, w: World, written: nat, p: Pkt)
    requires Synced(cfg.file, w) && PacketCount(cfg.file) <= 256 && (p in w.history || p.tr)
    ensures Near(cfg.file, written, p)
  {
    if !p.tr {
      NumberIsIndex(cfg.file, w.count, w.history, p);
      assert InReach(cfg.file, written, p.seqnum) && IsCopy(StreamOf(cfg.file), p.seqnum, p);
    }
  }

  /** Where an old copy seems to belong. */
  lemma OldCopiesFit(cfg: Config, s: System, p: Pkt)
    requires Sound(cfg, s) && PacketCount(cfg.file) <= 256 && p in s.sender.history
    ensures StreamIndex(s.receiver.pos, s.receiver, p)
         == if p.seqnum >= s.receiver.pos then p.seqnum else p.seqnum + 256
  {
    ModOnce(p.seqnum - s.receiver.pos, 256);
  }

  /** With at most 256 packets the window start is the number of packets written. */
  lemma StartIsWritten(stream: seq<seq<byte>>, written: nat, r: R.State)
    requires InStep(stream, written, r) && |stream| <= 256
    ensures r.pos == written
  {
  }

  /** Handling a packet moves the window start forward by `n` packets of the stream. */
  lemma HandleMoves(cfg: Config, s: System, p: Pkt) returns (n: nat)
    requires Sound(cfg, s) && PacketCount(cfg.file) <= 256
    requires p in s.sender.history || p.tr
    ensures !R.Handle(s.receiver, p).Aborted?
    ensures var r, after := s.receiver, R.Next(s.receiver, R.Handle(s.receiver, p));
            && after.pos == r.pos + n
            && SoundReceiver(cfg, s.sender.history, after)
            && StaysInStep(StreamOf(cfg.file), r.pos, r, p, n, after)
  {
    var r := s.receiver;
    ShortIsNear(cfg, s.sender, r.pos, p);
    n := ReceiverFollows(cfg.file, s.sender, r.pos, r, p);
    FollowsIsSound(cfg, s.sender.history, r.pos + n, R.Next(r, R.Handle(r, p)));
  }

  lemma FollowsIsSound(cfg: Config, history: seq<Pkt>, written: nat, r: R.State)
    requires Follows(cfg.file, history, written, r) && PacketCount(cfg.file) <= 256
    ensures r.pos == written && SoundReceiver(cfg, history, r)
  {
    StartIsWritten(StreamOf(cfg.file), written, r);
  }

  /** What was safe stays safe. */
  lemma SafeStaysSafe(cfg: Config, s: System, p: Pkt, n: nat, after: R.State, i: nat)
    requires Sound(cfg, s) && PacketCount(cfg.file) <= 256
    requires after.pos == s.receiver.pos + n && InStep(StreamOf(cfg.file), after.pos, after)
    requires Advanced(s.receiver.pos, s.receiver, p, n, after)
    requires Safe(s.receiver, i)
    ensures Safe(after, i)
  {
    if !Consumed(s.receiver.pos, s.receiver, i) {
      var q :| q in s.receiver.buf && q.seqnum == i;
      OldCopiesFit(cfg, s, q);
    }
  }

  /** A packet that was just acknowledged is safe. */
  lemma AcknowledgedIsSafe(cfg: Config, s: System, p: Pkt, n: nat, after: R.State)
    requires Sound(cfg, s) && PacketCount(cfg.file) <= 256 && p in s.sender.history
    requires after.pos == s.receiver.pos + n
    requires Acknowledged(s.receiver.pos, s.receiver, p, n, after)
    ensures Safe(after, p.seqnum)
  {
    OldCopiesFit(cfg, s, p);
  }

  /** A reply that is a NACK, or an ACK for a packet that is safe. */
  lemma TruthfulReply(history: seq<Pkt>, r: R.State, p: Pkt, reply: Pkt)
    requires 1 <= reply.window <= 31
    requires (p.tr && reply == R.Nack(r, p)) || (p in history && Safe(r, p.seqnum) && reply == R.Ack(r, p))
    ensures Truthful(history, r, reply)
  {
  }

  lemma ReplyOf(r: R.State, p: Pkt)
    requires R.Handle(r, p).Replied?
    ensures R.Accepts(r, p)
    ensures var o := R.Handle(r, p); o.reply == if p.tr then R.Nack(o.state, p) else R.Ack(o.state, p)
  {
  }

  lemma ReplyIsTruthful(cfg: Config, s: System, p: Pkt)
    requires Sound(cfg, s) && PacketCount(cfg.file) <= 256
    requires p in s.sender.history || p.tr
    requires R.Handle(s.receiver, p).Replied?
    ensures Truthful(s.sender.history, R.Handle(s.receiver, p).state, R.Handle(s.receiver, p).reply)
  {
    var o := R.Handle(s.receiver, p);
    R.NeverFull(s.receiver, p);
    ReplyOf(s.receiver, p);
    if !p.tr {
      var n := HandleMoves(cfg, s, p);
      AcknowledgedIsSafe(cfg, s, p, n, o.state);
    }
    TruthfulReply(s.sender.history, o.state, p, o.reply);
  }

  /** What was safe stays safe, and the window start does not go back. */
  ghost predicate NoSetback(r: R.State, after: R.State) {
    r.pos <= after.pos && forall i: nat | Safe(r, i) :: Safe(after, i)
  }

  lemma HandleKeepsReceiverSound(cfg: Config, s: System, p: Pkt)
    requires Sound(cfg, s) && PacketCount(cfg.file) <= 256
    requires p in s.sender.history || p.tr
    ensures !R.Handle(s.receiver, p).Aborted?
    ensures var after := R.Next(s.receiver, R.Handle(s.receiver, p));
            SoundReceiver(cfg, s.sender.history, after) && NoSetback(s.receiver, after)
  {
    var n := HandleMoves(cfg, s, p);
    var after := R.Next(s.receiver, R.Handle(s.receiver, p));
    assert NoSetback(s.receiver, after) by {
      forall i: nat | Safe(s.receiver, i)
        ensures Safe(after, i)
      {
        SafeStaysSafe(cfg, s, p, n, after, i);
      }
    }
  }

  lemma RepliesStayTruthful(history: seq<Pkt>, r: R.State, after: R.State, replies: seq<Pkt>)
    requires AllTruthful(history, r, replies) && NoSetback(r, after)
    ensures AllTruthful(history, after, replies)
  {
    forall reply | reply in replies
      ensures Truthful(history, after, reply)
    {
      assert Truthful(history, r, reply);
      if reply.ptype == PTYPE_ACK {
        var h :| h in history && h.timestamp == reply.timestamp && Safe(r, h.seqnum);
        assert Safe(after, h.seqnum);
      }
    }
  }

  lemma TruthfulAppend(history: seq<Pkt>, r: R.State, replies: seq<Pkt>, reply: Pkt)
    requires AllTruthful(history, r, replies) && Truthful(history, r, reply)
    ensures AllTruthful(history, r, replies + [reply])
  {
  }

  /** What handling `p` does to the whole system. */
  lemma HandlingKeepsSound(cfg: Config, s: System, p: Pkt)
    requires Sound(cfg, s) && PacketCount(cfg.file) <= 256
    requires p in s.sender.history || p.tr
    ensures var after := AfterHandling(s, R.Handle(s.receiver, p));
            Sound(cfg, after) && NoSetback(s.receiver, after.receiver)
  {
    var o := R.Handle(s.receiver, p);
    HandleKeepsReceiverSound(cfg, s, p);
    if o.Replied? {
      ReplyIsTruthful(cfg, s, p);
      RepliesStayTruthful(s.sender.history, s.receiver, o.state, s.replies);
      TruthfulAppend(s.sender.history, o.state, s.replies, o.reply);
    }
  }

  /** A datagram that arrives at the receiver keeps the system sound and loses nothing. */
  lemma ReceiverKeepsSound(cfg: Config, s: System, e: Event)
    requires Sound(cfg, s) && PacketCount(cfg.file) <= 256
    requires Enabled(cfg, s, e) && e.ReceiverGets?
    ensures Sound(cfg, Apply(cfg, s, e)) && Apply(cfg, s, e).sender == s.sender
    ensures NoSetback(s.receiver, Apply(cfg, s, e).receiver)
  {
    ReceiverEvent(cfg, s, e);
    if PacketIn(cfg, e).Some? {
      HandlingKeepsSound(cfg, s, PacketIn(cfg, e).value);
    }
  }

  /* ---------- the sender moves ---------- */

  lemma HistoryOnlyGrows(cfg: Config, w: World, response: Option<Pkt>)
    requires Timely(cfg.source, w.state)
    ensures var w' := SenderRuns.Next(cfg.file, cfg.source, w, response);
            forall h | h in w.history :: h in w'.history
  {
  }

  lemma CountStaysSmall(cfg: Config, w: World)
    requires Synced(cfg.file, w) && PacketCount(cfg.file) <= 256
    ensures w.count <= 256
  {
  }

  /** An iteration of the sender keeps the system sound, whatever it receives. */
  lemma SenderKeepsSound(cfg: Config, s: System, arrived: Option<seq<byte>>)
    requires Sound(cfg, s) && PacketCount(cfg.file) <= 256
    requires Enabled(cfg, s, SenderIterates(arrived))
    ensures Sound(cfg, Apply(cfg, s, SenderIterates(arrived)))
  {
    var response := Response(cfg.crc, arrived);
    var w' := SenderRuns.Next(cfg.file, cfg.source, s.sender, response);
    IterationStamps(cfg.file, cfg.source, s.sender, response);
    IterationSyncs(cfg.file, cfg.source, s.sender, response);
    CountStaysSmall(cfg, w');
    ShortNumbersStayDistinct(cfg.file, cfg.source, s.sender, response, w');
    IterationKeepsLast(cfg.file, cfg.source, s.sender, response, w');
    HistoryOnlyGrows(cfg, s.sender, response);
    forall reply | reply in s.replies
      ensures Truthful(w'.history, s.receiver, reply)
    {
      assert Truthful(s.sender.history, s.receiver, reply);
    }
  }

  lemma NumbersAfterSending(file: seq<byte>, source: Source, w: World)
    requires Synced(file, w)
    ensures var w' := AfterSend(file, source, w);
            && w.count <= w'.count <= w.count + 1
            && Seqnums(w'.state.buf) == (if w'.count == w.count then [] else [w.count % 256]) + Seqnums(w.state.buf)
  {
    var n := SendNew(file, source, w.state);
    if n.sent != [] {
      assert Seqnums(n.state.buf) == [w.count % 256] + Seqnums(w.state.buf);
    } else {
      assert [] + Seqnums(w.state.buf) == Seqnums(w.state.buf);
    }
  }

  /** Numbers in the buffer after an iteration: those left by the response, and the new packet. */
  lemma NumbersAfterIteration(cfg: Config, w: World, response: Option<Pkt>)
    requires Synced(cfg.file, w) && Timely(cfg.source, w.state) && !CutShort(response)
    ensures var left := AfterReceive(cfg.source, w, response).state.buf;
            var w' := SenderRuns.Next(cfg.file, cfg.source, w, response);
            && w.count <= w'.count <= w.count + 1
            && Seqnums(w'.state.buf) == (if w'.count == w.count then [] else [w.count % 256]) + Seqnums(left)
  {
    Phases(cfg.file, cfg.source, w, response);
    ReceiveSyncs(cfg.file, cfg.source, w, response);
    var received := AfterReceive(cfg.source, w, response);
    ResendSyncs(cfg.file, cfg.source, received);
    ResendKeepsNumbers(cfg.source, received);
    NumbersAfterSending(cfg.file, cfg.source, AfterResend(cfg.source, received));
  }

  lemma HeldBySeqnums(buf: seq<Pkt>, i: nat)
    ensures Held(buf, i) <==> i in Seqnums(buf)
  {
    if Held(buf, i) {
      var p :| p in buf && p.seqnum == i;
      var j :| 0 <= j < |buf| && buf[j] == p;
      assert Seqnums(buf)[j] == i;
    }
    if i in Seqnums(buf) {
      var j :| 0 <= j < |buf| && Seqnums(buf)[j] == i;
      assert buf[j] in buf;
    }
  }

  /**
   What the sender itself can see: the echoed timestamp was popped by the cumulative loop, or is still
   buffered, or nothing is left to pop.
   */
  ghost predicate EchoFound(buf: seq<Pkt>, ack: Pkt) {
    var kept := Keep(buf, NumbersFrom(ack.seqnum));
    AnyBelow(buf, ack.seqnum, ack.timestamp) || kept == [] || ack.timestamp in Timestamps(kept)
  }

  /** The echo is found, or else the receiver has the front packet that goes instead. */
  ghost predicate HarmlessAck(s: System, ack: Pkt) {
    var buf := s.sender.state.buf;
    EchoFound(buf, ack) || Safe(s.receiver, Keep(buf, NumbersFrom(ack.seqnum))[0].seqnum)
  }

  /** The ACK that the event brings to the sender, if it brings one. */
  function AckIn(cfg: Config, e: Event): Option<Pkt> {
    if e.ReceiverGets? then None
    else
      var response := Response(cfg.crc, e.arrived);
      if response.Some? && response.value.ptype == PTYPE_ACK then response else None
  }

  ghost predicate Harmless(cfg: Config, s: System, e: Event) {
    AckIn(cfg, e).Some? ==> HarmlessAck(s, AckIn(cfg, e).value)
  }
}
