/**
 Lossless delivery for files of any length. Packets are told apart by their index in the stream: a buffered
 packet is the latest one with its number, as long as no two buffered packets have the same number, and each
 datagram has the index its packet had when it was sent.
 */
module LongDelivery {
  import opened Types
  import opened Codec
  import opened Lists
  import opened Buffer
  import opened Ring
  import opened TimeSource
  import opened StreamSafety
  import opened SenderSpec
  import opened FileStream
  import opened SenderRuns
  import opened Protocol
  import opened FilePrefix
  import opened Delivery

  /* ---------- indices ---------- */

  /** The latest of the first `count` stream packets that has this number; negative when there is none. */
  function Latest(count: nat, number: byte): int {
    count - 1 - (count - 1 - number) % 256
  }

  lemma LatestIsBelow(count: nat, number: byte)
    ensures count - 256 <= Latest(count, number) < count
  {
  }

  lemma LatestHasNumber(count: nat, number: byte)
    ensures Latest(count, number) % 256 == number
  {
    var q := (count - 1 - number) / 256;
    assert count - 1 - number == q * 256 + (count - 1 - number) % 256;
    assert Latest(count, number) == q * 256 + number;
  }

  /** A new packet is the latest with its number, and changes nothing for the other numbers. */
  lemma LatestAfterOne(count: nat, next: nat, number: byte)
    requires next == count + 1
    ensures Latest(next, number) == if number == count % 256 then count else Latest(count, number)
  {
    var x := count - 1 - number;
    var q := x / 256;
    assert x == q * 256 + x % 256;
    ModOnce(x % 256 + 1, 256);
    assert (x + 1) % 256 == (x % 256 + 1) % 256;
    var c := count / 256;
    assert count == c * 256 + count % 256;
    ModOnce(count % 256 - number, 256);
    assert (count - number) % 256 == (count % 256 - number) % 256;
  }

  /* ---------- the sender's packets ---------- */

  /** Each buffered packet is the latest one with its number. */
  ghost predicate Recent(file: seq<byte>, w: World) {
    forall p | p in w.state.buf :: IsLatest(file, w.count, p)
  }

  ghost predicate IsLatest(file: seq<byte>, count: nat, p: Pkt) {
    Latest(count, p.seqnum) >= 0 && IsDatagram(file, Latest(count, p.seqnum), p)
  }

  /** `homes` has the index of the packet in each datagram sent; for what is buffered it is the latest one. */
  ghost predicate Homed(file: seq<byte>, w: World, homes: seq<int>) {
    && |homes| == |w.history|
    && (forall j | 0 <= j < |homes| :: 0 <= homes[j] < w.count && IsDatagram(file, homes[j], w.history[j]))
    && forall j | 0 <= j < |homes| && w.history[j] in w.state.buf ::
         homes[j] == Latest(w.count, w.history[j].seqnum)
  }

  function HomesOf(count: nat, sent: seq<Pkt>): (r: seq<int>)
    ensures |r| == |sent| && forall j | 0 <= j < |r| :: r[j] == Latest(count, sent[j].seqnum)
  {
    seq(|sent|, j requires 0 <= j < |sent| => Latest(count, sent[j].seqnum))
  }

  /** What an iteration sends is buffered after it, and what is buffered was so before or was just sent. */
  ghost predicate Exchanged(file: seq<byte>, w: World, w': World, sent: seq<Pkt>) {
    && w'.history == w.history + sent && w.count <= w'.count <= w.count + 1
    && (forall d | d in sent :: d in w'.state.buf)
    && (forall q | q in w'.state.buf :: q in sent || q in w.state.buf)
    && (forall d | d in sent :: IsResent(w.state.buf, d) || (w'.count == w.count + 1 && IsDatagram(file, w.count, d)))
    && (w'.count == w.count + 1 ==>
          w'.state.buf != [] && w'.state.buf[0] in sent && IsDatagram(file, w.count, w'.state.buf[0]))
  }

  ghost predicate IsResent(buf: seq<Pkt>, d: Pkt) {
    exists b | b in buf :: d == b.(timestamp := d.timestamp)
  }

  /** Of the packets buffered, only the one just asked for by a NACK is not as before, and has expired. */
  lemma LeftIsOldOrExpired(source: Source, w: World, response: Option<Pkt>, left: State)
    requires Timely(source, w.state) && left == AfterReceive(source, w, response).state
    ensures forall q | q in left.buf ::
              q in w.state.buf || (IsResent(w.state.buf, q) && q.timestamp <= Tick(source, left.calls))
  {
    var s := Wait(w.state);
    if response.Some? {
      if response.value.ptype == PTYPE_ACK {
        AfterAckIsSmaller(s.buf, response.value.seqnum, response.value.timestamp);
      } else {
        EarlierInTime(source, s.calls + 1, w.state.calls + |w.state.buf| + 4);
        NackedIsExpired(source, s, response.value);
      }
    }
  }

  lemma NackedIsExpired(source: Source, s: State, nack: Pkt)
    requires InTime(source, s.calls + 1)
    ensures var left := HandleNack(source, s, nack);
            forall q | q in left.buf :: q in s.buf || (IsResent(s.buf, q) && q.timestamp <= Tick(source, left.calls))
  {
    var left := HandleNack(source, s, nack);
    EarlierInTime(source, s.calls, s.calls + 1);
    forall q | q in left.buf
      ensures q in s.buf || (IsResent(s.buf, q) && q.timestamp <= Tick(source, left.calls))
    {
      var i :| 0 <= i < |left.buf| && left.buf[i] == q;
      if q != s.buf[i] {
        assert s.buf[i] in s.buf && q == s.buf[i].(timestamp := q.timestamp);
      }
    }
  }

  lemma ResendContents(source: Source, s: State, r: Resent)
    requires ReadyToRetransmit(source, s) && r == RetransmitFrom(source, s)
    ensures forall d | d in r.sent :: d in r.buf && IsResent(s.buf, d)
    ensures forall q | q in r.buf :: q in r.sent || (q in s.buf && q.timestamp > Tick(source, s.calls))
  {
    var now := Tick(source, s.calls);
    var order := RetransmitResendsExpired(source, s.buf, now, s.calls + 1);
    forall d | d in r.sent
      ensures d in r.buf && IsResent(s.buf, d)
    {
      var j :| 0 <= j < |r.sent| && r.sent[j] == d;
      assert r.buf[order[j]] == d && s.buf[order[j]] in s.buf;
    }
    forall q | q in r.buf
      ensures q in r.sent || (q in s.buf && q.timestamp > now)
    {
      var i :| 0 <= i < |r.buf| && r.buf[i] == q;
      BufferAfterResend(s.buf, now, r.buf, r.sent, order, i);
    }
  }

  /** Sending adds nothing, or the next packet in front. */
  lemma SendContents(file: seq<byte>, source: Source, w: World, w': World) returns (sent: seq<Pkt>)
    requires Synced(file, w) && w' == AfterSend(file, source, w)
    ensures w'.history == w.history + sent && w'.state.buf == sent + w.state.buf
    ensures w'.count == w.count + |sent|
    ensures |sent| <= 1 && (sent != [] ==> IsDatagram(file, w.count, sent[0]))
  {
    var n := SendNew(file, source, w.state);
    sent := n.sent;
    if sent != [] {
      SendIsNextPacket(file, source, w);
    } else {
      assert [] + w.state.buf == w.state.buf;
    }
  }

  lemma ExchangedInTwoSteps(file: seq<byte>, source: Source, w: World, left: World, resent: World, r: Resent,
                            w': World, sent: seq<Pkt>)
    requires left.count == w.count && left.history == w.history
    requires forall q | q in left.state.buf ::
               q in w.state.buf || (IsResent(w.state.buf, q) && q.timestamp <= Tick(source, left.state.calls))
    requires forall d | d in r.sent :: d in r.buf && IsResent(left.state.buf, d)
    requires forall q | q in r.buf ::
               q in r.sent || (q in left.state.buf && q.timestamp > Tick(source, left.state.calls))
    requires resent == World(left.state.(buf := r.buf, calls := r.calls), left.history + r.sent, left.count)
    requires w'.history == resent.history + sent && w'.state.buf == sent + r.buf && w'.count == w.count + |sent|
    requires |sent| <= 1 && (sent != [] ==> IsDatagram(file, w.count, sent[0]))
    ensures Exchanged(file, w, w', r.sent + sent)
  {
    assert w'.history == w.history + (r.sent + sent);
    forall d | d in r.sent
      ensures IsResent(w.state.buf, d)
    {
      var b :| b in left.state.buf && d == b.(timestamp := d.timestamp);
      if b !in w.state.buf {
        var c :| c in w.state.buf && b == c.(timestamp := b.timestamp);
        assert d == c.(timestamp := d.timestamp);
      }
    }
    assert sent != [] ==> w'.state.buf[0] == sent[0];
  }

  lemma IterationExchanges(file: seq<byte>, source: Source, w: World, response: Option<Pkt>, w': World)
    returns (sent: seq<Pkt>)
    requires Synced(file, w) && Timely(source, w.state) && w' == SenderRuns.Next(file, source, w, response)
    ensures Exchanged(file, w, w', sent)
  {
    Phases(file, source, w, response);
    if CutShort(response) {
      sent := [];
    } else {
      var left := AfterReceive(source, w, response);
      LeftIsOldOrExpired(source, w, response, left.state);
      ReceiveSyncs(file, source, w, response);
      var r := RetransmitFrom(source, left.state);
      ResendContents(source, left.state, r);
      ResendSyncs(file, source, left);
      var next := SendContents(file, source, AfterResend(source, left), w');
      ExchangedInTwoSteps(file, source, w, left, AfterResend(source, left), r, w', next);
      sent := r.sent + next;
    }
  }

  /** A buffered packet is the new one, or its number is not that of the new one. */
  lemma NewOrOther(file: seq<byte>, w: World, w': World, sent: seq<Pkt>, q: Pkt)
    requires Exchanged(file, w, w', sent) && Distinct(Seqnums(w'.state.buf)) && q in w'.state.buf
    ensures w'.count == w.count + 1 && q.seqnum == w.count % 256 ==> q == w'.state.buf[0]
    ensures w'.count == w.count || q.seqnum != w.count % 256 ==> Latest(w'.count, q.seqnum) == Latest(w.count, q.seqnum)
  {
    if w'.count == w.count + 1 {
      LatestAfterOne(w.count, w'.count, q.seqnum);
      var j :| 0 <= j < |w'.state.buf| && w'.state.buf[j] == q;
      assert Seqnums(w'.state.buf)[j] == q.seqnum;
      assert Seqnums(w'.state.buf)[0] == w'.state.buf[0].seqnum == w.count % 256;
    }
  }

  lemma SameContentIsLatest(file: seq<byte>, count: nat, b: Pkt, q: Pkt)
    requires IsLatest(file, count, b) && q == b.(timestamp := q.timestamp)
    ensures IsLatest(file, count, q)
  {
  }

  lemma StaysLatest(file: seq<byte>, w: World, w': World, sent: seq<Pkt>, q: Pkt)
    requires Exchanged(file, w, w', sent) && Distinct(Seqnums(w'.state.buf)) && q in w'.state.buf
    requires Recent(file, w)
    ensures IsLatest(file, w'.count, q)
  {
    NewOrOther(file, w, w', sent, q);
    if w'.count == w.count + 1 && q.seqnum == w.count % 256 {
      LatestAfterOne(w.count, w'.count, q.seqnum);
    } else {
      if q !in w.state.buf {
        var b :| b in w.state.buf && q == b.(timestamp := q.timestamp);
        SameContentIsLatest(file, w.count, b, q);
      }
      assert IsLatest(file, w.count, q);
    }
  }

  lemma StaysRecent(file: seq<byte>, w: World, w': World, sent: seq<Pkt>)
    requires Exchanged(file, w, w', sent) && Distinct(Seqnums(w'.state.buf)) && Recent(file, w)
    ensures Recent(file, w')
  {
    forall q | q in w'.state.buf
      ensures IsLatest(file, w'.count, q)
    {
      StaysLatest(file, w, w', sent, q);
    }
  }

  /** A datagram sent earlier that is still buffered was buffered all the time. */
  lemma OldOneStays(file: seq<byte>, w: World, w': World, sent: seq<Pkt>, j: nat)
    requires Exchanged(file, w, w', sent) && Distinct(Seqnums(w'.state.buf)) && Ascending(w'.history)
    requires j < |w.history| && w.history[j] in w'.state.buf
    ensures w.history[j] in w.state.buf
    ensures Latest(w'.count, w.history[j].seqnum) == Latest(w.count, w.history[j].seqnum)
  {
    NotSentAgain(w, w', sent, j);
    NewOrOther(file, w, w', sent, w.history[j]);
  }

  lemma NotSentAgain(w: World, w': World, sent: seq<Pkt>, j: nat)
    requires w'.history == w.history + sent && Ascending(w'.history) && j < |w.history|
    ensures w.history[j] !in sent
  {
    forall m | 0 <= m < |sent|
      ensures sent[m].timestamp > w.history[j].timestamp
    {
      assert w'.history[j] == w.history[j] && w'.history[|w.history| + m] == sent[m];
    }
  }

  lemma StaysHomed(file: seq<byte>, w: World, w': World, sent: seq<Pkt>, homes: seq<int>, homes': seq<int>)
    requires Exchanged(file, w, w', sent) && Distinct(Seqnums(w'.state.buf)) && Ascending(w'.history)
    requires Homed(file, w, homes) && Recent(file, w') && homes' == homes + HomesOf(w'.count, sent)
    ensures Homed(file, w', homes')
  {
    forall j | 0 <= j < |homes'|
      ensures 0 <= homes'[j] < w'.count && IsDatagram(file, homes'[j], w'.history[j])
      ensures w'.history[j] in w'.state.buf ==> homes'[j] == Latest(w'.count, w'.history[j].seqnum)
    {
      if j < |homes| {
        assert homes'[j] == homes[j] && w'.history[j] == w.history[j];
        if w.history[j] in w'.state.buf {
          OldOneStays(file, w, w', sent, j);
        }
      } else {
        var m := j - |homes|;
        assert w'.history[j] == sent[m] && homes'[j] == Latest(w'.count, sent[m].seqnum);
        assert IsLatest(file, w'.count, sent[m]);
        LatestIsBelow(w'.count, sent[m].seqnum);
      }
    }
  }

  /* ---------- what the receiver has ---------- */

  /** Stream packet `i` was consumed by the receiver or is in its buffer. */
  ghost predicate SafeAt(r: R.State, written: nat, i: int) {
    || (i >= 0 && Consumed(written, r, i))
    || exists q | q in r.buf :: StreamIndex(written, r, q) == i
  }

  /** Some datagram with this timestamp is of a packet that is safe. */
  ghost predicate EchoSafe(history: seq<Pkt>, homes: seq<int>, r: R.State, written: nat, t: uint32)
    requires |homes| == |history|
  {
    exists j | 0 <= j < |homes| :: history[j].timestamp == t && SafeAt(r, written, homes[j])
  }

  ghost predicate Reliable(history: seq<Pkt>, homes: seq<int>, r: R.State, written: nat, reply: Pkt)
    requires |homes| == |history|
  {
    && reply.Encodable() && !reply.tr && (reply.ptype == PTYPE_ACK || reply.ptype == PTYPE_NACK)
    && (reply.ptype == PTYPE_ACK ==> EchoSafe(history, homes, r, written, reply.timestamp))
  }

  ghost predicate AllReliable(history: seq<Pkt>, homes: seq<int>, r: R.State, written: nat, replies: seq<Pkt>)
    requires |homes| == |history|
  {
    forall reply | reply in replies :: Reliable(history, homes, r, written, reply)
  }

  /** What was safe stays safe. */
  ghost predicate Kept(r: R.State, written: nat, after: R.State, written': nat) {
    forall i | SafeAt(r, written, i) :: SafeAt(after, written', i)
  }

  lemma MovingKeeps(written: nat, r: R.State, p: Pkt, n: nat, after: R.State, written': nat)
    requires Advanced(written, r, p, n, after) && written' == written + n
    ensures Kept(r, written, after, written')
  {
    forall i | SafeAt(r, written, i)
      ensures SafeAt(after, written', i)
    {
      if !(i >= 0 && Consumed(written, r, i)) {
        var q :| q in r.buf && StreamIndex(written, r, q) == i;
        if q in after.buf {
          assert StreamIndex(written', after, q) == i;
        }
      }
    }
  }

  lemma KeptReliable(history: seq<Pkt>, homes: seq<int>, r: R.State, written: nat, after: R.State, written': nat,
                     replies: seq<Pkt>)
    requires |homes| == |history| && AllReliable(history, homes, r, written, replies)
    requires Kept(r, written, after, written')
    ensures AllReliable(history, homes, after, written', replies)
  {
    forall reply | reply in replies
      ensures Reliable(history, homes, after, written', reply)
    {
      assert Reliable(history, homes, r, written, reply);
      if reply.ptype == PTYPE_ACK {
        var j :| 0 <= j < |homes| && history[j].timestamp == reply.timestamp && SafeAt(r, written, homes[j]);
        assert SafeAt(after, written', homes[j]);
      }
    }
  }

  lemma ReliableAsHistoryGrows(history: seq<Pkt>, homes: seq<int>, history': seq<Pkt>, homes': seq<int>, r: R.State,
                               written: nat, replies: seq<Pkt>)
    requires |homes| == |history| && |homes'| == |history'|
    requires history <= history' && homes <= homes' && AllReliable(history, homes, r, written, replies)
    ensures AllReliable(history', homes', r, written, replies)
  {
    forall reply | reply in replies
      ensures Reliable(history', homes', r, written, reply)
    {
      assert Reliable(history, homes, r, written, reply);
      if reply.ptype == PTYPE_ACK {
        var j :| 0 <= j < |homes| && history[j].timestamp == reply.timestamp && SafeAt(r, written, homes[j]);
        assert history'[j] == history[j] && homes'[j] == homes[j];
      }
    }
  }

  /** A packet that was just acknowledged is safe under the index it was sent with. */
  lemma AcknowledgedIsSafeAt(file: seq<byte>, written: nat, r: R.State, p: Pkt, n: nat, after: R.State, i: int)
    requires r.pos == written % 256 && written < PacketCount(file)
    requires InReach(file, written, i) && IsCopy(StreamOf(file), i, p) && R.Accepts(r, p)
    requires Advanced(written, r, p, n, after) && Acknowledged(written, r, p, n, after)
    ensures SafeAt(after, written + n, i)
  {
    NearCopiesAreRecognised(StreamOf(file), written, r, i, p);
    if written - 225 <= i {
      assert StreamIndex(written, r, p) == i;
      if !Consumed(written + n, after, i) {
        var q :| q in after.buf && q.seqnum == p.seqnum;
        assert StreamIndex(written + n, after, q) == i;
      }
    }
  }

  /* ---------- events ---------- */

  /** What every state of an orderly run satisfies, whatever ACKs were handled. */
  ghost predicate Good(cfg: Config, s: System, written: nat, homes: seq<int>) {
    && InOrder(cfg, s, written) && Homed(cfg.file, s.sender, homes) && Recent(cfg.file, s.sender)
    && Distinct(Seqnums(s.sender.state.buf))
    && AllReliable(s.sender.history, homes, s.receiver, written, s.replies)
  }

  /** An intact packet that arrives is in reach, by the index it was sent with. */
  ghost predicate ReachArrival(cfg: Config, s: System, written: nat, homes: seq<int>, e: Event) {
    PacketIn(cfg, e).Some? && !PacketIn(cfg, e).value.tr ==>
      forall j | 0 <= j < |s.sender.history| && j < |homes| && s.sender.history[j] == PacketIn(cfg, e).value ::
        InReach(cfg.file, written, homes[j])
  }

  lemma HomeIsCopy(cfg: Config, s: System, written: nat, homes: seq<int>, p: Pkt) returns (j: nat)
    requires Good(cfg, s, written, homes) && p in s.sender.history
    ensures j < |homes| && s.sender.history[j] == p && IsCopy(StreamOf(cfg.file), homes[j], p)
  {
    j :| 0 <= j < |s.sender.history| && s.sender.history[j] == p;
  }

  lemma ReachIsNear(cfg: Config, s: System, written: nat, homes: seq<int>, e: Event)
    requires Good(cfg, s, written, homes) && Enabled(cfg, s, e) && ReachArrival(cfg, s, written, homes, e)
    ensures NearArrival(cfg, written, e)
  {
    if PacketIn(cfg, e).Some? && !PacketIn(cfg, e).value.tr {
      ReceiverEvent(cfg, s, e);
      var j := HomeIsCopy(cfg, s, written, homes, PacketIn(cfg, e).value);
      assert InReach(cfg.file, written, homes[j]);
    }
  }

  lemma SenderStaysGood(cfg: Config, s: System, e: Event, s': System, written: nat, homes: seq<int>, homes': seq<int>)
    requires Good(cfg, s, written, homes) && LeadsTo(cfg, s, e, s') && e.SenderIterates?
    requires Distinct(Seqnums(s'.sender.state.buf)) && homes' == homes + NewHomes(s.sender, s'.sender)
    ensures Good(cfg, s', written, homes')
  {
    var w, w' := s.sender, s'.sender;
    SenderKeepsOrder(cfg, s, written, e);
    var sent := IterationExchanges(cfg.file, cfg.source, w, Response(cfg.crc, e.arrived), w');
    assert NewHomes(w, w') == HomesOf(w'.count, sent);
    StaysRecent(cfg.file, w, w', sent);
    StaysHomed(cfg.file, w, w', sent, homes, homes');
    ReliableAsHistoryGrows(w.history, homes, w'.history, homes', s.receiver, written, s.replies);
  }

  /** The index of each datagram sent between two worlds. */
  function NewHomes(w: World, w': World): seq<int> {
    if |w.history| <= |w'.history| then HomesOf(w'.count, w'.history[|w.history|..]) else []
  }

  lemma ReplyIsReliable(cfg: Config, s: System, written: nat, homes: seq<int>, p: Pkt, n: nat, written': nat)
    requires Good(cfg, s, written, homes) && (p in s.sender.history || p.tr)
    requires !p.tr ==> forall j | 0 <= j < |homes| && s.sender.history[j] == p :: InReach(cfg.file, written, homes[j])
    requires R.Handle(s.receiver, p).Replied? && written' == written + n
    requires StaysInStep(StreamOf(cfg.file), written, s.receiver, p, n, R.Handle(s.receiver, p).state)
    ensures var o := R.Handle(s.receiver, p);
            Reliable(s.sender.history, homes, o.state, written', o.reply)
  {
    var o := R.Handle(s.receiver, p);
    R.NeverFull(s.receiver, p);
    ReplyOf(s.receiver, p);
    if !p.tr {
      var j := HomeIsCopy(cfg, s, written, homes, p);
      AcknowledgedIsSafeAt(cfg.file, written, s.receiver, p, n, o.state, homes[j]);
      assert EchoSafe(s.sender.history, homes, o.state, written', p.timestamp);
    }
    ReliableReply(s.sender.history, homes, o.state, written', p, o.reply);
  }

  /** A reply that is a NACK, or an ACK for a packet that is safe. */
  lemma ReliableReply(history: seq<Pkt>, homes: seq<int>, r: R.State, written: nat, p: Pkt, reply: Pkt)
    requires |homes| == |history|
    requires || (p.tr && reply == R.Nack(r, p))
             || (EchoSafe(history, homes, r, written, p.timestamp) && reply == R.Ack(r, p))
    ensures Reliable(history, homes, r, written, reply)
  {
  }

  lemma OrderAfterHandling(cfg: Config, s: System, written: nat, o: R.Outcome, written': nat, s': System)
    requires InOrder(cfg, s, written) && !o.Aborted? && s' == AfterHandling(s, o)
    requires Follows(cfg.file, s.sender.history, written', R.Next(s.receiver, o))
    ensures InOrder(cfg, s', written') && s'.sender == s.sender && s'.receiver == R.Next(s.receiver, o)
  {
  }

  lemma RepliesAfterHandling(history: seq<Pkt>, homes: seq<int>, s: System, o: R.Outcome, written': nat, s': System)
    requires |homes| == |history| && !o.Aborted? && s' == AfterHandling(s, o)
    requires AllReliable(history, homes, R.Next(s.receiver, o), written', s.replies)
    requires o.Replied? ==> Reliable(history, homes, o.state, written', o.reply)
    ensures AllReliable(history, homes, s'.receiver, written', s'.replies)
  {
  }

  /** Handling a packet in reach. */
  lemma HandlingStaysGood(cfg: Config, s: System, written: nat, homes: seq<int>, p: Pkt, s': System)
    returns (written': nat)
    requires Good(cfg, s, written, homes) && (p in s.sender.history || p.tr) && Near(cfg.file, written, p)
    requires !p.tr ==> forall j | 0 <= j < |homes| && s.sender.history[j] == p :: InReach(cfg.file, written, homes[j])
    requires s' == AfterHandling(s, R.Handle(s.receiver, p))
    ensures written <= written' <= written + 31 && s'.sender == s.sender
    ensures Good(cfg, s', written', homes) && Kept(s.receiver, written, s'.receiver, written')
  {
    var n := ReceiverFollows(cfg.file, s.sender, written, s.receiver, p);
    written' := written + n;
    var o := R.Handle(s.receiver, p);
    OrderAfterHandling(cfg, s, written, o, written', s');
    MovingKeeps(written, s.receiver, p, n, s'.receiver, written');
    KeptReliable(s.sender.history, homes, s.receiver, written, s'.receiver, written', s.replies);
    if o.Replied? {
      ReplyIsReliable(cfg, s, written, homes, p, n, written');
    }
    RepliesAfterHandling(s.sender.history, homes, s, o, written', s');
  }

  lemma ReceiverStaysGood(cfg: Config, s: System, e: Event, s': System, written: nat, homes: seq<int>)
    returns (written': nat)
    requires Good(cfg, s, written, homes) && LeadsTo(cfg, s, e, s') && e.ReceiverGets?
    requires ReachArrival(cfg, s, written, homes, e)
    ensures written <= written' <= written + 31 && s'.sender == s.sender
    ensures Good(cfg, s', written', homes) && Kept(s.receiver, written, s'.receiver, written')
  {
    written' := written;
    ReceiverEvent(cfg, s, e);
    ReachIsNear(cfg, s, written, homes, e);
    if PacketIn(cfg, e).Some? {
      written' := HandlingStaysGood(cfg, s, written, homes, PacketIn(cfg, e).value, s');
    }
  }

  /* ---------- what is lost ---------- */

  /** Stream packet `i` is in the sender's buffer. */
  ghost predicate HeldAt(w: World, i: nat) {
    Held(w.state.buf, i % 256) && Latest(w.count, i % 256) == i
  }

  /** Every packet sent is somewhere. */
  ghost predicate NoLossAt(s: System, written: nat) {
    forall i: nat | i < s.sender.count :: HeldAt(s.sender, i) || SafeAt(s.receiver, written, i)
  }

  /** What the response took out of the buffer is safe. */
  ghost predicate TookSafe(s: System, written: nat, left: seq<Pkt>) {
    forall n: byte | Held(s.sender.state.buf, n) ::
      Held(left, n) || SafeAt(s.receiver, written, Latest(s.sender.count, n))
  }

  /**
   The guards of the branches that may lose a packet: packets numerically below the ACK are safe, and the echo
   is found or the front packet that goes instead is safe.
   */
  ghost predicate HarmlessAt(s: System, written: nat, ack: Pkt) {
    var buf, count := s.sender.state.buf, s.sender.count;
    && (forall p | p in buf && p.seqnum < ack.seqnum :: SafeAt(s.receiver, written, Latest(count, p.seqnum)))
    && (EchoFound(buf, ack)
        || SafeAt(s.receiver, written, Latest(count, Keep(buf, NumbersFrom(ack.seqnum))[0].seqnum)))
  }

  /** A buffered packet whose timestamp an ACK echoes is safe. */
  lemma EchoedIsSafeAt(cfg: Config, s: System, written: nat, homes: seq<int>, ack: Pkt, p: Pkt)
    requires Good(cfg, s, written, homes) && ack in s.replies && ack.ptype == PTYPE_ACK
    requires p in s.sender.state.buf && p.timestamp == ack.timestamp
    ensures SafeAt(s.receiver, written, Latest(s.sender.count, p.seqnum))
  {
    assert Reliable(s.sender.history, homes, s.receiver, written, ack);
    var j :| 0 <= j < |homes| && s.sender.history[j].timestamp == ack.timestamp
             && SafeAt(s.receiver, written, homes[j]);
    TimestampTells(s.sender, p, s.sender.history[j]);
  }

  lemma AckTakesSafeAt(cfg: Config, s: System, written: nat, homes: seq<int>, ack: Pkt)
    requires Good(cfg, s, written, homes) && ack in s.replies && ack.ptype == PTYPE_ACK
    ensures HarmlessAt(s, written, ack)
       <==> TookSafe(s, written, AfterAck(s.sender.state.buf, ack.seqnum, ack.timestamp))
  {
    var left := AfterAck(s.sender.state.buf, ack.seqnum, ack.timestamp);
    if HarmlessAt(s, written, ack) {
      forall n: byte | Held(s.sender.state.buf, n) && !Held(left, n)
        ensures SafeAt(s.receiver, written, Latest(s.sender.count, n))
      {
        TakenIsSafe(cfg, s, written, homes, ack, n);
      }
    }
    if TookSafe(s, written, left) {
      SafeIsHarmless(s, written, ack);
    }
  }

  lemma TakenIsSafe(cfg: Config, s: System, written: nat, homes: seq<int>, ack: Pkt, n: byte)
    requires Good(cfg, s, written, homes) && ack in s.replies && ack.ptype == PTYPE_ACK && HarmlessAt(s, written, ack)
    requires Held(s.sender.state.buf, n) && !Held(AfterAck(s.sender.state.buf, ack.seqnum, ack.timestamp), n)
    ensures SafeAt(s.receiver, written, Latest(s.sender.count, n))
  {
    var buf, a, t := s.sender.state.buf, ack.seqnum, ack.timestamp;
    HeldAfterAck(buf, a, t, n);
    if n < a {
      var p :| p in buf && p.seqnum == n;
    } else {
      ExtraIs(buf, a, t);
      if t in Timestamps(Keep(buf, NumbersFrom(a))) {
        EchoedIsSafeAt(cfg, s, written, homes, ack, Extra(buf, a, t).value);
      }
    }
  }

  lemma BelowIsSafe(s: System, written: nat, ack: Pkt, p: Pkt)
    requires Distinct(Seqnums(s.sender.state.buf)) && p in s.sender.state.buf && p.seqnum < ack.seqnum
    requires TookSafe(s, written, AfterAck(s.sender.state.buf, ack.seqnum, ack.timestamp))
    ensures SafeAt(s.receiver, written, Latest(s.sender.count, p.seqnum))
  {
    HeldAfterAck(s.sender.state.buf, ack.seqnum, ack.timestamp, p.seqnum);
  }

  lemma FrontIsSafe(s: System, written: nat, ack: Pkt)
    requires Distinct(Seqnums(s.sender.state.buf)) && !EchoFound(s.sender.state.buf, ack)
    requires TookSafe(s, written, AfterAck(s.sender.state.buf, ack.seqnum, ack.timestamp))
    ensures var front := Keep(s.sender.state.buf, NumbersFrom(ack.seqnum))[0];
            SafeAt(s.receiver, written, Latest(s.sender.count, front.seqnum))
  {
    var buf, a, t := s.sender.state.buf, ack.seqnum, ack.timestamp;
    ExtraIs(buf, a, t);
    HeldAfterAck(buf, a, t, Extra(buf, a, t).value.seqnum);
  }

  lemma SafeIsHarmless(s: System, written: nat, ack: Pkt)
    requires Distinct(Seqnums(s.sender.state.buf))
    requires TookSafe(s, written, AfterAck(s.sender.state.buf, ack.seqnum, ack.timestamp))
    ensures HarmlessAt(s, written, ack)
  {
    forall p | p in s.sender.state.buf && p.seqnum < ack.seqnum
      ensures SafeAt(s.receiver, written, Latest(s.sender.count, p.seqnum))
    {
      BelowIsSafe(s, written, ack, p);
    }
    if !EchoFound(s.sender.state.buf, ack) {
      FrontIsSafe(s, written, ack);
    }
  }

  /** Buffer numbers after an iteration: those left, and the new one, which is another one. */
  ghost predicate Refilled(w: World, left: seq<Pkt>, w': World) {
    && w.count <= w'.count <= w.count + 1
    && (forall n: byte :: Held(w'.state.buf, n) <==> Held(left, n) || (w'.count > w.count && n == w.count % 256))
    && (w'.count > w.count ==> !Held(left, w.count % 256))
  }

  lemma IterationRefills(cfg: Config, w: World, response: Option<Pkt>, w': World)
    requires Synced(cfg.file, w) && Timely(cfg.source, w.state) && !CutShort(response)
    requires w' == SenderRuns.Next(cfg.file, cfg.source, w, response) && Distinct(Seqnums(w'.state.buf))
    ensures Refilled(w, AfterReceive(cfg.source, w, response).state.buf, w')
  {
    var left := AfterReceive(cfg.source, w, response).state.buf;
    NumbersAfterIteration(cfg, w, response);
    var front := if w'.count == w.count then [] else [w.count % 256];
    forall n: byte
      ensures Held(w'.state.buf, n) <==> Held(left, n) || (w'.count > w.count && n == w.count % 256)
    {
      HeldInLonger(w'.state.buf, front, left, n);
    }
    if w'.count > w.count {
      HeadIsOnly(w'.state.buf, w.count % 256, left);
    }
  }

  lemma HeadIsOnly(buf: seq<Pkt>, n: byte, rest: seq<Pkt>)
    requires Seqnums(buf) == [n] + Seqnums(rest) && Distinct(Seqnums(buf))
    ensures !Held(rest, n)
  {
    HeldBySeqnums(rest, n);
    HeadNotInTail(n, Seqnums(rest), Seqnums(buf));
  }

  lemma HeadNotInTail(head: int, tail: seq<int>, all: seq<int>)
    requires all == [head] + tail && Distinct(all)
    ensures head !in tail
  {
    forall j | 0 <= j < |tail|
      ensures tail[j] != head
    {
      assert all[0] == head && all[j + 1] == tail[j];
    }
  }

  /** Nothing is lost if and only if what was taken out is safe. */
  lemma LostIffTaken(cfg: Config, s: System, written: nat, left: seq<Pkt>, s': System)
    requires NoLossAt(s, written) && Recent(cfg.file, s.sender)
    requires Refilled(s.sender, left, s'.sender) && s'.receiver == s.receiver
    ensures NoLossAt(s', written) <==> TookSafe(s, written, left)
  {
    if TookSafe(s, written, left) {
      forall i: nat | i < s'.sender.count
        ensures HeldAt(s'.sender, i) || SafeAt(s'.receiver, written, i)
      {
        StillThere(s, written, left, s', i);
      }
    }
    if NoLossAt(s', written) {
      forall n: byte | Held(s.sender.state.buf, n) && !Held(left, n)
        ensures SafeAt(s.receiver, written, Latest(s.sender.count, n))
      {
        NotThere(cfg, s, written, left, s', n);
      }
    }
  }

  lemma StillThere(s: System, written: nat, left: seq<Pkt>, s': System, i: nat)
    requires NoLossAt(s, written) && Refilled(s.sender, left, s'.sender) && s'.receiver == s.receiver
    requires TookSafe(s, written, left) && i < s'.sender.count
    ensures HeldAt(s'.sender, i) || SafeAt(s'.receiver, written, i)
  {
    var count, count' := s.sender.count, s'.sender.count;
    if count' == count + 1 {
      LatestAfterOne(count, count', i % 256);
    }
    if i < count && !SafeAt(s.receiver, written, i) {
      assert HeldAt(s.sender, i);
      assert Held(left, i % 256);
    }
  }

  lemma NotThere(cfg: Config, s: System, written: nat, left: seq<Pkt>, s': System, n: byte)
    requires NoLossAt(s', written) && Recent(cfg.file, s.sender)
    requires Refilled(s.sender, left, s'.sender) && s'.receiver == s.receiver
    requires Held(s.sender.state.buf, n) && !Held(left, n)
    ensures SafeAt(s.receiver, written, Latest(s.sender.count, n))
  {
    var count, count' := s.sender.count, s'.sender.count;
    var p :| p in s.sender.state.buf && p.seqnum == n;
    assert IsLatest(cfg.file, count, p);
    var i: nat := Latest(count, n);
    LatestIsBelow(count, n);
    LatestHasNumber(count, n);
    if count' == count + 1 {
      LatestAfterOne(count, count', n);
    }
    assert !HeldAt(s'.sender, i);
  }

  lemma ResponseIsReply(cfg: Config, s: System, written: nat, homes: seq<int>, e: Event)
    requires Good(cfg, s, written, homes) && Enabled(cfg, s, e) && e.SenderIterates?
    ensures var response := Response(cfg.crc, e.arrived);
            !CutShort(response) && (response.Some? ==> response.value in s.replies)
  {
    if Response(cfg.crc, e.arrived).Some? {
      forall m | m in s.replies
        ensures m.Encodable() && !m.tr && m.ptype != PTYPE_DATA
      {
        assert Reliable(s.sender.history, homes, s.receiver, written, m);
      }
      ArrivedWasSent(cfg.crc, s.replies, e.arrived.value);
    }
  }

  ghost predicate HarmlessEvent(cfg: Config, s: System, written: nat, e: Event) {
    AckIn(cfg, e).Some? ==> HarmlessAt(s, written, AckIn(cfg, e).value)
  }

  lemma ResponseTakesSafeAt(cfg: Config, s: System, written: nat, homes: seq<int>, e: Event, response: Option<Pkt>)
    requires Good(cfg, s, written, homes) && e.SenderIterates? && response == Response(cfg.crc, e.arrived)
    requires response.Some? ==> response.value in s.replies
    ensures HarmlessEvent(cfg, s, written, e)
       <==> TookSafe(s, written, AfterReceive(cfg.source, s.sender, response).state.buf)
  {
    var left := AfterReceive(cfg.source, s.sender, response).state.buf;
    if response.Some? && response.value.ptype == PTYPE_ACK {
      AckTakesSafeAt(cfg, s, written, homes, response.value);
      assert left == AfterAck(s.sender.state.buf, response.value.seqnum, response.value.timestamp);
    } else {
      OthersTakeNothing(cfg, s.sender, response);
      forall n: byte
        ensures Held(s.sender.state.buf, n) ==> Held(left, n)
      {
        HeldBySeqnums(s.sender.state.buf, n);
        HeldBySeqnums(left, n);
      }
    }
  }

  /**
   For files of any length: an iteration of the sender after which numbers are distinct loses nothing if and
   only if the ACK it handles, if any, is harmless.
   */
  lemma LosesNothingIffHarmlessAt(cfg: Config, s: System, e: Event, s': System, written: nat, homes: seq<int>)
    requires Good(cfg, s, written, homes) && NoLossAt(s, written)
    requires LeadsTo(cfg, s, e, s') && e.SenderIterates? && Distinct(Seqnums(s'.sender.state.buf))
    ensures NoLossAt(s', written) <==> HarmlessEvent(cfg, s, written, e)
  {
    var response := Response(cfg.crc, e.arrived);
    ResponseIsReply(cfg, s, written, homes, e);
    ResponseTakesSafeAt(cfg, s, written, homes, e, response);
    IterationRefills(cfg, s.sender, response, s'.sender);
    LostIffTaken(cfg, s, written, AfterReceive(cfg.source, s.sender, response).state.buf, s');
  }

  lemma ReceiverLosesNothingAt(s: System, s': System, written: nat, written': nat)
    requires NoLossAt(s, written) && s'.sender == s.sender && Kept(s.receiver, written, s'.receiver, written')
    ensures NoLossAt(s', written')
  {
  }

  /* ---------- whole runs ---------- */

  /** The index of each datagram sent before step `k`. */
  function Homes(run: seq<System>, k: nat): seq<int>
    requires k < |run|
  {
    if k == 0 then [] else Homes(run, k - 1) + NewHomes(run[k - 1].sender, run[k].sender)
  }

  lemma HomesNext(run: seq<System>, k: nat, next: nat)
    requires next == k + 1 < |run|
    ensures Homes(run, next) == Homes(run, k) + NewHomes(run[k].sender, run[next].sender)
  {
  }

  /**
   What is assumed of a run: intact packets that arrive are in reach by their index, and no two buffered
   packets of the sender have the same number.
   */
  ghost predicate Orderly(cfg: Config, run: seq<System>, events: seq<Event>, k: nat)
    requires |run| == |events| + 1 && k < |run|
  {
    && (forall j | 0 <= j < k :: ArrivesInReach(cfg, run, events, j))
    && forall j | 0 <= j <= k :: Distinct(Seqnums(run[j].sender.state.buf))
  }

  ghost predicate ArrivesInReach(cfg: Config, run: seq<System>, events: seq<Event>, k: nat)
    requires k < |run| && k < |events|
  {
    ReachArrival(cfg, run[k], Written(run, k), Homes(run, k), events[k])
  }

  ghost predicate AllHarmlessAt(cfg: Config, run: seq<System>, events: seq<Event>, k: nat)
    requires |run| == |events| + 1 && k < |run|
  {
    forall j | 0 <= j < k :: HarmlessStep(cfg, run, events, j)
  }

  ghost predicate HarmlessStep(cfg: Config, run: seq<System>, events: seq<Event>, k: nat)
    requires k < |run| && k < |events|
  {
    HarmlessEvent(cfg, run[k], Written(run, k), events[k])
  }

  lemma BeginsGood(cfg: Config)
    ensures Good(cfg, BEGINNING, 0, []) && NoLossAt(BEGINNING, 0)
  {
    BeginsInOrder(cfg);
  }

  lemma StepStaysGood(cfg: Config, run: seq<System>, events: seq<Event>, k: nat, next: nat)
    requires IsRun(cfg, run, events) && next == k + 1 < |run|
    requires Good(cfg, run[k], Written(run, k), Homes(run, k))
    requires ArrivesInReach(cfg, run, events, k) && Distinct(Seqnums(run[next].sender.state.buf))
    ensures Good(cfg, run[next], Written(run, next), Homes(run, next))
    ensures NoLossAt(run[k], Written(run, k)) && HarmlessStep(cfg, run, events, k) ==>
              NoLossAt(run[next], Written(run, next))
  {
    StepOf(cfg, run, events, k, next);
    WrittenNext(run, k, next);
    HomesNext(run, k, next);
    if events[k].SenderIterates? {
      SenderStep(cfg, run[k], events[k], run[next], Written(run, k), Homes(run, k),
                 Written(run, next), Homes(run, next));
    } else {
      ReceiverStep(cfg, run[k], events[k], run[next], Written(run, k), Homes(run, k),
                   Written(run, next), Homes(run, next));
    }
  }

  lemma SenderStep(cfg: Config, s: System, e: Event, s': System, written: nat, homes: seq<int>,
                   written': nat, homes': seq<int>)
    requires Good(cfg, s, written, homes) && LeadsTo(cfg, s, e, s') && e.SenderIterates?
    requires Distinct(Seqnums(s'.sender.state.buf)) && homes' == homes + NewHomes(s.sender, s'.sender)
    requires written' == written + Offset(s.receiver.pos, s'.receiver.pos, 256)
    ensures Good(cfg, s', written', homes')
    ensures NoLossAt(s, written) && HarmlessEvent(cfg, s, written, e) ==> NoLossAt(s', written')
  {
    SenderStaysGood(cfg, s, e, s', written, homes, homes');
    WindowTells(cfg, s, written, s', written);
    assert written' == written;
    if NoLossAt(s, written) {
      LosesNothingIffHarmlessAt(cfg, s, e, s', written, homes);
    }
  }

  lemma ReceiverStep(cfg: Config, s: System, e: Event, s': System, written: nat, homes: seq<int>,
                     written': nat, homes': seq<int>)
    requires Good(cfg, s, written, homes) && LeadsTo(cfg, s, e, s') && e.ReceiverGets?
    requires ReachArrival(cfg, s, written, homes, e) && homes' == homes + NewHomes(s.sender, s'.sender)
    requires written' == written + Offset(s.receiver.pos, s'.receiver.pos, 256)
    ensures Good(cfg, s', written', homes')
    ensures NoLossAt(s, written) ==> NoLossAt(s', written')
  {
    var now := ReceiverStaysGood(cfg, s, e, s', written, homes);
    WindowTells(cfg, s, written, s', now);
    assert written' == now;
    assert NewHomes(s.sender, s'.sender) == [] && homes' == homes;
    if NoLossAt(s, written) {
      ReceiverLosesNothingAt(s, s', written, now);
    }
  }

  lemma {:induction false} RunStaysGood(cfg: Config, run: seq<System>, events: seq<Event>, k: nat)
    requires IsRun(cfg, run, events) && k < |run| && Orderly(cfg, run, events, k)
    ensures Good(cfg, run[k], Written(run, k), Homes(run, k))
    ensures AllHarmlessAt(cfg, run, events, k) ==> NoLossAt(run[k], Written(run, k))
  {
    if k == 0 {
      BeginsGood(cfg);
    } else {
      var j := k - 1;
      OrderlyBefore(cfg, run, events, j, k);
      RunStaysGood(cfg, run, events, j);
      StepStaysGood(cfg, run, events, j, k);
      if AllHarmlessAt(cfg, run, events, k) {
        HarmlessBefore(cfg, run, events, j, k);
      }
    }
  }

  lemma OrderlyBefore(cfg: Config, run: seq<System>, events: seq<Event>, k: nat, next: nat)
    requires |run| == |events| + 1 && next == k + 1 < |run| && Orderly(cfg, run, events, next)
    ensures Orderly(cfg, run, events, k) && Distinct(Seqnums(run[next].sender.state.buf))
    ensures ArrivesInReach(cfg, run, events, k)
  {
  }

  lemma HarmlessBefore(cfg: Config, run: seq<System>, events: seq<Event>, k: nat, next: nat)
    requires |run| == |events| + 1 && next == k + 1 < |run| && AllHarmlessAt(cfg, run, events, next)
    ensures AllHarmlessAt(cfg, run, events, k) && HarmlessStep(cfg, run, events, k)
  {
  }

  /** With nothing in flight, everything sent was consumed: the receiver waits at the EOF packet. */
  lemma AllConsumed(cfg: Config, s: System, written: nat, homes: seq<int>)
    requires Good(cfg, s, written, homes) && NoLossAt(s, written) && !Running(s.sender.state)
    ensures written == PacketCount(cfg.file) - 1
  {
    FileGivesStream(cfg.file);
    assert s.sender.count == PacketCount(cfg.file) && !HeldAt(s.sender, written);
    assert SafeAt(s.receiver, written, written);
    NothingAtDistanceZero(s.receiver);
  }

  lemma NothingAtDistanceZero(r: R.State)
    requires R.Spread(r, 1)
    ensures forall q | q in r.buf :: R.Distance(r, q) >= 1
  {
  }

  /**
   Lossless delivery for files of any length, over any network: if intact packets that arrive are in reach, no
   two buffered packets of the sender have the same number, and every ACK handled is harmless, then every
   packet sent is in the sender's buffer, in the receiver's buffer, or consumed; and when the sender's loop
   exits, the output is the whole file.
   */
  lemma LongFileDelivery(cfg: Config, run: seq<System>, events: seq<Event>, k: nat)
    requires IsRun(cfg, run, events) && k < |run|
    requires Orderly(cfg, run, events, k) && AllHarmlessAt(cfg, run, events, k)
    ensures NoLossAt(run[k], Written(run, k)) && !run[k].aborted
    ensures !Running(run[k].sender.state) ==> run[k].receiver.out == cfg.file
  {
    RunStaysGood(cfg, run, events, k);
    if !Running(run[k].sender.state) {
      AllConsumed(cfg, run[k], Written(run, k), Homes(run, k));
      WritesFile(cfg, run[k], Written(run, k));
      StreamSpellsFile(cfg.file, PacketCount(cfg.file) - 1);
      DataIsWholeFile(cfg.file);
    }
  }

  /* ---------- at most 256 packets ---------- */

  lemma ShortArrivalInReach(cfg: Config, s: System, written: nat, homes: seq<int>, e: Event)
    requires PacketCount(cfg.file) <= 256 && Good(cfg, s, written, homes)
    ensures ReachArrival(cfg, s, written, homes, e)
  {
    forall j | 0 <= j < |homes|
      ensures InReach(cfg.file, written, homes[j])
    {
      assert 0 <= homes[j] < s.sender.count;
    }
  }

  /** Every run with at most 256 packets is orderly. */
  lemma {:induction false} ShortRunsAreOrderly(cfg: Config, run: seq<System>, events: seq<Event>, k: nat)
    requires PacketCount(cfg.file) <= 256 && IsRun(cfg, run, events) && k < |run|
    ensures Orderly(cfg, run, events, k)
  {
    RunIsSound(cfg, run, events, k);
    assert Distinct(Seqnums(run[k].sender.state.buf));
    if k > 0 {
      var j := k - 1;
      ShortRunsAreOrderly(cfg, run, events, j);
      RunStaysGood(cfg, run, events, j);
      ShortArrivalInReach(cfg, run[j], Written(run, j), Homes(run, j), events[j]);
      OrderlyOneMore(cfg, run, events, j, k);
    }
  }

  lemma OrderlyOneMore(cfg: Config, run: seq<System>, events: seq<Event>, k: nat, next: nat)
    requires |run| == |events| + 1 && next == k + 1 < |run| && Orderly(cfg, run, events, k)
    requires ArrivesInReach(cfg, run, events, k) && Distinct(Seqnums(run[next].sender.state.buf))
    ensures Orderly(cfg, run, events, next)
  {
  }

  lemma LatestOfShort(count: nat, number: byte)
    requires number < count <= 256
    ensures Latest(count, number) == number
  {
  }

  /** There both notions of a harmless ACK agree. */
  lemma HarmlessIffHarmlessAt(cfg: Config, s: System, written: nat, ack: Pkt)
    requires PacketCount(cfg.file) <= 256 && Sound(cfg, s) && InOrder(cfg, s, written)
    requires ack in s.replies && ack.ptype == PTYPE_ACK
    ensures HarmlessAck(s, ack) <==> HarmlessAt(s, written, ack)
  {
    assert Truthful(s.sender.history, s.receiver, ack);
    StartIsWritten(StreamOf(cfg.file), written, s.receiver);
    var buf := s.sender.state.buf;
    forall p | p in buf
      ensures Latest(s.sender.count, p.seqnum) == p.seqnum
      ensures SafeAt(s.receiver, written, p.seqnum) <==> Safe(s.receiver, p.seqnum)
    {
      NumberIsIndex(cfg.file, s.sender.count, buf, p);
      LatestOfShort(s.sender.count, p.seqnum);
      SafeByNumber(cfg, s, written, p.seqnum);
    }
    KeepMembers(buf, NumbersFrom(ack.seqnum));
  }

  lemma SafeByNumber(cfg: Config, s: System, written: nat, i: byte)
    requires PacketCount(cfg.file) <= 256 && Sound(cfg, s) && written == s.receiver.pos
    ensures SafeAt(s.receiver, written, i) <==> Safe(s.receiver, i)
  {
    forall q | q in s.receiver.buf
      ensures StreamIndex(written, s.receiver, q) == if q.seqnum >= written then q.seqnum else q.seqnum + 256
    {
      OldCopiesFit(cfg, s, q);
    }
  }
}
