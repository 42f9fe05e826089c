/** What the receiver's replies answer. */
module Answers {
  import opened Codec
  import opened Lists
  import opened Buffer
  import opened SenderRuns
  import opened Protocol

  lemma {:induction false} DrainShrinks(r: R.State)
    requires R.Drain(r).Some?
    ensures |R.Drain(r).value.buf| <= |r.buf|
    decreases |r.buf|
  {
    var i := FirstIndex(Seqnums(r.buf), r.pos);
    if i < |r.buf| {
      DrainShrinks(R.Written(r, i));
    }
  }

  lemma StoreFits(r: R.State, p: Pkt)
    requires |r.buf| <= 31
    ensures |R.Store(r, p).buf| <= 31
  {
  }

  /** `after` and `reply` are what becomes of the receiver `r` with a packet in its window. */
  ghost predicate Answered(r: R.State, p: Pkt, after: R.State, reply: Pkt) {
    if p.tr then after == r && |r.buf| <= 31 && reply == Pkt(3, false, 31 - |r.buf|, p.seqnum, 0, 0, [])
    else |after.buf| <= 31 && reply == Pkt(2, false, 31 - |after.buf|, after.pos, 0, p.timestamp, [])
  }

  /**
   What is answered, and how. A packet 31 or more after the window start is ignored. A truncated one that is
   nearer changes nothing and gets a NACK for its own number. An intact one gets an ACK for the new window
   start with its own timestamp, unless the receiver aborts. Each reply advertises the free slots.
   */
  lemma HandleAnswers(r: R.State, p: Pkt)
    requires |r.buf| <= 31
    ensures match R.Handle(r, p)
            case Ignored => (p.seqnum - r.pos) % 256 >= 31
            case Aborted => (p.seqnum - r.pos) % 256 < 31 && !p.tr
            case Replied(after, reply) => (p.seqnum - r.pos) % 256 < 31 && Answered(r, p, after, reply)
  {
    R.AcceptsByDistance(r, p);
    if R.Handle(r, p).Replied? && !p.tr {
      StoreFits(r, p);
      DrainShrinks(R.Store(r, p));
    }
  }

  /** A packet whose number is buffered already is acknowledged, and changes nothing, whatever it carries. */
  lemma CopyChangesNothing(r: R.State, p: Pkt, q: Pkt)
    requires R.Spread(r, 1) && q in r.buf && q.seqnum == p.seqnum && !p.tr
    ensures |r.buf| < 31
    ensures R.Handle(r, p) == R.Replied(r, Pkt(2, false, 31 - |r.buf|, r.pos, 0, p.timestamp, []))
  {
    R.SpreadIsSmall(r, 1);
    R.AcceptsByDistance(r, p);
    assert R.Distance(r, p) == R.Distance(r, q);
    var j :| 0 <= j < |r.buf| && r.buf[j] == q;
    assert Seqnums(r.buf)[j] == p.seqnum;
    forall i | 0 <= i < |r.buf|
      ensures Seqnums(r.buf)[i] != r.pos
    {
      assert r.buf[i] in r.buf;
      R.DistanceZero(r, r.buf[i]);
    }
  }

  /** A datagram was sent that has the number of the NACK, or the timestamp of the ACK. */
  ghost predicate Answers(history: seq<Pkt>, reply: Pkt) {
    if reply.ptype == 3 then exists h | h in history :: h.seqnum == reply.seqnum
    else reply.ptype == 2 && exists h | h in history :: h.timestamp == reply.timestamp
  }

  /** Sender and receiver in any run, files of any length included. */
  ghost predicate Answering(cfg: Config, s: System) {
    && Synced(cfg.file, s.sender) && R.Spread(s.receiver, 1)
    && forall reply | reply in s.replies :: 1 <= reply.window <= 31 && Answers(s.sender.history, reply)
  }

  lemma ArrivedAnswers(history: seq<Pkt>, r: R.State, p: Pkt, after: R.State, reply: Pkt)
    requires p in history || exists m | m in history :: p == Truncated(m)
    requires forall m | m in history :: !m.tr
    requires Answered(r, p, after, reply)
    ensures Answers(history, reply)
  {
    if p !in history {
      var m :| m in history && p == Truncated(m);
    }
  }

  lemma HandlingKeepsAnswering(cfg: Config, s: System, p: Pkt)
    requires Answering(cfg, s)
    requires p in s.sender.history || exists m | m in s.sender.history :: p == Truncated(m)
    ensures Answering(cfg, AfterHandling(s, R.Handle(s.receiver, p)))
  {
    var o := R.Handle(s.receiver, p);
    R.SpreadIsSmall(s.receiver, 1);
    if o.Replied? {
      R.NeverFull(s.receiver, p);
      HandleAnswers(s.receiver, p);
      HistoryEncodable(cfg, s.sender);
      ArrivedAnswers(s.sender.history, s.receiver, p, o.state, o.reply);
    }
  }

  lemma ReceiverKeepsAnswering(cfg: Config, s: System, e: Event)
    requires Answering(cfg, s) && Enabled(cfg, s, e) && e.ReceiverGets?
    ensures Answering(cfg, Apply(cfg, s, e))
  {
    ReceiverEvent(cfg, s, e);
    if PacketIn(cfg, e).Some? {
      HistoryEncodable(cfg, s.sender);
      ArrivedWasSent(cfg.crc, s.sender.history, e.datagram);
      HandlingKeepsAnswering(cfg, s, PacketIn(cfg, e).value);
    }
  }

  lemma SenderKeepsAnswering(cfg: Config, s: System, e: Event)
    requires Answering(cfg, s) && Enabled(cfg, s, e) && e.SenderIterates?
    ensures Answering(cfg, Apply(cfg, s, e))
  {
    var response := Response(cfg.crc, e.arrived);
    IterationSyncs(cfg.file, cfg.source, s.sender, response);
    HistoryOnlyGrows(cfg, s.sender, response);
  }

  /**
   In every run, whatever is lost, cut or repeated and however long the file: each NACK asks for the number of
   a datagram that was sent, each ACK echoes the timestamp of one, and both advertise 1 to 31 slots.
   */
  lemma {:induction false} EveryReplyAnswers(cfg: Config, run: seq<System>, events: seq<Event>, k: nat)
    requires IsRun(cfg, run, events) && k < |run|
    ensures Answering(cfg, run[k])
  {
    if k == 0 {
      assert Synced(cfg.file, START);
    } else {
      var j := k - 1;
      EveryReplyAnswers(cfg, run, events, j);
      StepOf(cfg, run, events, j, k);
      if events[j].SenderIterates? {
        SenderKeepsAnswering(cfg, run[j], events[j]);
      } else {
        ReceiverKeepsAnswering(cfg, run[j], events[j]);
      }
    }
  }
}
