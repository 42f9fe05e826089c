/**
 The bound of 256 packets in lossless delivery is needed: acknowledged numbers are compared as plain
 numbers, so an ACK that is merely late, for a number just before the wrap-around, removes a packet sent
 after it. For every longer file there is such a run.
 */
module WrapAround {
  import opened Types
  import opened Codec
  import opened Buffer
  import opened TimeSource
  import opened SenderSpec
  import opened FileStream
  import opened SenderRuns
  import opened Protocol
  import opened Lockstep

  /** A file of more than 256 packets, and a clock by which no timer runs out meanwhile. */
  ghost predicate LongTransfer(cfg: Config) {
    PacketCount(cfg.file) > 256 && Quick(cfg.source, 1000)
  }

  /* ---------- an ACK comes late ---------- */

  /** The sender has gone on to `m` packets while the ACK for number 250 is still under way. */
  ghost predicate RunsAhead(cfg: Config, s: System, m: nat, p: Pkt) {
    && 250 <= m <= 257 && !s.aborted
    && HasSent(cfg, s.sender, m) && s.receiver == Waiting(250, Before(cfg.file, 250))
    && |s.sender.state.buf| == m - 249 && s.sender.state.size == MAX_WINDOW_SIZE
    && p in s.sender.state.buf && p.seqnum == 249
    && AckOf(250, p) in s.replies
  }

  /** The sender adds one packet to what it holds. */
  lemma SendsOneMore(cfg: Config, w: World, m: nat, m': nat)
    requires LongTransfer(cfg) && HasSent(cfg, w, m) && 250 <= m < 257 && m' == m + 1
    requires |w.state.buf| == m - 249 && w.state.size == MAX_WINDOW_SIZE
    ensures Running(w.state) && Timely(cfg.source, w.state)
    ensures var w' := SenderRuns.Next(cfg.file, cfg.source, w, None);
            && HasSent(cfg, w', m') && w'.state.size == MAX_WINDOW_SIZE
            && w'.state.buf == [NextPacket(cfg, w)] + w.state.buf
  {
    NotAtEnd(cfg, w, m);
    WaitsForNothing(cfg.source, w);
    SendsNext(cfg, w, None, 1000);
    IterationSyncs(cfg.file, cfg.source, w, None);
    SentOneMore(cfg, w, SenderRuns.Next(cfg.file, cfg.source, w, None), m, m');
  }

  lemma NotAtEnd(cfg: Config, w: World, m: nat)
    requires LongTransfer(cfg) && HasSent(cfg, w, m) && m < 257
    ensures w.count < PacketCount(cfg.file) && !w.state.sentEof
  {
  }

  lemma SentOneMore(cfg: Config, w: World, w': World, m: nat, m': nat)
    requires LongTransfer(cfg) && HasSent(cfg, w, m) && m < 257 && m' == m + 1
    requires w' == Sends(cfg, w) && Synced(cfg.file, w')
    ensures HasSent(cfg, w', m') && w'.state.size == w.state.size
    ensures w'.state.buf == [NextPacket(cfg, w)] + w.state.buf
  {
    EarlyClock(cfg.source, 1000, w.state.calls + 1);
  }

  lemma WaitsForNothing(source: Source, w: World)
    requires !w.state.sentEof && w.state.buf != [] && !Full(|w.state.buf|, w.state.size, MAX_WINDOW_SIZE)
    ensures AfterReceive(source, w, None) == w
  {
  }

  lemma SenderRunsAhead(cfg: Config, s: System, m: nat, m': nat, p: Pkt) returns (e: Event)
    requires LongTransfer(cfg) && RunsAhead(cfg, s, m, p) && m < 257 && m' == m + 1
    ensures Enabled(cfg, s, e) && Harmless(cfg, s, e)
    ensures RunsAhead(cfg, Apply(cfg, s, e), m', p)
  {
    SendsOneMore(cfg, s.sender, m, m');
    e := SenderIterates(None);
  }

  lemma LastRunsAhead(cfg: Config, s: System, i: nat, next: nat, p: Pkt)
    requires LongTransfer(cfg) && i == 249 && next == 250
    requires AckUnderWay(cfg, s, i, next, Before(cfg.file, next), p)
    ensures RunsAhead(cfg, s, next, p)
  {
    HeldIsFine(cfg, s.sender, i, p);
  }

  lemma LateAckOnItsWay(cfg: Config) returns (run: seq<System>, events: seq<Event>, s: System, p: Pkt)
    requires LongTransfer(cfg)
    ensures Reaches(cfg, run, events, s) && RunsAhead(cfg, s, 250, p)
  {
    var i: nat, next: nat := 249, 250;
    run, events, s, p := UpTo(cfg, i, 1000);
    var e := DataArrives(cfg, s, i, next, Before(cfg.file, i), p);
    run, events, s := GoOn(cfg, run, events, s, e);
    BeforeNext(cfg.file, i, next);
    LastRunsAhead(cfg, s, i, next, p);
  }

  lemma {:induction false} Ahead(cfg: Config, m: nat)
    returns (run: seq<System>, events: seq<Event>, s: System, p: Pkt)
    requires LongTransfer(cfg) && 250 <= m <= 257
    ensures Reaches(cfg, run, events, s) && RunsAhead(cfg, s, m, p)
  {
    if m == 250 {
      run, events, s, p := LateAckOnItsWay(cfg);
    } else {
      run, events, s, p := Ahead(cfg, m - 1);
      var e := SenderRunsAhead(cfg, s, m - 1, m, p);
      run, events, s := GoOn(cfg, run, events, s, e);
    }
  }

  /** Packet 256, whose number is 0, was sent and is nowhere; the receiver waits for packet 250. */
  ghost predicate Lost(cfg: Config, s: System) {
    && s.sender.count > 256 && !Held(s.sender.state.buf, 256 % 256)
    && !s.aborted && s.receiver.pos == 250 && s.receiver.buf == [] && s.receiver.out == Before(cfg.file, 250)
  }

  /** What the late ACK leaves has numbers from 250 on. */
  lemma LateAckLeaves(source: Source, w: World, ack: Pkt)
    requires ack.ptype == PTYPE_ACK && ack.seqnum == 250
    ensures !Held(AfterReceive(source, w, Some(ack)).state.buf, 0)
  {
    AfterAckIsSmaller(w.state.buf, 250, ack.timestamp);
  }

  lemma ZeroIsGone(cfg: Config, w: World, ack: Pkt)
    requires Synced(cfg.file, w) && Timely(cfg.source, w.state) && w.count == 257
    requires ack.ptype == PTYPE_ACK && ack.seqnum == 250
    ensures var w' := SenderRuns.Next(cfg.file, cfg.source, w, Some(ack));
            w'.count >= 257 && !Held(w'.state.buf, 0)
  {
    NumbersAfterIteration(cfg, w, Some(ack));
    LateAckLeaves(cfg.source, w, ack);
    HeldBySeqnums(AfterReceive(cfg.source, w, Some(ack)).state.buf, 0);
    HeldBySeqnums(SenderRuns.Next(cfg.file, cfg.source, w, Some(ack)).state.buf, 0);
  }

  /** The late ACK takes out packet 256, whose number is 0. */
  lemma LateAckTakesTooMuch(cfg: Config, s: System, p: Pkt) returns (e: Event)
    requires LongTransfer(cfg) && RunsAhead(cfg, s, 257, p)
    ensures Enabled(cfg, s, e) && Harmless(cfg, s, e)
    ensures Lost(cfg, Apply(cfg, s, e))
  {
    var ack := AckOf(250, p);
    AckIsTimely(cfg, s.sender);
    ZeroIsGone(cfg, s.sender, ack);
    assert AnyBelow(s.sender.state.buf, ack.seqnum, ack.timestamp);
    e := DeliverToSender(cfg, s, ack);
    LostThen(cfg, s, Apply(cfg, s, e), p);
  }

  lemma AckIsTimely(cfg: Config, w: World)
    requires LongTransfer(cfg) && HasSent(cfg, w, 257) && |w.state.buf| == 8
    ensures Running(w.state) && Timely(cfg.source, w.state)
  {
    EarlyClock(cfg.source, 1000, w.state.calls + |w.state.buf| + 4);
  }

  lemma LostThen(cfg: Config, s: System, s': System, p: Pkt)
    requires RunsAhead(cfg, s, 257, p)
    requires s' == s.(sender := s'.sender) && s'.sender.count >= 257 && !Held(s'.sender.state.buf, 0)
    ensures Lost(cfg, s')
  {
  }

  /**
   For every file of more than 256 packets there is a run in which every ACK handled is harmless, and
   yet packet 256 was sent, was not received, and is in neither buffer.
   */
  lemma LateAckLosesPacket(cfg: Config) returns (run: seq<System>, events: seq<Event>)
    requires PacketCount(cfg.file) > 256 && Elapsed(cfg.source, 1000) < TIMER
    ensures IsRun(cfg, run, events) && AllHarmless(cfg, run, events)
    ensures Lost(cfg, run[|run| - 1])
  {
    var s, p, e;
    run, events, s, p := Ahead(cfg, 257);
    e := LateAckTakesTooMuch(cfg, s, p);
    run, events, s := GoOn(cfg, run, events, s, e);
  }
}
