/**
 The hypothesis of lossless delivery is needed: an ACK that the network merely repeats makes the
 sender drop a packet the receiver never got, because a pop by timestamp that finds no match takes
 the front packet. For every file of two data packets there is such a run.
 */
module DuplicateAck {
  import opened Types
  import opened Codec
  import opened Buffer
  import opened SenderSpec
  import opened FileStream
  import opened SenderRuns
  import opened Protocol

  /** An iteration that finds nothing to send again. */
  lemma QuietIteration(cfg: Config, w: World, response: Option<Pkt>)
    requires Timely(cfg.source, w.state) && !CutShort(response)
    requires AfterReceive(cfg.source, w, response).state.buf == []
    ensures var left := AfterReceive(cfg.source, w, response).state;
            SenderRuns.Next(cfg.file, cfg.source, w, response)
              == AfterSend(cfg.file, cfg.source, w.(state := left.(calls := left.calls + 1)))
  {
    Phases(cfg.file, cfg.source, w, response);
    assert w.history + [] == w.history;
  }

  function AckFor(window: bits5, p: Pkt): Pkt {
    Pkt(PTYPE_ACK, false, window, 1, 0, p.timestamp, [])
  }

  /** The receiver gets the first packet. */
  lemma FirstPacket(p: Pkt)
    requires p.seqnum == 0 && p.payload != [] && !p.tr
    ensures R.Handle(R.INITIAL, p) == R.Replied(R.State(1, [], p.payload, false), AckFor(31, p))
  {
    var stored := R.Store(R.INITIAL, p);
    assert Seqnums([p])[0] == 0 && Timestamps([p])[0] == p.timestamp;
    assert stored.buf == [p];
    var after := R.Written(stored, 0);
    assert after == R.State(1, [], p.payload, false);
    assert R.Drain(after) == Some(after);
  }

  /** The receiver gets EOF although the packet before it is missing. */
  lemma EarlyEof(out: seq<byte>, p: Pkt)
    requires p.seqnum == 2 && !p.tr
    ensures var r := R.State(1, [], out, false);
            R.Handle(r, p) == R.Replied(r.(buf := [p]), AckFor(30, p))
  {
    var r := R.State(1, [], out, false);
    assert Seqnums([p])[0] == 2;
    assert R.Store(r, p).buf == [p];
  }

  /** Three packets: two with data, then EOF. */
  lemma ShortStream(file: seq<byte>)
    requires 512 < |file| <= 1024
    ensures Chunk(file, 0) == file[..512] && Chunk(file, 512) == file[512..] && Chunk(file, |file|) == []
    ensures Chunk(file, 1024) == []
    ensures PacketCount(file) == 3
  {
  }

  /** The three packets, with the timers of the run below. */
  ghost function Sent(cfg: Config): seq<Pkt> {
    [DatagramOf(cfg.file, 0, Deadline(cfg.source, 1)),
     DatagramOf(cfg.file, 1, Deadline(cfg.source, 4)),
     DatagramOf(cfg.file, 2, Deadline(cfg.source, 6))]
  }

  /** The sender after `n` iterations of the run, for a file of `len` bytes cut into p[0], p[1], p[2]. */
  ghost function SenderAfter(len: nat, p: seq<Pkt>, n: nat): World
    requires |p| == 3 && n <= 4
  {
    if n == 0 then START
    else if n == 1 then World(State(0, 1, [p[0]], 1, false, 512, 2), [p[0]], 1)
    else if n == 2 then World(State(1, 31, [p[1]], 2, false, len, 5), [p[0], p[1]], 2)
    else if n == 3 then World(State(1, 31, [p[2]], 3, true, len, 7), p, 3)
    else World(State(1, 30, [], 3, true, len, 9), p, 3)
  }

  /** What the sender receives in iteration `n`: the second ACK is the first one again. */
  function ResponseIn(p: seq<Pkt>, n: nat): Option<Pkt>
    requires |p| == 3
  {
    if n == 0 then None else if n < 3 then Some(AckFor(31, p[0])) else Some(AckFor(30, p[2]))
  }

  ghost predicate SenderDoes(cfg: Config, p: seq<Pkt>, n: nat)
    requires |p| == 3 && n < 4
  {
    var w := SenderAfter(|cfg.file|, p, n);
    && Running(w.state) && Timely(cfg.source, w.state)
    && SenderRuns.Next(cfg.file, cfg.source, w, ResponseIn(p, n)) == SenderAfter(|cfg.file|, p, n + 1)
  }

  ghost predicate TwoDataPackets(cfg: Config) {
    512 < |cfg.file| <= 1024 && InTime(cfg.source, 40)
  }

  lemma SenderIsTimely(cfg: Config, n: nat)
    requires n < 4 && TwoDataPackets(cfg)
    ensures var w := SenderAfter(|cfg.file|, Sent(cfg), n); Running(w.state) && Timely(cfg.source, w.state)
  {
    var s := SenderAfter(|cfg.file|, Sent(cfg), n).state;
    EarlierInTime(cfg.source, s.calls + |s.buf| + 4, 40);
  }

  lemma SenderDoes01(cfg: Config, n: nat)
    requires TwoDataPackets(cfg) && n < 2
    ensures SenderDoes(cfg, Sent(cfg), n)
  {
    var p := Sent(cfg);
    ShortStream(cfg.file);
    SenderIsTimely(cfg, n);
    AckOfOne(p[0], 1, p[0].timestamp);
    QuietIteration(cfg, SenderAfter(|cfg.file|, p, n), ResponseIn(p, n));
  }

  /** The repeated ACK takes out the second packet, for which no ACK was ever sent. */
  lemma SenderDoes2(cfg: Config)
    requires TwoDataPackets(cfg)
    ensures SenderDoes(cfg, Sent(cfg), 2)
  {
    var p := Sent(cfg);
    ShortStream(cfg.file);
    SenderIsTimely(cfg, 2);
    AckOfOne(p[1], 1, p[0].timestamp);
    QuietIteration(cfg, SenderAfter(|cfg.file|, p, 2), ResponseIn(p, 2));
  }

  lemma SenderDoes3(cfg: Config)
    requires TwoDataPackets(cfg)
    ensures SenderDoes(cfg, Sent(cfg), 3)
  {
    var p := Sent(cfg);
    SenderIsTimely(cfg, 3);
    AckOfOne(p[2], 1, p[2].timestamp);
    QuietIteration(cfg, SenderAfter(|cfg.file|, p, 3), ResponseIn(p, 3));
  }

  ghost predicate Encodings(p: seq<Pkt>) {
    |p| == 3 && forall i | 0 <= i < 3 :: p[i].Encodable() && !p[i].tr && p[i].seqnum == i
  }

  lemma PacketsAre(cfg: Config)
    requires TwoDataPackets(cfg)
    ensures Encodings(Sent(cfg)) && Sent(cfg)[0].payload == cfg.file[..512]
  {
    ShortStream(cfg.file);
  }

  /** The states of the run. */
  ghost function RunOf(len: nat, p: seq<Pkt>): seq<System>
    requires |p| == 3
  {
    var a0, a2 := AckFor(31, p[0]), AckFor(30, p[2]);
    var r1 := R.State(1, [], p[0].payload, false);
    var r2 := R.State(1, [p[2]], p[0].payload, false);
    [System(SenderAfter(len, p, 0), R.INITIAL, [], false),
     System(SenderAfter(len, p, 1), R.INITIAL, [], false),
     System(SenderAfter(len, p, 1), r1, [a0], false),
     System(SenderAfter(len, p, 2), r1, [a0], false),
     System(SenderAfter(len, p, 3), r1, [a0], false),
     System(SenderAfter(len, p, 3), r2, [a0, a2], false),
     System(SenderAfter(len, p, 4), r2, [a0, a2], false)]
  }

  lemma EndOfRun(len: nat, p: seq<Pkt>)
    requires |p| == 3
    ensures var last := RunOf(len, p)[6];
            !Running(last.sender.state) && !last.aborted && last.receiver.out == p[0].payload
  {
  }

  /** Some event leads from state `k` of the run to the next one. */
  ghost predicate Leads(cfg: Config, k: nat, e: Event)
    requires k < 6
  {
    var run := RunOf(|cfg.file|, Sent(cfg));
    LeadsTo(cfg, run[k], e, run[k + 1])
  }

  lemma AckArrives(cfg: Config) returns (e: Event)
    requires TwoDataPackets(cfg)
    ensures Leads(cfg, 2, e)
  {
    var p := Sent(cfg);
    var run := RunOf(|cfg.file|, p);
    PacketsAre(cfg);
    SenderDoes01(cfg, 1);
    e := DeliverToSender(cfg, run[2], ResponseIn(p, 1).value);
    assert run[2].sender == SenderAfter(|cfg.file|, p, 1);
  }

  lemma AckArrivesAgain(cfg: Config) returns (e: Event)
    requires TwoDataPackets(cfg)
    ensures Leads(cfg, 3, e)
  {
    var p := Sent(cfg);
    var run := RunOf(|cfg.file|, p);
    PacketsAre(cfg);
    SenderDoes2(cfg);
    e := DeliverToSender(cfg, run[3], ResponseIn(p, 2).value);
    assert run[3].sender == SenderAfter(|cfg.file|, p, 2);
  }

  lemma AckOfEofArrives(cfg: Config) returns (e: Event)
    requires TwoDataPackets(cfg)
    ensures Leads(cfg, 5, e)
  {
    var p := Sent(cfg);
    var run := RunOf(|cfg.file|, p);
    PacketsAre(cfg);
    SenderDoes3(cfg);
    e := DeliverToSender(cfg, run[5], ResponseIn(p, 3).value);
    assert run[5].sender == SenderAfter(|cfg.file|, p, 3);
  }

  lemma FirstArrives(cfg: Config) returns (e: Event)
    requires TwoDataPackets(cfg)
    ensures Leads(cfg, 1, e)
  {
    var p := Sent(cfg);
    var run := RunOf(|cfg.file|, p);
    PacketsAre(cfg);
    FirstPacket(p[0]);
    assert p[0] in run[1].sender.history && run[2].replies == run[1].replies + [AckFor(31, p[0])];
    e := DeliverToReceiver(cfg, run[1], p[0], run[2].receiver, AckFor(31, p[0]));
  }

  lemma EofArrives(cfg: Config) returns (e: Event)
    requires TwoDataPackets(cfg)
    ensures Leads(cfg, 4, e)
  {
    var p := Sent(cfg);
    var run := RunOf(|cfg.file|, p);
    PacketsAre(cfg);
    EarlyEof(p[0].payload, p[2]);
    assert p[2] in run[4].sender.history && run[5].replies == run[4].replies + [AckFor(30, p[2])];
    e := DeliverToReceiver(cfg, run[4], p[2], run[5].receiver, AckFor(30, p[2]));
  }

  lemma StepOfRun(cfg: Config, k: nat) returns (e: Event)
    requires TwoDataPackets(cfg) && k < 6
    ensures Leads(cfg, k, e)
  {
    if k == 0 {
      SenderDoes01(cfg, 0);
      e := SenderIterates(None);
    } else if k == 1 {
      e := FirstArrives(cfg);
    } else if k == 2 {
      e := AckArrives(cfg);
    } else if k == 3 {
      e := AckArrivesAgain(cfg);
    } else if k == 4 {
      e := EofArrives(cfg);
    } else {
      e := AckOfEofArrives(cfg);
    }
  }

  lemma {:induction false} RunUpTo(cfg: Config, k: nat) returns (run: seq<System>, events: seq<Event>)
    requires TwoDataPackets(cfg) && k <= 6
    ensures RunsTo(cfg, run, events, RunOf(|cfg.file|, Sent(cfg))[k])
  {
    if k == 0 {
      run, events := [BEGINNING], [];
    } else {
      run, events := RunUpTo(cfg, k - 1);
      var e := StepOfRun(cfg, k - 1);
      RunOn(cfg, run, events, RunOf(|cfg.file|, Sent(cfg))[k - 1], e, RunOf(|cfg.file|, Sent(cfg))[k]);
      run, events := run + [RunOf(|cfg.file|, Sent(cfg))[k]], events + [e];
    }
  }

  /**
   The ACK of the first packet arrives twice, the datagram of the second packet never: the sender
   exits as if all was well, and the receiver has the first 512 bytes only.
   */
  lemma RepeatedAckLosesData(cfg: Config) returns (run: seq<System>, events: seq<Event>)
    requires 512 < |cfg.file| <= 1024 && InTime(cfg.source, 40)
    ensures IsRun(cfg, run, events)
    ensures var last := run[|run| - 1];
            && !Running(last.sender.state) && !last.aborted
            && last.receiver.out == cfg.file[..512] && |last.receiver.out| < |cfg.file|
  {
    run, events := RunUpTo(cfg, 6);
    PacketsAre(cfg);
    EndOfRun(|cfg.file|, Sent(cfg));
  }
}
