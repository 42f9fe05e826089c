/** Lossless delivery over whole runs, and exactly when an acknowledgement breaks it. */
module Delivery {
  import opened Types
  import opened Codec
  import opened Lists
  import opened Buffer
  import opened SenderSpec
  import opened FileStream
  import opened SenderRuns
  import opened Protocol

  /* ---------- what one acknowledgement takes out of the sender's buffer ---------- */

  /** The packet taken out besides those below the acknowledged number. */
  ghost function Extra(buf: seq<Pkt>, a: byte, t: uint32): Option<Pkt> {
    var kept := Keep(buf, NumbersFrom(a));
    if AnyBelow(buf, a, t) || kept == [] then None else Some(kept[TimestampVictim(kept, t)])
  }

  lemma HeldAfterRemoval(buf: seq<Pkt>, i: nat, number: nat)
    requires Distinct(Seqnums(buf)) && i < |buf|
    ensures Held(RemoveAt(buf, i), number) <==> Held(buf, number) && number != buf[i].seqnum
  {
    HeldBySeqnums(RemoveAt(buf, i), number);
    HeldBySeqnums(buf, number);
    SeqnumsOfRemoveAt(buf, i);
    RemoveAtMembers(Seqnums(buf), i);
    RemoveAtDistinct(Seqnums(buf), i);
  }

  /** Exactly the numbers below the acknowledged one and the extra packet are gone. */
  lemma HeldAfterAck(buf: seq<Pkt>, a: byte, t: uint32, number: nat)
    requires Distinct(Seqnums(buf))
    ensures Held(AfterAck(buf, a, t), number)
       <==> Held(buf, number) && number >= a
            && (Extra(buf, a, t).Some? ==> number != Extra(buf, a, t).value.seqnum)
  {
    var kept := Keep(buf, NumbersFrom(a));
    KeepMembers(buf, NumbersFrom(a));
    KeepDistinct(buf, NumbersFrom(a));
    assert Held(kept, number) <==> Held(buf, number) && number >= a;
    if Extra(buf, a, t).Some? {
      HeldAfterRemoval(kept, TimestampVictim(kept, t), number);
    }
  }

  /** The extra packet was buffered, at or above the acknowledged number; which one it is. */
  lemma ExtraIs(buf: seq<Pkt>, a: byte, t: uint32)
    requires Extra(buf, a, t).Some?
    ensures var p, kept := Extra(buf, a, t).value, Keep(buf, NumbersFrom(a));
            && p in buf && p.seqnum >= a && kept != []
            && (t in Timestamps(kept) ==> p.timestamp == t)
            && (t !in Timestamps(kept) ==> p == kept[0])
  {
    KeepMembers(buf, NumbersFrom(a));
    var kept := Keep(buf, NumbersFrom(a));
    var i := TimestampVictim(kept, t);
    assert kept[i] in kept && Timestamps(kept)[i] == kept[i].timestamp;
  }

  /* ---------- responses come from the receiver ---------- */

  lemma ResponseWasSent(cfg: Config, s: System, arrived: Option<seq<byte>>)
    requires Sound(cfg, s) && Enabled(cfg, s, SenderIterates(arrived))
    requires Response(cfg.crc, arrived).Some?
    ensures Response(cfg.crc, arrived).value in s.replies
    ensures !CutShort(Response(cfg.crc, arrived))
  {
    forall m | m in s.replies
      ensures m.Encodable() && !m.tr && m.ptype != PTYPE_DATA
    {
      assert Truthful(s.sender.history, s.receiver, m);
    }
    ArrivedWasSent(cfg.crc, s.replies, arrived.value);
  }

  /** A buffered packet whose timestamp an ACK echoes is safe. */
  lemma EchoedIsSafe(cfg: Config, s: System, ack: Pkt, p: Pkt)
    requires Sound(cfg, s) && ack in s.replies && ack.ptype == PTYPE_ACK
    requires p in s.sender.state.buf && p.timestamp == ack.timestamp
    ensures Safe(s.receiver, p.seqnum)
  {
    assert Truthful(s.sender.history, s.receiver, ack);
    var h :| h in s.sender.history && h.timestamp == ack.timestamp && Safe(s.receiver, h.seqnum);
    TimestampTells(s.sender, p, h);
  }

  /** An ACK takes out safe packets only, if and only if it is harmless. */
  lemma AckTakesSafePackets(cfg: Config, s: System, ack: Pkt)
    requires Sound(cfg, s) && ack in s.replies && ack.ptype == PTYPE_ACK
    ensures HarmlessAck(s, ack)
       <==> forall i: nat | Held(s.sender.state.buf, i) ::
              Held(AfterAck(s.sender.state.buf, ack.seqnum, ack.timestamp), i) || Safe(s.receiver, i)
  {
    var buf, a, t := s.sender.state.buf, ack.seqnum, ack.timestamp;
    assert Truthful(s.sender.history, s.receiver, ack);
    var extra := Extra(buf, a, t);
    if extra.Some? {
      ExtraIs(buf, a, t);
      if t in Timestamps(Keep(buf, NumbersFrom(a))) {
        EchoedIsSafe(cfg, s, ack, extra.value);
      }
      assert HarmlessAck(s, ack) <==> Safe(s.receiver, extra.value.seqnum);
      assert Held(buf, extra.value.seqnum);
      HeldAfterAck(buf, a, t, extra.value.seqnum);
    }
    if HarmlessAck(s, ack) {
      forall i: nat | Held(buf, i)
        ensures Held(AfterAck(buf, a, t), i) || Safe(s.receiver, i)
      {
        HeldAfterAck(buf, a, t, i);
      }
    }
  }

  /** Only an ACK takes packets out. */
  lemma OthersTakeNothing(cfg: Config, w: World, response: Option<Pkt>)
    requires response.Some? ==> response.value.ptype != PTYPE_ACK
    ensures Seqnums(AfterReceive(cfg.source, w, response).state.buf) == Seqnums(w.state.buf)
  {
  }

  ghost predicate LeftOrSafe(cfg: Config, s: System, response: Option<Pkt>) {
    forall i: nat | Held(s.sender.state.buf, i) ::
      Held(AfterReceive(cfg.source, s.sender, response).state.buf, i) || Safe(s.receiver, i)
  }

  lemma AckTakesSafeWorld(cfg: Config, s: System, ack: Pkt)
    requires Sound(cfg, s) && ack in s.replies && ack.ptype == PTYPE_ACK
    ensures HarmlessAck(s, ack) <==> LeftOrSafe(cfg, s, Some(ack))
  {
    AckTakesSafePackets(cfg, s, ack);
    assert AfterReceive(cfg.source, s.sender, Some(ack)).state.buf
        == AfterAck(s.sender.state.buf, ack.seqnum, ack.timestamp);
  }

  lemma OthersLeaveEverything(cfg: Config, s: System, response: Option<Pkt>)
    requires response.Some? ==> response.value.ptype != PTYPE_ACK
    ensures LeftOrSafe(cfg, s, response)
  {
    OthersTakeNothing(cfg, s.sender, response);
    forall i: nat | Held(s.sender.state.buf, i)
      ensures Held(AfterReceive(cfg.source, s.sender, response).state.buf, i)
    {
      HeldBySeqnums(s.sender.state.buf, i);
      HeldBySeqnums(AfterReceive(cfg.source, s.sender, response).state.buf, i);
    }
  }

  lemma ResponseTakesSafePackets(cfg: Config, s: System, e: Event, response: Option<Pkt>)
    requires Sound(cfg, s) && Enabled(cfg, s, e) && e.SenderIterates? && response == Response(cfg.crc, e.arrived)
    ensures Harmless(cfg, s, e) <==> LeftOrSafe(cfg, s, response)
  {
    if response.Some? && response.value.ptype == PTYPE_ACK {
      ResponseWasSent(cfg, s, e.arrived);
      AckTakesSafeWorld(cfg, s, response.value);
      assert AckIn(cfg, e) == response;
    } else {
      OthersLeaveEverything(cfg, s, response);
      assert AckIn(cfg, e) == None;
    }
  }

  /* ---------- one step ---------- */

  lemma HeldInLonger(buf: seq<Pkt>, front: seq<int>, rest: seq<Pkt>, i: nat)
    requires Seqnums(buf) == front + Seqnums(rest)
    ensures Held(buf, i) <==> i in front || Held(rest, i)
  {
    HeldBySeqnums(buf, i);
    HeldBySeqnums(rest, i);
  }

  /** Buffer numbers after an iteration: those the response left, and the new one. */
  lemma HeldAfterIteration(cfg: Config, w: World, response: Option<Pkt>, i: nat)
    requires Synced(cfg.file, w) && PacketCount(cfg.file) <= 256
    requires Timely(cfg.source, w.state) && !CutShort(response)
    ensures var left := AfterReceive(cfg.source, w, response).state.buf;
            var w' := SenderRuns.Next(cfg.file, cfg.source, w, response);
            && w.count <= w'.count
            && (Held(w'.state.buf, i) <==> w.count <= i < w'.count || Held(left, i))
  {
    NumbersAfterIteration(cfg, w, response);
    IterationSyncs(cfg.file, cfg.source, w, response);
    var w' := SenderRuns.Next(cfg.file, cfg.source, w, response);
    CountStaysSmall(cfg, w');
    HeldWithNew(w'.state.buf, AfterReceive(cfg.source, w, response).state.buf, w.count, w'.count, i);
  }

  lemma HeldWithNew(buf: seq<Pkt>, rest: seq<Pkt>, n: nat, n': nat, i: nat)
    requires n <= n' <= n + 1 && n' <= 256
    requires Seqnums(buf) == (if n' == n then [] else [n % 256]) + Seqnums(rest)
    ensures Held(buf, i) <==> n <= i < n' || Held(rest, i)
  {
    HeldInLonger(buf, if n' == n then [] else [n % 256], rest, i);
  }

  lemma HeldWasSent(cfg: Config, s: System, i: nat)
    requires Sound(cfg, s) && PacketCount(cfg.file) <= 256 && Held(s.sender.state.buf, i)
    ensures i < s.sender.count
  {
    var p :| p in s.sender.state.buf && p.seqnum == i;
    NumberIsIndex(cfg.file, s.sender.count, s.sender.state.buf, p);
  }

  /** An iteration of the sender loses nothing if and only if the ACK it handles, if any, is harmless. */
  lemma SenderLosesNothingIffHarmless(cfg: Config, s: System, arrived: Option<seq<byte>>)
    requires Sound(cfg, s) && PacketCount(cfg.file) <= 256 && NoLoss(s)
    requires Enabled(cfg, s, SenderIterates(arrived))
    ensures NoLoss(Apply(cfg, s, SenderIterates(arrived))) <==> Harmless(cfg, s, SenderIterates(arrived))
  {
    var s' := Apply(cfg, s, SenderIterates(arrived));
    var response := Response(cfg.crc, arrived);
    if response.Some? {
      ResponseWasSent(cfg, s, arrived);
    }
    ResponseTakesSafePackets(cfg, s, SenderIterates(arrived), response);
    if LeftOrSafe(cfg, s, response) {
      forall i: nat | i < s'.sender.count
        ensures Held(s'.sender.state.buf, i) || Safe(s'.receiver, i)
      {
        HeldAfterIteration(cfg, s.sender, response, i);
      }
    } else {
      var i: nat :| Held(s.sender.state.buf, i)
        && !Held(AfterReceive(cfg.source, s.sender, response).state.buf, i)
        && !Safe(s.receiver, i);
      HeldWasSent(cfg, s, i);
      HeldAfterIteration(cfg, s.sender, response, i);
      assert !(Held(s'.sender.state.buf, i) || Safe(s'.receiver, i));
    }
  }

  lemma ReceiverLosesNothing(cfg: Config, s: System, e: Event)
    requires Sound(cfg, s) && PacketCount(cfg.file) <= 256 && NoLoss(s)
    requires Enabled(cfg, s, e) && e.ReceiverGets?
    ensures NoLoss(Apply(cfg, s, e))
  {
    ReceiverKeepsSound(cfg, s, e);
    NothingLost(s, Apply(cfg, s, e));
  }

  lemma NothingLost(s: System, s': System)
    requires NoLoss(s) && s'.sender == s.sender && NoSetback(s.receiver, s'.receiver)
    ensures NoLoss(s')
  {
  }

  lemma BeginningIsSound(cfg: Config)
    ensures Sound(cfg, BEGINNING) && NoLoss(BEGINNING)
  {
    FileGivesStream(cfg.file);
    assert StreamOf(cfg.file)[..0] == [];
  }

  /* ---------- whole runs ---------- */

  lemma StepIsSound(cfg: Config, s: System, e: Event, s': System)
    requires PacketCount(cfg.file) <= 256 && Sound(cfg, s) && LeadsTo(cfg, s, e, s')
    ensures Sound(cfg, s')
  {
    match e
    case SenderIterates(arrived) => SenderKeepsSound(cfg, s, arrived);
    case ReceiverGets(_) => ReceiverKeepsSound(cfg, s, e);
  }

  /** Every run is sound, even one that loses packets: the receiver never aborts. */
  lemma {:induction false} RunIsSound(cfg: Config, run: seq<System>, events: seq<Event>, k: nat)
    requires PacketCount(cfg.file) <= 256 && IsRun(cfg, run, events) && k < |run|
    ensures Sound(cfg, run[k])
  {
    if k == 0 {
      BeginningIsSound(cfg);
    } else {
      var j := k - 1;
      RunIsSound(cfg, run, events, j);
      StepOf(cfg, run, events, j, k);
      StepIsSound(cfg, run[j], events[j], run[k]);
    }
  }

  lemma StepLosesNothing(cfg: Config, s: System, e: Event, s': System)
    requires PacketCount(cfg.file) <= 256 && Sound(cfg, s) && NoLoss(s)
    requires LeadsTo(cfg, s, e, s') && Harmless(cfg, s, e)
    ensures NoLoss(s')
  {
    match e
    case SenderIterates(arrived) => SenderLosesNothingIffHarmless(cfg, s, arrived);
    case ReceiverGets(_) => ReceiverLosesNothing(cfg, s, e);
  }

  lemma {:induction false} RunLosesNothing(cfg: Config, run: seq<System>, events: seq<Event>, k: nat)
    requires PacketCount(cfg.file) <= 256 && IsRun(cfg, run, events) && k < |run|
    requires forall j | 0 <= j < k :: Harmless(cfg, run[j], events[j])
    ensures NoLoss(run[k])
  {
    if k == 0 {
      BeginningIsSound(cfg);
    } else {
      var j := k - 1;
      RunLosesNothing(cfg, run, events, j);
      RunIsSound(cfg, run, events, j);
      StepOf(cfg, run, events, j, k);
      StepLosesNothing(cfg, run[j], events[j], run[k]);
    }
  }

  /** With nothing in flight, everything sent was consumed: the window stands at the EOF packet. */
  lemma NothingHeldMeansAllWritten(cfg: Config, s: System)
    requires Sound(cfg, s) && NoLoss(s) && !Running(s.sender.state)
    requires PacketCount(cfg.file) <= 256
    ensures s.receiver.pos == PacketCount(cfg.file) - 1
  {
    FileGivesStream(cfg.file);
    var pos := s.receiver.pos;
    assert s.sender.count == PacketCount(cfg.file);
    NothingHeldAtStart(s.receiver);
    if pos < s.sender.count {
      assert Safe(s.receiver, pos);
    }
  }

  lemma NothingHeldAtStart(r: R.State)
    requires R.Spread(r, 1)
    ensures !Held(r.buf, r.pos)
  {
    forall p | p in r.buf
      ensures p.seqnum != r.pos
    {
      R.DistanceZero(r, p);
    }
  }

  /**
   Lossless delivery: for a file of at most 256 packets, EOF included, over any such network. If every
   ACK handled is harmless, every packet sent is always in the sender's buffer, in the receiver's
   buffer, or consumed; and when the sender's loop exits, the receiver's output is the whole file.
   */
  lemma LosslessDelivery(cfg: Config, run: seq<System>, events: seq<Event>, k: nat)
    requires PacketCount(cfg.file) <= 256 && IsRun(cfg, run, events) && k < |run|
    requires forall j | 0 <= j < k :: Harmless(cfg, run[j], events[j])
    ensures NoLoss(run[k]) && !run[k].aborted
    ensures !Running(run[k].sender.state) ==> run[k].receiver.out == cfg.file
  {
    RunIsSound(cfg, run, events, k);
    RunLosesNothing(cfg, run, events, k);
    if !Running(run[k].sender.state) {
      NothingHeldMeansAllWritten(cfg, run[k]);
      DataIsWholeFile(cfg.file);
    }
  }

  /**
   The same under a hypothesis the sender can check: each ACK handled echoes a timestamp that its
   cumulative loop pops or that is still buffered, or leaves nothing to pop.
   */
  lemma DeliveryIfEchoesAreFound(cfg: Config, run: seq<System>, events: seq<Event>, k: nat)
    requires PacketCount(cfg.file) <= 256 && IsRun(cfg, run, events) && k < |run|
    requires forall j | 0 <= j < k && AckIn(cfg, events[j]).Some? ::
               EchoFound(run[j].sender.state.buf, AckIn(cfg, events[j]).value)
    ensures NoLoss(run[k])
    ensures !Running(run[k].sender.state) ==> run[k].receiver.out == cfg.file
  {
    forall j | 0 <= j < k
      ensures Harmless(cfg, run[j], events[j])
    {
    }
    LosslessDelivery(cfg, run, events, k);
  }

  /* ---------- the sender cannot run ahead ---------- */

  lemma UnconsumedAreBuffered(s: System, i: nat)
    requires NoLoss(s) && s.receiver.pos <= i < s.sender.count
    ensures i in Seqnums(s.sender.state.buf) + Seqnums(s.receiver.buf) || (i == s.receiver.pos && s.receiver.eof)
  {
    HeldBySeqnums(s.sender.state.buf, i);
    HeldBySeqnums(s.receiver.buf, i);
  }

  /**
   Although sending looks at the occupancy of the buffer only: the packet sent last is at most 60
   after the receiver's window start.
   */
  lemma SenderRunAhead(cfg: Config, run: seq<System>, events: seq<Event>, k: nat)
    requires PacketCount(cfg.file) <= 256 && IsRun(cfg, run, events) && k < |run|
    requires forall j | 0 <= j < k :: Harmless(cfg, run[j], events[j])
    ensures run[k].sender.count <= run[k].receiver.pos + 61
  {
    var s := run[k];
    RunIsSound(cfg, run, events, k);
    RunLosesNothing(cfg, run, events, k);
    if s.receiver.eof {
      assert s.receiver.pos == PacketCount(cfg.file) - 1;
    } else if s.receiver.pos < s.sender.count {
      var numbers := Seqnums(s.sender.state.buf) + Seqnums(s.receiver.buf);
      forall i: int | s.receiver.pos <= i < s.sender.count
        ensures i in numbers
      {
        UnconsumedAreBuffered(s, i);
      }
      CoversRange(numbers, s.receiver.pos, s.sender.count);
      R.SpreadIsSmall(s.receiver, 1);
    }
  }
}
