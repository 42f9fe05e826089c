/** What the receiver writes is always a beginning of the file, with files of any length. */
module FilePrefix {
  import opened Codec
  import opened Ring
  import opened StreamSafety
  import opened FileStream
  import opened SenderRuns
  import opened Protocol

  /** How many times the receiver's window has slid before step `k` of a run. */
  ghost function Written(run: seq<System>, k: nat): nat
    requires k < |run|
  {
    if k == 0 then 0
    else Written(run, k - 1) + Offset(run[k - 1].receiver.pos, run[k].receiver.pos, 256)
  }

  /** Intact packets that arrive are copies of stream packets in reach. */
  ghost predicate NearArrival(cfg: Config, written: nat, e: Event) {
    PacketIn(cfg, e).Some? ==> Near(cfg.file, written, PacketIn(cfg, e).value)
  }

  /** What every state satisfies that such a run reaches, whatever ACKs were handled. */
  ghost predicate InOrder(cfg: Config, s: System, written: nat) {
    && !s.aborted && Stamped(cfg.source, s.sender) && Synced(cfg.file, s.sender)
    && Follows(cfg.file, s.sender.history, written, s.receiver)
  }

  lemma BeginsInOrder(cfg: Config)
    ensures InOrder(cfg, BEGINNING, 0)
  {
    FileGivesStream(cfg.file);
    assert StreamOf(cfg.file)[..0] == [];
  }

  lemma SenderKeepsOrder(cfg: Config, s: System, written: nat, e: Event)
    requires InOrder(cfg, s, written) && Enabled(cfg, s, e) && e.SenderIterates?
    ensures InOrder(cfg, Apply(cfg, s, e), written)
    ensures Apply(cfg, s, e).receiver == s.receiver
  {
    var response := Response(cfg.crc, e.arrived);
    IterationStamps(cfg.file, cfg.source, s.sender, response);
    IterationSyncs(cfg.file, cfg.source, s.sender, response);
    HistoryOnlyGrows(cfg, s.sender, response);
  }

  /** A packet in reach moves the receiver at most 31 packets forward. */
  lemma HandlingKeepsOrder(cfg: Config, s: System, written: nat, p: Pkt) returns (written': nat)
    requires InOrder(cfg, s, written)
    requires (p in s.sender.history || p.tr) && Near(cfg.file, written, p)
    ensures written <= written' <= written + 31
    ensures InOrder(cfg, AfterHandling(s, R.Handle(s.receiver, p)), written')
  {
    var n := ReceiverFollows(cfg.file, s.sender, written, s.receiver, p);
    written' := written + n;
  }

  lemma ReceiverKeepsOrder(cfg: Config, s: System, written: nat, e: Event) returns (written': nat)
    requires InOrder(cfg, s, written) && Enabled(cfg, s, e) && e.ReceiverGets?
    requires NearArrival(cfg, written, e)
    ensures written <= written' <= written + 31 && InOrder(cfg, Apply(cfg, s, e), written')
  {
    written' := written;
    ReceiverEvent(cfg, s, e);
    if PacketIn(cfg, e).Some? {
      written' := HandlingKeepsOrder(cfg, s, written, PacketIn(cfg, e).value);
    }
  }

  lemma EventKeepsOrder(cfg: Config, s: System, written: nat, e: Event) returns (written': nat)
    requires InOrder(cfg, s, written) && Enabled(cfg, s, e) && NearArrival(cfg, written, e)
    ensures written <= written' <= written + 31 && InOrder(cfg, Apply(cfg, s, e), written')
  {
    if e.SenderIterates? {
      SenderKeepsOrder(cfg, s, written, e);
      written' := written;
    } else {
      written' := ReceiverKeepsOrder(cfg, s, written, e);
    }
  }

  /** The window slides once for each packet written. */
  lemma WindowTells(cfg: Config, s: System, written: nat, after: System, written': nat)
    requires InOrder(cfg, s, written) && InOrder(cfg, after, written') && written <= written' <= written + 31
    ensures written' == written + Offset(s.receiver.pos, after.receiver.pos, 256)
  {
    SlidBy(written, s.receiver.pos, written' - written, after.receiver.pos);
  }

  lemma WrittenNext(run: seq<System>, k: nat, next: nat)
    requires next == k + 1 < |run|
    ensures Written(run, next) == Written(run, k) + Offset(run[k].receiver.pos, run[next].receiver.pos, 256)
  {
  }

  /** An event moves the receiver as far as its window slides. */
  lemma StepKeepsOrder(cfg: Config, run: seq<System>, events: seq<Event>, k: nat, next: nat)
    requires IsRun(cfg, run, events) && next == k + 1 < |run|
    requires InOrder(cfg, run[k], Written(run, k)) && NearArrival(cfg, Written(run, k), events[k])
    ensures InOrder(cfg, run[next], Written(run, next))
  {
    StepOf(cfg, run, events, k, next);
    var written' := EventKeepsOrder(cfg, run[k], Written(run, k), events[k]);
    WindowTells(cfg, run[k], Written(run, k), run[next], written');
    WrittenNext(run, k, next);
    assert Written(run, next) == written';
  }

  /** Every packet that arrived before step `k` was near. */
  ghost predicate AllNear(cfg: Config, run: seq<System>, events: seq<Event>, k: nat)
    requires |run| == |events| + 1 && k < |run|
  {
    forall j | 0 <= j < k :: NearArrival(cfg, Written(run, j), events[j])
  }

  lemma {:induction false} RunKeepsOrder(cfg: Config, run: seq<System>, events: seq<Event>, k: nat)
    requires IsRun(cfg, run, events) && k < |run| && AllNear(cfg, run, events, k)
    ensures InOrder(cfg, run[k], Written(run, k))
  {
    if k == 0 {
      BeginsInOrder(cfg);
    } else {
      var j := k - 1;
      assert NearArrival(cfg, Written(run, j), events[j]);
      RunKeepsOrder(cfg, run, events, j);
      StepKeepsOrder(cfg, run, events, j, k);
    }
  }

  /**
   With a file of any length, and whatever is lost: as long as intact packets that arrive are copies of
   packets in reach, the receiver does not abort, the output is the first packets of the file, and the
   window stands right after them.
   */
  lemma OutputIsPrefixOfFile(cfg: Config, run: seq<System>, events: seq<Event>, k: nat)
    requires IsRun(cfg, run, events) && k < |run| && AllNear(cfg, run, events, k)
    ensures !run[k].aborted
    ensures var written := Written(run, k);
            && written < PacketCount(cfg.file) && run[k].receiver.pos == written % 256
            && run[k].receiver.out == cfg.file[..PositionAfter(cfg.file, written)]
  {
    RunKeepsOrder(cfg, run, events, k);
    WritesFile(cfg, run[k], Written(run, k));
  }

  lemma WritesFile(cfg: Config, s: System, written: nat)
    requires InOrder(cfg, s, written)
    ensures written < PacketCount(cfg.file) && s.receiver.pos == written % 256
    ensures s.receiver.out == cfg.file[..PositionAfter(cfg.file, written)]
  {
    StreamSpellsFile(cfg.file, written);
  }

  /* ---------- at most 256 packets ---------- */

  lemma {:induction false} ShortRunsAreNear(cfg: Config, run: seq<System>, events: seq<Event>, k: nat)
    requires PacketCount(cfg.file) <= 256 && IsRun(cfg, run, events) && k < |run|
    ensures InOrder(cfg, run[k], Written(run, k)) && AllNear(cfg, run, events, k)
  {
    if k == 0 {
      BeginsInOrder(cfg);
    } else {
      var j := k - 1;
      ShortRunsAreNear(cfg, run, events, j);
      StepOf(cfg, run, events, j, k);
      ShortArrivalIsNear(cfg, run[j], Written(run, j), events[j]);
      StepKeepsOrder(cfg, run, events, j, k);
      NextNear(cfg, run, events, j, k);
    }
  }

  lemma NextNear(cfg: Config, run: seq<System>, events: seq<Event>, k: nat, next: nat)
    requires |run| == |events| + 1 && next == k + 1 < |run| && AllNear(cfg, run, events, k)
    requires NearArrival(cfg, Written(run, k), events[k])
    ensures AllNear(cfg, run, events, next)
  {
    forall j | 0 <= j < next
      ensures NearArrival(cfg, Written(run, j), events[j])
    {
      if j == k {
        assert events[j] == events[k];
      }
    }
  }

  lemma ShortArrivalIsNear(cfg: Config, s: System, written: nat, e: Event)
    requires PacketCount(cfg.file) <= 256 && InOrder(cfg, s, written) && Enabled(cfg, s, e)
    ensures NearArrival(cfg, written, e)
  {
    if PacketIn(cfg, e).Some? {
      ReceiverEvent(cfg, s, e);
      ShortIsNear(cfg, s.sender, written, PacketIn(cfg, e).value);
    }
  }

  /** With at most 256 packets no hypothesis on what arrives is needed. */
  lemma OutputIsPrefixOfShortFile(cfg: Config, run: seq<System>, events: seq<Event>, k: nat)
    requires PacketCount(cfg.file) <= 256 && IsRun(cfg, run, events) && k < |run|
    ensures !run[k].aborted
    ensures run[k].receiver.out == cfg.file[..PositionAfter(cfg.file, run[k].receiver.pos)]
  {
    ShortRunsAreNear(cfg, run, events, k);
    OutputIsPrefixOfFile(cfg, run, events, k);
    StartIsWritten(StreamOf(cfg.file), Written(run, k), run[k].receiver);
  }
}
