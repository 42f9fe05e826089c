/**
 The bound of 256 packets is exact for what is written, too. When the receiver has consumed EOF, a copy of
 the packet sent 256 packets earlier has the number it waits for, and is written after the whole file.
 For every longer file there is such a run, in which the sender exits as if all was well.
 */
module OldCopy {
  import opened Types
  import opened Codec
  import opened TimeSource
  import opened SenderSpec
  import opened FileStream
  import opened SenderRuns
  import opened Protocol
  import opened Lockstep
  import Delivery
  import FilePrefix

  lemma SameNumber(i: nat, j: nat)
    requires j == i + 256
    ensures Number(i) == Number(j)
  {
    assert j % 256 == i % 256;
  }

  /** EOF was consumed but its ACK is under way, and the old copy was written. */
  ghost predicate Spoilt(cfg: Config, s: System, e: nat, p: Pkt) {
    && e + 1 == PacketCount(cfg.file) && !s.aborted
    && HoldsLast(cfg, s.sender, e, p) && AckOf(Number(e), p) in s.replies
    && |s.receiver.out| > |cfg.file|
  }

  /** The old copy is taken for the packet that the receiver waits for. */
  lemma OldCopyArrives(cfg: Config, s: System, i: nat, e: nat, p: Pkt, copy: Pkt) returns (event: Event)
    requires e == i + 256 && e + 1 == PacketCount(cfg.file)
    requires !s.aborted && HoldsLast(cfg, s.sender, e, p) && AckOf(Number(e), p) in s.replies
    requires s.receiver == Waiting(e, cfg.file).(eof := true)
    requires copy in s.sender.history && copy == DatagramOf(cfg.file, i, copy.timestamp)
    ensures Enabled(cfg, s, event) && Harmless(cfg, s, event)
    ensures Spoilt(cfg, Apply(cfg, s, event), e, p)
  {
    SameNumber(i, e);
    DatagramIsFine(cfg.file, i, copy);
    WritesNext(s.receiver, copy);
    var o := R.Handle(s.receiver, copy);
    event := DeliverToReceiver(cfg, s, copy, o.state, o.reply);
  }

  /** Up to EOF, undisturbed; then the old copy arrives. */
  lemma SpoiltRun(cfg: Config, limit: nat, e: nat)
    returns (run: seq<System>, events: seq<Event>, s: System, p: Pkt)
    requires Quick(cfg.source, limit) && 3 * e + 8 <= limit && 256 <= e && e + 1 == PacketCount(cfg.file)
    ensures Reaches(cfg, run, events, s) && Spoilt(cfg, s, e, p)
  {
    var i := e - 256;
    run, events, s, p := UpTo(cfg, e, limit);
    BeforeEof(cfg.file, e);
    assert WasSent(cfg.file, s.sender.history, i);
    var copy :| copy in s.sender.history && copy == DatagramOf(cfg.file, i, copy.timestamp);
    var event := EofArrives(cfg, s, e, cfg.file, p);
    run, events, s := GoOn(cfg, run, events, s, event);
    event := OldCopyArrives(cfg, s, i, e, p, copy);
    run, events, s := GoOn(cfg, run, events, s, event);
  }

  /**
   For every file of more than 256 packets and every clock quick enough there is a run in which every ACK
   handled is harmless, the sender exits, and more than the file was written.
   */
  lemma OldCopySpoilsFile(cfg: Config) returns (run: seq<System>, events: seq<Event>)
    requires PacketCount(cfg.file) > 256 && Elapsed(cfg.source, 3 * PacketCount(cfg.file) + 8) < TIMER
    ensures IsRun(cfg, run, events) && AllHarmless(cfg, run, events)
    ensures var last := run[|run| - 1];
            !last.aborted && !Running(last.sender.state) && |last.receiver.out| > |cfg.file|
  {
    var limit, e: nat := 3 * PacketCount(cfg.file) + 8, PacketCount(cfg.file) - 1;
    var s, p;
    run, events, s, p := SpoiltRun(cfg, limit, e);
    EchoOfOne(p, AckOf(Number(e), p));
    var event := LastAckArrives(cfg, s, e, p, AckOf(Number(e), p), limit);
    run, events, s := GoOn(cfg, run, events, s, event);
  }

  /* ---------- the exact bound ---------- */

  ghost predicate IsPrefix(out: seq<byte>, file: seq<byte>) {
    |out| <= |file| && out == file[..|out|]
  }

  /** In the last state of the run: when the sender has exited, the output is the file. */
  ghost predicate ExitMeansDelivered(cfg: Config, run: seq<System>)
    requires run != []
  {
    !Running(run[|run| - 1].sender.state) ==> run[|run| - 1].receiver.out == cfg.file
  }

  /** Every run whose ACKs are harmless delivers the file when the sender exits. */
  ghost predicate Delivers(cfg: Config) {
    forall run: seq<System>, events: seq<Event> | IsRun(cfg, run, events) && AllHarmless(cfg, run, events) ::
      ExitMeansDelivered(cfg, run)
  }

  /** Every run, and every run whose ACKs are harmless, writes a prefix of the file. */
  ghost predicate WritesPrefixes(cfg: Config) {
    forall run: seq<System>, events: seq<Event> | IsRun(cfg, run, events) ::
      IsPrefix(run[|run| - 1].receiver.out, cfg.file)
  }

  ghost predicate WritesPrefixesIfHarmless(cfg: Config) {
    forall run: seq<System>, events: seq<Event> | IsRun(cfg, run, events) && AllHarmless(cfg, run, events) ::
      IsPrefix(run[|run| - 1].receiver.out, cfg.file)
  }

  lemma ShortFilesAreSafe(cfg: Config)
    requires PacketCount(cfg.file) <= 256
    ensures Delivers(cfg) && WritesPrefixes(cfg)
  {
    forall run: seq<System>, events: seq<Event> | IsRun(cfg, run, events)
      ensures IsPrefix(run[|run| - 1].receiver.out, cfg.file)
      ensures AllHarmless(cfg, run, events) ==> ExitMeansDelivered(cfg, run)
    {
      ShortRunIsSafe(cfg, run, events, |run| - 1);
    }
  }

  lemma ShortRunIsSafe(cfg: Config, run: seq<System>, events: seq<Event>, k: nat)
    requires PacketCount(cfg.file) <= 256 && IsRun(cfg, run, events) && k == |run| - 1
    ensures IsPrefix(run[k].receiver.out, cfg.file)
    ensures AllHarmless(cfg, run, events) ==> ExitMeansDelivered(cfg, run)
  {
    FilePrefix.OutputIsPrefixOfShortFile(cfg, run, events, k);
    if AllHarmless(cfg, run, events) {
      Delivery.LosslessDelivery(cfg, run, events, k);
    }
  }

  lemma LongFilesAreNot(cfg: Config)
    requires PacketCount(cfg.file) > 256 && Elapsed(cfg.source, 3 * PacketCount(cfg.file) + 8) < TIMER
    ensures !Delivers(cfg) && !WritesPrefixesIfHarmless(cfg)
  {
    var run, events := OldCopySpoilsFile(cfg);
    assert IsRun(cfg, run, events) && AllHarmless(cfg, run, events);
    assert !ExitMeansDelivered(cfg, run) && !IsPrefix(run[|run| - 1].receiver.out, cfg.file);
  }

  /**
   With a clock quick enough, all runs keep the promises if and only if the file has at most 256 packets:
   the file is delivered when the sender exits (all ACKs being harmless), and the output is always a prefix
   (whatever the ACKs, and also if they are harmless).
   */
  lemma BoundIsExact(cfg: Config)
    requires Elapsed(cfg.source, 3 * PacketCount(cfg.file) + 8) < TIMER
    ensures Delivers(cfg) <==> PacketCount(cfg.file) <= 256
    ensures WritesPrefixes(cfg) <==> PacketCount(cfg.file) <= 256
    ensures WritesPrefixesIfHarmless(cfg) <==> PacketCount(cfg.file) <= 256
  {
    if PacketCount(cfg.file) <= 256 {
      ShortFilesAreSafe(cfg);
    } else {
      LongFilesAreNot(cfg);
    }
  }
}
