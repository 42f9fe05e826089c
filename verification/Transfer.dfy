/** The two programs in a run of the whole system: what each of them receives there, and what they then do. */
module Transfer {
  import opened Types
  import opened Codec
  import opened MonotonicClock
  import opened TimeSource
  import opened SenderProgram
  import opened SenderSpec
  import opened SenderRuns
  import opened FileStream
  import opened Protocol
  import opened Programs
  import Lockstep
  import Delivery
  import FilePrefix
  import Long = LongDelivery

  /** What the sender's waits yield, and what the receiver gets. */
  function ToSender(events: seq<Event>): seq<Option<seq<byte>>> {
    if events == [] then []
    else ToSender(events[..|events| - 1]) + AtSender(events[|events| - 1])
  }

  function AtSender(e: Event): seq<Option<seq<byte>>> {
    if e.SenderIterates? then [e.arrived] else []
  }

  function ToReceiver(events: seq<Event>): seq<seq<byte>> {
    if events == [] then []
    else ToReceiver(events[..|events| - 1]) + AtReceiver(events[|events| - 1])
  }

  function AtReceiver(e: Event): seq<seq<byte>> {
    if e.ReceiverGets? then [e.datagram] else []
  }

  lemma UpToNext(events: seq<Event>, k: nat, next: nat)
    requires next == k + 1 <= |events|
    ensures ToSender(events[..next]) == ToSender(events[..k]) + AtSender(events[k])
    ensures ToReceiver(events[..next]) == ToReceiver(events[..k]) + AtReceiver(events[k])
  {
    assert events[..next][..k] == events[..k];
  }

  /* ---------- the sender's part ---------- */

  ghost predicate SenderPart(cfg: Config, s: System, events: seq<Event>, worlds: seq<World>) {
    && IsSenderRun(cfg.file, cfg.source, worlds, Responses(cfg.crc, ToSender(events)))
    && worlds[|worlds| - 1] == s.sender
  }

  lemma SenderIsUntouched(cfg: Config, s: System, e: Event, s': System)
    requires LeadsTo(cfg, s, e, s') && e.ReceiverGets?
    ensures s'.sender == s.sender
  {
  }

  lemma SenderPartNext(cfg: Config, s: System, e: Event, s': System, before: seq<Event>, after: seq<Event>,
                       worlds: seq<World>)
    returns (worlds': seq<World>)
    requires LeadsTo(cfg, s, e, s') && SenderPart(cfg, s, before, worlds)
    requires ToSender(after) == ToSender(before) + AtSender(e)
    ensures SenderPart(cfg, s', after, worlds')
  {
    if e.ReceiverGets? {
      SenderIsUntouched(cfg, s, e, s');
      assert ToSender(after) == ToSender(before);
      worlds' := worlds;
    } else {
      var response := Response(cfg.crc, e.arrived);
      RunExtends(cfg.file, cfg.source, worlds, Responses(cfg.crc, ToSender(before)), s.sender, response, s'.sender);
      assert Responses(cfg.crc, ToSender(after)) == Responses(cfg.crc, ToSender(before)) + [response];
      worlds' := worlds + [s'.sender];
    }
  }

  lemma {:induction false} SenderProjects(cfg: Config, run: seq<System>, events: seq<Event>, k: nat)
    returns (worlds: seq<World>)
    requires IsRun(cfg, run, events) && k < |run|
    ensures SenderPart(cfg, run[k], events[..k], worlds)
  {
    if k == 0 {
      worlds := [START];
      assert Responses(cfg.crc, ToSender(events[..0])) == [];
    } else {
      var j := k - 1;
      worlds := SenderProjects(cfg, run, events, j);
      StepOf(cfg, run, events, j, k);
      UpToNext(events, j, k);
      worlds := SenderPartNext(cfg, run[j], events[j], run[k], events[..j], events[..k], worlds);
    }
  }

  /** The responses determine a run of the sender. */
  lemma {:induction false} SenderIsDeterministic(file: seq<byte>, source: Source, a: seq<World>, b: seq<World>,
                                                 ra: seq<Option<Pkt>>, rb: seq<Option<Pkt>>, k: nat)
    requires IsSenderRun(file, source, a, ra) && IsSenderRun(file, source, b, rb)
    requires k < |a| <= |b| && ra == rb[..|ra|]
    ensures a[k] == b[k]
  {
    if k > 0 {
      var j := k - 1;
      SenderIsDeterministic(file, source, a, b, ra, rb, j);
      TurnOf(file, source, a, ra, j, k);
      TurnOf(file, source, b, rb, j, k);
    }
  }

  /* ---------- the receiver's part ---------- */

  ghost predicate ReceiverPart(cfg: Config, s: System, arrivals: seq<Pkt>) {
    if s.aborted then P.Run(arrivals).None?
    else P.Run(arrivals).Some? && P.Run(arrivals).value.state == s.receiver && P.RepliesTo(arrivals) == s.replies
  }

  lemma ReceiverIsUntouched(cfg: Config, s: System, e: Event, s': System)
    requires LeadsTo(cfg, s, e, s') && e.SenderIterates?
    ensures s'.receiver == s.receiver && s'.replies == s.replies && s'.aborted == s.aborted
  {
  }

  lemma ReceiverHandles(cfg: Config, s: System, p: Pkt, arrivals: seq<Pkt>, all: seq<Pkt>)
    requires !s.aborted && ReceiverPart(cfg, s, arrivals) && all == arrivals + [p]
    ensures ReceiverPart(cfg, AfterHandling(s, R.Handle(s.receiver, p)), all)
  {
    P.RunAppend(arrivals, p, all);
    P.RepliesAppend(arrivals, p, all);
  }

  lemma ReceiverPartNext(cfg: Config, s: System, e: Event, s': System, arrivals: seq<Pkt>, all: seq<Pkt>)
    requires LeadsTo(cfg, s, e, s') && e.ReceiverGets? && ReceiverPart(cfg, s, arrivals)
    requires all == arrivals + PacketOf(cfg.crc, e.datagram)
    ensures ReceiverPart(cfg, s', all)
  {
    var p := Received(cfg.crc, e.datagram);
    if p.Some? {
      ReceiverHandles(cfg, s, p.value, arrivals, all);
    } else {
      assert all == arrivals;
    }
  }

  lemma {:induction false} ReceiverProjects(cfg: Config, run: seq<System>, events: seq<Event>, k: nat)
    requires IsRun(cfg, run, events) && k < |run|
    ensures ReceiverPart(cfg, run[k], Packets(cfg.crc, ToReceiver(events[..k])))
  {
    if k > 0 {
      var j := k - 1;
      ReceiverProjects(cfg, run, events, j);
      StepOf(cfg, run, events, j, k);
      UpToNext(events, j, k);
      var before, after := ToReceiver(events[..j]), ToReceiver(events[..k]);
      if events[j].ReceiverGets? {
        PacketsAppend(cfg.crc, before, events[j].datagram, after);
        ReceiverPartNext(cfg, run[j], events[j], run[k], Packets(cfg.crc, before), Packets(cfg.crc, after));
      } else {
        ReceiverIsUntouched(cfg, run[j], events[j], run[k]);
        assert after == before;
      }
    }
  }

  /* ---------- both programs ---------- */

  /** The sender program goes through all the turns that the run has. */
  lemma SenderKeepsPace(cfg: Config, s: System, events: seq<Event>, worlds: seq<World>, run: seq<World>, exited: bool)
    requires SenderPart(cfg, s, events, worlds)
    requires var arrived := ToSender(events);
             && 1 <= |run| <= |arrived| + 1
             && IsSenderRun(cfg.file, cfg.source, run, Responses(cfg.crc, arrived[..|run| - 1]))
             && (exited <==> !Running(run[|run| - 1].state)) && (|run| <= |arrived| ==> exited)
    ensures run[|run| - 1] == s.sender
  {
    var arrived, n: nat := ToSender(events), |run| - 1;
    var ra, rb := Responses(cfg.crc, arrived[..n]), Responses(cfg.crc, arrived);
    assert ra == rb[..|ra|];
    SenderIsDeterministic(cfg.file, cfg.source, run, worlds, ra, rb, n);
    if n < |arrived| {
      TurnOf(cfg.file, cfg.source, worlds, rb, n, n + 1);
      assert false;
    }
  }

  /**
   The programs on the heap, given what arrives in a run of the system, do what the run says; so when the
   sender exits, and the file has at most 256 packets and all ACKs were harmless, the file was delivered.
   */
  method RunPrograms(crc: Crc, readings: Readings, file: seq<byte>, toSender: seq<Option<seq<byte>>>,
                     toReceiver: seq<seq<byte>>, ghost cfg: Config, ghost run: seq<System>, ghost events: seq<Event>)
    returns (exited: bool, ok: bool, out: seq<byte>, wire: seq<seq<byte>>, replies: seq<seq<byte>>)
    requires cfg == Config(file, TimesOf(readings), crc) && IsRun(cfg, run, events)
    requires toSender == ToSender(events) && toReceiver == ToReceiver(events)
    requires CanBeReceived(toSender) && forall k | 0 <= k < |toReceiver| :: |toReceiver[k]| <= MAX_PACKET_SIZE
    requires InTime(cfg.source, 35 * |toSender|)
    ensures var last := run[|run| - 1];
            && (exited <==> !Running(last.sender.state)) && wire == Encodings(crc, last.sender.history)
            && (ok <==> !last.aborted)
            && (ok ==> out == last.receiver.out && replies == Encodings(crc, last.replies))
    ensures PacketCount(file) <= 256 ==> ok
    ensures PacketCount(file) <= 256 && Lockstep.AllHarmless(cfg, run, events) && exited ==> out == file
    ensures Long.Orderly(cfg, run, events, |run| - 1) && Long.AllHarmlessAt(cfg, run, events, |run| - 1) ==>
              ok && (exited ==> out == file)
  {
    ghost var k: nat := |run| - 1;
    ghost var worlds := SenderProjects(cfg, run, events, k);
    ReceiverProjects(cfg, run, events, k);
    assert events[..k] == events;
    ghost var turns;
    wire, exited, turns := SendFile(crc, readings, file, toSender);
    SenderKeepsPace(cfg, run[k], events, worlds, turns, exited);
    ok, out, replies := ReceiveFile(crc, toReceiver);
    Delivered(cfg, run, events, k);
  }

  lemma Delivered(cfg: Config, run: seq<System>, events: seq<Event>, k: nat)
    requires IsRun(cfg, run, events) && k == |run| - 1
    ensures Long.Orderly(cfg, run, events, k) && Long.AllHarmlessAt(cfg, run, events, k) ==>
              !run[k].aborted && (!Running(run[k].sender.state) ==> run[k].receiver.out == cfg.file)
    ensures PacketCount(cfg.file) <= 256 ==> !run[k].aborted
    ensures PacketCount(cfg.file) <= 256 && Lockstep.AllHarmless(cfg, run, events) && !Running(run[k].sender.state) ==>
              run[k].receiver.out == cfg.file
  {
    if Long.Orderly(cfg, run, events, k) && Long.AllHarmlessAt(cfg, run, events, k) {
      Long.LongFileDelivery(cfg, run, events, k);
    }
    if PacketCount(cfg.file) <= 256 {
      FilePrefix.OutputIsPrefixOfShortFile(cfg, run, events, k);
      if Lockstep.AllHarmless(cfg, run, events) {
        Delivery.LosslessDelivery(cfg, run, events, k);
      }
    }
  }
}
