/**
 Undisturbed runs, in which each packet is sent, written and acknowledged before the next one is sent.
 Other runs branch off from them.
 */
module Lockstep {
  import opened Types
  import opened Codec
  import opened Lists
  import opened Buffer
  import opened Ring
  import opened TimeSource
  import opened SenderSpec
  import opened FileStream
  import opened SenderRuns
  import opened Protocol

  /* ---------- runs ---------- */

  /** The run ends in `s`, and every ACK handled was harmless. */
  ghost predicate Reaches(cfg: Config, run: seq<System>, events: seq<Event>, s: System) {
    RunsTo(cfg, run, events, s) && AllHarmless(cfg, run, events)
  }

  lemma GoOn(cfg: Config, run: seq<System>, events: seq<Event>, s: System, e: Event)
    returns (run': seq<System>, events': seq<Event>, s': System)
    requires Reaches(cfg, run, events, s) && Enabled(cfg, s, e) && Harmless(cfg, s, e)
    ensures Reaches(cfg, run', events', s') && s' == Apply(cfg, s, e)
  {
    s' := Apply(cfg, s, e);
    RunOn(cfg, run, events, s, e, s');
    run', events' := run + [s'], events + [e];
    StaysHarmless(cfg, run, events, s', e);
  }

  ghost predicate AllHarmless(cfg: Config, run: seq<System>, events: seq<Event>)
    requires |run| == |events| + 1
  {
    forall k | 0 <= k < |events| :: Harmless(cfg, run[k], events[k])
  }

  lemma StaysHarmless(cfg: Config, run: seq<System>, events: seq<Event>, s': System, e: Event)
    requires |run| == |events| + 1 && AllHarmless(cfg, run, events) && Harmless(cfg, run[|events|], e)
    ensures AllHarmless(cfg, run + [s'], events + [e])
  {
    forall k | 0 <= k <= |events|
      ensures Harmless(cfg, (run + [s'])[k], (events + [e])[k])
    {
      assert (run + [s'])[k] == run[k];
      if k < |events| {
        assert (events + [e])[k] == events[k];
      }
    }
  }

  /* ---------- the sender, with no timer running out ---------- */

  /** No timer runs out during the first `limit` calls of the clock. */
  ghost predicate Quick(source: Source, limit: nat) {
    Elapsed(source, limit) < TIMER
  }

  /** Every timer is at least one timeout after the start. */
  ghost predicate LateTimers(ps: seq<Pkt>) {
    forall p | p in ps :: p.timestamp >= TIMER
  }

  lemma EarlyClock(source: Source, limit: nat, k: nat)
    requires Quick(source, limit) && k <= limit
    ensures InTime(source, k) && Tick(source, k) == Elapsed(source, k) < TIMER
    ensures Deadline(source, k) == Elapsed(source, k) + TIMER
  {
    ElapsedIncreases(source, k, limit);
    EarlierInTime(source, k, limit);
  }

  lemma NothingResent(source: Source, s: State)
    requires ReadyToRetransmit(source, s) && LateTimers(s.buf) && Tick(source, s.calls) < TIMER
    ensures RetransmitFrom(source, s) == Resent(s.buf, s.calls + 1, [])
  {
    if s.buf != [] {
      assert s.buf[FirstMin(Timestamps(s.buf))] in s.buf;
    }
  }

  /** The next packet that `w` sends after retransmitting nothing. */
  ghost function NextPacket(cfg: Config, w: World): Pkt {
    DatagramOf(cfg.file, w.count, Deadline(cfg.source, w.state.calls + 1))
  }

  /** The sender after a response left `w` and the next packet was sent. */
  ghost function Sends(cfg: Config, w: World): World {
    var p := NextPacket(cfg, w);
    World(w.state.(buf := [p] + w.state.buf, next := (w.count + 1) % 256,
                   sentEof := w.count + 1 == PacketCount(cfg.file), offset := PositionAfter(cfg.file, w.count + 1),
                   calls := w.state.calls + 2),
          w.history + [p], w.count + 1)
  }

  /** After a response: there is a packet left to send and room for it, and no timer has run out. */
  ghost predicate CanSend(cfg: Config, w: World) {
    && Synced(cfg.file, w) && w.count < PacketCount(cfg.file)
    && ReadyToRetransmit(cfg.source, w.state) && Tick(cfg.source, w.state.calls) < TIMER
    && LateTimers(w.state.buf) && !Full(|w.state.buf|, w.state.size, MAX_WINDOW_SIZE)
  }

  /** What the response left can be added to. */
  ghost predicate LeavesRoom(s: State) {
    LateTimers(s.buf) && !Full(|s.buf|, s.size, MAX_WINDOW_SIZE)
  }

  /** An iteration adds the next packet to what the response left, and sends nothing else. */
  lemma SendsNext(cfg: Config, w: World, response: Option<Pkt>, limit: nat)
    requires Quick(cfg.source, limit) && w.state.calls + |w.state.buf| + 4 <= limit
    requires Synced(cfg.file, w) && w.count < PacketCount(cfg.file) && !CutShort(response)
    requires LeavesRoom(AfterReceive(cfg.source, w, response).state)
    ensures Timely(cfg.source, w.state)
    ensures SenderRuns.Next(cfg.file, cfg.source, w, response) == Sends(cfg, AfterReceive(cfg.source, w, response))
  {
    EarlyClock(cfg.source, limit, w.state.calls + |w.state.buf| + 4);
    Phases(cfg.file, cfg.source, w, response);
    ReceivedCanSend(cfg, w, response, limit);
    SendsQuietly(cfg, AfterReceive(cfg.source, w, response));
  }

  lemma ReceivedCanSend(cfg: Config, w: World, response: Option<Pkt>, limit: nat)
    requires Quick(cfg.source, limit) && w.state.calls + |w.state.buf| + 4 <= limit
    requires Timely(cfg.source, w.state) && Synced(cfg.file, w) && w.count < PacketCount(cfg.file)
    requires LeavesRoom(AfterReceive(cfg.source, w, response).state)
    ensures CanSend(cfg, AfterReceive(cfg.source, w, response))
  {
    ReceiveInTime(cfg.source, w.state, response);
    ReceiveIsSmall(cfg.source, w.state, response);
    ReceiveSyncs(cfg.file, cfg.source, w, response);
    EarlyClock(cfg.source, limit, AfterReceive(cfg.source, w, response).state.calls);
  }

  lemma SendsQuietly(cfg: Config, w: World)
    requires CanSend(cfg, w)
    ensures AfterSend(cfg.file, cfg.source, AfterResend(cfg.source, w)) == Sends(cfg, w)
  {
    QuietResend(cfg, w);
    AfterSending(cfg, w, w.(state := w.state.(calls := w.state.calls + 1)));
  }

  lemma QuietResend(cfg: Config, w: World)
    requires CanSend(cfg, w)
    ensures AfterResend(cfg.source, w) == w.(state := w.state.(calls := w.state.calls + 1))
  {
    NothingResent(cfg.source, w.state);
    assert w.history + [] == w.history;
  }

  lemma AnotherNumber(n: byte)
    ensures n != (n + 1) % 256
  {
  }

  lemma AfterSending(cfg: Config, w: World, resent: World)
    requires CanSend(cfg, w) && resent == w.(state := w.state.(calls := w.state.calls + 1))
    ensures AfterSend(cfg.file, cfg.source, resent) == Sends(cfg, w)
  {
    var p := NextPacket(cfg, w);
    SendIsNextPacket(cfg.file, cfg.source, resent);
    assert NewPacket(cfg.file, cfg.source, resent.state) == p;
    ReadOn(cfg.file, w.count);
    AnotherNumber(w.state.next);
  }

  /* ---------- one packet in flight ---------- */

  /** The sequence number of stream packet `i`. */
  function Number(i: nat): byte {
    i % 256
  }

  /** The ACK for number `a` that answers `p`, when the receiver's buffer is empty. */
  function AckOf(a: byte, p: Pkt): Pkt {
    Pkt(PTYPE_ACK, false, MAX_WINDOW_SIZE, a, 0, p.timestamp, [])
  }

  /** Few clock calls were made for `n` packets sent, and no timer has run out. */
  ghost predicate HasSent(cfg: Config, w: World, n: nat) {
    Synced(cfg.file, w) && w.count == n && w.state.calls <= 3 * n && LateTimers(w.state.buf)
  }

  /** Stream packet `i` is the last one sent and the only one buffered. */
  ghost predicate HoldsLast(cfg: Config, w: World, i: nat, p: Pkt) {
    && HasSent(cfg, w, i + 1)
    && w.state.buf == [p] && p in w.history && p == DatagramOf(cfg.file, i, p.timestamp)
    && w.state.size == (if i == 0 then 1 else MAX_WINDOW_SIZE)
  }

  /** The receiver has nothing buffered and waits for stream packet `i`. */
  function Waiting(i: nat, out: seq<byte>): R.State {
    R.State(Number(i), [], out, false)
  }

  /** Stream packet `i` is under way, and the receiver waits for it. */
  ghost predicate InFlight(cfg: Config, s: System, i: nat, out: seq<byte>, p: Pkt) {
    !s.aborted && HoldsLast(cfg, s.sender, i, p) && s.receiver == Waiting(i, out)
  }

  /** The next stream packet is waited for, and the ACK that says so is under way. */
  ghost predicate AckUnderWay(cfg: Config, s: System, i: nat, next: nat, out: seq<byte>, p: Pkt) {
    && next == i + 1 && !s.aborted && HoldsLast(cfg, s.sender, i, p) && s.receiver == Waiting(next, out)
    && AckOf(Number(next), p) in s.replies
  }

  lemma NumberNext(i: nat, next: nat)
    requires next == i + 1
    ensures Number(next) == (Number(i) + 1) % 256
    ensures Number(i) < Number(next) || Number(next) == 0
  {
    var q := i / 256;
    assert i == q * 256 + Number(i) && next == q * 256 + (Number(i) + 1);
    ModOnce(Number(i) + 1, 256);
  }

  /** A receiver without buffered packets writes the packet it waits for. */
  lemma WritesNext(r: R.State, p: Pkt)
    requires r.buf == [] && p.seqnum == r.pos && p.payload != [] && !p.tr
    ensures var after := R.State((r.pos + 1) % 256, [], r.out + p.payload, r.eof);
            R.Handle(r, p) == R.Replied(after, AckOf(after.pos, p))
  {
    var stored := R.Store(r, p);
    InWindowIffOffset(r.pos, MAX_WINDOW_SIZE, MAX_SEQNUM, r.pos);
    assert stored.buf == [p] && Seqnums([p])[0] == r.pos && Timestamps([p])[0] == p.timestamp;
    var after := R.Written(stored, 0);
    assert after == R.State((r.pos + 1) % 256, [], r.out + p.payload, r.eof);
    assert R.Drain(after) == Some(after);
  }

  /** The same for EOF: nothing is written, and the window stays. */
  lemma ConsumesEof(r: R.State, p: Pkt)
    requires r.buf == [] && p.seqnum == r.pos && p.payload == [] && !p.tr
    ensures R.Handle(r, p) == R.Replied(r.(eof := true), AckOf(r.pos, p))
  {
    var stored := R.Store(r, p);
    InWindowIffOffset(r.pos, MAX_WINDOW_SIZE, MAX_SEQNUM, r.pos);
    assert stored.buf == [p] && Seqnums([p])[0] == r.pos && Timestamps([p])[0] == p.timestamp;
    var after := R.Written(stored, 0);
    assert after == r.(eof := true);
    assert R.Drain(after) == Some(after);
  }

  lemma DatagramIsFine(file: seq<byte>, i: nat, p: Pkt)
    requires i < PacketCount(file) && p == DatagramOf(file, i, p.timestamp)
    ensures p.Encodable() && !p.tr && p.seqnum == Number(i)
    ensures p.payload == StreamOf(file)[i] && (p.payload == [] <==> i + 1 == PacketCount(file))
  {
    ReadOn(file, i);
  }

  lemma HeldIsFine(cfg: Config, w: World, i: nat, p: Pkt)
    requires HoldsLast(cfg, w, i, p)
    ensures i < PacketCount(cfg.file) && p.Encodable() && !p.tr && p.seqnum == Number(i)
    ensures p.payload == StreamOf(cfg.file)[i] && (p.payload == [] <==> i + 1 == PacketCount(cfg.file))
  {
    DatagramIsFine(cfg.file, i, p);
  }

  /** A data packet arrives, is written and acknowledged. */
  lemma DataArrives(cfg: Config, s: System, i: nat, next: nat, out: seq<byte>, p: Pkt) returns (e: Event)
    requires InFlight(cfg, s, i, out, p) && next == i + 1 < PacketCount(cfg.file)
    ensures Enabled(cfg, s, e) && Harmless(cfg, s, e) && Apply(cfg, s, e).sender == s.sender
    ensures AckUnderWay(cfg, Apply(cfg, s, e), i, next, out + StreamOf(cfg.file)[i], p)
  {
    HeldIsFine(cfg, s.sender, i, p);
    NumberNext(i, next);
    WritesNext(s.receiver, p);
    e := DeliverToReceiver(cfg, s, p, Waiting(next, out + p.payload), AckOf(Number(next), p));
  }

  /** EOF arrives and is acknowledged. */
  lemma EofArrives(cfg: Config, s: System, i: nat, out: seq<byte>, p: Pkt) returns (e: Event)
    requires InFlight(cfg, s, i, out, p) && i + 1 == PacketCount(cfg.file)
    ensures Enabled(cfg, s, e) && Harmless(cfg, s, e)
    ensures var s' := Apply(cfg, s, e);
            && s'.sender == s.sender && !s'.aborted && s'.receiver == Waiting(i, out).(eof := true)
            && AckOf(Number(i), p) in s'.replies
  {
    HeldIsFine(cfg, s.sender, i, p);
    ConsumesEof(s.receiver, p);
    e := DeliverToReceiver(cfg, s, p, s.receiver.(eof := true), AckOf(Number(i), p));
  }

  /* ---------- an ACK arrives while one packet is buffered ---------- */

  /** Whatever it says, an ACK takes the only packet out; its echo is found if it is meant for it. */
  lemma EchoOfOne(p: Pkt, ack: Pkt)
    requires p.seqnum < ack.seqnum || p.timestamp == ack.timestamp
    ensures EchoFound([p], ack)
  {
    var keep := NumbersFrom(ack.seqnum);
    assert [p][1..] == [];
    assert Keep([p], keep) == if p.seqnum in keep then [p] else [];
    assert Timestamps([p])[0] == p.timestamp;
  }

  lemma AckEmpties(cfg: Config, w: World, i: nat, p: Pkt, ack: Pkt)
    requires HoldsLast(cfg, w, i, p) && ack.ptype == PTYPE_ACK && ack.window == MAX_WINDOW_SIZE
    ensures Running(w.state)
    ensures var left := AfterReceive(cfg.source, w, Some(ack)).state;
            left.buf == [] && left.size == MAX_WINDOW_SIZE && left.calls <= w.state.calls + 1
  {
    AckOfOne(p, ack.seqnum, ack.timestamp);
  }

  /** What holds after stream packet `i` was sent, from an empty buffer. */
  lemma HoldsNext(cfg: Config, w: World, w': World, i: nat, limit: nat) returns (q: Pkt)
    requires Quick(cfg.source, limit) && w.state.calls + 1 <= limit
    requires w.count == i && w.state.calls <= 3 * i + 1
    requires w.state.buf == [] && w.state.size == (if i == 0 then 1 else MAX_WINDOW_SIZE)
    requires w' == Sends(cfg, w) && Synced(cfg.file, w')
    ensures HoldsLast(cfg, w', i, q)
    ensures w'.history == w.history + [q]
  {
    EarlyClock(cfg.source, limit, w.state.calls + 1);
    q := NextPacket(cfg, w);
    assert w'.state.buf == [q];
  }

  /** The sender goes on to stream packet `next`. */
  lemma AnswersAck(cfg: Config, w: World, i: nat, next: nat, p: Pkt, ack: Pkt, limit: nat) returns (q: Pkt)
    requires Quick(cfg.source, limit) && 3 * i + 8 <= limit && next == i + 1 < PacketCount(cfg.file)
    requires HoldsLast(cfg, w, i, p) && ack.ptype == PTYPE_ACK && ack.window == MAX_WINDOW_SIZE
    ensures Running(w.state) && Timely(cfg.source, w.state)
    ensures var w' := SenderRuns.Next(cfg.file, cfg.source, w, Some(ack));
            HoldsLast(cfg, w', next, q) && w'.history == w.history + [q]
  {
    AckEmpties(cfg, w, i, p, ack);
    SendsNext(cfg, w, Some(ack), limit);
    IterationSyncs(cfg.file, cfg.source, w, Some(ack));
    var received := AfterReceive(cfg.source, w, Some(ack));
    q := HoldsNext(cfg, received, SenderRuns.Next(cfg.file, cfg.source, w, Some(ack)), next, limit);
  }

  /** An ACK whose echo is found arrives, and the next packet is sent. */
  lemma AckArrives(cfg: Config, s: System, i: nat, next: nat, p: Pkt, ack: Pkt, limit: nat) returns (e: Event, q: Pkt)
    requires Quick(cfg.source, limit) && 3 * i + 8 <= limit && next == i + 1 < PacketCount(cfg.file)
    requires HoldsLast(cfg, s.sender, i, p) && EchoFound([p], ack) && ack in s.replies
    requires ack.ptype == PTYPE_ACK && ack.window == MAX_WINDOW_SIZE && ack.Encodable()
    ensures Enabled(cfg, s, e) && Harmless(cfg, s, e)
    ensures var s' := Apply(cfg, s, e);
            && HoldsLast(cfg, s'.sender, next, q) && s' == s.(sender := s'.sender)
            && s'.sender.history == s.sender.history + [q]
  {
    q := AnswersAck(cfg, s.sender, i, next, p, ack, limit);
    e := DeliverToSender(cfg, s, ack);
  }

  /** After EOF an ACK ends the loop. */
  lemma LastAckEnds(cfg: Config, w: World, i: nat, p: Pkt, ack: Pkt, limit: nat)
    requires Quick(cfg.source, limit) && 3 * i + 8 <= limit && i + 1 == PacketCount(cfg.file)
    requires HoldsLast(cfg, w, i, p) && ack.ptype == PTYPE_ACK && ack.window == MAX_WINDOW_SIZE
    ensures Running(w.state) && Timely(cfg.source, w.state)
    ensures !Running(SenderRuns.Next(cfg.file, cfg.source, w, Some(ack)).state)
  {
    EarlyClock(cfg.source, limit, w.state.calls + |w.state.buf| + 4);
    AckEmpties(cfg, w, i, p, ack);
    IterationSyncs(cfg.file, cfg.source, w, Some(ack));
    NumbersAfterIteration(cfg, w, Some(ack));
    NoNumbers(SenderRuns.Next(cfg.file, cfg.source, w, Some(ack)).state.buf);
  }

  lemma NoNumbers(buf: seq<Pkt>)
    ensures Seqnums(buf) == [] ==> buf == []
  {
  }

  lemma LastAckArrives(cfg: Config, s: System, i: nat, p: Pkt, ack: Pkt, limit: nat) returns (e: Event)
    requires Quick(cfg.source, limit) && 3 * i + 8 <= limit && i + 1 == PacketCount(cfg.file)
    requires HoldsLast(cfg, s.sender, i, p) && EchoFound([p], ack) && ack in s.replies
    requires ack.ptype == PTYPE_ACK && ack.window == MAX_WINDOW_SIZE && ack.Encodable()
    ensures Enabled(cfg, s, e) && Harmless(cfg, s, e)
    ensures var s' := Apply(cfg, s, e);
            !Running(s'.sender.state) && s' == s.(sender := s'.sender)
  {
    LastAckEnds(cfg, s.sender, i, p, ack, limit);
    e := DeliverToSender(cfg, s, ack);
  }

  /* ---------- whole runs ---------- */

  /** The first packet is sent. */
  lemma SenderStarts(cfg: Config, limit: nat) returns (e: Event, q: Pkt)
    requires Quick(cfg.source, limit) && 4 <= limit
    ensures Enabled(cfg, BEGINNING, e) && Harmless(cfg, BEGINNING, e)
    ensures InFlight(cfg, Apply(cfg, BEGINNING, e), 0, [], q)
  {
    assert AfterReceive(cfg.source, START, None) == START;
    SendsNext(cfg, START, None, limit);
    IterationSyncs(cfg.file, cfg.source, START, None);
    q := HoldsNext(cfg, START, SenderRuns.Next(cfg.file, cfg.source, START, None), 0, limit);
    e := SenderIterates(None);
  }

  /** The file up to stream packet `i`. */
  function Before(file: seq<byte>, i: nat): seq<byte> {
    file[..PositionAfter(file, i)]
  }

  lemma BeforeNext(file: seq<byte>, i: nat, next: nat)
    requires next == i + 1 <= PacketCount(file)
    ensures Before(file, i) + StreamOf(file)[i] == Before(file, next)
  {
    ChunkIsSlice(file, i);
    JoinSlices(file, PositionAfter(file, i), PositionAfter(file, next));
  }

  /** The packet in flight is written, and the next one is sent. */
  lemma Exchange(cfg: Config, run: seq<System>, events: seq<Event>, s: System, i: nat, next: nat, out: seq<byte>,
                 p: Pkt, limit: nat)
    returns (run': seq<System>, events': seq<Event>, s': System, q: Pkt)
    requires Quick(cfg.source, limit) && 3 * i + 8 <= limit && next == i + 1 < PacketCount(cfg.file)
    requires Reaches(cfg, run, events, s) && InFlight(cfg, s, i, out, p)
    ensures Reaches(cfg, run', events', s') && InFlight(cfg, s', next, out + StreamOf(cfg.file)[i], q)
    ensures s'.sender.history == s.sender.history + [q]
  {
    var e := DataArrives(cfg, s, i, next, out, p);
    run', events', s' := GoOn(cfg, run, events, s, e);
    HeldIsFine(cfg, s.sender, i, p);
    var ack := AckOf(Number(next), p);
    EchoOfOne(p, ack);
    e, q := AckArrives(cfg, s', i, next, p, ack, limit);
    run', events', s' := GoOn(cfg, run', events', s', e);
  }

  lemma ExchangeInOrder(cfg: Config, run: seq<System>, events: seq<Event>, s: System, i: nat, next: nat, p: Pkt,
                        limit: nat)
    returns (run': seq<System>, events': seq<Event>, s': System, q: Pkt)
    requires Quick(cfg.source, limit) && 3 * i + 8 <= limit && next == i + 1 < PacketCount(cfg.file)
    requires Reaches(cfg, run, events, s) && InFlight(cfg, s, i, Before(cfg.file, i), p)
    ensures Reaches(cfg, run', events', s') && InFlight(cfg, s', next, Before(cfg.file, next), q)
    ensures s'.sender.history == s.sender.history + [q]
  {
    BeforeNext(cfg.file, i, next);
    run', events', s', q := Exchange(cfg, run, events, s, i, next, Before(cfg.file, i), p, limit);
  }

  lemma Opening(cfg: Config, limit: nat) returns (run: seq<System>, events: seq<Event>, s: System, p: Pkt)
    requires Quick(cfg.source, limit) && 8 <= limit
    ensures Reaches(cfg, run, events, s) && InFlight(cfg, s, 0, Before(cfg.file, 0), p)
    ensures AllSent(cfg.file, s.sender.history, 0)
  {
    var e;
    e, p := SenderStarts(cfg, limit);
    run, events, s := GoOn(cfg, [BEGINNING], [], BEGINNING, e);
    assert Before(cfg.file, 0) == [];
    assert p in s.sender.history;
  }

  /** A datagram of stream packet `i` was sent. */
  ghost predicate WasSent(file: seq<byte>, history: seq<Pkt>, i: nat) {
    exists p | p in history :: p == DatagramOf(file, i, p.timestamp)
  }

  ghost predicate AllSent(file: seq<byte>, history: seq<Pkt>, last: nat) {
    forall i: nat | i <= last :: WasSent(file, history, i)
  }

  lemma OneMoreSent(file: seq<byte>, history: seq<Pkt>, history': seq<Pkt>, i: nat, next: nat, q: Pkt)
    requires AllSent(file, history, i) && next == i + 1
    requires history' == history + [q] && q == DatagramOf(file, next, q.timestamp)
    ensures AllSent(file, history', next)
  {
    forall j: nat | j <= next
      ensures WasSent(file, history', j)
    {
      if j == next {
        assert q in history';
      } else {
        assert WasSent(file, history, j);
        var p :| p in history && p == DatagramOf(file, j, p.timestamp);
        assert p in history';
      }
    }
  }

  /** Every packet can be brought into flight, all before it sent, written and acknowledged. */
  lemma {:induction false} UpTo(cfg: Config, i: nat, limit: nat)
    returns (run: seq<System>, events: seq<Event>, s: System, p: Pkt)
    requires Quick(cfg.source, limit) && 3 * i + 8 <= limit && i < PacketCount(cfg.file)
    ensures Reaches(cfg, run, events, s) && InFlight(cfg, s, i, Before(cfg.file, i), p)
    ensures AllSent(cfg.file, s.sender.history, i)
  {
    if i == 0 {
      run, events, s, p := Opening(cfg, limit);
    } else {
      var j := i - 1;
      run, events, s, p := UpTo(cfg, j, limit);
      var history := s.sender.history;
      run, events, s, p := ExchangeInOrder(cfg, run, events, s, j, i, p, limit);
      OneMoreSent(cfg.file, history, s.sender.history, j, i, p);
    }
  }

  /** EOF is acknowledged and the sender exits. */
  lemma Ends(cfg: Config, run: seq<System>, events: seq<Event>, s: System, i: nat, out: seq<byte>, p: Pkt, limit: nat)
    returns (run': seq<System>, events': seq<Event>, s': System)
    requires Quick(cfg.source, limit) && 3 * i + 8 <= limit && i + 1 == PacketCount(cfg.file)
    requires Reaches(cfg, run, events, s) && InFlight(cfg, s, i, out, p)
    ensures Reaches(cfg, run', events', s') && !Running(s'.sender.state) && !s'.aborted && s'.receiver.out == out
  {
    var e := EofArrives(cfg, s, i, out, p);
    run', events', s' := GoOn(cfg, run, events, s, e);
    var ack := AckOf(Number(i), p);
    EchoOfOne(p, ack);
    e := LastAckArrives(cfg, s', i, p, ack, limit);
    run', events', s' := GoOn(cfg, run', events', s', e);
  }

  lemma BeforeEof(file: seq<byte>, e: nat)
    requires e + 1 == PacketCount(file)
    ensures Before(file, e) == file
  {
    DataIsWholeFile(file);
    StreamSpellsFile(file, e);
  }

  /** Without disturbance a file of any length is delivered. */
  lemma UndisturbedRunDelivers(cfg: Config, limit: nat) returns (run: seq<System>, events: seq<Event>, s: System)
    requires Quick(cfg.source, limit) && 3 * PacketCount(cfg.file) + 8 <= limit
    ensures Reaches(cfg, run, events, s)
    ensures !Running(s.sender.state) && !s.aborted && s.receiver.out == cfg.file
  {
    var e: nat := PacketCount(cfg.file) - 1;
    var p;
    run, events, s, p := UpTo(cfg, e, limit);
    run, events, s := Ends(cfg, run, events, s, e, Before(cfg.file, e), p, limit);
    BeforeEof(cfg.file, e);
  }
}
