/** The two programs from start to end, and what they do in a run of the whole system. */
module Programs {
  import opened Types
  import opened Codec
  import opened PacketStruct
  import opened MonotonicClock
  import opened TimeSource
  import opened SenderProgram
  import opened ReceiverProgram
  import opened SenderSpec
  import opened SenderRuns
  import opened Protocol
  import P = PrefixSafety

  /* ---------- the sender ---------- */

  /** What the responses received say. */
  function Responses(crc: Crc, arrived: seq<Option<seq<byte>>>): (r: seq<Option<Pkt>>)
    ensures |r| == |arrived| && forall k | 0 <= k < |r| :: r[k] == Response(crc, arrived[k])
  {
    seq(|arrived|, k requires 0 <= k < |arrived| => Response(crc, arrived[k]))
  }

  /** recv: what is received is at the beginning of a buffer of maximal size. */
  method Recv(arrived: Option<seq<byte>>) returns (data: array?<byte>, len: nat)
    requires arrived.Some? ==> |arrived.value| <= MAX_PACKET_SIZE
    ensures arrived.None? ==> data == null
    ensures arrived.Some? ==> data != null && fresh(data) && len <= data.Length && data[..len] == arrived.value
  {
    data, len := null, 0;
    if arrived.Some? {
      len := |arrived.value|;
      data := new byte[MAX_PACKET_SIZE];
      CopyBytes(data, 0, arrived.value);
    }
  }

  /** The program is where the world is, and has sent what it has. */
  ghost predicate IsAt(s: Sender, w: World)
    reads s, s.w, s.w.nodes, s.w.pkts, s.clock
  {
    s.Valid() && s.State() == w.state && s.wire == Encodings(s.crc, w.history)
  }

  /** One turn of the sender's loop. */
  method SenderTurn(s: Sender, arrived: Option<seq<byte>>, ghost w: World) returns (ghost w': World)
    requires IsAt(s, w) && Running(w.state) && Timely(s.clock.times, w.state)
    requires arrived.Some? ==> |arrived.value| <= MAX_PACKET_SIZE
    modifies s, s.w, s.w.spine, s.w.held, s.clock
    ensures IsAt(s, w') && w' == SenderRuns.Next(s.infile, s.clock.times, w, Response(s.crc, arrived))
    ensures fresh(s.w.spine - old(s.w.spine)) && fresh(s.w.held - old(s.w.held))
  {
    var data, len := Recv(arrived);
    ghost var response := Response(s.crc, arrived);
    assert s.Response(data, len) == response;
    ghost var it := Iterate(s.infile, s.clock.times, w.state, response);
    w' := SenderRuns.Next(s.infile, s.clock.times, w, response);
    NextIterates(s.infile, s.clock.times, w, response);
    EncodingsAppend(s.crc, w.history, it.sent);
    ghost var added, kept := s.MainLoop(data, len, it);
  }

  /* Calls of the clock in one iteration. */

  lemma CallsOfResend(source: Source, w: World)
    requires ReadyToRetransmit(source, w.state)
    ensures AfterResend(source, w).state.calls
         == w.state.calls + 1 + |Expired(w.state.buf, Tick(source, w.state.calls))|
  {
    var s := w.state;
    var order := RetransmitResendsExpired(source, s.buf, Tick(source, s.calls), s.calls + 1);
  }

  lemma CallsOfSend(file: seq<byte>, source: Source, w: World)
    ensures AfterSend(file, source, w).state.calls <= w.state.calls + 1
  {
  }

  lemma CallsInIteration(file: seq<byte>, source: Source, w: World, response: Option<Pkt>, w': World)
    requires Timely(source, w.state) && w' == SenderRuns.Next(file, source, w, response)
    ensures w'.state.calls <= w.state.calls + |w.state.buf| + 4
  {
    Phases(file, source, w, response);
    if !CutShort(response) {
      var received := AfterReceive(source, w, response);
      ReceiveInTime(source, w.state, response);
      CallsOfResend(source, received);
      CallsOfSend(file, source, AfterResend(source, received));
    }
  }

  /** After `k` turns of the loop. */
  ghost predicate OnRun(crc: Crc, infile: seq<byte>, source: Source, arrived: seq<Option<seq<byte>>>, run: seq<World>,
                        k: nat)
  {
    && k <= |arrived| && |run| == k + 1
    && IsSenderRun(infile, source, run, Responses(crc, arrived[..k]))
    && run[k].state.calls <= 35 * k
  }

  lemma RunExtends(file: seq<byte>, source: Source, run: seq<World>, responses: seq<Option<Pkt>>,
                   w: World, response: Option<Pkt>, w': World)
    requires IsSenderRun(file, source, run, responses) && w == run[|run| - 1]
    requires Running(w.state) && Timely(source, w.state) && w' == SenderRuns.Next(file, source, w, response)
    ensures IsSenderRun(file, source, run + [w'], responses + [response])
  {
    var run', all := run + [w'], responses + [response];
    forall k | 0 <= k < |all|
      ensures IsTurn(file, source, run'[k], all[k], run'[k + 1])
    {
      if k < |responses| {
        assert IsTurn(file, source, run[k], responses[k], run[k + 1]);
      }
    }
  }

  lemma BeginsOnRun(crc: Crc, infile: seq<byte>, source: Source, arrived: seq<Option<seq<byte>>>)
    ensures OnRun(crc, infile, source, arrived, [START], 0)
  {
    assert Responses(crc, arrived[..0]) == [];
  }

  lemma StaysOnRun(crc: Crc, infile: seq<byte>, source: Source, arrived: seq<Option<seq<byte>>>, run: seq<World>,
                   k: nat, next: nat, w': World)
    requires OnRun(crc, infile, source, arrived, run, k) && next == k + 1 <= |arrived|
    requires Running(run[k].state) && Timely(source, run[k].state) && |run[k].state.buf| <= 31
    requires w' == SenderRuns.Next(infile, source, run[k], Response(crc, arrived[k]))
    ensures OnRun(crc, infile, source, arrived, run + [w'], next)
  {
    CallsInIteration(infile, source, run[k], Response(crc, arrived[k]), w');
    RunExtends(infile, source, run, Responses(crc, arrived[..k]), run[k], Response(crc, arrived[k]), w');
    assert Responses(crc, arrived[..next]) == Responses(crc, arrived[..k]) + [Response(crc, arrived[k])];
  }

  lemma TurnInTime(source: Source, n: nat, k: nat, s: State)
    requires InTime(source, 35 * n) && k < n && s.calls <= 35 * k && |s.buf| <= 31
    ensures Timely(source, s)
  {
    EarlierInTime(source, s.calls + |s.buf| + 4, 35 * n);
  }

  lemma RoomForAll(s: Sender, w: World)
    requires IsAt(s, w)
    ensures |w.state.buf| <= 31
    ensures Running(w.state) <==> !s.sentEof || s.w.bufsize != 0
  {
  }

  /** What `recv` may return. */
  predicate CanBeReceived(arrived: seq<Option<seq<byte>>>) {
    forall k | 0 <= k < |arrived| :: arrived[k].Some? ==> |arrived[k].value| <= MAX_PACKET_SIZE
  }

  /** Turn `k` of the loop. */
  method Turn(s: Sender, arrived: seq<Option<seq<byte>>>, k: nat, ghost run: seq<World>)
    returns (ghost run': seq<World>)
    requires k < |arrived| && CanBeReceived(arrived) && InTime(s.clock.times, 35 * |arrived|)
    requires OnRun(s.crc, s.infile, s.clock.times, arrived, run, k)
    requires IsAt(s, run[k]) && (!s.sentEof || s.w.bufsize != 0)
    modifies s, s.w, s.w.spine, s.w.held, s.clock
    ensures OnRun(s.crc, s.infile, s.clock.times, arrived, run', k + 1) && IsAt(s, run'[k + 1])
    ensures fresh(s.w.spine - old(s.w.spine)) && fresh(s.w.held - old(s.w.held))
  {
    RoomForAll(s, run[k]);
    TurnInTime(s.clock.times, |arrived|, k, run[k].state);
    ghost var w' := SenderTurn(s, arrived[k], run[k]);
    StaysOnRun(s.crc, s.infile, s.clock.times, arrived, run, k, k + 1, w');
    run' := run + [w'];
  }

  /** Sets the sender up. */
  method NewSender(crc: Crc, readings: Readings, infile: seq<byte>) returns (s: Sender)
    ensures fresh(s) && fresh(s.w) && fresh(s.clock) && s.w.spine == {} && s.w.held == {}
    ensures s.crc == crc && s.infile == infile && s.clock.times == TimesOf(readings)
    ensures IsAt(s, START)
  {
    s := new Sender(crc, readings, infile);
    assert Encodings(crc, []) == [];
  }

  /** The loop, which ends when everything was sent and acknowledged, or when nothing more is received. */
  method SenderLoop(s: Sender, arrived: seq<Option<seq<byte>>>) returns (turns: nat, ghost run: seq<World>)
    requires InTime(s.clock.times, 35 * |arrived|) && CanBeReceived(arrived) && IsAt(s, START)
    modifies s, s.w, s.w.spine, s.w.held, s.clock
    ensures OnRun(s.crc, s.infile, s.clock.times, arrived, run, turns) && IsAt(s, run[turns])
    ensures turns < |arrived| ==> s.sentEof && s.w.bufsize == 0
  {
    turns := 0;
    run := [START];
    BeginsOnRun(s.crc, s.infile, s.clock.times, arrived);
    while turns < |arrived| && (!s.sentEof || s.w.bufsize != 0)
      invariant OnRun(s.crc, s.infile, s.clock.times, arrived, run, turns) && IsAt(s, run[turns])
      invariant fresh(s.w.spine - old(s.w.spine)) && fresh(s.w.held - old(s.w.held))
    {
      run := Turn(s, arrived, turns, run);
      turns := turns + 1;
    }
  }

  /** The sender program. `arrived` is what each wait yields. */
  method SendFile(crc: Crc, readings: Readings, infile: seq<byte>, arrived: seq<Option<seq<byte>>>)
    returns (wire: seq<seq<byte>>, exited: bool, ghost run: seq<World>)
    requires InTime(TimesOf(readings), 35 * |arrived|) && CanBeReceived(arrived)
    ensures 1 <= |run| <= |arrived| + 1
    ensures IsSenderRun(infile, TimesOf(readings), run, Responses(crc, arrived[..|run| - 1]))
    ensures wire == Encodings(crc, run[|run| - 1].history)
    ensures exited <==> !Running(run[|run| - 1].state)
    ensures |run| <= |arrived| ==> exited
  {
    var s := NewSender(crc, readings, infile);
    var turns;
    turns, run := SenderLoop(s, arrived);
    RoomForAll(s, run[turns]);
    wire := s.wire;
    exited := s.sentEof && s.w.bufsize == 0;
  }

  /* ---------- the receiver ---------- */

  /** The packets that the datagrams received decode to. */
  function Packets(crc: Crc, arrived: seq<seq<byte>>): seq<Pkt> {
    if arrived == [] then []
    else Packets(crc, arrived[..|arrived| - 1]) + PacketOf(crc, arrived[|arrived| - 1])
  }

  function PacketOf(crc: Crc, d: seq<byte>): seq<Pkt> {
    var p := Received(crc, d);
    if p.Some? then [p.value] else []
  }

  lemma PacketsAppend(crc: Crc, front: seq<seq<byte>>, d: seq<byte>, all: seq<seq<byte>>)
    requires all == front + [d]
    ensures Packets(crc, all) == Packets(crc, front) + PacketOf(crc, d)
  {
    assert all[..|all| - 1] == front;
  }

  /** The state and the replies sent after these packets. */
  ghost predicate IsAfter(crc: Crc, arrivals: seq<Pkt>, state: R.State, replies: seq<seq<byte>>) {
    && P.Run(arrivals).Some? && state == P.Run(arrivals).value.state
    && replies == Encodings(crc, P.RepliesTo(arrivals))
  }

  lemma AfterOneMore(crc: Crc, arrivals: seq<Pkt>, state: R.State, replies: seq<seq<byte>>, p: Pkt, all: seq<Pkt>)
    requires IsAfter(crc, arrivals, state, replies) && all == arrivals + [p]
    ensures var o := R.Handle(state, p);
            match o
            case Aborted => P.Run(all).None?
            case Ignored => IsAfter(crc, all, state, replies)
            case Replied(after, reply) => IsAfter(crc, all, after, replies + [Encode(crc, reply)])
  {
    var o := R.Handle(state, p);
    P.RunAppend(arrivals, p, all);
    P.RepliesAppend(arrivals, p, all);
    EncodingsAppend(crc, P.RepliesTo(arrivals), P.ReplyIn(o));
    if o.Replied? {
      assert Encodings(crc, [o.reply]) == [Encode(crc, o.reply)];
    }
  }

  /** What a datagram does to the state and the replies. */
  lemma AfterDatagram(crc: Crc, arrivals: seq<Pkt>, state: R.State, replies: seq<seq<byte>>, d: seq<byte>,
                      all: seq<Pkt>, o: R.Outcome)
    requires IsAfter(crc, arrivals, state, replies) && all == arrivals + PacketOf(crc, d)
    requires o == R.HandleDatagram(crc, state, d)
    ensures match o
            case Aborted => P.Run(all).None?
            case Ignored => IsAfter(crc, all, state, replies)
            case Replied(after, reply) => IsAfter(crc, all, after, replies + [Encode(crc, reply)])
  {
    if Received(crc, d).Some? {
      AfterOneMore(crc, arrivals, state, replies, Received(crc, d).value, all);
    } else {
      assert all == arrivals;
    }
  }

  /** One turn of the receiver's loop; `ok` is false when the program aborts. */
  method ReceiverTurn(r: Receiver, d: seq<byte>, ghost arrivals: seq<Pkt>, replies: seq<seq<byte>>,
                      ghost all: seq<Pkt>)
    returns (ok: bool, replies': seq<seq<byte>>)
    requires r.Valid() && IsAfter(r.crc, arrivals, r.State(), replies) && |d| <= MAX_PACKET_SIZE
    requires all == arrivals + PacketOf(r.crc, d)
    modifies r, r.w, r.w.spine
    ensures fresh(r.w.spine - old(r.w.spine))
    ensures if ok then r.Valid() && IsAfter(r.crc, all, r.State(), replies') else P.Run(all).None?
  {
    ghost var o := R.HandleDatagram(r.crc, r.State(), d);
    AfterDatagram(r.crc, arrivals, r.State(), replies, d, all, o);
    var data, len := Recv(Some(d));
    var reply;
    ok, reply := r.MainLoop(data, len, o);
    replies' := if reply.Some? then replies + [reply.value] else replies;
  }

  lemma PacketsUpTo(crc: Crc, arrived: seq<seq<byte>>, k: nat, next: nat)
    requires next == k + 1 <= |arrived|
    ensures Packets(crc, arrived[..next]) == Packets(crc, arrived[..k]) + PacketOf(crc, arrived[k])
  {
    PacketsAppend(crc, arrived[..k], arrived[k], arrived[..next]);
  }

  /** An aborted run stays aborted. */
  lemma {:induction false} AbortedForGood(crc: Crc, arrived: seq<seq<byte>>, k: nat)
    requires k <= |arrived| && P.Run(Packets(crc, arrived[..k])).None?
    ensures P.Run(Packets(crc, arrived)).None?
    decreases |arrived| - k
  {
    if k == |arrived| {
      assert arrived[..k] == arrived;
    } else {
      var next := k + 1;
      PacketsUpTo(crc, arrived, k, next);
      if PacketOf(crc, arrived[k]) == [] {
        assert Packets(crc, arrived[..next]) == Packets(crc, arrived[..k]);
      } else {
        P.RunAppend(Packets(crc, arrived[..k]), Received(crc, arrived[k]).value, Packets(crc, arrived[..next]));
      }
      AbortedForGood(crc, arrived, next);
    }
  }

  lemma NothingHandled(crc: Crc)
    ensures IsAfter(crc, [], R.INITIAL, [])
  {
    assert Encodings(crc, []) == [];
  }

  /** The loop, which ends when the program aborts, or when nothing more is received. */
  method ReceiverLoop(r: Receiver, arrived: seq<seq<byte>>) returns (ok: bool, replies: seq<seq<byte>>)
    requires r.Valid() && r.State() == R.INITIAL
    requires forall k | 0 <= k < |arrived| :: |arrived[k]| <= MAX_PACKET_SIZE
    modifies r, r.w, r.w.spine
    ensures if ok then r.Valid() && IsAfter(r.crc, Packets(r.crc, arrived), r.State(), replies)
            else P.Run(Packets(r.crc, arrived)).None?
  {
    ok, replies := true, [];
    var k := 0;
    NothingHandled(r.crc);
    while k < |arrived| && ok
      invariant k <= |arrived|
      invariant fresh(r.w.spine - old(r.w.spine))
      invariant if ok then r.Valid() && IsAfter(r.crc, Packets(r.crc, arrived[..k]), r.State(), replies)
                else P.Run(Packets(r.crc, arrived[..k])).None?
      decreases |arrived| - k
    {
      PacketsUpTo(r.crc, arrived, k, k + 1);
      ghost var before, after := Packets(r.crc, arrived[..k]), Packets(r.crc, arrived[..k + 1]);
      ok, replies := ReceiverTurn(r, arrived[k], before, replies, after);
      k := k + 1;
    }
    if ok {
      assert arrived[..k] == arrived;
    } else {
      AbortedForGood(r.crc, arrived, k);
    }
  }

  /** The receiver program: what it writes and what it sends. */
  method ReceiveFile(crc: Crc, arrived: seq<seq<byte>>) returns (ok: bool, out: seq<byte>, replies: seq<seq<byte>>)
    requires forall k | 0 <= k < |arrived| :: |arrived[k]| <= MAX_PACKET_SIZE
    ensures ok <==> P.Run(Packets(crc, arrived)).Some?
    ensures ok ==> out == P.Run(Packets(crc, arrived)).value.state.out
    ensures ok ==> replies == Encodings(crc, P.RepliesTo(Packets(crc, arrived)))
  {
    var r := new Receiver(crc);
    ok, replies := ReceiverLoop(r, arrived);
    out := r.outfile;
  }
}
