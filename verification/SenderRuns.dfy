/** Whole runs of the sender, whatever responses arrive: every datagram has a timestamp of its own. */
module SenderRuns {
  import opened Types
  import opened Codec
  import opened Lists
  import opened Buffer
  import opened TimeSource
  import opened SenderSpec
  import opened FileStream

  /** A sender, every DATA datagram it has sent so far, and how many stream packets they cover. */
  datatype World = World(state: State, history: seq<Pkt>, count: nat)

  const START := World(SenderSpec.INITIAL, [], 0)

  /** The three phases of an iteration that is not cut short by a DATA packet. */
  ghost function AfterReceive(source: Source, w: World, response: Option<Pkt>): World {
    w.(state := Receive(source, Wait(w.state), response))
  }

  ghost function AfterResend(source: Source, w: World): World
    requires ReadyToRetransmit(source, w.state)
  {
    var r := RetransmitFrom(source, w.state);
    World(w.state.(buf := r.buf, calls := r.calls), w.history + r.sent, w.count)
  }

  ghost function AfterSend(file: seq<byte>, source: Source, w: World): World {
    var n := SendNew(file, source, w.state);
    World(n.state, w.history + n.sent, w.count + (if n.state.next == w.state.next then 0 else 1))
  }

  predicate CutShort(response: Option<Pkt>) {
    response.Some? && response.value.ptype == PTYPE_DATA
  }

  /** The sender after one iteration. */
  ghost function Next(file: seq<byte>, source: Source, w: World, response: Option<Pkt>): World
    requires Timely(source, w.state)
  {
    ReceiveInTime(source, w.state, response);
    if CutShort(response) then w.(state := Wait(w.state))
    else AfterSend(file, source, AfterResend(source, AfterReceive(source, w, response)))
  }

  /** The phases make up the iteration, and what it sends is added to the history. */
  lemma NextIterates(file: seq<byte>, source: Source, w: World, response: Option<Pkt>)
    requires Timely(source, w.state)
    ensures var it, w' := Iterate(file, source, w.state, response), Next(file, source, w, response);
            w'.state == it.state && w'.history == w.history + it.sent
  {
    if CutShort(response) {
      assert w.history + [] == w.history;
    } else {
      ReceiveInTime(source, w.state, response);
      var received := AfterReceive(source, w, response);
      var r := RetransmitFrom(source, received.state);
      var n := SendNew(file, source, received.state.(buf := r.buf, calls := r.calls));
      assert Iterate(file, source, w.state, response) == Iteration(n.state, r.sent + n.sent);
      assert (w.history + r.sent) + n.sent == w.history + (r.sent + n.sent);
    }
  }

  lemma Phases(file: seq<byte>, source: Source, w: World, response: Option<Pkt>)
    requires Timely(source, w.state)
    ensures ReadyToRetransmit(source, AfterReceive(source, w, response).state)
    ensures CutShort(response) ==> Next(file, source, w, response) == w.(state := Wait(w.state))
    ensures !CutShort(response) ==>
              AfterSend(file, source, AfterResend(source, AfterReceive(source, w, response)))
                == Next(file, source, w, response)
  {
    ReceiveInTime(source, w.state, response);
  }

  /** Time is left for one more timer after the retransmissions. */
  lemma ResendInTime(source: Source, w: World, response: Option<Pkt>)
    requires Timely(source, w.state)
    ensures var received := AfterReceive(source, w, response);
            && ReadyToRetransmit(source, received.state)
            && received.state.calls >= w.state.calls
            && Tick(source, received.state.calls) == Elapsed(source, received.state.calls)
            && InTime(source, AfterResend(source, received).state.calls + 1)
  {
    ReceiveIsSmall(source, w.state, response);
    ReceiveInTime(source, w.state, response);
    CallsAfterResend(source, AfterReceive(source, w, response), w.state.calls + |w.state.buf| + 4);
  }

  /** Retransmission takes one clock call to check the timers and one for each packet expired. */
  lemma CallsAfterResend(source: Source, w: World, limit: nat)
    requires ReadyToRetransmit(source, w.state) && InTime(source, limit)
    requires w.state.calls + 1 + |Expired(w.state.buf, Tick(source, w.state.calls))| < limit
    ensures InTime(source, AfterResend(source, w).state.calls + 1)
  {
    var s := w.state;
    var order := RetransmitResendsExpired(source, s.buf, Tick(source, s.calls), s.calls + 1);
    assert AfterResend(source, w).state.calls == s.calls + 1 + |order|;
    EarlierInTime(source, s.calls + 1 + |order| + 1, limit);
  }

  /* ---------- timestamps ---------- */

  ghost predicate Ascending(history: seq<Pkt>) {
    forall i, j | 0 <= i < j < |history| :: history[i].timestamp < history[j].timestamp
  }

  ghost predicate AllBelow(history: seq<Pkt>, bound: int) {
    forall p | p in history :: p.timestamp < bound
  }

  /** Unexpired packets are as last sent and told apart by their timers. */
  ghost predicate Pending(buf: seq<Pkt>, now: int, history: seq<Pkt>) {
    && (forall i | 0 <= i < |buf| :: buf[i].timestamp <= now || buf[i] in history)
    && forall i, j | 0 <= i < j < |buf| && buf[i].timestamp > now :: buf[i].timestamp != buf[j].timestamp
  }

  /** Timers are timestamps of datagrams sent, all different and set before the k-th clock call. */
  ghost predicate StampedBy(source: Source, buf: seq<Pkt>, k: nat, history: seq<Pkt>) {
    && Ascending(history) && AllBelow(history, Elapsed(source, k) + TIMER)
    && (forall p | p in buf :: p in history)
    && Distinct(Timestamps(buf))
  }

  /** At the top of an iteration: timers are the timestamps of datagrams sent, all different. */
  ghost predicate Stamped(source: Source, w: World) {
    StampedBy(source, w.state.buf, w.state.calls, w.history)
  }

  lemma BelowLater(history: seq<Pkt>, lo: int, hi: int)
    requires AllBelow(history, lo) && lo <= hi
    ensures AllBelow(history, hi)
  {
  }

  lemma HistoryGrows(history: seq<Pkt>, sent: seq<Pkt>, lo: int, hi: int)
    requires Ascending(history) && AllBelow(history, lo) && lo <= hi
    requires Ascending(sent) && forall p | p in sent :: lo <= p.timestamp < hi
    ensures Ascending(history + sent) && AllBelow(history + sent, hi)
  {
    var all := history + sent;
    forall i, j | 0 <= i < j < |all|
      ensures all[i].timestamp < all[j].timestamp
    {
      if i < |history| <= j {
        assert all[i] in history && all[j] in sent;
      }
    }
  }

  /** The datagrams sent again carry the timers lo, ..., in increasing order, all after `now`. */
  ghost predicate FreshlyTimed(sent: seq<Pkt>, now: int, lo: int, hi: int) {
    Ascending(sent) && forall p | p in sent :: now < p.timestamp && lo <= p.timestamp < hi
  }

  lemma SentTimer(source: Source, buf: seq<Pkt>, now: int, k: nat, sent: seq<Pkt>, order: seq<nat>, j: nat,
                  calls: nat)
    requires Ready(source, buf, now, k) && |order| == |Expired(buf, now)| && calls == k + |order|
    requires ListsExpired(buf, now, order) && SentInOrder(source, buf, k, sent, order)
    requires j < |sent|
    ensures sent[j].timestamp == Elapsed(source, k + j) + TIMER > now
    ensures Elapsed(source, k) <= Elapsed(source, k + j) < Elapsed(source, calls)
  {
    FreshTimers(source, buf, now, k, j);
    ElapsedIncreases(source, k, k + j);
    ElapsedIncreases(source, k + j, calls);
  }

  lemma SentAscends(source: Source, buf: seq<Pkt>, now: int, k: nat, sent: seq<Pkt>, order: seq<nat>, calls: nat)
    requires Ready(source, buf, now, k) && |order| == |Expired(buf, now)| && calls == k + |order|
    requires ListsExpired(buf, now, order) && SentInOrder(source, buf, k, sent, order)
    ensures FreshlyTimed(sent, now, Elapsed(source, k) + TIMER, Elapsed(source, calls) + TIMER)
  {
    forall i, j | 0 <= i < j < |sent|
      ensures sent[i].timestamp < sent[j].timestamp
    {
      SentTimer(source, buf, now, k, sent, order, i, calls);
      SentTimer(source, buf, now, k, sent, order, j, calls);
      ElapsedIncreases(source, k + i, k + j);
    }
    forall p | p in sent
      ensures now < p.timestamp
      ensures Elapsed(source, k) + TIMER <= p.timestamp < Elapsed(source, calls) + TIMER
    {
      var j :| 0 <= j < |sent| && sent[j] == p;
      SentTimer(source, buf, now, k, sent, order, j, calls);
    }
  }

  /** Each buffered packet is one just sent or an unexpired old one. */
  lemma BufferAfterResend(buf: seq<Pkt>, now: int, buf': seq<Pkt>, sent: seq<Pkt>, order: seq<nat>, i: nat)
    requires Replaced(buf, now, buf', sent, order)
    requires i < |buf|
    ensures buf[i].timestamp > now ==> buf'[i] == buf[i]
    ensures buf[i].timestamp <= now ==> exists j | 0 <= j < |order| :: order[j] == i && buf'[i] == sent[j]
  {
    if buf[i].timestamp <= now {
      assert i in order;
      var j :| 0 <= j < |order| && order[j] == i;
      assert buf'[order[j]] == sent[j];
    }
  }

  lemma ResendGivesDistinctTimers(buf: seq<Pkt>, now: int, buf': seq<Pkt>, sent: seq<Pkt>, order: seq<nat>,
                                  history: seq<Pkt>, lo: int)
    requires Replaced(buf, now, buf', sent, order)
    requires Pending(buf, now, history) && AllBelow(history, lo)
    requires Ascending(sent) && forall p | p in sent :: lo <= p.timestamp
    ensures forall p | p in buf' :: p in history + sent
    ensures Distinct(Timestamps(buf'))
  {
    forall i | 0 <= i < |buf'|
      ensures buf'[i] in history + sent
    {
      BufferAfterResend(buf, now, buf', sent, order, i);
    }
    forall i, l | 0 <= i < l < |buf'|
      ensures buf'[i].timestamp != buf'[l].timestamp
    {
      BufferAfterResend(buf, now, buf', sent, order, i);
      BufferAfterResend(buf, now, buf', sent, order, l);
      if buf[i].timestamp <= now && buf[l].timestamp <= now {
        var j :| 0 <= j < |order| && order[j] == i && buf'[i] == sent[j];
        var m :| 0 <= m < |order| && order[m] == l && buf'[l] == sent[m];
        assert j != m;
      } else if buf[i].timestamp <= now {
        assert buf'[i] in sent && buf'[l] in history;
      } else if buf[l].timestamp <= now {
        assert buf'[l] in sent && buf'[i] in history;
      }
    }
  }

  /** Retransmitting restores what a NACK may have disturbed. */
  lemma RetransmitStamps(source: Source, buf: seq<Pkt>, now: int, k: nat, history: seq<Pkt>)
    requires Ready(source, buf, now, k) && Pending(buf, now, history)
    requires Ascending(history) && AllBelow(history, Elapsed(source, k) + TIMER)
    ensures var r := Retransmit(source, buf, now, k);
            && r.calls == k + |Expired(buf, now)|
            && Ascending(history + r.sent) && AllBelow(history + r.sent, Elapsed(source, r.calls) + TIMER)
            && (forall p | p in r.buf :: p in history + r.sent)
            && Distinct(Timestamps(r.buf))
  {
    var order := RetransmitResendsExpired(source, buf, now, k);
    var r := Retransmit(source, buf, now, k);
    ResentIsFresh(source, buf, now, k, r, order);
    ResendStamps(buf, now, r.buf, r.sent, order, history, Elapsed(source, k) + TIMER, Elapsed(source, r.calls) + TIMER);
  }

  lemma ResentIsFresh(source: Source, buf: seq<Pkt>, now: int, k: nat, r: Resent, order: seq<nat>)
    requires Ready(source, buf, now, k) && |order| == |Expired(buf, now)|
    requires ResendsExpired(source, buf, now, k, r, order)
    ensures r.calls == k + |Expired(buf, now)|
    ensures FreshlyTimed(r.sent, now, Elapsed(source, k) + TIMER, Elapsed(source, r.calls) + TIMER)
    ensures Elapsed(source, k) <= Elapsed(source, r.calls)
    ensures Replaced(buf, now, r.buf, r.sent, order)
  {
    assert r.calls == k + |order|;
    ElapsedIncreases(source, k, r.calls);
    SentAscends(source, buf, now, k, r.sent, order, r.calls);
  }

  ghost predicate Replaced(buf: seq<Pkt>, now: int, buf': seq<Pkt>, sent: seq<Pkt>, order: seq<nat>) {
    ListsExpired(buf, now, order) && |sent| == |order| && UpdatedInPlace(buf, buf', sent, order)
  }

  lemma ResendStamps(buf: seq<Pkt>, now: int, buf': seq<Pkt>, sent: seq<Pkt>, order: seq<nat>,
                     history: seq<Pkt>, lo: int, hi: int)
    requires Replaced(buf, now, buf', sent, order)
    requires Pending(buf, now, history) && Ascending(history) && AllBelow(history, lo)
    requires FreshlyTimed(sent, now, lo, hi) && lo <= hi
    ensures Ascending(history + sent) && AllBelow(history + sent, hi)
    ensures forall p | p in buf' :: p in history + sent
    ensures Distinct(Timestamps(buf'))
  {
    HistoryGrows(history, sent, lo, hi);
    ResendGivesDistinctTimers(buf, now, buf', sent, order, history, lo);
  }

  lemma NackLeavesPending(source: Source, s: State, nack: Pkt, history: seq<Pkt>)
    requires Distinct(Timestamps(s.buf)) && forall p | p in s.buf :: p in history
    requires InTime(source, s.calls + 1)
    ensures var s' := HandleNack(source, s, nack);
            Pending(s'.buf, Elapsed(source, s'.calls), history)
  {
    var s' := HandleNack(source, s, nack);
    EarlierInTime(source, s.calls, s.calls + 1);
    assert forall j | 0 <= j < |s.buf| :: Timestamps(s.buf)[j] == s.buf[j].timestamp;
    if s' != s {
      var i := FirstIndex(Seqnums(s.buf), nack.seqnum);
      assert s'.buf[i].timestamp < Elapsed(source, s'.calls);
      assert forall j | 0 <= j < |s.buf| && j != i :: s'.buf[j] == s.buf[j];
    }
  }

  /** After a response everything is pending; only the packet a NACK asks for may be out of place. */
  lemma ReceiveLeavesPending(source: Source, w: World, response: Option<Pkt>)
    requires Stamped(source, w) && Timely(source, w.state)
    ensures var s' := Receive(source, Wait(w.state), response);
            Pending(s'.buf, Elapsed(source, s'.calls), w.history)
  {
    var s := Wait(w.state);
    if response.None? {
      assert forall j | 0 <= j < |s.buf| :: Timestamps(s.buf)[j] == s.buf[j].timestamp;
    } else if response.value.ptype == PTYPE_ACK {
      var buf := AfterAck(s.buf, response.value.seqnum, response.value.timestamp);
      AckKeepsTimers(s.buf, response.value.seqnum, response.value.timestamp);
      assert forall j | 0 <= j < |buf| :: Timestamps(buf)[j] == buf[j].timestamp;
    } else {
      EarlierInTime(source, s.calls + 1, w.state.calls + |w.state.buf| + 4);
      NackLeavesPending(source, s, response.value, w.history);
    }
  }

  lemma AckKeepsTimers(buf: seq<Pkt>, a: byte, t: uint32)
    requires Distinct(Timestamps(buf))
    ensures Distinct(Timestamps(AfterAck(buf, a, t)))
    ensures forall p | p in AfterAck(buf, a, t) :: p in buf
  {
    AfterAckIsSmaller(buf, a, t);
    KeepDistinct(buf, NumbersFrom(a));
    var kept := Keep(buf, NumbersFrom(a));
    if kept != [] {
      SeqnumsOfRemoveAt(kept, TimestampVictim(kept, t));
      RemoveAtDistinct(Timestamps(kept), TimestampVictim(kept, t));
    }
  }

  lemma ResendStampsWorld(source: Source, w: World)
    requires ReadyToRetransmit(source, w.state)
    requires Tick(source, w.state.calls) == Elapsed(source, w.state.calls)
    requires Pending(w.state.buf, Elapsed(source, w.state.calls), w.history)
    requires Ascending(w.history) && AllBelow(w.history, Elapsed(source, w.state.calls) + TIMER)
    ensures Stamped(source, AfterResend(source, w))
  {
    var r := RetransmitFromStamps(source, w, Tick(source, w.state.calls), w.state.calls + 1);
    ResentWorldIsStamped(source, w, AfterResend(source, w), r);
  }

  lemma RetransmitFromStamps(source: Source, w: World, now: uint32, k: nat) returns (r: Resent)
    requires ReadyToRetransmit(source, w.state)
    requires now == Tick(source, w.state.calls) == Elapsed(source, w.state.calls) && k == w.state.calls + 1
    requires Pending(w.state.buf, now, w.history) && Ascending(w.history) && AllBelow(w.history, now + TIMER)
    ensures r == RetransmitFrom(source, w.state) && StampedBy(source, r.buf, r.calls, w.history + r.sent)
  {
    r := RetransmitFrom(source, w.state);
    ElapsedIncreases(source, w.state.calls, k);
    BelowLater(w.history, now + TIMER, Elapsed(source, k) + TIMER);
    RetransmitStamps(source, w.state.buf, now, k, w.history);
  }

  lemma ResentWorldIsStamped(source: Source, w: World, w': World, r: Resent)
    requires w' == World(w.state.(buf := r.buf, calls := r.calls), w.history + r.sent, w.count)
    requires StampedBy(source, r.buf, r.calls, w.history + r.sent)
    ensures Stamped(source, w')
  {
  }

  lemma SendStamps(file: seq<byte>, source: Source, w: World)
    requires Stamped(source, w) && InTime(source, w.state.calls + 1)
    ensures Stamped(source, AfterSend(file, source, w))
  {
    var s := w.state;
    if Full(|s.buf|, s.size, MAX_WINDOW_SIZE) || s.sentEof {
      assert w.history + [] == w.history;
    } else {
      EarlierInTime(source, s.calls, s.calls + 1);
      NewPacketIsStamped(source, s.buf, s.calls, w.history, NewPacket(file, source, s), s.calls + 1);
    }
  }

  lemma NewPacketIsStamped(source: Source, buf: seq<Pkt>, k: nat, history: seq<Pkt>, p: Pkt, k': nat)
    requires StampedBy(source, buf, k, history)
    requires p.timestamp == Elapsed(source, k) + TIMER < Elapsed(source, k') + TIMER
    ensures StampedBy(source, [p] + buf, k', history + [p])
  {
    HistoryGrows(history, [p], Elapsed(source, k) + TIMER, Elapsed(source, k') + TIMER);
    assert Timestamps([p] + buf) == [p.timestamp] + Timestamps(buf);
    forall i | 0 <= i < |buf|
      ensures Timestamps(buf)[i] < p.timestamp
    {
      assert buf[i] in history;
    }
  }

  /**
   Whatever is received: after an iteration the buffered timers are again pairwise distinct timestamps
   of datagrams sent, and no two datagrams ever sent share a timestamp.
   */
  lemma IterationStamps(file: seq<byte>, source: Source, w: World, response: Option<Pkt>)
    requires Stamped(source, w) && Timely(source, w.state)
    ensures Stamped(source, Next(file, source, w, response))
  {
    var w' := Next(file, source, w, response);
    Phases(file, source, w, response);
    if CutShort(response) {
      WaitKeepsStamped(source, w, w');
    } else {
      ReceivedIsAnswered(source, w, response);
      AnsweredGetsStamped(file, source, AfterReceive(source, w, response), w');
    }
  }

  lemma WaitKeepsStamped(source: Source, w: World, w': World)
    requires Stamped(source, w) && w' == w.(state := Wait(w.state))
    ensures Stamped(source, w')
  {
    ElapsedIncreases(source, w.state.calls, w'.state.calls);
  }

  /** Between a response and the retransmissions: as at the top, but for one timer that has run out. */
  ghost predicate Answered(source: Source, w: World) {
    var now := Elapsed(source, w.state.calls);
    && ReadyToRetransmit(source, w.state) && Tick(source, w.state.calls) == now
    && Pending(w.state.buf, now, w.history)
    && Ascending(w.history) && AllBelow(w.history, now + TIMER)
    && InTime(source, AfterResend(source, w).state.calls + 1)
  }

  lemma AnsweredGetsStamped(file: seq<byte>, source: Source, w: World, w': World)
    requires Answered(source, w) && w' == AfterSend(file, source, AfterResend(source, w))
    ensures Stamped(source, w')
  {
    ResendStampsWorld(source, w);
    SendStamps(file, source, AfterResend(source, w));
  }

  /** After a response the sender is ready to retransmit, and time is left. */
  lemma ReceivedIsAnswered(source: Source, w: World, response: Option<Pkt>)
    requires Stamped(source, w) && Timely(source, w.state)
    ensures Answered(source, AfterReceive(source, w, response))
  {
    ReceiveLeavesPending(source, w, response);
    ResendInTime(source, w, response);
    ElapsedIncreases(source, w.state.calls, AfterReceive(source, w, response).state.calls);
  }

  /* ---------- what the datagrams contain ---------- */

  /** Stream packet `i` with some timer. */
  function DatagramOf(file: seq<byte>, i: nat, t: uint32): Pkt {
    var data := Chunk(file, MAX_PAYLOAD_SIZE * i);
    Pkt(PTYPE_DATA, false, 0, i % 256, |data|, t, data)
  }

  ghost predicate IsDatagram(file: seq<byte>, i: nat, p: Pkt) {
    p == DatagramOf(file, i, p.timestamp)
  }

  /** Every packet of `ps` is one of the first `count` stream packets. */
  ghost predicate FromStream(file: seq<byte>, count: nat, ps: seq<Pkt>) {
    forall p | p in ps :: exists i: nat | i < count :: IsDatagram(file, i, p)
  }

  /** Only timers differ. */
  ghost predicate SameButTimers(a: seq<Pkt>, b: seq<Pkt>) {
    |a| == |b| && forall i | 0 <= i < |a| :: a[i] == b[i].(timestamp := a[i].timestamp)
  }

  /** The file was read up to the packets sent, which are the first ones of its stream. */
  ghost predicate Synced(file: seq<byte>, w: World) {
    && w.count <= PacketCount(file)
    && w.state.next == w.count % 256
    && w.state.offset == PositionAfter(file, w.count)
    && (w.state.sentEof <==> w.count == PacketCount(file))
    && |w.state.buf| <= MAX_WINDOW_SIZE && w.state.size <= MAX_WINDOW_SIZE
    && FromStream(file, w.count, w.history)
    && FromStream(file, w.count, w.state.buf)
  }

  lemma FromStreamSameButTimers(file: seq<byte>, count: nat, a: seq<Pkt>, b: seq<Pkt>)
    requires SameButTimers(a, b) && FromStream(file, count, b)
    ensures FromStream(file, count, a)
  {
    forall p | p in a
      ensures exists i: nat | i < count :: IsDatagram(file, i, p)
    {
      var j :| 0 <= j < |a| && a[j] == p;
      assert b[j] in b;
      var i: nat :| i < count && IsDatagram(file, i, b[j]);
      assert IsDatagram(file, i, p);
    }
  }

  lemma RetransmitSameButTimers(source: Source, buf: seq<Pkt>, now: int, k: nat)
    requires Ready(source, buf, now, k)
    ensures SameButTimers(Retransmit(source, buf, now, k).buf, buf)
  {
    var r := Retransmit(source, buf, now, k);
    var order := RetransmitResendsExpired(source, buf, now, k);
    forall i | 0 <= i < |buf|
      ensures r.buf[i] == buf[i].(timestamp := r.buf[i].timestamp)
    {
      BufferAfterResend(buf, now, r.buf, r.sent, order, i);
    }
  }

  lemma RetransmitSendsBuffered(file: seq<byte>, count: nat, source: Source, buf: seq<Pkt>, now: int, k: nat)
    requires Ready(source, buf, now, k) && FromStream(file, count, buf)
    ensures FromStream(file, count, Retransmit(source, buf, now, k).sent)
  {
    var r := Retransmit(source, buf, now, k);
    var order := RetransmitResendsExpired(source, buf, now, k);
    forall p | p in r.sent
      ensures exists i: nat | i < count :: IsDatagram(file, i, p)
    {
      var j :| 0 <= j < |r.sent| && r.sent[j] == p;
      assert buf[order[j]] in buf;
      var i: nat :| i < count && IsDatagram(file, i, buf[order[j]]);
      assert IsDatagram(file, i, p);
    }
  }

  /** What is left after a response comes from the buffer before it, apart from a timer. */
  lemma ReceiveKeepsContent(file: seq<byte>, count: nat, source: Source, s: State, response: Option<Pkt>)
    requires FromStream(file, count, s.buf)
    ensures FromStream(file, count, Receive(source, s, response).buf)
  {
    var s' := Receive(source, s, response);
    if response.None? {
    } else if response.value.ptype == PTYPE_ACK {
      AfterAckIsSmaller(s.buf, response.value.seqnum, response.value.timestamp);
    } else {
      FromStreamSameButTimers(file, count, s'.buf, s.buf);
    }
  }

  lemma FromStreamGrows(file: seq<byte>, n: nat, m: nat, ps: seq<Pkt>)
    requires n <= m && FromStream(file, n, ps)
    ensures FromStream(file, m, ps)
  {
  }

  lemma FromStreamAppend(file: seq<byte>, n: nat, a: seq<Pkt>, b: seq<Pkt>)
    requires FromStream(file, n, a) && FromStream(file, n, b)
    ensures FromStream(file, n, a + b)
  {
  }

  lemma ReceiveSyncs(file: seq<byte>, source: Source, w: World, response: Option<Pkt>)
    requires Synced(file, w)
    ensures Synced(file, AfterReceive(source, w, response))
  {
    ReceiveIsSmall(source, w.state, response);
    ReceiveKeepsContent(file, w.count, source, Wait(w.state), response);
  }

  lemma ResendSyncs(file: seq<byte>, source: Source, w: World)
    requires Synced(file, w) && ReadyToRetransmit(source, w.state)
    ensures Synced(file, AfterResend(source, w))
  {
    var s := w.state;
    var r := RetransmitFrom(source, s);
    RetransmitSameButTimers(source, s.buf, Tick(source, s.calls), s.calls + 1);
    RetransmitSendsBuffered(file, w.count, source, s.buf, Tick(source, s.calls), s.calls + 1);
    FromStreamSameButTimers(file, w.count, r.buf, s.buf);
    FromStreamAppend(file, w.count, w.history, r.sent);
  }

  lemma SendIsNextPacket(file: seq<byte>, source: Source, w: World)
    requires Synced(file, w) && w.count < PacketCount(file)
    ensures NewPacket(file, source, w.state) == DatagramOf(file, w.count, Deadline(source, w.state.calls))
    ensures NewPacket(file, source, w.state).payload == StreamOf(file)[w.count]
  {
    ReadOn(file, w.count);
  }

  lemma SendSyncs(file: seq<byte>, source: Source, w: World)
    requires Synced(file, w)
    ensures Synced(file, AfterSend(file, source, w))
  {
    var s := w.state;
    if Full(|s.buf|, s.size, MAX_WINDOW_SIZE) || s.sentEof {
      assert w.history + [] == w.history;
    } else {
      var p := NewPacket(file, source, s);
      var m := w.count + 1;
      SendIsNextPacket(file, source, w);
      ReadOn(file, w.count);
      assert FromStream(file, m, [p]) by { assert IsDatagram(file, w.count, p); }
      FromStreamGrows(file, w.count, m, w.history);
      FromStreamGrows(file, w.count, m, s.buf);
      FromStreamAppend(file, m, w.history, [p]);
      FromStreamAppend(file, m, [p], s.buf);
    }
  }

  /** Whatever is received, the datagrams sent are the first stream packets, in their right number. */
  lemma IterationSyncs(file: seq<byte>, source: Source, w: World, response: Option<Pkt>)
    requires Synced(file, w) && Timely(source, w.state)
    ensures Synced(file, Next(file, source, w, response))
  {
    Phases(file, source, w, response);
    if !CutShort(response) {
      var received := AfterReceive(source, w, response);
      ReceiveSyncs(file, source, w, response);
      ResendSyncs(file, source, received);
      SendSyncs(file, source, AfterResend(source, received));
    }
  }

  /* ---------- the last datagram sent for each packet ---------- */

  /** While numbers have not wrapped: each buffered packet is the last datagram with its number. */
  ghost predicate LastSent(w: World) {
    && Distinct(Seqnums(w.state.buf))
    && forall p, h | p in w.state.buf && h in w.history && h.seqnum == p.seqnum :: h.timestamp <= p.timestamp
  }

  /** The same for the packets that have not expired. */
  ghost predicate LastUnlessExpired(buf: seq<Pkt>, now: int, history: seq<Pkt>) {
    && Distinct(Seqnums(buf))
    && forall p, h | p in buf && p.timestamp > now && h in history && h.seqnum == p.seqnum ::
         h.timestamp <= p.timestamp
  }

  lemma SeqnumsSameButTimers(a: seq<Pkt>, b: seq<Pkt>)
    requires SameButTimers(a, b)
    ensures Seqnums(a) == Seqnums(b)
  {
  }

  lemma AckKeepsNumbers(buf: seq<Pkt>, a: byte, t: uint32)
    requires Distinct(Seqnums(buf))
    ensures Distinct(Seqnums(AfterAck(buf, a, t)))
  {
    KeepDistinct(buf, NumbersFrom(a));
    var kept := Keep(buf, NumbersFrom(a));
    if kept != [] {
      SeqnumsOfRemoveAt(kept, TimestampVictim(kept, t));
      RemoveAtDistinct(Seqnums(kept), TimestampVictim(kept, t));
    }
  }

  lemma NackKeepsLast(source: Source, s: State, nack: Pkt, history: seq<Pkt>)
    requires LastSent(World(s, history, 0)) && InTime(source, s.calls + 1)
    ensures var s' := HandleNack(source, s, nack);
            LastUnlessExpired(s'.buf, Elapsed(source, s'.calls), history)
  {
    var s' := HandleNack(source, s, nack);
    EarlierInTime(source, s.calls, s.calls + 1);
    SeqnumsSameButTimers(s'.buf, s.buf);
    forall p | p in s'.buf && p.timestamp > Elapsed(source, s'.calls)
      ensures p in s.buf
    {
      var j :| 0 <= j < |s'.buf| && s'.buf[j] == p;
      assert s'.buf[j] == s.buf[j];
    }
  }

  lemma ReceiveKeepsLast(source: Source, w: World, response: Option<Pkt>)
    requires LastSent(w) && Timely(source, w.state)
    ensures var s' := AfterReceive(source, w, response).state;
            LastUnlessExpired(s'.buf, Elapsed(source, s'.calls), w.history)
  {
    var s := Wait(w.state);
    if response.Some? {
      if response.value.ptype == PTYPE_ACK {
        AfterAckIsSmaller(s.buf, response.value.seqnum, response.value.timestamp);
        AckKeepsNumbers(s.buf, response.value.seqnum, response.value.timestamp);
      } else {
        EarlierInTime(source, s.calls + 1, w.state.calls + |w.state.buf| + 4);
        NackKeepsLast(source, s, response.value, w.history);
      }
    }
  }

  /** A resent packet has the newest datagram, the others were not sent in between. */
  lemma ResendKeepsLastAt(source: Source, buf: seq<Pkt>, now: int, k: nat, r: Resent, order: seq<nat>,
                          history: seq<Pkt>, lo: int, hi: int, i: nat, h: Pkt)
    requires ResendsExpired(source, buf, now, k, r, order) && FreshlyTimed(r.sent, now, lo, hi)
    requires LastUnlessExpired(buf, now, history) && AllBelow(history, lo)
    requires i < |buf| && h in history + r.sent && h.seqnum == buf[i].seqnum
    ensures h.timestamp <= r.buf[i].timestamp
  {
    BufferAfterResend(buf, now, r.buf, r.sent, order, i);
    if h in r.sent {
      var m :| 0 <= m < |r.sent| && r.sent[m] == h;
      assert Seqnums(buf)[order[m]] == Seqnums(buf)[i];
      assert order[m] == i;
      assert r.buf[order[m]] == r.sent[m];
    } else if buf[i].timestamp <= now {
      assert r.buf[i] in r.sent && h in history;
    } else {
      assert buf[i] in buf && h in history;
    }
  }

  lemma ResendKeepsLast(source: Source, w: World)
    requires ReadyToRetransmit(source, w.state)
    requires Tick(source, w.state.calls) == Elapsed(source, w.state.calls)
    requires LastUnlessExpired(w.state.buf, Elapsed(source, w.state.calls), w.history)
    requires AllBelow(w.history, Elapsed(source, w.state.calls) + TIMER)
    ensures LastSent(AfterResend(source, w))
  {
    var s := w.state;
    var now, k := Tick(source, s.calls), s.calls + 1;
    var order := RetransmitResendsExpired(source, s.buf, now, k);
    var r := RetransmitFrom(source, s);
    ResentIsFresh(source, s.buf, now, k, r, order);
    RetransmitSameButTimers(source, s.buf, now, k);
    SeqnumsSameButTimers(r.buf, s.buf);
    ElapsedIncreases(source, s.calls, k);
    forall p, h | p in r.buf && h in w.history + r.sent && h.seqnum == p.seqnum
      ensures h.timestamp <= p.timestamp
    {
      var i :| 0 <= i < |r.buf| && r.buf[i] == p;
      assert Seqnums(r.buf)[i] == Seqnums(s.buf)[i];
      ResendKeepsLastAt(source, s.buf, now, k, r, order, w.history,
                        Elapsed(source, k) + TIMER, Elapsed(source, r.calls) + TIMER, i, h);
    }
  }

  /** Before the numbers wrap, the number of a packet is its index. */
  lemma NumberIsIndex(file: seq<byte>, count: nat, ps: seq<Pkt>, p: Pkt)
    requires FromStream(file, count, ps) && count <= 256 && p in ps
    ensures p.seqnum < count && IsDatagram(file, p.seqnum, p)
  {
    var i: nat :| i < count && IsDatagram(file, i, p);
    assert p.seqnum == i % 256 && i % 256 == i;
  }

  /** A new packet is the last one with its number, if no buffered packet has the same. */
  lemma SendKeepsLast(file: seq<byte>, source: Source, w: World)
    requires LastSent(w) && Stamped(source, w) && InTime(source, w.state.calls + 1)
    requires Distinct(Seqnums(AfterSend(file, source, w).state.buf))
    ensures LastSent(AfterSend(file, source, w))
  {
    var s := w.state;
    if Full(|s.buf|, s.size, MAX_WINDOW_SIZE) || s.sentEof {
      assert w.history + [] == w.history;
    } else {
      EarlierInTime(source, s.calls, s.calls + 1);
      NewestIsLast(w, NewPacket(file, source, s), Elapsed(source, s.calls) + TIMER);
    }
  }

  lemma NewestIsLast(w: World, p: Pkt, now: int)
    requires LastSent(w) && AllBelow(w.history, now) && p.timestamp == now
    requires Distinct(Seqnums([p] + w.state.buf))
    ensures forall q, h | q in [p] + w.state.buf && h in w.history + [p] && h.seqnum == q.seqnum ::
              h.timestamp <= q.timestamp
  {
    forall q | q in w.state.buf
      ensures q.seqnum != p.seqnum
    {
      var j :| 0 <= j < |w.state.buf| && w.state.buf[j] == q;
      assert Seqnums([p] + w.state.buf)[0] == p.seqnum && Seqnums([p] + w.state.buf)[j + 1] == q.seqnum;
    }
  }

  lemma AnsweredKeepsLast(file: seq<byte>, source: Source, w: World, w': World)
    requires Answered(source, w)
    requires LastUnlessExpired(w.state.buf, Elapsed(source, w.state.calls), w.history)
    requires w' == AfterSend(file, source, AfterResend(source, w)) && Distinct(Seqnums(w'.state.buf))
    ensures LastSent(w')
  {
    ResendKeepsLast(source, w);
    ResendStampsWorld(source, w);
    SendKeepsLast(file, source, AfterResend(source, w));
  }

  /** An iteration keeps this, unless two buffered packets now have the same number. */
  lemma IterationKeepsLast(file: seq<byte>, source: Source, w: World, response: Option<Pkt>, w': World)
    requires Stamped(source, w) && LastSent(w) && Timely(source, w.state)
    requires w' == Next(file, source, w, response) && Distinct(Seqnums(w'.state.buf))
    ensures LastSent(w')
  {
    Phases(file, source, w, response);
    if !CutShort(response) {
      ReceiveKeepsLast(source, w, response);
      ReceivedIsAnswered(source, w, response);
      AnsweredKeepsLast(file, source, AfterReceive(source, w, response), w');
    }
  }

  /** Before the numbers wrap, a new number is larger than those buffered. */
  lemma NewNumberIsDistinct(file: seq<byte>, source: Source, w: World)
    requires Synced(file, w) && Distinct(Seqnums(w.state.buf)) && AfterSend(file, source, w).count <= 256
    ensures Distinct(Seqnums(AfterSend(file, source, w).state.buf))
  {
    var s := w.state;
    if !Full(|s.buf|, s.size, MAX_WINDOW_SIZE) && !s.sentEof {
      var p := NewPacket(file, source, s);
      assert Seqnums([p] + s.buf) == [p.seqnum] + Seqnums(s.buf);
      forall i | 0 <= i < |s.buf|
        ensures Seqnums(s.buf)[i] < p.seqnum
      {
        NumberIsIndex(file, w.count, s.buf, s.buf[i]);
      }
    }
  }

  lemma ShortNumbersStayDistinct(file: seq<byte>, source: Source, w: World, response: Option<Pkt>, w': World)
    requires Synced(file, w) && Distinct(Seqnums(w.state.buf)) && Timely(source, w.state)
    requires w' == Next(file, source, w, response) && w'.count <= 256
    ensures Distinct(Seqnums(w'.state.buf))
  {
    Phases(file, source, w, response);
    if !CutShort(response) {
      var received := AfterReceive(source, w, response);
      ReceiveSyncs(file, source, w, response);
      ReceiveKeepsNumbersDistinct(source, w, response);
      ResendSyncs(file, source, received);
      ResendKeepsNumbers(source, received);
      NewNumberIsDistinct(file, source, AfterResend(source, received));
    }
  }

  lemma ResendKeepsNumbers(source: Source, w: World)
    requires ReadyToRetransmit(source, w.state)
    ensures Seqnums(AfterResend(source, w).state.buf) == Seqnums(w.state.buf)
  {
    RetransmitSameButTimers(source, w.state.buf, Tick(source, w.state.calls), w.state.calls + 1);
    SeqnumsSameButTimers(AfterResend(source, w).state.buf, w.state.buf);
  }

  lemma ReceiveKeepsNumbersDistinct(source: Source, w: World, response: Option<Pkt>)
    requires Distinct(Seqnums(w.state.buf))
    ensures Distinct(Seqnums(AfterReceive(source, w, response).state.buf))
  {
    if response.Some? {
      if response.value.ptype == PTYPE_ACK {
        AckKeepsNumbers(w.state.buf, response.value.seqnum, response.value.timestamp);
      } else {
        SeqnumsSameButTimers(HandleNack(source, Wait(w.state), response.value).buf, w.state.buf);
      }
    }
  }

  /* ---------- whole runs ---------- */

  /** The successive worlds of a run: each iteration starts while the loop guard holds. */
  ghost predicate IsSenderRun(file: seq<byte>, source: Source, run: seq<World>, responses: seq<Option<Pkt>>) {
    && |run| == |responses| + 1 && run[0] == START
    && forall k | 0 <= k < |responses| :: IsTurn(file, source, run[k], responses[k], run[k + 1])
  }

  ghost predicate IsTurn(file: seq<byte>, source: Source, w: World, response: Option<Pkt>, w': World) {
    Running(w.state) && Timely(source, w.state) && w' == Next(file, source, w, response)
  }

  lemma TurnOf(file: seq<byte>, source: Source, run: seq<World>, responses: seq<Option<Pkt>>, k: nat, next: nat)
    requires IsSenderRun(file, source, run, responses) && k < |responses| && next == k + 1
    ensures IsTurn(file, source, run[k], responses[k], run[next])
  {
  }

  /** No two packets buffered up to turn `k` had the same number. */
  ghost predicate NumbersDistinct(run: seq<World>, k: nat)
    requires k < |run|
  {
    forall j | 0 <= j <= k :: Distinct(Seqnums(run[j].state.buf))
  }

  /**
   Timestamp identity, for any file, any clock and any responses: the timestamps of all DATA datagrams
   ever sent are pairwise distinct, and so are the buffered ones, each of which is on a datagram that
   was sent.
   */
  lemma {:induction false} TimestampsIdentifyDatagrams(file: seq<byte>, source: Source, run: seq<World>,
                                                       responses: seq<Option<Pkt>>, k: nat)
    requires IsSenderRun(file, source, run, responses) && k < |run|
    ensures Stamped(source, run[k]) && Synced(file, run[k])
    ensures Distinct(Timestamps(run[k].history))
  {
    if k > 0 {
      var j := k - 1;
      TimestampsIdentifyDatagrams(file, source, run, responses, j);
      TurnOf(file, source, run, responses, j, k);
      IterationStamps(file, source, run[j], responses[j]);
      IterationSyncs(file, source, run[j], responses[j]);
    }
  }

  /**
   The timestamp of each buffered packet is that of the last datagram sent with its number, all the time,
   if and only if no two buffered packets ever have the same number.
   */
  lemma {:induction false} BufferedIsLastSent(file: seq<byte>, source: Source, run: seq<World>,
                                              responses: seq<Option<Pkt>>, k: nat)
    requires IsSenderRun(file, source, run, responses) && k < |run|
    ensures (forall j | 0 <= j <= k :: LastSent(run[j])) <==> NumbersDistinct(run, k)
  {
    if k > 0 && NumbersDistinct(run, k) {
      var j := k - 1;
      BufferedIsLastSent(file, source, run, responses, j);
      assert NumbersDistinct(run, j) && LastSent(run[j]);
      TimestampsIdentifyDatagrams(file, source, run, responses, j);
      TurnOf(file, source, run, responses, j, k);
      IterationKeepsLast(file, source, run[j], responses[j], run[k]);
    }
  }

  /** Which is so as long as at most 256 packets were sent. */
  lemma {:induction false} ShortRunsAreDistinct(file: seq<byte>, source: Source, run: seq<World>,
                                                responses: seq<Option<Pkt>>, k: nat)
    requires IsSenderRun(file, source, run, responses) && k < |run| && run[k].count <= 256
    ensures NumbersDistinct(run, k)
  {
    if k > 0 {
      var j := k - 1;
      TurnOf(file, source, run, responses, j, k);
      CountGrows(file, source, run[j], responses[j]);
      ShortRunsAreDistinct(file, source, run, responses, j);
      TimestampsIdentifyDatagrams(file, source, run, responses, j);
      ShortNumbersStayDistinct(file, source, run[j], responses[j], run[k]);
    }
  }

  lemma CountGrows(file: seq<byte>, source: Source, w: World, response: Option<Pkt>)
    requires Timely(source, w.state)
    ensures w.count <= Next(file, source, w, response).count <= w.count + 1
  {
    Phases(file, source, w, response);
  }
}
