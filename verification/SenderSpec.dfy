/** What one iteration of the sender does, on values. */
module SenderSpec {
  import opened Types
  import opened Codec
  import opened Lists
  import opened Buffer
  import opened Ring
  import opened TimeSource

  /** Window, unacknowledged packets, next sequence number, file position and clock calls so far. */
  datatype State = State(
    pos: byte,
    size: nat,
    buf: seq<Pkt>,
    next: byte,
    sentEof: bool,
    offset: nat,
    calls: nat
  )

  const INITIAL := State(0, 1, [], 0, false, 0, 0)

  /** The retransmission timer set with the k-th call of the clock. */
  ghost function Deadline(source: Source, k: nat): uint32 {
    (Tick(source, k) + TIMER) % WORD32
  }

  /** No timer set before the k-th call of the clock exceeds 32 bits. */
  ghost predicate InTime(source: Source, k: nat) {
    Elapsed(source, k) + TIMER < WORD32
  }

  lemma EarlierInTime(source: Source, i: nat, k: nat)
    requires i <= k && InTime(source, k)
    ensures InTime(source, i) && Tick(source, i) == Elapsed(source, i)
    ensures Deadline(source, i) == Elapsed(source, i) + TIMER
    ensures Elapsed(source, i) + (k - i) <= Elapsed(source, k)
  {
    ElapsedIncreases(source, i, k);
  }

  /* ---------- responses ---------- */

  predicate NotBelow(a: int, x: int) { a <= x }

  function NumbersFrom(a: int): set<int> {
    set x | 0 <= x < 256 && NotBelow(a, x)
  }

  /** Some packet numerically below `a` carries timestamp `t`. */
  ghost predicate AnyBelow(buf: seq<Pkt>, a: int, t: int) {
    exists p | p in buf :: p.seqnum < a && p.timestamp == t
  }

  /** The buffer after an ACK for number `a` that echoes timestamp `t`. */
  ghost function AfterAck(buf: seq<Pkt>, a: byte, t: uint32): seq<Pkt> {
    var kept := Keep(buf, NumbersFrom(a));
    if AnyBelow(buf, a, t) || kept == [] then kept else RemoveAt(kept, TimestampVictim(kept, t))
  }

  /** The buffer [p] after an ACK for `a` that echoes `t`. */
  lemma AckOfOne(p: Pkt, a: byte, t: uint32)
    ensures AfterAck([p], a, t) == []
  {
    var keep := NumbersFrom(a);
    assert [p][1..] == [];
    assert Keep([p], keep) == if p.seqnum in keep then [p] else [];
    if p.seqnum >= a {
      assert Keep([p], keep) == [p];
      assert RemoveAt([p], 0) == [];
    }
  }

  /**
   An ACK for stream packet `k` is meant to remove the packets before it. With every buffered packet less
   than 256 packets away, comparing plain numbers does so exactly when no wrap-around lies in between.
   */
  lemma CumulativeIffSameRound(buf: seq<Pkt>, indices: seq<nat>, k: nat)
    requires |indices| == |buf|
    requires forall j | 0 <= j < |buf| :: buf[j].seqnum == indices[j] % 256
    requires forall j | 0 <= j < |buf| :: indices[j] < k + 256 && k < indices[j] + 256
    ensures (forall j | 0 <= j < |buf| :: buf[j].seqnum in NumbersFrom(k % 256) <==> k <= indices[j])
       <==> forall j | 0 <= j < |buf| :: indices[j] / 256 == k / 256
  {
    forall j | 0 <= j < |buf|
      ensures (buf[j].seqnum in NumbersFrom(k % 256) <==> k <= indices[j]) <==> indices[j] / 256 == k / 256
    {
      assert buf[j].seqnum in NumbersFrom(k % 256) <==> k % 256 <= buf[j].seqnum;
      if indices[j] != k {
        PlainOrderIffSameRound(indices[j], k, 256);
      }
    }
  }

  ghost predicate Matches(buf: seq<Pkt>, a: byte, t: uint32, i: nat) {
    i < |buf| && buf[i].seqnum >= a && buf[i].timestamp == t
  }

  /**
   Position `v` holds the packet that goes beyond the cumulative ones: the first not below `a` that has
   the timestamp, or the very first not below `a` when none has it.
   */
  ghost predicate IsExtra(buf: seq<Pkt>, a: byte, t: uint32, v: nat) {
    && v < |buf| && buf[v].seqnum >= a
    && if buf[v].timestamp == t then forall i: nat | i < v :: !Matches(buf, a, t, i)
       else (forall i: nat | i < |buf| :: !Matches(buf, a, t, i)) && forall i: nat | i < v :: buf[i].seqnum < a
  }

  /**
   Exactly what an ACK removes: every packet below its number and, unless one of them had the echoed
   timestamp, one more if there is one. The others keep their order. `idx` holds their positions.
   */
  lemma AckRemovesExactly(buf: seq<Pkt>, a: byte, t: uint32) returns (idx: seq<nat>, extra: Option<nat>)
    ensures Embeds(AfterAck(buf, a, t), buf, idx)
    ensures forall i: nat | i < |buf| :: i in idx <==> buf[i].seqnum >= a && extra != Some(i)
    ensures extra.Some? ==> IsExtra(buf, a, t, extra.value)
    ensures extra.Some? <==> !AnyBelow(buf, a, t) && exists p | p in buf :: p.seqnum >= a
  {
    var kept := Keep(buf, NumbersFrom(a));
    KeepMembers(buf, NumbersFrom(a));
    idx := KeepOrder(buf, NumbersFrom(a));
    extra := None;
    if !AnyBelow(buf, a, t) && kept != [] {
      var j := TimestampVictim(kept, t);
      assert kept[j] in kept;
      VictimIsExtra(buf, a, t, kept, idx, j);
      EmbedsAfterRemoval(kept, buf, idx, j);
      extra := Some(idx[j]);
      idx := RemoveAt(idx, j);
    }
  }

  lemma VictimIsExtra(buf: seq<Pkt>, a: byte, t: uint32, kept: seq<Pkt>, idx: seq<nat>, j: nat)
    requires Embeds(kept, buf, idx) && kept != [] && j == TimestampVictim(kept, t)
    requires forall i: nat | i < |buf| :: i in idx <==> buf[i].seqnum in NumbersFrom(a)
    ensures IsExtra(buf, a, t, idx[j])
  {
    var v := idx[j];
    assert v in idx;
    forall i: nat | i < |buf| && buf[i].seqnum >= a && (i < v || kept[j].timestamp != t)
      ensures buf[i].timestamp != t && (i < v ==> kept[j].timestamp == t)
    {
      assert i in idx;
      var l :| 0 <= l < |idx| && idx[l] == i;
      assert Timestamps(kept)[l] == buf[i].timestamp;
      assert Timestamps(kept)[j] == kept[j].timestamp;
    }
  }

  ghost function HandleAck(s: State, ack: Pkt): State {
    s.(pos := ack.seqnum, buf := AfterAck(s.buf, ack.seqnum, ack.timestamp))
  }

  /** The packet asked for gets the current time as its timer, so that it expires at once. */
  ghost function HandleNack(source: Source, s: State, nack: Pkt): State {
    var i := FirstIndex(Seqnums(s.buf), nack.seqnum);
    if !InWindow(s.pos, s.size, MAX_SEQNUM, nack.seqnum) || i == |s.buf| then s
    else s.(buf := s.buf[i := s.buf[i].(timestamp := Tick(source, s.calls))], calls := s.calls + 1)
  }

  function Min(a: int, b: int): int {
    if a < b then a else b
  }

  ghost function Respond(source: Source, s: State, response: Pkt): State {
    var handled := if response.ptype == PTYPE_ACK then HandleAck(s, response) else HandleNack(source, s, response);
    handled.(size := Min(MAX_WINDOW_SIZE, response.window))
  }

  /* ---------- timers ---------- */

  ghost function Expired(buf: seq<Pkt>, now: int): set<int> {
    set i | 0 <= i < |buf| && buf[i].timestamp <= now
  }

  datatype Resent = Resent(buf: seq<Pkt>, calls: nat, sent: seq<Pkt>)

  lemma ExpiredAfterRefresh(buf: seq<Pkt>, now: int, i: nat, p: Pkt)
    requires i in Expired(buf, now) && p.timestamp > now
    ensures Expired(buf[i := p], now) == Expired(buf, now) - {i}
    ensures |Expired(buf[i := p], now)| == |Expired(buf, now)| - 1
  {
    assert Expired(buf[i := p], now) == Expired(buf, now) - {i};
  }

  /** `now` is in the past and the timers that are going to be set all fit in 32 bits. */
  ghost predicate Ready(source: Source, buf: seq<Pkt>, now: int, k: nat) {
    now <= Elapsed(source, k) && InTime(source, k + |Expired(buf, now)|)
  }

  lemma ReadyAfterRefresh(source: Source, buf: seq<Pkt>, now: int, k: nat, i: nat)
    requires Ready(source, buf, now, k) && i in Expired(buf, now)
    ensures var p := buf[i].(timestamp := Deadline(source, k));
            && p.timestamp == Elapsed(source, k) + TIMER > now
            && Ready(source, buf[i := p], now, k + 1)
            && |Expired(buf[i := p], now)| == |Expired(buf, now)| - 1
  {
    EarlierInTime(source, k, k + |Expired(buf, now)|);
    ExpiredAfterRefresh(buf, now, i, buf[i].(timestamp := Deadline(source, k)));
    ElapsedIncreases(source, k, k + 1);
  }

  /** Sends every packet whose timer expired at `now` again, the earliest timer first. */
  ghost function Retransmit(source: Source, buf: seq<Pkt>, now: int, k: nat): (r: Resent)
    requires Ready(source, buf, now, k)
    ensures r.calls >= k
    decreases |Expired(buf, now)|
  {
    if buf == [] then Resent(buf, k, [])
    else
      var i := FirstMin(Timestamps(buf));
      if buf[i].timestamp > now then Resent(buf, k, [])
      else
        var p := buf[i].(timestamp := Deadline(source, k));
        ReadyAfterRefresh(source, buf, now, k, i);
        var rest := Retransmit(source, buf[i := p], now, k + 1);
        Resent(rest.buf, rest.calls, [p] + rest.sent)
  }

  /* ---------- new data ---------- */

  /** What the next read of the file gives. */
  function Chunk(file: seq<byte>, offset: nat): (r: seq<byte>)
    ensures |r| <= MAX_PAYLOAD_SIZE
  {
    if offset >= |file| then [] else file[offset..Min(offset + MAX_PAYLOAD_SIZE, |file|)]
  }

  datatype Iteration = Iteration(state: State, sent: seq<Pkt>)

  ghost function NewPacket(file: seq<byte>, source: Source, s: State): Pkt {
    var data := Chunk(file, s.offset);
    Pkt(PTYPE_DATA, false, 0, s.next, |data|, Deadline(source, s.calls), data)
  }

  /** Reads and sends one more packet, unless the buffer is full or EOF was sent. */
  ghost function SendNew(file: seq<byte>, source: Source, s: State): Iteration {
    if Full(|s.buf|, s.size, MAX_WINDOW_SIZE) || s.sentEof then Iteration(s, [])
    else
      var p := NewPacket(file, source, s);
      Iteration(s.(buf := [p] + s.buf,
                   next := (s.next + 1) % 256,
                   sentEof := p.length == 0,
                   offset := s.offset + |p.payload|,
                   calls := s.calls + 1),
                [p])
  }

  /* ---------- one iteration ---------- */

  /** Nothing can be sent now: wait for a response or for the first timer. */
  predicate Blocked(s: State) {
    (Full(|s.buf|, s.size, MAX_WINDOW_SIZE) && s.buf != []) || s.sentEof
  }

  /** Waiting consults the clock when it is bounded by a timer. */
  function Wait(s: State): State {
    if !s.sentEof && s.buf == [] && s.size == 0 then s
    else if Blocked(s) then s.(calls := s.calls + 1)
    else s
  }

  /** The loop runs as long as EOF is not sent or something is unacknowledged. */
  predicate Running(s: State) {
    !s.sentEof || s.buf != []
  }

  /** Every timer that an iteration from `s` may set fits in 32 bits. */
  ghost predicate Timely(source: Source, s: State) {
    InTime(source, s.calls + |s.buf| + 4)
  }

  lemma {:induction false} ExpiredIsSmall(buf: seq<Pkt>, now: int)
    ensures |Expired(buf, now)| <= |buf|
  {
    if buf == [] {
      assert Expired(buf, now) == {};
    } else {
      var n := |buf| - 1;
      ExpiredIsSmall(buf[..n], now);
      assert Expired(buf, now) == Expired(buf[..n], now) + (if buf[n].timestamp <= now then {n} else {});
    }
  }

  ghost function Receive(source: Source, s: State, response: Option<Pkt>): State {
    if response.None? then s else Respond(source, s, response.value)
  }

  lemma AfterAckIsSmaller(buf: seq<Pkt>, a: byte, t: uint32)
    ensures |AfterAck(buf, a, t)| <= |buf|
    ensures forall p | p in AfterAck(buf, a, t) :: p in buf && p.seqnum >= a
  {
    var kept := Keep(buf, NumbersFrom(a));
    KeepMembers(buf, NumbersFrom(a));
    if kept != [] {
      RemoveAtMembers(kept, TimestampVictim(kept, t));
    }
  }

  lemma ReceiveIsSmall(source: Source, s: State, response: Option<Pkt>)
    ensures var s' := Receive(source, Wait(s), response);
            s.calls <= s'.calls <= s.calls + 2 && |s'.buf| <= |s.buf|
  {
    if response.Some? {
      AfterAckIsSmaller(s.buf, response.value.seqnum, response.value.timestamp);
    }
  }

  lemma RetransmitInTime(source: Source, calls: nat, buf: seq<Pkt>, limit: nat)
    requires InTime(source, limit) && calls + |buf| + 1 < limit
    ensures var now := Tick(source, calls);
            && calls + 1 + |Expired(buf, now)| < limit
            && now == Elapsed(source, calls)
            && Ready(source, buf, now, calls + 1)
  {
    var now := Tick(source, calls);
    ExpiredIsSmall(buf, now);
    EarlierInTime(source, calls, limit);
    ElapsedIncreases(source, calls, calls + 1);
    EarlierInTime(source, calls + 1 + |Expired(buf, now)|, limit);
  }

  ghost predicate ReadyToRetransmit(source: Source, s: State) {
    Ready(source, s.buf, Tick(source, s.calls), s.calls + 1)
  }

  lemma LaterInTime(source: Source, s: State, s': State)
    requires Timely(source, s)
    requires s.calls <= s'.calls <= s.calls + 2 && |s'.buf| <= |s.buf|
    ensures var now := Tick(source, s'.calls);
            && s'.calls + 1 + |Expired(s'.buf, now)| < s.calls + |s.buf| + 4
            && now == Elapsed(source, s'.calls)
            && ReadyToRetransmit(source, s')
  {
    RetransmitInTime(source, s'.calls, s'.buf, s.calls + |s.buf| + 4);
  }

  /** Enough time is left for the retransmissions after waiting and handling a response. */
  lemma ReceiveInTime(source: Source, s: State, response: Option<Pkt>)
    requires Timely(source, s)
    ensures var s' := Receive(source, Wait(s), response);
            var now := Tick(source, s'.calls);
            && s'.calls + 1 + |Expired(s'.buf, now)| < s.calls + |s.buf| + 4
            && now == Elapsed(source, s'.calls)
            && ReadyToRetransmit(source, s')
  {
    ReceiveIsSmall(source, s, response);
    LaterInTime(source, s, Receive(source, Wait(s), response));
  }

  /** Sends again what expired, the clock being read once to find out what did. */
  ghost function RetransmitFrom(source: Source, s: State): Resent
    requires ReadyToRetransmit(source, s)
  {
    Retransmit(source, s.buf, Tick(source, s.calls), s.calls + 1)
  }

  /** Sends something new after the retransmissions `r`. */
  ghost function SendMore(file: seq<byte>, source: Source, s: State, r: Resent): Iteration {
    var n := SendNew(file, source, s.(buf := r.buf, calls := r.calls));
    Iteration(n.state, r.sent + n.sent)
  }

  /** The second half of an iteration: send again what expired, then something new. */
  ghost function SendPackets(file: seq<byte>, source: Source, s: State): Iteration
    requires ReadyToRetransmit(source, s)
  {
    SendMore(file, source, s, RetransmitFrom(source, s))
  }

  /** One iteration; `response` is what was received and decoded, if anything. */
  ghost function Iterate(file: seq<byte>, source: Source, s: State, response: Option<Pkt>): Iteration
    requires Timely(source, s)
  {
    var waited := Wait(s);
    if response.Some? && response.value.ptype == PTYPE_DATA then Iteration(waited, [])
    else
      ReceiveInTime(source, s, response);
      SendPackets(file, source, Receive(source, waited, response))
  }

  /* ---------- what retransmission does ---------- */

  /** `order` lists each position of an expired packet once. */
  ghost predicate ListsExpired(buf: seq<Pkt>, now: int, order: seq<nat>) {
    && (forall j | 0 <= j < |order| :: order[j] < |buf|)
    && (forall i: nat | i < |buf| :: i in order <==> buf[i].timestamp <= now)
    && Distinct(order)
  }

  ghost predicate EarliestFirst(buf: seq<Pkt>, order: seq<nat>)
    requires forall j | 0 <= j < |order| :: order[j] < |buf|
  {
    forall j, l | 0 <= j < l < |order| :: buf[order[j]].timestamp <= buf[order[l]].timestamp
  }

  /** The j-th datagram sent is the packet at order[j] with the j-th fresh timer. */
  ghost predicate SentInOrder(source: Source, buf: seq<Pkt>, k: nat, sent: seq<Pkt>, order: seq<nat>)
    requires forall j | 0 <= j < |order| :: order[j] < |buf|
  {
    && |sent| == |order|
    && forall j | 0 <= j < |order| :: sent[j] == buf[order[j]].(timestamp := Deadline(source, k + j))
  }

  /** The packets at those positions are now as sent, the others as before. */
  ghost predicate UpdatedInPlace(buf: seq<Pkt>, buf': seq<Pkt>, sent: seq<Pkt>, order: seq<nat>)
    requires |sent| == |order| && forall j | 0 <= j < |order| :: order[j] < |buf|
  {
    && |buf'| == |buf|
    && (forall j | 0 <= j < |order| :: buf'[order[j]] == sent[j])
    && (forall i: nat | i < |buf| && i !in order :: buf'[i] == buf[i])
  }

  /**
   The packets that expired at `now` are each sent exactly once, by increasing old timestamp and
   with fresh timers; the buffer keeps its order and nothing else in it changes.
   */
  ghost predicate ResendsExpired(source: Source, buf: seq<Pkt>, now: int, k: nat, r: Resent, order: seq<nat>) {
    && ListsExpired(buf, now, order)
    && EarliestFirst(buf, order)
    && SentInOrder(source, buf, k, r.sent, order)
    && UpdatedInPlace(buf, r.buf, r.sent, order)
    && r.calls == k + |order|
  }

  lemma {:induction false} RetransmitResendsExpired(source: Source, buf: seq<Pkt>, now: int, k: nat)
    returns (order: seq<nat>)
    requires Ready(source, buf, now, k)
    ensures ResendsExpired(source, buf, now, k, Retransmit(source, buf, now, k), order)
    ensures |order| == |Expired(buf, now)|
    decreases |Expired(buf, now)|
  {
    if buf == [] || buf[FirstMin(Timestamps(buf))].timestamp > now {
      order := [];
      NothingExpired(buf, now);
    } else {
      var i := FirstMin(Timestamps(buf));
      var p := buf[i].(timestamp := Deadline(source, k));
      ReadyAfterRefresh(source, buf, now, k, i);
      var rest := RetransmitResendsExpired(source, buf[i := p], now, k + 1);
      order := [i] + rest;
      var next := Retransmit(source, buf[i := p], now, k + 1);
      assert Retransmit(source, buf, now, k) == Resent(next.buf, next.calls, [p] + next.sent);
      ResendFirst(source, buf, now, k, i, p, next, rest);
    }
  }

  lemma ResendFirst(source: Source, buf: seq<Pkt>, now: int, k: nat, i: nat, p: Pkt, next: Resent, rest: seq<nat>)
    requires i < |buf| && buf[i].timestamp <= now < p.timestamp && IsFirstMin(Timestamps(buf), i)
    requires p == buf[i].(timestamp := Deadline(source, k))
    requires ResendsExpired(source, buf[i := p], now, k + 1, next, rest)
    ensures ResendsExpired(source, buf, now, k, Resent(next.buf, next.calls, [p] + next.sent), [i] + rest)
  {
    ListFirst(buf, now, i, p, rest);
    SendFirst(source, buf, k, i, p, next.sent, rest);
    UpdateFirst(buf, i, p, next.buf, next.sent, rest);
  }

  lemma NothingExpired(buf: seq<Pkt>, now: int)
    requires buf == [] || buf[FirstMin(Timestamps(buf))].timestamp > now
    ensures Expired(buf, now) == {} && ListsExpired(buf, now, [])
  {
    forall i: nat | i < |buf|
      ensures buf[i].timestamp > now
    {
      assert Timestamps(buf)[FirstMin(Timestamps(buf))] <= Timestamps(buf)[i];
    }
  }

  lemma ListFirst(buf: seq<Pkt>, now: int, i: nat, p: Pkt, rest: seq<nat>)
    requires i < |buf| && buf[i].timestamp <= now < p.timestamp && IsFirstMin(Timestamps(buf), i)
    requires ListsExpired(buf[i := p], now, rest) && EarliestFirst(buf[i := p], rest)
    ensures i !in rest
    ensures ListsExpired(buf, now, [i] + rest) && EarliestFirst(buf, [i] + rest)
  {
    var order := [i] + rest;
    assert i !in rest;
    forall j | 0 <= j < |rest|
      ensures rest[j] != i && buf[i := p][rest[j]] == buf[rest[j]]
      ensures buf[i].timestamp <= buf[rest[j]].timestamp
    {
      assert rest[j] in rest;
      assert Timestamps(buf)[i] <= Timestamps(buf)[rest[j]];
    }
    assert forall l: nat | l < |buf| :: l in order <==> l == i || l in rest;
  }

  lemma SendFirst(source: Source, buf: seq<Pkt>, k: nat, i: nat, p: Pkt, sent: seq<Pkt>, rest: seq<nat>)
    requires i < |buf| && i !in rest && p == buf[i].(timestamp := Deadline(source, k))
    requires forall j | 0 <= j < |rest| :: rest[j] < |buf|
    requires SentInOrder(source, buf[i := p], k + 1, sent, rest)
    ensures SentInOrder(source, buf, k, [p] + sent, [i] + rest)
  {
    forall j | 0 <= j < |rest|
      ensures sent[j] == buf[rest[j]].(timestamp := Deadline(source, k + (j + 1)))
    {
      assert rest[j] in rest;
    }
  }

  lemma UpdateFirst(buf: seq<Pkt>, i: nat, p: Pkt, buf': seq<Pkt>, sent: seq<Pkt>, rest: seq<nat>)
    requires i < |buf| && i !in rest && |sent| == |rest|
    requires forall j | 0 <= j < |rest| :: rest[j] < |buf|
    requires UpdatedInPlace(buf[i := p], buf', sent, rest)
    ensures UpdatedInPlace(buf, buf', [p] + sent, [i] + rest)
  {
    assert forall l: nat | l < |buf| :: l in [i] + rest <==> l == i || l in rest;
  }

  /** Fresh timers lie after the time at which the timers were checked, one after the other. */
  lemma FreshTimers(source: Source, buf: seq<Pkt>, now: int, k: nat, j: nat)
    requires Ready(source, buf, now, k)
    requires j < |Expired(buf, now)|
    ensures Deadline(source, k + j) == Elapsed(source, k + j) + TIMER > now
  {
    EarlierInTime(source, k + j, k + |Expired(buf, now)|);
    ElapsedIncreases(source, k, k + j);
  }
}
