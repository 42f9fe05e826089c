/** What an iteration of the sender does, told by what goes in and what comes out of it. */
module SenderLaws {
  import opened Types
  import opened Codec
  import opened Lists
  import opened Buffer
  import opened Ring
  import opened TimeSource
  import opened SenderSpec
  import opened SenderRuns

  predicate IsAck(response: Option<Pkt>) {
    response.Some? && response.value.ptype == PTYPE_ACK
  }

  predicate IsNack(response: Option<Pkt>) {
    response.Some? && response.value.ptype == PTYPE_NACK
  }

  /** Nothing came that decodes, or it is one of the two types that the receiver sends. */
  predicate IsReply(response: Option<Pkt>) {
    response.None? || IsAck(response) || IsNack(response)
  }

  /** What is left in the buffer after a response. */
  ghost function Left(s: State, response: Option<Pkt>): seq<Pkt> {
    if IsAck(response) then AfterAck(s.buf, response.value.seqnum, response.value.timestamp) else s.buf
  }

  /** How many packets may be buffered after a response. */
  function Allowed(size: nat, response: Option<Pkt>): nat {
    if response.None? then size else if response.value.window < 31 then response.value.window else 31
  }

  /** The window start after a response. */
  function StartAfter(pos: byte, response: Option<Pkt>): byte {
    if IsAck(response) then response.value.seqnum else pos
  }

  /** The response is a NACK for the packet at `i`: the first one with that number, which lies in the window. */
  ghost predicate AsksFor(s: State, response: Option<Pkt>, i: nat) {
    && IsNack(response) && i < |s.buf| && s.buf[i].seqnum == response.value.seqnum
    && (response.value.seqnum - s.pos) % 256 < s.size
    && forall j | 0 <= j < i :: s.buf[j].seqnum != response.value.seqnum
  }

  ghost predicate AsksForSome(s: State, response: Option<Pkt>) {
    exists i :: AsksFor(s, response, i)
  }

  /** Clock calls so far once the wait is over: it takes one when nothing can be sent and a timer is running. */
  function AfterWait(s: State): nat {
    if (s.buf != [] && s.size <= |s.buf|) || s.sentEof then s.calls + 1 else s.calls
  }

  /** The clock call with which the timers are checked, after the one that runs out the timer asked for. */
  ghost function CheckCall(s: State, response: Option<Pkt>): nat {
    if AsksForSome(s, response) then AfterWait(s) + 1 else AfterWait(s)
  }

  /* ---------- responses ---------- */

  /** What a response does to the buffer, packet by packet. */
  ghost predicate OnlyRetimed(source: Source, s: State, response: Option<Pkt>, buf: seq<Pkt>) {
    var left, t := Left(s, response), Tick(source, AfterWait(s));
    && |buf| == |left|
    && forall i: nat | i < |left| ::
         buf[i] == if AsksFor(s, response, i) then left[i].(timestamp := t) else left[i]
  }

  lemma WaitConsults(s: State)
    requires s.size <= 31
    ensures Wait(s) == s.(calls := AfterWait(s))
  {
  }

  /** Which packet a search for the number of the NACK finds. */
  lemma AskedIsFound(s: State, nack: Pkt, f: nat)
    requires s.size <= 31 && nack.ptype == PTYPE_NACK && f == FirstIndex(Seqnums(s.buf), nack.seqnum)
    ensures forall i: nat :: AsksFor(s, Some(nack), i) <==>
              i == f < |s.buf| && InWindow(s.pos, s.size, MAX_SEQNUM, nack.seqnum)
    ensures AsksForSome(s, Some(nack)) <==> f < |s.buf| && InWindow(s.pos, s.size, MAX_SEQNUM, nack.seqnum)
  {
    InWindowIffOffset(s.pos, s.size, MAX_SEQNUM, nack.seqnum);
    assert forall j | 0 <= j < |s.buf| :: Seqnums(s.buf)[j] == s.buf[j].seqnum;
    forall i: nat
      ensures AsksFor(s, Some(nack), i) <==> i == f < |s.buf| && InWindow(s.pos, s.size, MAX_SEQNUM, nack.seqnum)
    {
      if i < |s.buf| && s.buf[i].seqnum == nack.seqnum && i != f {
        assert f < i && s.buf[f].seqnum == nack.seqnum;
      }
    }
    assert AsksForSome(s, Some(nack)) ==> f < |s.buf|;
    if f < |s.buf| && InWindow(s.pos, s.size, MAX_SEQNUM, nack.seqnum) {
      assert AsksFor(s, Some(nack), f);
    }
  }

  lemma NackRetimes(source: Source, s: State, nack: Pkt, waited: State, s': State)
    requires s.size <= 31 && nack.ptype == PTYPE_NACK
    requires waited == s.(calls := AfterWait(s)) && s' == HandleNack(source, waited, nack)
    ensures OnlyRetimed(source, s, Some(nack), s'.buf)
    ensures s' == s.(buf := s'.buf, calls := CheckCall(s, Some(nack)))
  {
    var f, t := FirstIndex(Seqnums(s.buf), nack.seqnum), Tick(source, waited.calls);
    AskedIsFound(s, nack, f);
    if AsksForSome(s, Some(nack)) {
      assert s'.buf == s.buf[f := s.buf[f].(timestamp := t)];
    } else {
      assert s' == waited;
    }
  }

  lemma OthersRetimeNothing(source: Source, s: State, response: Option<Pkt>)
    requires !IsNack(response)
    ensures OnlyRetimed(source, s, response, Left(s, response)) && CheckCall(s, response) == AfterWait(s)
  {
  }

  lemma ResponseRetimes(source: Source, s: State, response: Option<Pkt>, s': State)
    requires s.size <= 31 && IsReply(response) && s' == Receive(source, Wait(s), response)
    ensures OnlyRetimed(source, s, response, s'.buf)
    ensures s' == s.(pos := StartAfter(s.pos, response), size := Allowed(s.size, response), buf := s'.buf,
                     calls := CheckCall(s, response))
  {
    WaitConsults(s);
    if IsNack(response) {
      var waited := Wait(s);
      NackRetimes(source, s, response.value, waited, HandleNack(source, waited, response.value));
    } else {
      OthersRetimeNothing(source, s, response);
    }
  }

  /* ---------- retransmission ---------- */

  /** The timer of the packet at `i`, which a NACK for it has run out at `t`. */
  ghost function Due(s: State, response: Option<Pkt>, t: uint32, i: nat): int
    requires i < |Left(s, response)|
  {
    if AsksFor(s, response, i) then t else Left(s, response)[i].timestamp
  }

  /** `order` lists the packets whose timer is out, and the one that a NACK asks for, each once and earliest first. */
  ghost predicate ListsDue(s: State, response: Option<Pkt>, t: uint32, now: uint32, order: seq<nat>) {
    var left := Left(s, response);
    && Distinct(order)
    && (forall j | 0 <= j < |order| :: order[j] < |left|)
    && (forall i: nat | i < |left| :: i in order <==> left[i].timestamp <= now || AsksFor(s, response, i))
    && forall j, l | 0 <= j < l < |order| :: Due(s, response, t, order[j]) <= Due(s, response, t, order[l])
  }

  lemma DueAreExpired(source: Source, s: State, response: Option<Pkt>, buf: seq<Pkt>, now: uint32, order: seq<nat>)
    requires OnlyRetimed(source, s, response, buf)
    requires AsksForSome(s, response) ==> Tick(source, AfterWait(s)) <= now
    requires ListsExpired(buf, now, order) && EarliestFirst(buf, order)
    ensures ListsDue(s, response, Tick(source, AfterWait(s)), now, order)
  {
    var left, t := Left(s, response), Tick(source, AfterWait(s));
    forall i: nat | i < |left|
      ensures i in order <==> left[i].timestamp <= now || AsksFor(s, response, i)
      ensures Due(s, response, t, i) == buf[i].timestamp
    {
    }
  }

  /** The timer that a NACK sets has run out when the timers are checked. */
  lemma AskedHasRunOut(source: Source, s: State, response: Option<Pkt>)
    requires Timely(source, s)
    ensures var t, now := Tick(source, AfterWait(s)), Tick(source, CheckCall(s, response));
            AsksForSome(s, response) ==> t <= now
  {
    var k, limit := AfterWait(s), s.calls + |s.buf| + 4;
    EarlierInTime(source, k, limit);
    EarlierInTime(source, CheckCall(s, response), limit);
    ElapsedIncreases(source, k, CheckCall(s, response));
  }

  /** The packets at `order` are `sent` with the timers of the clock calls from `k` on; no other one changes. */
  ghost predicate ResendsLeft(source: Source, left: seq<Pkt>, k: nat, r: Resent, order: seq<nat>) {
    && (forall j | 0 <= j < |order| :: order[j] < |left|)
    && SentInOrder(source, left, k, r.sent, order)
    && UpdatedInPlace(left, r.buf, r.sent, order)
    && r.calls == k + |order|
  }

  lemma RetimedResendsLeft(source: Source, s: State, response: Option<Pkt>, buf: seq<Pkt>, now: uint32, k: nat,
                           r: Resent, order: seq<nat>)
    requires OnlyRetimed(source, s, response, buf)
    requires AsksForSome(s, response) ==> Tick(source, AfterWait(s)) <= now
    requires ResendsExpired(source, buf, now, k, r, order)
    ensures ListsDue(s, response, Tick(source, AfterWait(s)), now, order)
    ensures ResendsLeft(source, Left(s, response), k, r, order)
  {
    DueAreExpired(source, s, response, buf, now, order);
    var left := Left(s, response);
    forall j | 0 <= j < |order|
      ensures r.sent[j] == left[order[j]].(timestamp := Deadline(source, k + j))
    {
      assert buf[order[j]] == left[order[j]].(timestamp := buf[order[j]].timestamp);
    }
    forall i: nat | i < |left| && i !in order
      ensures r.buf[i] == left[i]
    {
      assert !AsksFor(s, response, i);
    }
  }

  /** The state in which the timers are checked. */
  ghost predicate Responded(source: Source, s: State, response: Option<Pkt>, s1: State) {
    && OnlyRetimed(source, s, response, s1.buf)
    && s1 == s.(pos := StartAfter(s.pos, response), size := Allowed(s.size, response), buf := s1.buf,
                calls := CheckCall(s, response))
    && (AsksForSome(s, response) ==> Tick(source, AfterWait(s)) <= Tick(source, s1.calls))
  }

  lemma ReceiveResponds(source: Source, s: State, response: Option<Pkt>) returns (s1: State, c: nat)
    requires Timely(source, s) && s.size <= 31 && IsReply(response)
    ensures c == s1.calls && c == CheckCall(s, response)
    ensures s1 == Receive(source, Wait(s), response) && ReadyToRetransmit(source, s1)
    ensures Responded(source, s, response, s1)
  {
    s1 := Receive(source, Wait(s), response);
    ReceiveInTime(source, s, response);
    ResponseResponds(source, s, response, s1);
    c := s1.calls;
  }

  lemma ResponseResponds(source: Source, s: State, response: Option<Pkt>, s1: State)
    requires Timely(source, s) && s.size <= 31 && IsReply(response) && s1 == Receive(source, Wait(s), response)
    ensures Responded(source, s, response, s1)
  {
    ResponseRetimes(source, s, response, s1);
    AskedHasRunOut(source, s, response);
  }

  /** What is sent again, the timers being checked with clock call `c`. */
  ghost predicate ResendsDue(source: Source, s: State, response: Option<Pkt>, c: nat, r: Resent, order: seq<nat>) {
    && ListsDue(s, response, Tick(source, AfterWait(s)), Tick(source, c), order)
    && ResendsLeft(source, Left(s, response), c + 1, r, order)
  }

  lemma ResentFrom(source: Source, s: State, now: uint32, k: nat) returns (order: seq<nat>, r: Resent)
    requires ReadyToRetransmit(source, s) && now == Tick(source, s.calls) && k == s.calls + 1
    ensures r == RetransmitFrom(source, s) && ResendsExpired(source, s.buf, now, k, r, order)
  {
    r := RetransmitFrom(source, s);
    order := RetransmitResendsExpired(source, s.buf, now, k);
  }

  lemma RetransmitTells(source: Source, s: State, response: Option<Pkt>, s1: State, c: nat)
    returns (order: seq<nat>, r: Resent)
    requires ReadyToRetransmit(source, s1) && Responded(source, s, response, s1) && c == s1.calls
    ensures r == RetransmitFrom(source, s1) && |r.buf| == |Left(s, response)|
    ensures ResendsDue(source, s, response, c, r, order)
  {
    var now, k := Tick(source, c), c + 1;
    order, r := ResentFrom(source, s1, now, k);
    RetimedResendsLeft(source, s, response, s1.buf, now, k, r, order);
  }

  /* ---------- new data ---------- */

  /** There is room for one more packet, and one more to send. */
  ghost predicate SendsOneMore(s: State, response: Option<Pkt>) {
    |Left(s, response)| < Allowed(s.size, response) && !s.sentEof
  }

  /** The next chunk of the file under the next number. */
  ghost predicate IsNext(file: seq<byte>, source: Source, s: State, k: nat, p: Pkt) {
    var data := Chunk(file, s.offset);
    p == Pkt(PTYPE_DATA, false, 0, s.next, |data|, Deadline(source, k), data)
  }

  /** What the iteration does after the retransmissions `r`. */
  ghost predicate Continues(file: seq<byte>, source: Source, s: State, response: Option<Pkt>, r: Resent,
                            it: Iteration) {
    var s' := it.state;
    && s'.pos == StartAfter(s.pos, response) && s'.size == Allowed(s.size, response)
    && if SendsOneMore(s, response) then
         && |s'.buf| == |r.buf| + 1 && s'.buf[1..] == r.buf && IsNext(file, source, s, r.calls, s'.buf[0])
         && it.sent == r.sent + [s'.buf[0]] && s'.calls == r.calls + 1
         && s'.next == (s.next + 1) % 256 && s'.offset == s.offset + |s'.buf[0].payload|
         && (s'.sentEof <==> s'.buf[0].payload == [])
       else
         && s'.buf == r.buf && it.sent == r.sent && s'.calls == r.calls
         && s'.next == s.next && s'.offset == s.offset && s'.sentEof == s.sentEof
  }

  lemma SendContinues(file: seq<byte>, source: Source, s: State, response: Option<Pkt>, s1: State, r: Resent)
    requires Allowed(s.size, response) <= 31 && |r.buf| == |Left(s, response)|
    requires s1 == s.(pos := StartAfter(s.pos, response), size := Allowed(s.size, response), buf := s1.buf,
                      calls := s1.calls)
    ensures Continues(file, source, s, response, r, SendMore(file, source, s1, r))
  {
    var s2 := s1.(buf := r.buf, calls := r.calls);
    if SendsOneMore(s, response) {
      assert ([NewPacket(file, source, s2)] + r.buf)[1..] == r.buf;
    } else {
      assert r.sent + [] == r.sent;
    }
  }

  lemma IterateSendsMore(file: seq<byte>, source: Source, s: State, response: Option<Pkt>, s1: State, r: Resent)
    requires Timely(source, s) && IsReply(response)
    requires s1 == Receive(source, Wait(s), response) && ReadyToRetransmit(source, s1)
    requires r == RetransmitFrom(source, s1)
    ensures Iterate(file, source, s, response) == SendMore(file, source, s1, r)
  {
  }

  lemma RespondedContinues(file: seq<byte>, source: Source, s: State, response: Option<Pkt>, s1: State, r: Resent)
    requires s.size <= 31 && Responded(source, s, response, s1) && |r.buf| == |Left(s, response)|
    ensures Continues(file, source, s, response, r, SendMore(file, source, s1, r))
  {
    SendContinues(file, source, s, response, s1, r);
  }

  /**
   One iteration after an ACK, a NACK or nothing. Of the packets that the response leaves, those whose timer
   has run out are sent again, and with them the one a NACK asks for, even if its timer has not run out: it
   must be the first with that number, and the number less than the window size after the window start. No
   other packet is sent again or given a new timer. Then one new packet is sent if and only if EOF was not sent
   and fewer packets are left than the window now allows.
   */
  lemma IterationTells(file: seq<byte>, source: Source, s: State, response: Option<Pkt>)
    returns (order: seq<nat>, r: Resent)
    requires Timely(source, s) && s.size <= 31 && IsReply(response)
    ensures ResendsDue(source, s, response, CheckCall(s, response), r, order)
    ensures Continues(file, source, s, response, r, Iterate(file, source, s, response))
  {
    var s1, c := ReceiveResponds(source, s, response);
    order, r := RetransmitTells(source, s, response, s1, c);
    RespondedContinues(file, source, s, response, s1, r);
    IterateSendsMore(file, source, s, response, s1, r);
  }

  /** A DATA packet ends the iteration before anything is sent. */
  lemma DataEndsIteration(file: seq<byte>, source: Source, s: State, p: Pkt)
    requires Timely(source, s) && s.size <= 31 && p.ptype == PTYPE_DATA
    ensures Iterate(file, source, s, Some(p)) == Iteration(s.(calls := AfterWait(s)), [])
  {
    WaitConsults(s);
  }

  /* ---------- flow control over whole runs ---------- */

  /** The window size after some responses: what the last ACK or NACK advertised, and 1 before the first. */
  function AllowedAfter(responses: seq<Option<Pkt>>): nat {
    if responses == [] then 1
    else
      var n := |responses| - 1;
      if CutShort(responses[n]) then AllowedAfter(responses[..n])
      else Allowed(AllowedAfter(responses[..n]), responses[n])
  }

  /** The window start after some responses: the number of the last ACK, and 0 before the first. */
  function StartAfterAll(responses: seq<Option<Pkt>>): byte {
    if responses == [] then 0
    else
      var n := |responses| - 1;
      StartAfter(StartAfterAll(responses[..n]), responses[n])
  }

  lemma {:induction false} AllowedIsSmall(responses: seq<Option<Pkt>>)
    ensures AllowedAfter(responses) <= 31
  {
    if responses != [] {
      AllowedIsSmall(responses[..|responses| - 1]);
    }
  }

  /** Whatever decodes has a type. */
  predicate Typed(responses: seq<Option<Pkt>>) {
    forall k | 0 <= k < |responses| :: IsReply(responses[k]) || CutShort(responses[k])
  }

  /** What an iteration does to the window and the number of packets sent, and how full the buffer may get. */
  ghost predicate KeepsToWindow(w: World, response: Option<Pkt>, w': World) {
    var size := if CutShort(response) then w.state.size else Allowed(w.state.size, response);
    var left := |Left(w.state, response)|;
    && w'.state.size == size && w'.state.pos == StartAfter(w.state.pos, response)
    && w'.count == w.count + (if !CutShort(response) && left < size && !w.state.sentEof then 1 else 0)
    && |w'.state.buf| == left + (w'.count - w.count)
  }

  lemma IterateMovesWindow(file: seq<byte>, source: Source, s: State, response: Option<Pkt>, s': State)
    requires Timely(source, s) && s.size <= 31 && IsReply(response)
    requires s' == Iterate(file, source, s, response).state
    ensures s'.size == Allowed(s.size, response) && s'.pos == StartAfter(s.pos, response)
    ensures |s'.buf| == |Left(s, response)| + if SendsOneMore(s, response) then 1 else 0
    ensures s'.next == s.next <==> !SendsOneMore(s, response)
  {
    var order, r := IterationTells(file, source, s, response);
    ContinuesMovesWindow(file, source, s, response, r, Iterate(file, source, s, response));
  }

  lemma ContinuesMovesWindow(file: seq<byte>, source: Source, s: State, response: Option<Pkt>, r: Resent, it: Iteration)
    requires Continues(file, source, s, response, r, it) && |r.buf| == |Left(s, response)|
    ensures it.state.size == Allowed(s.size, response) && it.state.pos == StartAfter(s.pos, response)
    ensures |it.state.buf| == |Left(s, response)| + if SendsOneMore(s, response) then 1 else 0
    ensures it.state.next == s.next <==> !SendsOneMore(s, response)
  {
  }

  lemma NextCounts(file: seq<byte>, source: Source, w: World, response: Option<Pkt>)
    requires Timely(source, w.state)
    ensures var w' := Next(file, source, w, response);
            w'.count == w.count + if w'.state.next == w.state.next then 0 else 1
  {
  }

  lemma IterationKeepsToWindow(file: seq<byte>, source: Source, w: World, response: Option<Pkt>, w': World)
    requires Timely(source, w.state) && w.state.size <= 31 && (IsReply(response) || CutShort(response))
    requires w' == Next(file, source, w, response)
    ensures KeepsToWindow(w, response, w')
  {
    NextIterates(file, source, w, response);
    NextCounts(file, source, w, response);
    if CutShort(response) {
      DataEndsIteration(file, source, w.state, response.value);
    } else {
      IterateMovesWindow(file, source, w.state, response, w'.state);
    }
  }

  /** In a run the window has the size last advertised and starts at the number last acknowledged, old or new. */
  lemma {:induction false} WindowFollowsReplies(file: seq<byte>, source: Source, run: seq<World>,
                                                responses: seq<Option<Pkt>>, k: nat)
    requires IsSenderRun(file, source, run, responses) && Typed(responses) && k <= |responses|
    ensures run[k].state.size == AllowedAfter(responses[..k]) && run[k].state.pos == StartAfterAll(responses[..k])
  {
    if k > 0 {
      var j := k - 1;
      assert responses[..k][..j] == responses[..j];
      WindowFollowsReplies(file, source, run, responses, j);
      AllowedIsSmall(responses[..j]);
      TurnOf(file, source, run, responses, j, k);
      IterationKeepsToWindow(file, source, run[j], responses[j], run[k]);
    }
  }

  /**
   Flow control, in any run: an iteration sends a packet of the stream for the first time if and only if EOF
   was not sent, it is not cut short, and what the response leaves in the buffer is less than was last
   advertised; so the buffer grows no larger than that.
   */
  lemma SendsWithinWindow(file: seq<byte>, source: Source, run: seq<World>, responses: seq<Option<Pkt>>, k: nat,
                          next: nat)
    requires IsSenderRun(file, source, run, responses) && Typed(responses) && next == k + 1 <= |responses|
    ensures var s, size := run[k].state, AllowedAfter(responses[..next]);
            && (run[next].count == run[k].count + 1
                <==> (!CutShort(responses[k]) && |Left(s, responses[k])| < size && !s.sentEof))
            && run[k].count <= run[next].count <= run[k].count + 1
            && (run[next].count > run[k].count ==> |run[next].state.buf| <= size)
            && (run[next].count == run[k].count ==> |run[next].state.buf| == |Left(s, responses[k])|)
  {
    WindowFollowsReplies(file, source, run, responses, k);
    WindowFollowsReplies(file, source, run, responses, next);
    AllowedIsSmall(responses[..k]);
    TurnOf(file, source, run, responses, k, next);
    IterationKeepsToWindow(file, source, run[k], responses[k], run[next]);
  }
}
