/** Whole runs of the receiver, for streams of any length. */
module PrefixSafety {
  import opened Types
  import opened Codec
  import opened Buffer
  import opened Ring
  import opened ReceiverSpec
  import opened ReceiverRuns
  import opened StreamSafety

  /** A receiver together with how many times its window has slid. */
  datatype Progress = Progress(state: State, written: nat)

  /** The receiver after a sequence of packets; None when the pop assertion failed. */
  ghost function Run(arrivals: seq<Pkt>): Option<Progress> {
    if arrivals == [] then Some(Progress(INITIAL, 0))
    else
      var before := Run(arrivals[..|arrivals| - 1]);
      if before.None? then None else Step(before.value, arrivals[|arrivals| - 1])
  }

  ghost function Step(before: Progress, p: Pkt): Option<Progress> {
    var outcome := Handle(before.state, p);
    if outcome.Aborted? then None
    else
      var after := ReceiverSpec.Next(before.state, outcome);
      Some(Progress(after, before.written + Offset(before.state.pos, after.pos, 256)))
  }

  /** The replies sent to a sequence of packets. */
  ghost function RepliesTo(arrivals: seq<Pkt>): seq<Pkt> {
    if arrivals == [] then []
    else
      var front := arrivals[..|arrivals| - 1];
      RepliesTo(front) + if Run(front).None? then [] else ReplyIn(Handle(Run(front).value.state, arrivals[|front|]))
  }

  function ReplyIn(o: Outcome): seq<Pkt> {
    if o.Replied? then [o.reply] else []
  }

  lemma RepliesAppend(front: seq<Pkt>, p: Pkt, all: seq<Pkt>)
    requires all == front + [p] && Run(front).Some?
    ensures RepliesTo(all) == RepliesTo(front) + ReplyIn(Handle(Run(front).value.state, p))
  {
    assert all[..|all| - 1] == front;
  }

  /** Whatever arrives, as long as the pop assertion holds, the buffer stays spread over the window. */
  lemma {:induction false} RunKeepsSpread(arrivals: seq<Pkt>)
    requires Run(arrivals).Some?
    ensures Spread(Run(arrivals).value.state, 1)
  {
    if arrivals != [] {
      var n := |arrivals| - 1;
      RunKeepsSpread(arrivals[..n]);
      var r := Run(arrivals[..n]).value.state;
      if Handle(r, arrivals[n]).Replied? {
        NeverFull(r, arrivals[n]);
      }
    }
  }

  /**
   In every run, with any packets at all: at most 30 packets are buffered between datagrams, there is
   room for the next one, and its reply advertises a window between 1 and 31.
   */
  lemma RunNeverFills(arrivals: seq<Pkt>, p: Pkt)
    requires Run(arrivals).Some?
    ensures var r := Run(arrivals).value.state;
            && Spread(r, 1) && |r.buf| <= 30 && !Full(|r.buf|, MAX_WINDOW_SIZE, MAX_WINDOW_SIZE)
            && (Handle(r, p).Replied? ==> 1 <= Handle(r, p).reply.window <= 31)
  {
    RunKeepsSpread(arrivals);
    var r := Run(arrivals).value.state;
    SpreadIsSmall(r, 1);
    if Handle(r, p).Replied? {
      NeverFull(r, p);
    }
  }

  /** Packets with different sequence numbers carry different timestamps. */
  ghost predicate TimestampsIdentify(arrivals: seq<Pkt>) {
    forall p, q | p in arrivals && q in arrivals && p.seqnum != q.seqnum :: p.timestamp != q.timestamp
  }

  /** An intact packet is a copy of a stream packet that is not too far from the window. */
  ghost predicate NearCopy(stream: seq<seq<byte>>, at: Progress, p: Pkt) {
    p.tr || exists i :: at.written - 225 <= i <= at.written + 255 && IsCopy(stream, i, p)
  }

  ghost predicate NearCopies(stream: seq<seq<byte>>, arrivals: seq<Pkt>) {
    forall k | 0 <= k < |arrivals| ::
      Run(arrivals[..k]).Some? ==> NearCopy(stream, Run(arrivals[..k]).value, arrivals[k])
  }

  /** What is assumed of the packets that arrive. */
  ghost predicate Expected(stream: seq<seq<byte>>, arrivals: seq<Pkt>) {
    IsStream(stream) && TimestampsIdentify(arrivals) && NearCopies(stream, arrivals)
  }

  /** Every buffered packet is the stream packet with an index strictly between written and written + 31. */
  ghost predicate BuffersTheFuture(stream: seq<seq<byte>>, at: Progress) {
    forall p | p in at.state.buf ::
      exists i :: at.written < i < at.written + 31 && IsCopy(stream, i, p)
  }

  ghost predicate InPlace(stream: seq<seq<byte>>, at: Progress, p: Pkt) {
    IsCopy(stream, StreamIndex(at.written, at.state, p), p)
  }

  ghost predicate OnTrack(stream: seq<seq<byte>>, arrivals: seq<Pkt>, at: Progress) {
    && InStep(stream, at.written, at.state) && Spread(at.state, 1)
    && forall p | p in at.state.buf :: p in arrivals && InPlace(stream, at, p)
  }

  /** The pop assertion held all the time, and the receiver is on track. */
  ghost predicate Tracked(stream: seq<seq<byte>>, arrivals: seq<Pkt>) {
    Run(arrivals).Some? && OnTrack(stream, arrivals, Run(arrivals).value)
  }

  lemma AcceptedIsInPlace(stream: seq<seq<byte>>, at: Progress, p: Pkt)
    requires at.state.pos == at.written % 256 && NearCopy(stream, at, p)
    requires Accepts(at.state, p) && !p.tr
    ensures InPlace(stream, at, p)
  {
    var i :| at.written - 225 <= i <= at.written + 255 && IsCopy(stream, i, p);
    NearCopiesAreRecognised(stream, at.written, at.state, i, p);
  }

  lemma NearCopyFits(stream: seq<seq<byte>>, arrivals: seq<Pkt>, at: Progress, p: Pkt)
    requires OnTrack(stream, arrivals, at)
    requires TimestampsIdentify(arrivals + [p]) && NearCopy(stream, at, p)
    ensures Fits(stream, at.written, at.state, p)
  {
    if Accepts(at.state, p) && !p.tr {
      AcceptedIsInPlace(stream, at, p);
      forall q | q in at.state.buf && q.seqnum != p.seqnum
        ensures q.timestamp != p.timestamp
      {
        assert q in arrivals + [p] && p in arrivals + [p];
      }
    }
  }

  /** Receiver and count after handling `p`, with `n` packets written. */
  ghost function Moved(at: Progress, p: Pkt, n: nat): Progress
    requires !Handle(at.state, p).Aborted?
  {
    Progress(ReceiverSpec.Next(at.state, Handle(at.state, p)), at.written + n)
  }

  lemma BufferStaysInPlace(stream: seq<seq<byte>>, arrivals: seq<Pkt>, at: Progress, p: Pkt, n: nat, after: Progress)
    requires OnTrack(stream, arrivals, at) && NearCopy(stream, at, p)
    requires !Handle(at.state, p).Aborted? && after == Moved(at, p, n)
    requires Advanced(at.written, at.state, p, n, after.state)
    ensures forall q | q in after.state.buf :: q in arrivals + [p] && InPlace(stream, after, q)
  {
    forall q | q in after.state.buf
      ensures q in arrivals + [p] && InPlace(stream, after, q)
    {
      StoredWasAccepted(at.state, p, q);
      if q !in at.state.buf {
        AcceptedIsInPlace(stream, at, p);
      }
      assert InPlace(stream, at, q);
    }
  }

  lemma StepIsMoved(at: Progress, p: Pkt, n: nat, after: Progress)
    requires !Handle(at.state, p).Aborted? && after == Moved(at, p, n) && n < 256
    requires at.state.pos == at.written % 256 && after.state.pos == after.written % 256
    ensures Step(at, p) == Some(after)
  {
    SlidBy(at.written, at.state.pos, n, after.state.pos);
  }

  /** One packet is handled, and if it is acknowledged it is accounted for. */
  lemma StepStaysOnTrack(stream: seq<seq<byte>>, arrivals: seq<Pkt>, at: Progress, p: Pkt)
    returns (n: nat, after: Progress)
    requires IsStream(stream) && OnTrack(stream, arrivals, at)
    requires TimestampsIdentify(arrivals + [p]) && NearCopy(stream, at, p)
    ensures Step(at, p) == Some(after) && after.written == at.written + n
    ensures OnTrack(stream, arrivals + [p], after)
    ensures Accepts(at.state, p) && !p.tr ==> Acknowledged(at.written, at.state, p, n, after.state)
  {
    NearCopyFits(stream, arrivals, at, p);
    n := HandleStaysInStep(stream, at.written, at.state, p);
    after := Moved(at, p, n);
    BufferStaysInPlace(stream, arrivals, at, p, n, after);
    StepIsMoved(at, p, n, after);
  }

  lemma RunAppend(front: seq<Pkt>, p: Pkt, all: seq<Pkt>)
    requires all == front + [p]
    ensures Run(all) == if Run(front).None? then None else Step(Run(front).value, p)
  {
    assert all[..|all| - 1] == front;
  }

  /** The hypotheses on the packet that arrives after the first `k`. */
  lemma ArrivalIsNear(stream: seq<seq<byte>>, arrivals: seq<Pkt>, k: nat)
    requires Expected(stream, arrivals) && k < |arrivals|
    ensures TimestampsIdentify(arrivals[..k] + [arrivals[k]])
    ensures Run(arrivals[..k]).Some? ==> NearCopy(stream, Run(arrivals[..k]).value, arrivals[k])
  {
  }

  lemma NextIsOnTrack(stream: seq<seq<byte>>, arrivals: seq<Pkt>, k: nat, next: nat)
    requires Expected(stream, arrivals) && next == k + 1 <= |arrivals| && Tracked(stream, arrivals[..k])
    ensures Tracked(stream, arrivals[..next])
  {
    var front, p := arrivals[..k], arrivals[k];
    ArrivalIsNear(stream, arrivals, k);
    var n, after := StepStaysOnTrack(stream, front, Run(front).value, p);
    assert arrivals[..next] == front + [p];
    RunAppend(front, p, arrivals[..next]);
  }

  lemma BeginsOnTrack(stream: seq<seq<byte>>)
    requires IsStream(stream)
    ensures Tracked(stream, [])
  {
    assert stream[..0] == [];
  }

  lemma {:induction false} RunIsOnTrackUpTo(stream: seq<seq<byte>>, arrivals: seq<Pkt>, n: nat)
    requires Expected(stream, arrivals) && n <= |arrivals|
    ensures Tracked(stream, arrivals[..n])
  {
    if n == 0 {
      BeginsOnTrack(stream);
      assert arrivals[..0] == [];
    } else {
      var k := n - 1;
      RunIsOnTrackUpTo(stream, arrivals, k);
      NextIsOnTrack(stream, arrivals, k, n);
    }
  }

  /** Every buffered packet is a copy of the stream packet that its place in the window stands for. */
  lemma RunIsOnTrack(stream: seq<seq<byte>>, arrivals: seq<Pkt>)
    requires Expected(stream, arrivals)
    ensures Tracked(stream, arrivals)
  {
    RunIsOnTrackUpTo(stream, arrivals, |arrivals|);
    assert arrivals[..|arrivals|] == arrivals;
  }

  /**
   For a stream of any length, with datagrams lost, repeated and reordered: the output is exactly the
   first payloads in order, the window starts right after them, and what is buffered comes next.
   */
  lemma OutputIsPrefix(stream: seq<seq<byte>>, arrivals: seq<Pkt>)
    requires IsStream(stream) && TimestampsIdentify(arrivals) && NearCopies(stream, arrivals)
    ensures Run(arrivals).Some?
    ensures var at := Run(arrivals).value;
            && at.written < |stream|
            && at.state.out == Concat(stream[..at.written])
            && at.state.pos == at.written % 256
            && BuffersTheFuture(stream, at)
            && |at.state.buf| <= 30
  {
    RunIsOnTrack(stream, arrivals);
    var at := Run(arrivals).value;
    SpreadIsSmall(at.state, 1);
    forall p | p in at.state.buf
      ensures exists i :: at.written < i < at.written + 31 && IsCopy(stream, i, p)
    {
      assert InPlace(stream, at, p);
    }
  }

  /** Stream packet `i` is written, or the EOF just consumed, or buffered. */
  ghost predicate Has(stream: seq<seq<byte>>, at: Progress, i: nat) {
    || i < at.written
    || (i == at.written == |stream| - 1 && at.state.eof)
    || exists q | q in at.state.buf :: IsCopy(stream, i, q)
  }

  /** `p` is a copy of a packet in the window, which the receiver then has. */
  ghost predicate Accounted(stream: seq<seq<byte>>, before: Progress, after: Progress, p: Pkt) {
    exists i | before.written <= i < before.written + 31 :: IsCopy(stream, i, p) && Has(stream, after, i)
  }

  lemma AcknowledgedIsAccounted(stream: seq<seq<byte>>, before: Progress, p: Pkt, n: nat, after: Progress, i: nat)
    requires after.written == before.written + n && before.written <= i < before.written + 31
    requires StreamIndex(before.written, before.state, p) == i && IsCopy(stream, i, p)
    requires InStep(stream, after.written, after.state) && forall q | q in after.state.buf :: InPlace(stream, after, q)
    requires Acknowledged(before.written, before.state, p, n, after.state)
    ensures Accounted(stream, before, after, p)
  {
    if !Consumed(after.written, after.state, i) {
      var q :| q in after.state.buf && q.seqnum == p.seqnum;
      SameNumberSamePacket(stream, after, i, p, q);
    }
    assert Has(stream, after, i);
  }

  /** Within the window a sequence number stands for one stream packet only. */
  lemma SameNumberSamePacket(stream: seq<seq<byte>>, at: Progress, i: nat, p: Pkt, q: Pkt)
    requires at.state.pos == at.written % 256 && at.written <= i < at.written + 256
    requires IsCopy(stream, i, p) && InPlace(stream, at, q) && q.seqnum == p.seqnum
    ensures IsCopy(stream, i, q)
  {
    DistanceOfCopy(at.written, at.state, i, p);
  }

  /** Where an accepted copy belongs. */
  lemma AcceptedAt(stream: seq<seq<byte>>, at: Progress, p: Pkt) returns (i: nat)
    requires at.state.pos == at.written % 256 && NearCopy(stream, at, p)
    requires Accepts(at.state, p) && !p.tr
    ensures IsCopy(stream, i, p) && StreamIndex(at.written, at.state, p) == i && at.written <= i < at.written + 31
  {
    i :| at.written - 225 <= i <= at.written + 255 && IsCopy(stream, i, p);
    NearCopiesAreRecognised(stream, at.written, at.state, i, p);
  }

  lemma AckOfIntact(r: State, p: Pkt)
    requires Handle(r, p).Replied? && !p.tr
    ensures Accepts(r, p) && Handle(r, p).reply == Ack(Handle(r, p).state, p)
  {
  }

  /** Packet `p` is answered by an ACK that reports what was written, and is accounted for. */
  ghost predicate AckTells(stream: seq<seq<byte>>, before: Progress, p: Pkt, after: Progress, reply: Pkt) {
    && reply.ptype == PTYPE_ACK && reply.timestamp == p.timestamp && reply.seqnum == after.written % 256
    && reply.window == 31 - |after.state.buf|
    && before.written <= after.written < |stream|
    && after.state.out == Concat(stream[..after.written])
    && Accounted(stream, before, after, p)
  }

  lemma AckAfterStep(stream: seq<seq<byte>>, arrivals: seq<Pkt>, before: Progress, p: Pkt) returns (after: Progress)
    requires IsStream(stream) && OnTrack(stream, arrivals, before)
    requires TimestampsIdentify(arrivals + [p]) && NearCopy(stream, before, p)
    requires Handle(before.state, p).Replied? && !p.tr
    ensures Step(before, p) == Some(after)
    ensures AckTells(stream, before, p, after, Handle(before.state, p).reply)
  {
    var n;
    n, after := StepStaysOnTrack(stream, arrivals, before, p);
    AckOfIntact(before.state, p);
    SpreadIsSmall(after.state, 1);
    var i := AcceptedAt(stream, before, p);
    AcknowledgedIsAccounted(stream, before, p, n, after, i);
  }

  lemma RunOneMore(arrivals: seq<Pkt>, k: nat, next: nat, before: Progress, p: Pkt, after: Progress)
    requires next == k + 1 <= |arrivals| && p == arrivals[k]
    requires Run(arrivals[..k]) == Some(before) && Step(before, p) == Some(after)
    ensures Run(arrivals[..next]) == Some(after)
  {
    assert arrivals[..next] == arrivals[..k] + [p];
    RunAppend(arrivals[..k], p, arrivals[..next]);
  }

  /**
   What an ACK says: everything before its number was written once and in order, the packet whose
   timestamp it echoes is written, buffered or the EOF just consumed, and numbers never go down.
   */
  lemma AckMeaning(stream: seq<seq<byte>>, arrivals: seq<Pkt>, k: nat, next: nat)
    requires IsStream(stream) && TimestampsIdentify(arrivals) && NearCopies(stream, arrivals)
    requires next == k + 1 <= |arrivals| && Run(arrivals[..k]).Some? && !arrivals[k].tr
    requires Handle(Run(arrivals[..k]).value.state, arrivals[k]).Replied?
    ensures Run(arrivals[..next]).Some?
    ensures var before, after := Run(arrivals[..k]).value, Run(arrivals[..next]).value;
            AckTells(stream, before, arrivals[k], after, Handle(before.state, arrivals[k]).reply)
  {
    RunIsOnTrackUpTo(stream, arrivals, k);
    ArrivalIsNear(stream, arrivals, k);
    var front, p := arrivals[..k], arrivals[k];
    var before := Run(front).value;
    var after := AckAfterStep(stream, front, before, p);
    RunOneMore(arrivals, k, next, before, p, after);
  }
}
