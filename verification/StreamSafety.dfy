/** The receiver against the stream that the sender cuts its file into. */
module StreamSafety {
  import opened Types
  import opened Codec
  import opened Lists
  import opened Buffer
  import opened Ring
  import opened ReceiverSpec
  import opened ReceiverRuns

  /** Non-empty payloads, closed by the empty one that stands for EOF. */
  ghost predicate IsStream(stream: seq<seq<byte>>) {
    && stream != [] && stream[|stream| - 1] == []
    && forall i | 0 <= i < |stream| - 1 :: stream[i] != []
  }

  /** `p` is an intact copy of stream packet `i`. */
  ghost predicate IsCopy(stream: seq<seq<byte>>, i: int, p: Pkt) {
    0 <= i < |stream| && p.seqnum == i % 256 && p.payload == stream[i] && !p.tr
  }

  /** The stream packet that the receiver takes `p` for, when `written` packets were written. */
  function StreamIndex(written: nat, r: State, p: Pkt): nat {
    written + Distance(r, p)
  }

  ghost predicate Placed(stream: seq<seq<byte>>, written: nat, r: State, p: Pkt) {
    var i := StreamIndex(written, r, p);
    i < |stream| ==> p.payload == stream[i]
  }

  /** `written` packets were written, in order, and the window starts right after them. */
  ghost predicate InStep(stream: seq<seq<byte>>, written: nat, r: State) {
    && written < |stream|
    && r.pos == written % 256
    && r.out == Concat(stream[..written])
    && (r.eof ==> written == |stream| - 1)
    && Distinct(Timestamps(r.buf))
    && forall p | p in r.buf :: Placed(stream, written, r, p)
  }

  /** Stream packet `i` was written, or is the EOF packet and was consumed. */
  predicate Consumed(written: nat, r: State, i: nat) {
    i < written || (i == written && r.eof)
  }

  lemma {:induction false} ConcatAppend(a: seq<seq<byte>>, b: seq<seq<byte>>)
    ensures Concat(a + b) == Concat(a) + Concat(b)
  {
    if a == [] {
      assert a + b == b;
    } else {
      assert (a + b)[1..] == a[1..] + b;
      ConcatAppend(a[1..], b);
    }
  }

  lemma DistanceOfAt(r: State, k: nat)
    requires k < 256 && At(r, k).Some?
    ensures At(r, k).value in r.buf && Distance(r, At(r, k).value) == k
  {
    ModOnce(r.pos + k, 256);
    ModOnce((r.pos + k) % 256 - r.pos, 256);
  }

  lemma {:induction false} RunStaysInStream(stream: seq<seq<byte>>, written: nat, r: State, n: nat)
    requires IsStream(stream) && InStep(stream, written, r) && n < 256
    requires forall k: nat | k < n :: PayloadAt(r, k) != []
    ensures written + n < |stream|
    ensures RunPayloads(r, n) == stream[written..written + n]
  {
    if n > 0 {
      RunStaysInStream(stream, written, r, n - 1);
      assert PayloadAt(r, n - 1) != [];
      DistanceOfAt(r, n - 1);
      assert PayloadAt(r, n - 1) == stream[written + n - 1];
      assert RunPayloads(r, n) == RunPayloads(r, n - 1) + [PayloadAt(r, n - 1)];
    }
  }

  lemma DistanceAfterRun(r: State, n: nat, p: Pkt)
    requires n < Distance(r, p)
    ensures Distance(AfterRun(r, n), p) == Distance(r, p) - n
  {
    ModOnce(p.seqnum - r.pos, 256);
    ModOnce(r.pos + n, 256);
    ModOnce(p.seqnum - (r.pos + n) % 256, 256);
  }

  /** What stays in the buffer after a run keeps its place in the stream. */
  lemma BeyondKeepsPlaces(r: State, n: nat)
    requires Spread(r, 0)
    ensures Spread(AfterRun(r, n), 1)
    ensures forall p | p in AfterRun(r, n).buf :: p in r.buf && Distance(AfterRun(r, n), p) + n == Distance(r, p)
    ensures forall p | p in r.buf :: p in AfterRun(r, n).buf || Distance(r, p) <= n
  {
    var far := set x | 0 <= x < 256 && Offset(r.pos, x, 256) > n;
    KeepMembers(r.buf, far);
    KeepDistinct(r.buf, far);
    forall p | p in AfterRun(r, n).buf
      ensures p in r.buf && Distance(AfterRun(r, n), p) + n == Distance(r, p)
    {
      assert p in Keep(r.buf, far);
      DistanceAfterRun(r, n, p);
    }
  }

  lemma FoundAtDistance(r: State, p: Pkt)
    requires p in r.buf && Distinct(Seqnums(r.buf))
    ensures At(r, Distance(r, p)) == Some(p)
  {
    ModOnce(p.seqnum - r.pos, 256);
    ModOnce(r.pos + Distance(r, p), 256);
    var i :| 0 <= i < |r.buf| && r.buf[i] == p;
    LookupFinds(r.buf, i);
  }

  /** Every packet that leaves the buffer was consumed, the others keep their place in the stream. */
  ghost predicate Carried(written: nat, r: State, n: nat, after: State) {
    && (forall p | p in after.buf :: p in r.buf && Distance(after, p) + n == Distance(r, p))
    && forall p | p in r.buf :: p in after.buf || Consumed(written + n, after, StreamIndex(written, r, p))
  }

  lemma RunIsCarried(written: nat, r: State, n: nat)
    requires Spread(r, 0)
    ensures Carried(written, r, n, AfterRun(r, n))
  {
    BeyondKeepsPlaces(r, n);
    var after := AfterRun(r, n);
    forall p | p in r.buf
      ensures p in after.buf || Consumed(written + n, after, StreamIndex(written, r, p))
    {
      if p !in after.buf && Distance(r, p) == n {
        FoundAtDistance(r, p);
      }
    }
  }

  lemma OutAfterRun(stream: seq<seq<byte>>, written: nat, r: State, n: nat)
    requires IsStream(stream) && InStep(stream, written, r) && IsMaximalRun(r, n) && n < 256
    ensures written + n < |stream|
    ensures AfterRun(r, n).out == Concat(stream[..written + n])
  {
    RunStaysInStream(stream, written, r, n);
    assert stream[..written + n] == stream[..written] + stream[written..written + n];
    ConcatAppend(stream[..written], stream[written..written + n]);
  }

  lemma PlacedAfterRun(stream: seq<seq<byte>>, written: nat, r: State, n: nat)
    requires InStep(stream, written, r) && Spread(r, 0)
    ensures forall p | p in AfterRun(r, n).buf :: Placed(stream, written + n, AfterRun(r, n), p)
  {
    BeyondKeepsPlaces(r, n);
    forall p | p in AfterRun(r, n).buf
      ensures Placed(stream, written + n, AfterRun(r, n), p)
    {
      assert Placed(stream, written, r, p);
    }
  }

  lemma EofAfterRun(stream: seq<seq<byte>>, written: nat, r: State, n: nat)
    requires IsStream(stream) && InStep(stream, written, r) && IsMaximalRun(r, n)
    requires n < 256 && written + n < |stream|
    ensures AfterRun(r, n).eof ==> written + n == |stream| - 1
  {
    if At(r, n).Some? {
      DistanceOfAt(r, n);
      assert Placed(stream, written, r, At(r, n).value);
    }
  }

  lemma RunStaysInStep(stream: seq<seq<byte>>, written: nat, r: State, n: nat)
    requires IsStream(stream) && InStep(stream, written, r) && Spread(r, 0)
    requires IsMaximalRun(r, n) && n < 256
    ensures InStep(stream, written + n, AfterRun(r, n))
  {
    var after := AfterRun(r, n);
    assert written + n < |stream| && after.out == Concat(stream[..written + n]) by {
      OutAfterRun(stream, written, r, n);
    }
    assert after.eof ==> written + n == |stream| - 1 by { EofAfterRun(stream, written, r, n); }
    assert Distinct(Timestamps(after.buf)) by { TimersAfterRun(r, n); }
    assert forall p | p in after.buf :: Placed(stream, written + n, after, p) by {
      PlacedAfterRun(stream, written, r, n);
    }
    assert after.pos == (written + n) % 256 by { WrappedPlus(written, n); }
  }

  lemma WrappedPlus(written: nat, n: nat)
    ensures (written % 256 + n) % 256 == (written + n) % 256
  {
  }

  lemma TimersAfterRun(r: State, n: nat)
    requires Distinct(Timestamps(r.buf))
    ensures Distinct(Timestamps(AfterRun(r, n).buf))
  {
    KeepDistinct(r.buf, set x | 0 <= x < 256 && Offset(r.pos, x, 256) > n);
  }

  /** Draining keeps the receiver in step, `n` packets further. */
  lemma DrainStaysInStep(stream: seq<seq<byte>>, written: nat, r: State) returns (n: nat)
    requires IsStream(stream) && InStep(stream, written, r) && Spread(r, 0)
    ensures n <= |r.buf| && Drain(r).Some?
    ensures InStep(stream, written + n, Drain(r).value) && Spread(Drain(r).value, 1)
    ensures Carried(written, r, n, Drain(r).value)
    ensures r.eof ==> Drain(r).value.eof
  {
    n := DrainWritesMaximalRun(r);
    SpreadIsSmall(r, 0);
    RunStaysInStep(stream, written, r, n);
    RunIsCarried(written, r, n);
    DrainKeepsSpread(r);
  }

  /* ---------- one packet ---------- */

  /** What the network may hand to the receiver: packets that fit the stream, told apart by time. */
  ghost predicate Fits(stream: seq<seq<byte>>, written: nat, r: State, p: Pkt) {
    Accepts(r, p) && !p.tr ==>
      && Placed(stream, written, r, p)
      && forall q | q in r.buf :: q.seqnum != p.seqnum ==> q.timestamp != p.timestamp
  }

  lemma StoreStaysInStep(stream: seq<seq<byte>>, written: nat, r: State, p: Pkt)
    requires InStep(stream, written, r) && Spread(r, 1)
    requires Accepts(r, p) && !p.tr && Fits(stream, written, r, p)
    ensures InStep(stream, written, Store(r, p)) && Spread(Store(r, p), 0)
  {
    StoreKeepsSpread(r, p);
    var s := Store(r, p);
    if s != r {
      forall i | 0 <= i < |r.buf|
        ensures r.buf[i].timestamp != p.timestamp
      {
        assert r.buf[i] in r.buf && Seqnums(r.buf)[i] == r.buf[i].seqnum;
      }
      assert Timestamps(s.buf) == [p.timestamp] + Timestamps(r.buf);
    }
  }

  /** Every buffered packet of `after` was buffered before or is `p`, and has kept its place. */
  ghost predicate Advanced(written: nat, r: State, p: Pkt, n: nat, after: State) {
    && (forall q | q in after.buf :: (q in r.buf || q == p) && Distance(after, q) + n == Distance(r, q))
    && (forall q | q in r.buf :: q in after.buf || Consumed(written + n, after, StreamIndex(written, r, q)))
    && (r.eof ==> after.eof)
  }

  ghost predicate Acknowledged(written: nat, r: State, p: Pkt, n: nat, after: State) {
    || Consumed(written + n, after, StreamIndex(written, r, p))
    || exists q | q in after.buf :: q.seqnum == p.seqnum
  }

  /** `after` is in step `n` packets further, what was buffered is accounted for, and so is `p`. */
  ghost predicate StaysInStep(stream: seq<seq<byte>>, written: nat, r: State, p: Pkt, n: nat, after: State) {
    && InStep(stream, written + n, after) && Spread(after, 1)
    && Advanced(written, r, p, n, after)
    && (Accepts(r, p) && !p.tr ==> Acknowledged(written, r, p, n, after))
  }

  lemma DeliveryStaysInStep(stream: seq<seq<byte>>, written: nat, r: State, p: Pkt) returns (n: nat, after: State)
    requires IsStream(stream) && InStep(stream, written, r) && Spread(r, 1)
    requires Accepts(r, p) && !p.tr && Fits(stream, written, r, p)
    ensures n <= 31 && Drain(Store(r, p)) == Some(after)
    ensures StaysInStep(stream, written, r, p, n, after)
  {
    var s := Store(r, p);
    StoreStaysInStep(stream, written, r, p);
    StoreKeepsSpread(r, p);
    SpreadIsSmall(s, 0);
    n := DrainStaysInStep(stream, written, s);
    after := Drain(s).value;
    StoredIsCarried(written, r, p, n, after);
  }

  /** What was carried from the buffer with `p` stored in it was carried from before, and so was `p`. */
  lemma StoredIsCarried(written: nat, r: State, p: Pkt, n: nat, after: State)
    requires Carried(written, Store(r, p), n, after) && (r.eof ==> after.eof)
    requires p.seqnum in Seqnums(Store(r, p).buf)
    ensures Advanced(written, r, p, n, after) && Acknowledged(written, r, p, n, after)
  {
    var s := Store(r, p);
    assert s.pos == r.pos && forall q | q in s.buf :: q in r.buf || q == p;
    var q := s.buf[FirstIndex(Seqnums(s.buf), p.seqnum)];
    assert q in s.buf && q.seqnum == p.seqnum;
  }

  /**
   Whatever packet arrives, the receiver does not abort, stays in step, and never goes back. A
   packet it acknowledges is consumed or buffered, under its own sequence number.
   */
  lemma HandleStaysInStep(stream: seq<seq<byte>>, written: nat, r: State, p: Pkt) returns (n: nat)
    requires IsStream(stream) && InStep(stream, written, r) && Spread(r, 1)
    requires Fits(stream, written, r, p)
    ensures n <= 31 && !Handle(r, p).Aborted?
    ensures StaysInStep(stream, written, r, p, n, ReceiverSpec.Next(r, Handle(r, p)))
  {
    if !Accepts(r, p) || p.tr {
      n := 0;
      RefusedStaysInStep(stream, written, r, p);
    } else {
      var after;
      n, after := DeliveryStaysInStep(stream, written, r, p);
      assert ReceiverSpec.Next(r, Handle(r, p)) == after;
    }
  }

  lemma RefusedStaysInStep(stream: seq<seq<byte>>, written: nat, r: State, p: Pkt)
    requires InStep(stream, written, r) && Spread(r, 1)
    requires !Accepts(r, p) || p.tr
    ensures !Handle(r, p).Aborted? && ReceiverSpec.Next(r, Handle(r, p)) == r
    ensures StaysInStep(stream, written, r, p, 0, r)
  {
  }

  /* ---------- copies of stream packets ---------- */

  /** Which copies the window can tell from the packets it waits for: exactly the near ones. */
  lemma NearCopiesAreRecognised(stream: seq<seq<byte>>, written: nat, r: State, i: int, p: Pkt)
    requires IsCopy(stream, i, p) && r.pos == written % 256
    requires -256 < i - written < 256
    ensures (Accepts(r, p) ==> StreamIndex(written, r, p) == i) <==> written - 225 <= i
    ensures written - 225 <= i ==> (Accepts(r, p) <==> written <= i < written + 31)
  {
    AcceptsByDistance(r, p);
    DistanceOfCopy(written, r, i, p);
  }

  lemma DistanceOfCopy(written: nat, r: State, i: nat, p: Pkt)
    requires p.seqnum == i % 256 && r.pos == written % 256 && -256 < i - written < 256
    ensures Distance(r, p) == if i < written then i - written + 256 else i - written
  {
    Apart(i / 256, i % 256, written / 256, written % 256);
    ModOnce(p.seqnum - r.pos, 256);
  }

  /** Numbers less than a round apart are in the same round or in neighbouring ones. */
  lemma Apart(qi: nat, ri: nat, qw: nat, rw: nat)
    requires ri < 256 && rw < 256 && -256 < (256 * qi + ri) - (256 * qw + rw) < 256
    ensures -1 <= qi - qw <= 1
  {
  }

  lemma SlidBy(written: nat, pos: byte, n: nat, pos': byte)
    requires pos == written % 256 && pos' == (written + n) % 256 && n < 256
    ensures Offset(pos, pos', 256) == n
  {
    var q := written / 256;
    assert written == q * 256 + pos;
    assert (written + n) % 256 == (pos + n) % 256;
    ModOnce(pos + n, 256);
    ModOnce(pos' - pos, 256);
  }
}
