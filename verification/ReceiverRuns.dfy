/** What the drain loop writes, and why the output is always a prefix of the stream. */
module ReceiverRuns {
  import opened Types
  import opened Codec
  import opened Lists
  import opened Buffer
  import opened Ring
  import opened ReceiverSpec

  function Concat(parts: seq<seq<byte>>): seq<byte> {
    if parts == [] then [] else parts[0] + Concat(parts[1..])
  }

  /* ---------- the drain loop writes the maximal contiguous run ---------- */

  /** The buffered packet whose number is `k` after the window start. */
  ghost function At(r: State, k: nat): Option<Pkt> {
    Lookup(r.buf, (r.pos + k) % 256)
  }

  ghost function PayloadAt(r: State, k: nat): seq<byte> {
    if At(r, k).Some? then At(r, k).value.payload else []
  }

  /** `n` data packets follow each other from the window start, and after them none does. */
  ghost predicate IsMaximalRun(r: State, n: nat) {
    && (forall k: nat | k < n :: PayloadAt(r, k) != [])
    && PayloadAt(r, n) == []
  }

  /** The payloads of the first `n` packets from the window start on. */
  ghost function RunPayloads(r: State, n: nat): (ps: seq<seq<byte>>)
    ensures |ps| == n
    ensures forall k | 0 <= k < n :: ps[k] == PayloadAt(r, k)
  {
    seq(n, k requires 0 <= k < n => PayloadAt(r, k))
  }

  /** The buffered packets further than `n` from the window start. */
  ghost function Beyond(r: State, n: nat): seq<Pkt> {
    Keep(r.buf, set x | 0 <= x < 256 && Offset(r.pos, x, 256) > n)
  }

  ghost function AfterRun(r: State, n: nat): State {
    State((r.pos + n) % 256, Beyond(r, n), r.out + Concat(RunPayloads(r, n)), r.eof || At(r, n).Some?)
  }

  /** Packet `i` holds data and its sequence number is the window start. */
  ghost predicate DataAtStart(r: State, i: nat) {
    Spread(r, 0) && i < |r.buf| && r.buf[i].seqnum == r.pos && r.buf[i].payload != []
  }

  lemma WrappedSum(pos: byte, k: nat)
    ensures (Successor(pos, MAX_SEQNUM) + k) % 256 == (pos + k + 1) % 256
    ensures k < 255 ==> (pos + k + 1) % 256 != pos
  {
    ModOnce(pos + 1, 256);
    if k < 255 {
      ModOnce(pos + k + 1, 256);
    }
  }

  lemma AtAfterWriting(r: State, i: nat, k: nat)
    requires DataAtStart(r, i) && k < 255
    ensures At(Written(r, i), k) == At(r, k + 1)
    ensures PayloadAt(Written(r, i), k) == PayloadAt(r, k + 1)
  {
    WrappedSum(r.pos, k);
    LookupAfterRemoval(r.buf, i, (r.pos + k + 1) % 256);
  }

  lemma AtStart(r: State, i: nat)
    requires DataAtStart(r, i)
    ensures PayloadAt(r, 0) == r.buf[i].payload
  {
    LookupFinds(r.buf, i);
  }

  lemma RunPayloadsFromNext(r: State, i: nat, n: nat)
    requires DataAtStart(r, i) && n < 255
    ensures RunPayloads(r, n + 1) == [r.buf[i].payload] + RunPayloads(Written(r, i), n)
  {
    AtStart(r, i);
    forall k | 0 <= k < n
      ensures RunPayloads(r, n + 1)[k + 1] == RunPayloads(Written(r, i), n)[k]
    {
      AtAfterWriting(r, i, k);
    }
  }

  lemma BeyondAfterWriting(r: State, i: nat, n: nat)
    requires DataAtStart(r, i)
    ensures Beyond(Written(r, i), n) == Beyond(r, n + 1)
  {
    var w := Written(r, i);
    var far := set x | 0 <= x < 256 && Offset(r.pos, x, 256) > n + 1;
    var farW := set x | 0 <= x < 256 && Offset(w.pos, x, 256) > n;
    DistanceZero(r, r.buf[i]);
    KeepAfterRemoval(r.buf, i, far);
    SeqnumsOfRemoveAt(r.buf, i);
    RemoveAtDistinct(Seqnums(r.buf), i);
    forall p | p in w.buf
      ensures p.seqnum in far <==> p.seqnum in farW
    {
      var j :| 0 <= j < |w.buf| && w.buf[j] == p;
      assert Seqnums(w.buf)[j] == p.seqnum;
      OffsetAfterSlide(r.pos, MAX_SEQNUM, p.seqnum);
    }
    KeepSame(w.buf, far, farW);
  }

  lemma BeyondEverything(r: State)
    requires Spread(r, 1)
    ensures Beyond(r, 0) == r.buf
  {
    KeepAll(r.buf, set x | 0 <= x < 256 && Offset(r.pos, x, 256) > 0);
  }

  lemma WrittenKeepsTimestamps(r: State, i: nat)
    requires Distinct(Timestamps(r.buf)) && i < |r.buf|
    ensures Distinct(Timestamps(Written(r, i).buf))
    ensures TimestampVictim(r.buf, r.buf[i].timestamp) == i
  {
    SeqnumsOfRemoveAt(r.buf, i);
    RemoveAtDistinct(Timestamps(r.buf), i);
    assert Timestamps(r.buf)[i] == r.buf[i].timestamp;
  }

  /** EOF at the window start is consumed without sliding, and nothing else is at the start. */
  lemma DrainOfEof(r: State, i: nat)
    requires Spread(r, 0) && Distinct(Timestamps(r.buf))
    requires i == FirstIndex(Seqnums(r.buf), r.pos) < |r.buf| && r.buf[i].payload == []
    ensures IsMaximalRun(r, 0) && Drain(r) == Some(AfterRun(r, 0))
  {
    WrittenKeepsTimestamps(r, i);
    StartIsEmptyAfterRemoval(r, i);
    DrainStops(r, i, Written(r, i));
    EofRun(r, i);
  }

  lemma DrainStops(r: State, i: nat, w: State)
    requires i == FirstIndex(Seqnums(r.buf), r.pos) < |r.buf| && w == Written(r, i)
    requires TimestampVictim(r.buf, r.buf[i].timestamp) == i && w.pos !in Seqnums(w.buf)
    ensures Drain(r) == Some(w)
  {
    assert Drain(w) == Some(w);
  }

  lemma EofRun(r: State, i: nat)
    requires Spread(r, 0) && i < |r.buf| && r.buf[i].seqnum == r.pos && r.buf[i].payload == []
    requires i == FirstIndex(Seqnums(r.buf), r.pos)
    ensures IsMaximalRun(r, 0) && AfterRun(r, 0) == Written(r, i)
  {
    LookupFinds(r.buf, i);
    BeyondEof(r, i);
    assert Concat(RunPayloads(r, 0)) == [];
  }

  lemma BeyondEof(r: State, i: nat)
    requires Spread(r, 0) && i < |r.buf| && r.buf[i].seqnum == r.pos && r.buf[i].payload == []
    ensures Beyond(r, 0) == RemoveAt(r.buf, i)
  {
    var w := Written(r, i);
    WrittenKeepsSpread(r, i);
    BeyondEverything(w);
    DistanceZero(r, r.buf[i]);
    KeepAfterRemoval(r.buf, i, set x | 0 <= x < 256 && Offset(r.pos, x, 256) > 0);
    assert Beyond(w, 0) == Beyond(r, 0);
  }

  lemma StartIsEmptyAfterRemoval(r: State, i: nat)
    requires Spread(r, 0) && i < |r.buf| && r.buf[i].seqnum == r.pos
    ensures r.pos !in Seqnums(RemoveAt(r.buf, i))
  {
    SeqnumsOfRemoveAt(r.buf, i);
    RemoveAtDistinct(Seqnums(r.buf), i);
  }

  /**
   With distinct timestamps and sequence numbers the pop assertion always holds, and draining writes
   exactly the maximal run of packets that starts at the window start.
   */
  lemma {:induction false} DrainWritesMaximalRun(r: State) returns (n: nat)
    requires Spread(r, 0) && Distinct(Timestamps(r.buf))
    ensures n <= |r.buf| && IsMaximalRun(r, n)
    ensures Drain(r) == Some(AfterRun(r, n))
    decreases |r.buf|
  {
    var i := FirstIndex(Seqnums(r.buf), r.pos);
    if i == |r.buf| {
      NothingAtStart(r);
      BeyondEverything(r);
      n := 0;
      assert AfterRun(r, 0) == r;
    } else if r.buf[i].payload == [] {
      DrainOfEof(r, i);
      n := 0;
    } else {
      var w := Written(r, i);
      WrittenKeepsSpread(r, i);
      WrittenKeepsTimestamps(r, i);
      SpreadIsSmall(w, 0);
      var m := DrainWritesMaximalRun(w);
      n := m + 1;
      RunFromNext(r, i, m);
    }
  }

  lemma RunFromNext(r: State, i: nat, m: nat)
    requires DataAtStart(r, i) && m < 255 && IsMaximalRun(Written(r, i), m)
    ensures IsMaximalRun(r, m + 1) && AfterRun(Written(r, i), m) == AfterRun(r, m + 1)
  {
    var a, b := AfterRun(Written(r, i), m), AfterRun(r, m + 1);
    assert a.pos == b.pos by { WrappedSum(r.pos, m); }
    assert a.buf == b.buf by { BeyondAfterWriting(r, i, m); }
    assert a.out == b.out by { OutFromNext(r, i, m); }
    assert a.eof == b.eof by { AtAfterWriting(r, i, m); }
    MaximalFromNext(r, i, m);
  }

  lemma OutFromNext(r: State, i: nat, m: nat)
    requires DataAtStart(r, i) && m < 255
    ensures Written(r, i).out + Concat(RunPayloads(Written(r, i), m)) == r.out + Concat(RunPayloads(r, m + 1))
  {
    RunPayloadsFromNext(r, i, m);
    ConcatCons(r.out, r.buf[i].payload, RunPayloads(Written(r, i), m));
  }

  lemma ConcatCons(out: seq<byte>, first: seq<byte>, rest: seq<seq<byte>>)
    ensures out + Concat([first] + rest) == (out + first) + Concat(rest)
  {
    assert ([first] + rest)[1..] == rest;
    assert (out + first) + Concat(rest) == out + (first + Concat(rest));
  }

  lemma MaximalFromNext(r: State, i: nat, m: nat)
    requires DataAtStart(r, i) && m < 255 && IsMaximalRun(Written(r, i), m)
    ensures IsMaximalRun(r, m + 1)
  {
    AtStart(r, i);
    forall k: nat | 0 < k < m + 1
      ensures PayloadAt(r, k) != []
    {
      AtAfterWriting(r, i, k - 1);
      assert PayloadAt(Written(r, i), k - 1) != [];
    }
    AtAfterWriting(r, i, m);
  }
}
