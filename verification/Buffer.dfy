/** What the operations of the packet buffer do to the list of packets it holds. */
module Buffer {
  import opened Types
  import opened Codec
  import opened Lists

  function Seqnums(buf: seq<Pkt>): (r: seq<int>)
    ensures |r| == |buf|
    ensures forall i | 0 <= i < |buf| :: r[i] == buf[i].seqnum
  {
    seq(|buf|, i requires 0 <= i < |buf| => buf[i].seqnum)
  }

  function Timestamps(buf: seq<Pkt>): (r: seq<int>)
    ensures |r| == |buf|
    ensures forall i | 0 <= i < |buf| :: r[i] == buf[i].timestamp
  {
    seq(|buf|, i requires 0 <= i < |buf| => buf[i].timestamp)
  }

  /** Which packet a pop by timestamp takes: the first match, but the front one when none matches. */
  ghost function TimestampVictim(buf: seq<Pkt>, t: uint32): (r: nat)
    requires buf != []
    ensures r < |buf|
  {
    var i := FirstIndex(Timestamps(buf), t);
    if i < |buf| then i else 0
  }

  predicate Full(buf: nat, size: nat, capacity: nat) {
    buf == capacity || buf >= size
  }

  function Available(buf: nat, size: nat): nat {
    if size < buf then 0 else size - buf
  }

  /* ---------- filtering by sequence number ---------- */

  /** The packets whose sequence number is in `keep`, in their order. */
  ghost function Keep(buf: seq<Pkt>, keep: set<int>): seq<Pkt> {
    if buf == [] then []
    else (if buf[0].seqnum in keep then [buf[0]] else []) + Keep(buf[1..], keep)
  }

  lemma {:induction false} KeepMembers(buf: seq<Pkt>, keep: set<int>)
    ensures forall p :: p in Keep(buf, keep) <==> p in buf && p.seqnum in keep
    ensures |Keep(buf, keep)| <= |buf|
  {
    if buf != [] {
      KeepMembers(buf[1..], keep);
      assert buf == [buf[0]] + buf[1..];
    }
  }

  lemma {:induction false} KeepAll(buf: seq<Pkt>, keep: set<int>)
    requires forall p | p in buf :: p.seqnum in keep
    ensures Keep(buf, keep) == buf
  {
    if buf != [] {
      assert buf[0] in buf;
      KeepAll(buf[1..], keep);
    }
  }

  /** Removing a packet that is filtered out anyway changes nothing. */
  lemma {:induction false} KeepAfterRemoval(buf: seq<Pkt>, i: nat, keep: set<int>)
    requires i < |buf| && buf[i].seqnum !in keep
    ensures Keep(RemoveAt(buf, i), keep) == Keep(buf, keep)
  {
    if i == 0 {
      assert RemoveAt(buf, i) == buf[1..];
    } else {
      assert RemoveAt(buf, i)[1..] == RemoveAt(buf[1..], i - 1);
      KeepAfterRemoval(buf[1..], i - 1, keep);
    }
  }

  lemma {:induction false} KeepSame(buf: seq<Pkt>, keep: set<int>, keep': set<int>)
    requires forall p | p in buf :: p.seqnum in keep <==> p.seqnum in keep'
    ensures Keep(buf, keep) == Keep(buf, keep')
  {
    if buf != [] {
      assert buf[0] in buf;
      KeepSame(buf[1..], keep, keep');
    }
  }

  /** `idx` tells where the packets of `part` come from: it is a subsequence of `buf`. */
  ghost predicate Embeds(part: seq<Pkt>, buf: seq<Pkt>, idx: seq<nat>) {
    && |idx| == |part|
    && (forall j | 0 <= j < |idx| :: idx[j] < |buf| && part[j] == buf[idx[j]])
    && forall j, k | 0 <= j < k < |idx| :: idx[j] < idx[k]
  }

  function ShiftedByOne(idx: seq<nat>): (r: seq<nat>)
    ensures |r| == |idx|
    ensures forall j | 0 <= j < |idx| :: r[j] == idx[j] + 1
  {
    seq(|idx|, j requires 0 <= j < |idx| => idx[j] + 1)
  }

  lemma EmbedsInLonger(part: seq<Pkt>, buf: seq<Pkt>, idx: seq<nat>)
    requires buf != [] && Embeds(part, buf[1..], idx)
    ensures Embeds(part, buf, ShiftedByOne(idx))
    ensures Embeds([buf[0]] + part, buf, [0] + ShiftedByOne(idx))
  {
    var moved := ShiftedByOne(idx);
    assert forall j | 0 <= j < |part| :: buf[1..][idx[j]] == buf[moved[j]];
    assert Embeds(part, buf, moved);
    var longer, all := [buf[0]] + part, [0] + moved;
    assert forall j | 0 < j < |longer| :: longer[j] == part[j - 1] && all[j] == moved[j - 1];
  }

  lemma {:induction false} KeepOrder(buf: seq<Pkt>, keep: set<int>) returns (idx: seq<nat>)
    ensures Embeds(Keep(buf, keep), buf, idx)
    ensures forall i: nat | i < |buf| :: i in idx <==> buf[i].seqnum in keep
  {
    if buf == [] {
      idx := [];
    } else {
      var rest := KeepOrder(buf[1..], keep);
      var part := Keep(buf[1..], keep);
      EmbedsInLonger(part, buf, rest);
      if buf[0].seqnum in keep {
        assert Keep(buf, keep) == [buf[0]] + part;
        idx := [0] + ShiftedByOne(rest);
      } else {
        assert Keep(buf, keep) == part;
        idx := ShiftedByOne(rest);
      }
      forall i: nat | 0 < i < |buf|
        ensures i in idx <==> buf[i].seqnum in keep
      {
        InShifted(rest, i - 1);
        assert buf[i] == buf[1..][i - 1];
      }
    }
  }

  lemma InShifted(idx: seq<nat>, i: nat)
    ensures i + 1 in ShiftedByOne(idx) <==> i in idx
    ensures 0 !in ShiftedByOne(idx)
  {
    if i in idx {
      var j :| 0 <= j < |idx| && idx[j] == i;
      assert ShiftedByOne(idx)[j] == i + 1;
    }
  }

  lemma EmbedsAfterRemoval(part: seq<Pkt>, buf: seq<Pkt>, idx: seq<nat>, j: nat)
    requires Embeds(part, buf, idx) && j < |part|
    ensures Embeds(RemoveAt(part, j), buf, RemoveAt(idx, j))
    ensures forall i :: i in RemoveAt(idx, j) <==> i in idx && i != idx[j]
  {
    RemoveAtMembers(idx, j);
  }

  lemma KeepDistinct(buf: seq<Pkt>, keep: set<int>)
    ensures Distinct(Seqnums(buf)) ==> Distinct(Seqnums(Keep(buf, keep)))
    ensures Distinct(Timestamps(buf)) ==> Distinct(Timestamps(Keep(buf, keep)))
  {
    var idx := KeepOrder(buf, keep);
    EmbeddedDistinct(Keep(buf, keep), buf, idx);
  }

  lemma EmbeddedDistinct(part: seq<Pkt>, buf: seq<Pkt>, idx: seq<nat>)
    requires Embeds(part, buf, idx)
    ensures Distinct(Seqnums(buf)) ==> Distinct(Seqnums(part))
    ensures Distinct(Timestamps(buf)) ==> Distinct(Timestamps(part))
  {
    forall j, k | 0 <= j < k < |part|
      ensures Distinct(Seqnums(buf)) ==> Seqnums(part)[j] != Seqnums(part)[k]
      ensures Distinct(Timestamps(buf)) ==> Timestamps(part)[j] != Timestamps(part)[k]
    {
      assert Seqnums(buf)[idx[j]] == Seqnums(part)[j] && Seqnums(buf)[idx[k]] == Seqnums(part)[k];
      assert Timestamps(buf)[idx[j]] == Timestamps(part)[j] && Timestamps(buf)[idx[k]] == Timestamps(part)[k];
    }
  }

  /* ---------- looking up a sequence number ---------- */

  ghost function Lookup(buf: seq<Pkt>, seqnum: int): Option<Pkt> {
    var i := FirstIndex(Seqnums(buf), seqnum);
    if i < |buf| then Some(buf[i]) else None
  }

  lemma LookupFinds(buf: seq<Pkt>, i: nat)
    requires Distinct(Seqnums(buf)) && i < |buf|
    ensures Lookup(buf, buf[i].seqnum) == Some(buf[i])
  {
    assert Seqnums(buf)[i] == buf[i].seqnum;
  }

  lemma LookupAfterRemoval(buf: seq<Pkt>, i: nat, seqnum: int)
    requires Distinct(Seqnums(buf)) && i < |buf| && seqnum != buf[i].seqnum
    ensures Lookup(RemoveAt(buf, i), seqnum) == Lookup(buf, seqnum)
  {
    var rest := RemoveAt(buf, i);
    SeqnumsOfRemoveAt(buf, i);
    RemoveAtMembers(Seqnums(buf), i);
    var k := FirstIndex(Seqnums(rest), seqnum);
    if k < |rest| {
      var j := if k < i then k else k + 1;
      assert rest[k] == buf[j] && Seqnums(rest)[k] == seqnum;
      LookupFinds(buf, j);
    }
  }

  lemma SeqnumsOfRemoveAt(buf: seq<Pkt>, i: nat)
    requires i < |buf|
    ensures Seqnums(RemoveAt(buf, i)) == RemoveAt(Seqnums(buf), i)
    ensures Timestamps(RemoveAt(buf, i)) == RemoveAt(Timestamps(buf), i)
  {
  }
}
