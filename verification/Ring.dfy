/** Sequence numbers wrap: which of them a window that starts at `pos` contains. */
module Ring {
  import opened Types

  /** Last sequence number of the window, in 64-bit unsigned arithmetic. */
  function WindowEnd(pos: nat, size: nat, maxSeqnum: nat): nat {
    (pos + (size - 1) % WORD64) % WORD64 % (maxSeqnum + 1)
  }

  predicate InWindow(pos: nat, size: nat, maxSeqnum: nat, seqnum: nat) {
    if size == 0 then false
    else if pos > WindowEnd(pos, size, maxSeqnum) then
      pos <= seqnum || seqnum <= WindowEnd(pos, size, maxSeqnum)
    else pos <= seqnum <= WindowEnd(pos, size, maxSeqnum)
  }

  function Successor(seqnum: nat, maxSeqnum: nat): nat {
    (seqnum + 1) % (maxSeqnum + 1)
  }

  /** How far `seqnum` lies after `pos`, going round. */
  function Offset(pos: int, seqnum: int, modulus: nat): (r: nat)
    requires modulus > 0
    ensures r < modulus
  {
    (seqnum - pos) % modulus
  }

  lemma ModOnce(x: int, m: int)
    requires 0 < m && -m <= x < 2 * m
    ensures x % m == if x < 0 then x + m else if x < m then x else x - m
  {
    if x >= m {
      assert x == 1 * m + (x - m);
    } else if x < 0 {
      assert x == -1 * m + (x + m);
    }
  }

  /** Membership is the wrapped distance from the start, with no case distinction. */
  lemma InWindowIffOffset(pos: nat, size: nat, maxSeqnum: nat, seqnum: nat)
    requires pos <= maxSeqnum && seqnum <= maxSeqnum && size <= maxSeqnum + 1
    requires 2 * maxSeqnum < WORD64
    ensures InWindow(pos, size, maxSeqnum, seqnum) <==> Offset(pos, seqnum, maxSeqnum + 1) < size
  {
    var m := maxSeqnum + 1;
    ModOnce(seqnum - pos, m);
    if size > 0 {
      assert (pos + (size - 1) % WORD64) % WORD64 == pos + size - 1;
      ModOnce(pos + size - 1, m);
    }
  }

  /** Moving the start forward by one brings every other number one closer. */
  lemma OffsetAfterSlide(pos: nat, maxSeqnum: nat, seqnum: nat)
    requires pos <= maxSeqnum && seqnum <= maxSeqnum
    ensures Successor(pos, maxSeqnum) <= maxSeqnum
    ensures Offset(Successor(pos, maxSeqnum), seqnum, maxSeqnum + 1)
         == if seqnum == pos then maxSeqnum else Offset(pos, seqnum, maxSeqnum + 1) - 1
  {
    var m := maxSeqnum + 1;
    ModOnce(pos + 1, m);
    ModOnce(seqnum - pos, m);
    ModOnce(seqnum - Successor(pos, maxSeqnum), m);
  }

  /** The number after the end of a window is the one at distance `size`. */
  lemma OffsetOfEnd(pos: nat, size: nat, maxSeqnum: nat, seqnum: nat)
    requires pos <= maxSeqnum && seqnum <= maxSeqnum && 1 <= size <= maxSeqnum
    requires 2 * maxSeqnum < WORD64
    ensures Successor(WindowEnd(pos, size, maxSeqnum), maxSeqnum) <= maxSeqnum
    ensures seqnum == Successor(WindowEnd(pos, size, maxSeqnum), maxSeqnum)
       <==> Offset(pos, seqnum, maxSeqnum + 1) == size
  {
    var m := maxSeqnum + 1;
    assert (pos + (size - 1) % WORD64) % WORD64 == pos + size - 1;
    ModOnce(pos + size - 1, m);
    ModOnce(WindowEnd(pos, size, maxSeqnum) + 1, m);
    ModOnce(seqnum - pos, m);
  }

  /** Sliding by one drops the old start and takes in the successor of the old end, nothing else. */
  lemma SlideShiftsWindow(pos: nat, size: nat, maxSeqnum: nat, seqnum: nat)
    requires pos <= maxSeqnum && seqnum <= maxSeqnum && 1 <= size <= maxSeqnum
    requires 2 * maxSeqnum < WORD64
    ensures InWindow(Successor(pos, maxSeqnum), size, maxSeqnum, seqnum)
       <==> seqnum != pos && (InWindow(pos, size, maxSeqnum, seqnum)
                              || seqnum == Successor(WindowEnd(pos, size, maxSeqnum), maxSeqnum))
  {
    OffsetAfterSlide(pos, maxSeqnum, seqnum);
    OffsetOfEnd(pos, size, maxSeqnum, seqnum);
    InWindowIffOffset(pos, size, maxSeqnum, seqnum);
    InWindowIffOffset(Successor(pos, maxSeqnum), size, maxSeqnum, seqnum);
  }

  /** The two numbers that a slide exchanges: the start was in, the successor of the end was out. */
  lemma SlideEndpoints(pos: nat, size: nat, maxSeqnum: nat)
    requires pos <= maxSeqnum && 1 <= size <= maxSeqnum
    requires 2 * maxSeqnum < WORD64
    ensures InWindow(pos, size, maxSeqnum, pos)
    ensures !InWindow(pos, size, maxSeqnum, Successor(WindowEnd(pos, size, maxSeqnum), maxSeqnum))
  {
    var next := Successor(WindowEnd(pos, size, maxSeqnum), maxSeqnum);
    OffsetOfEnd(pos, size, maxSeqnum, pos);
    OffsetOfEnd(pos, size, maxSeqnum, next);
    InWindowIffOffset(pos, size, maxSeqnum, pos);
    InWindowIffOffset(pos, size, maxSeqnum, next);
    ModOnce(pos - pos, maxSeqnum + 1);
  }

  /**
   Comparing wrapped numbers with plain `<` gives the order of two packets that are less than a whole
   round apart exactly when no wrap-around lies between them.
   */
  lemma PlainOrderIffSameRound(i: nat, j: nat, m: nat)
    requires 0 < m && i < j + m && j < i + m && i != j
    ensures (i % m < j % m <==> i < j) <==> i / m == j / m
  {
    var qi, qj, ri, rj := i / m, j / m, i % m, j % m;
    assert i == qi * m + ri && j == qj * m + rj;
    if qi < qj {
      RoundsApart(qi, qj, m);
      assert rj < ri;
    } else if qj < qi {
      RoundsApart(qj, qi, m);
      assert ri < rj;
    }
  }

  lemma RoundsApart(a: nat, b: nat, m: nat)
    requires a < b
    ensures b * m >= a * m + m
  {
    assert b * m == (a + 1) * m + (b - a - 1) * m;
  }
}
