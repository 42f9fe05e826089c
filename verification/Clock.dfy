/** What the sender needs of its clock: the values that successive calls return. */
module TimeSource {
  import opened Types

  ghost predicate GrowsAt(t: nat -> nat, k: nat) {
    t(k) < t(k + 1)
  }

  /** Each call returns a later time than the one before. */
  ghost predicate Increasing(t: nat -> nat) {
    forall k: nat :: GrowsAt(t, k)
  }

  /** Microseconds returned by each call of the clock, before they are cut to 32 bits. */
  type Source = t: nat -> nat | Increasing(t) ghost witness Counting()

  ghost function Counting(): (t: nat -> nat)
    ensures Increasing(t)
  {
    k => k
  }

  ghost function Elapsed(source: Source, k: nat): nat {
    source(k)
  }

  ghost function Tick(source: Source, k: nat): uint32 {
    Elapsed(source, k) % WORD32
  }

  lemma {:induction false} ElapsedIncreases(source: Source, i: nat, j: nat)
    requires i <= j
    ensures Elapsed(source, i) + (j - i) <= Elapsed(source, j)
  {
    if i < j {
      ElapsedIncreases(source, i, j - 1);
      assert GrowsAt(source, j - 1);
    }
  }
}

/** The strictly monotonic microsecond clock that timestamps every datagram. */
module MonotonicClock {
  import opened Types
  import opened TimeSource

  const MICROS: int := 1000000

  type nanos = x: int | 0 <= x < 1000000000

  /** A reading of the system clock. */
  datatype Timespec = Timespec(sec: int, nsec: nanos)

  function Nanos(t: Timespec): int {
    t.sec * 1000000000 + t.nsec
  }

  datatype Timeval = Timeval(sec: int, usec: int) {
    predicate Normal() { 0 <= usec < MICROS }

    function Micros(): int { sec * MICROS + usec }
  }

  /** The successive readings of the system clock, whatever they are. */
  type Readings = nat -> Timespec

  function ToTimeval(t: Timespec): (r: Timeval)
    ensures r.Normal()
  {
    Timeval(t.sec, t.nsec / 1000)
  }

  /** The timeval of a reading is less than a microsecond behind it. */
  lemma ToTimevalTruncates(t: Timespec)
    ensures 1000 * ToTimeval(t).Micros() <= Nanos(t) < 1000 * (ToTimeval(t).Micros() + 1)
  {
    assert t.nsec == t.nsec / 1000 * 1000 + t.nsec % 1000;
  }

  function TimerAdd(a: Timeval, b: Timeval): (r: Timeval)
    requires a.Normal() && b.Normal()
    ensures r.Normal() && r.Micros() == a.Micros() + b.Micros()
  {
    if a.usec + b.usec >= MICROS then Timeval(a.sec + b.sec + 1, a.usec + b.usec - MICROS)
    else Timeval(a.sec + b.sec, a.usec + b.usec)
  }

  function TimerSub(a: Timeval, b: Timeval): (r: Timeval)
    requires a.Normal() && b.Normal()
    ensures r.Normal() && r.Micros() == a.Micros() - b.Micros()
  {
    if a.usec - b.usec < 0 then Timeval(a.sec - b.sec - 1, a.usec - b.usec + MICROS)
    else Timeval(a.sec - b.sec, a.usec - b.usec)
  }

  /** timercmp with `<`: agrees with the order on microseconds. */
  predicate TimerLess(a: Timeval, b: Timeval)
    requires a.Normal() && b.Normal()
    ensures TimerLess(a, b) <==> a.Micros() < b.Micros()
  {
    if a.sec == b.sec then a.usec < b.usec else a.sec < b.sec
  }

  function MicroToTimeval(us: uint32): (r: Timeval)
    ensures r.Normal() && r.Micros() == us
  {
    Timeval(us / MICROS, us % MICROS)
  }

  /** Microseconds shown by the k-th reading. */
  function Reading(readings: Readings, k: nat): int {
    ToTimeval(readings(k)).Micros()
  }

  /** Microseconds since the first call that the k-th call goes by. */
  function SinceFirst(readings: Readings, k: nat): nat {
    if k == 0 then 0
    else
      var fromFirst := Reading(readings, k) - Reading(readings, 0);
      var bumped := SinceFirst(readings, k - 1) + 1;
      if fromFirst > bumped then fromFirst else bumped
  }

  /** The clock is a time source for the sender. */
  ghost function TimesOf(readings: Readings): (t: Source)
    ensures forall k: nat :: Elapsed(t, k) == SinceFirst(readings, k)
  {
    var t := (k: nat) => SinceFirst(readings, k);
    assert forall k: nat :: GrowsAt(t, k);
    t
  }

  /** As long as 32 bits hold the elapsed time, later calls return larger values. */
  lemma TicksAreStrictlyMonotonic(readings: Readings, i: nat, j: nat)
    requires i < j
    requires SinceFirst(readings, j) < WORD32
    ensures Tick(TimesOf(readings), 0) == 0
    ensures Tick(TimesOf(readings), i) < Tick(TimesOf(readings), j)
  {
    ElapsedIncreases(TimesOf(readings), i, j);
  }

  /**
   What the k-th call returns in terms of the nanoseconds shown by the readings, to less than a microsecond:
   it is not behind any reading so far plus one microsecond for every call since, and is one of these.
   */
  lemma CallsInNanos(readings: Readings, k: nat)
    ensures forall j: nat | j <= k ::
              Nanos(readings(j)) - Nanos(readings(0)) < 1000 * (SinceFirst(readings, k) - (k - j) + 1)
    ensures exists j: nat | j <= k ::
              Nanos(readings(j)) - Nanos(readings(0)) > 1000 * (SinceFirst(readings, k) - (k - j) - 1)
  {
    ElapsedIsLatest(readings, k);
    ToTimevalTruncates(readings(0));
    var j: nat :| j <= k && SinceFirst(readings, k) == Reading(readings, j) - Reading(readings, 0) + (k - j);
    ToTimevalTruncates(readings(j));
    assert Nanos(readings(j)) - Nanos(readings(0)) > 1000 * (SinceFirst(readings, k) - (k - j) - 1);
    forall j: nat | j <= k
      ensures Nanos(readings(j)) - Nanos(readings(0)) < 1000 * (SinceFirst(readings, k) - (k - j) + 1)
    {
      ToTimevalTruncates(readings(j));
      assert Reading(readings, j) - Reading(readings, 0) + (k - j) <= SinceFirst(readings, k);
    }
  }

  /** Every reading that is ahead counts, every later call adds at least one microsecond. */
  ghost predicate IsLatestDeadline(readings: Readings, k: nat, r: int) {
    && (forall j: nat | j <= k :: Reading(readings, j) - Reading(readings, 0) + (k - j) <= r)
    && exists j: nat | j <= k :: r == Reading(readings, j) - Reading(readings, 0) + (k - j)
  }

  lemma {:induction false} ElapsedIsLatest(readings: Readings, k: nat)
    ensures IsLatestDeadline(readings, k, SinceFirst(readings, k))
  {
    if k == 0 {
      assert Reading(readings, 0) - Reading(readings, 0) + (k - 0) == 0;
    } else {
      ElapsedIsLatest(readings, k - 1);
      var before := SinceFirst(readings, k - 1);
      var j: nat :| j <= k - 1 && before == Reading(readings, j) - Reading(readings, 0) + (k - 1 - j);
      if SinceFirst(readings, k) == before + 1 {
        assert SinceFirst(readings, k) == Reading(readings, j) - Reading(readings, 0) + (k - j);
      } else {
        assert SinceFirst(readings, k) == Reading(readings, k) - Reading(readings, 0) + (k - k);
      }
    }
  }

  /** Counting on from the last time returned when the clock does not show a later one. */
  lemma NextTime(readings: Readings, before: nat, k: nat, first: Timeval, last: Timeval, now: Timeval)
    requires k == before + 1 && now == ToTimeval(readings(k)) && first == ToTimeval(readings(0))
    requires last.Normal() && last.Micros() - first.Micros() == SinceFirst(readings, before)
    ensures var next := if TimerLess(now, last) || now == last then TimerAdd(last, Timeval(0, 1)) else now;
            next.Normal() && next.Micros() - first.Micros() == SinceFirst(readings, k)
  {
  }

  class Clock {
    const readings: Readings
    ghost const times: Source  // what the calls return, before the cut to 32 bits
    var calls: nat  // readings taken so far
    var firstCall: bool
    var first: Timeval
    var last: Timeval

    ghost predicate TimeIs(k: nat) {
      times(k) == SinceFirst(readings, k)
    }

    ghost predicate Valid()
      reads this
    {
      && (forall k: nat :: TimeIs(k))
      && (firstCall <==> calls == 0)
      && (calls > 0 ==>
            && first == ToTimeval(readings(0))
            && last.Normal()
            && last.Micros() - first.Micros() == SinceFirst(readings, calls - 1))
    }

    constructor (readings: Readings)
      ensures Valid() && this.readings == readings && calls == 0
      ensures times == TimesOf(readings)
    {
      this.readings := readings;
      times := TimesOf(readings);
      calls := 0;
      firstCall := true;
      first := Timeval(0, 0);
      last := Timeval(0, 0);
      new;
      forall k: nat
        ensures TimeIs(k)
      {
        assert Elapsed(times, k) == SinceFirst(readings, k);
      }
    }

    method GetMonotime() returns (r: uint32)
      requires Valid()
      modifies this
      ensures Valid()
      ensures calls == old(calls) + 1
      ensures r == SinceFirst(readings, old(calls)) % WORD32 == Tick(times, old(calls))
    {
      ghost var k := calls;
      assert TimeIs(k);
      var now := ToTimeval(readings(calls));
      calls := calls + 1;
      if !firstCall {
        NextTime(readings, k - 1, k, first, last, now);
      }
      if firstCall {
        first := now;
        firstCall := false;
      } else if TimerLess(now, last) || now == last {
        now := TimerAdd(last, Timeval(0, 1));
      }
      last := now;
      var res := TimerSub(now, first);
      assert calls - 1 == k && res.Micros() == SinceFirst(readings, k);
      r := res.Micros() % WORD32;
    }
  }
}
