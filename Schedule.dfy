/** The decision at the end of a server run: when the next period starts,
    and whether the next regular run comes too late after that boundary, in
    which case one extra run is scheduled a minute after it. Times are whole
    seconds since the epoch. */
module Schedule {
  import Client
  import opened Arithmetic

  /** How late after a period boundary the sequence may still be updated. */
  const BufferTime: int := 300

  /** How long after the boundary the extra run is scheduled. */
  const StartDelay: int := 60

  /** The start of the period after the one holding `now`. */
  function NextPeriodStart(now: int, period: int): (next: int)
    requires period > 0
    ensures next % period == 0
    ensures now < next <= now + period
    ensures next == Client.PeriodStart(now, period, 1)
  {
    Client.PeriodStartShift(now, period, 0);
    Client.PeriodStart(now, period, 0) + period
  }

  /** No boundary lies strictly between `now` and the next period start. */
  lemma NextIsFirstBoundary(now: int, period: int, boundary: int)
    requires period > 0
    requires boundary % period == 0 && now < boundary
    ensures NextPeriodStart(now, period) <= boundary
  {
    var q := boundary / period;
    assert boundary == q * period;
    assert now / period < q;
    assert (now / period + 1) * period <= q * period;
  }

  /** What schedule_next_run_if_needed works out. */
  datatype Decision = Decision(nextPeriodStart: int, sleepDuration: int, supplementary: bool)

  /** schedule_next_run_if_needed's arithmetic: the next boundary, the wait
      until one minute after it, and whether the run expected `interval`
      seconds from now would come more than five minutes after the boundary. */
  function Decide(now: int, interval: int, period: int): (d: Decision)
    requires period > 0
    ensures d.nextPeriodStart == NextPeriodStart(now, period)
    ensures StartDelay < d.sleepDuration <= period + StartDelay
    ensures now + d.sleepDuration == d.nextPeriodStart + StartDelay
    ensures d.supplementary <==> now + interval > d.nextPeriodStart + BufferTime
  {
    var next := NextPeriodStart(now, period);
    Decision(next, next + StartDelay - now, now + interval > next + BufferTime)
  }

  /** The decision depends on where `now` lies within its period: an extra
      run is needed exactly when the time already spent in the period plus
      the interval passes the period's length by more than the buffer. */
  lemma SupplementaryIff(now: int, interval: int, period: int)
    requires period > 0
    ensures Decide(now, interval, period).supplementary <==> now % period + interval > period + BufferTime
  {
    assert Client.PeriodStart(now, period, 0) == now - now % period;
  }

  /** A server that runs at least every five minutes never schedules an extra run. */
  lemma NeverWhenFrequent(now: int, interval: int, period: int)
    requires period > 0 && interval <= BufferTime
    ensures !Decide(now, interval, period).supplementary
  {
  }

  /** A server whose interval exceeds a period plus the buffer always schedules one. */
  lemma AlwaysWhenRare(now: int, interval: int, period: int)
    requires period > 0 && interval > period + BufferTime
    ensures Decide(now, interval, period).supplementary
  {
  }

  /** The purpose of the decision: some run falls no later than five minutes
      after the next boundary, either the regular one or the extra one. */
  lemma UpdateWithinBuffer(now: int, interval: int, period: int)
    requires period > 0
    ensures var d := Decide(now, interval, period);
      if d.supplementary then now + d.sleepDuration <= d.nextPeriodStart + BufferTime
      else now + interval <= d.nextPeriodStart + BufferTime
  {
  }

  /** The extra run, one minute after the boundary, already computes the new
      period's seed (when a period is longer than that minute): the seed the
      current run would compute with offset 1. */
  lemma ScheduledRunSeesNextPeriod(now: int, interval: int, period: int, offset: int)
    requires period > StartDelay
    ensures var d := Decide(now, interval, period);
      Client.SharedSeed(now + d.sleepDuration, period, offset) == Client.SharedSeed(now, period, offset + 1)
  {
    var next := NextPeriodStart(now, period);
    var q := now / period + 1;
    assert next == q * period;
    DivUnique(next + StartDelay, period, q);
    assert (q + offset) * period == (now / period + offset + 1) * period;
  }
}
