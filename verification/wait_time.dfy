/**
 The stall computed by `server::wait_time` (src/sync/server.cpp): how long the next poll may
 wait.  Times are pairs of seconds and microseconds, as in struct timeval.
 */
module WaitTime {
  import opened Bytes

  const MICROS: int := 1000000

  datatype Time = Time(sec: int, usec: int)

  predicate IsNormal(t: Time) {
    0 <= t.usec < MICROS
  }

  /** In microseconds. */
  function Total(t: Time): int {
    t.sec * MICROS + t.usec
  }

  /** C's division, which cuts towards zero. */
  function TruncDiv(a: int, b: int): int
    requires b > 0
  {
    if a >= 0 then a / b else -((-a) / b)
  }

  /** It is the quotient whose remainder is smaller than `b` and has the sign of `a`. */
  lemma TruncDivIs(a: int, b: int)
    requires b > 0
    ensures var r := a - TruncDiv(a, b) * b;
      -b < r < b && (a >= 0 ==> r >= 0) && (a <= 0 ==> r <= 0)
  {
    var c := if a >= 0 then a else -a;
    DivTimes(c, b);
    assert (-(c / b)) * b == -(c / b * b);
    assert (c / b + 1) * b == c / b * b + b;
  }

  /** The difference the code starts from. */
  function Delta(last: Time, now: Time, frequency: int): Time
    requires frequency > 0
  {
    Time(last.sec - now.sec, TruncDiv(last.usec - now.usec + MICROS, frequency))
  }

  /** The two loops. */
  method Normalise(t: Time) returns (r: Time)
    ensures IsNormal(r) && Total(r) == Total(t)
  {
    var usecDelta, secDelta := t.usec, t.sec;
    while usecDelta < 0
      invariant Total(Time(secDelta, usecDelta)) == Total(t)
      invariant usecDelta < MICROS || usecDelta == t.usec
      decreases -usecDelta
    {
      usecDelta := usecDelta + MICROS;
      secDelta := secDelta - 1;
    }
    while usecDelta >= MICROS
      invariant Total(Time(secDelta, usecDelta)) == Total(t) && usecDelta >= 0
      decreases usecDelta
    {
      usecDelta := usecDelta - MICROS;
      secDelta := secDelta + 1;
    }
    r := Time(secDelta, usecDelta);
  }

  /** A normal time is determined by its microseconds. */
  lemma NormalIsUnique(a: Time, b: Time)
    requires IsNormal(a) && IsNormal(b) && Total(a) == Total(b)
    ensures a == b
  {
  }

  /** What the stall amounts to: the positive part of the difference. */
  function StallMicros(last: Time, now: Time, frequency: int): int
    requires frequency > 0
  {
    var d := Total(Delta(last, now, frequency));
    if d > 0 then d else 0
  }

  /** The normal time of that many microseconds. */
  function StallTime(last: Time, now: Time, frequency: int): (r: Time)
    requires frequency > 0
    ensures IsNormal(r) && r.sec >= 0 && Total(r) == StallMicros(last, now, frequency)
  {
    var d := StallMicros(last, now, frequency);
    Time(d / MICROS, d % MICROS)
  }

  /** server::wait_time: no stall without a last time or a frequency; otherwise the last time is
      moved to a second reading of the clock. */
  method WaitTime(last: Option<Time>, now: Time, later: Time, frequency: nat)
      returns (stall: Option<Time>, newLast: Option<Time>)
    ensures (stall, newLast) ==
      if last.None? || frequency == 0 then (None, last)
      else (Some(StallTime(last.value, now, frequency)), Some(later))
  {
    if last == None || frequency == 0 {
      return None, last;
    }
    var d := Normalise(Delta(last.value, now, frequency));
    var stallTime := Time(0, 0);
    if d.sec > 0 || (d.sec == 0 && d.usec > 0) {
      stallTime := d;
    }
    NormalIsUnique(stallTime, StallTime(last.value, now, frequency));
    return Some(stallTime), Some(later);
  }

  // ---------- how long it stalls ----------

  lemma DivTimes(a: int, b: int)
    requires a >= 0 && b > 0
    ensures 0 <= a / b && a / b * b <= a && a < (a / b + 1) * b
  {
  }

  /** For a clock that does not run backwards, the stall times the frequency stays within a second,
      and at frequency one the stall fills the second since the last poll. */
  lemma StallIsBounded(last: Time, now: Time, frequency: nat)
    requires IsNormal(last) && IsNormal(now) && Total(last) <= Total(now) && frequency > 0
    ensures 0 <= StallMicros(last, now, frequency) * frequency <= MICROS
    ensures frequency == 1 ==>
      var elapsed := Total(now) - Total(last);
      StallMicros(last, now, frequency) == if elapsed < MICROS then MICROS - elapsed else 0
  {
    var a := last.usec - now.usec + MICROS;
    DivTimes(a, frequency);
    if frequency > 1 && last.sec < now.sec {
      DivByTwoOrMore(a, frequency);
    }
  }

  /** Within one second the stall is, up to rounding down, what is left of a second's length divided by
      the frequency; at two or more polls a second there is none behind the second boundary. */
  lemma StallWithinSecond(last: Time, now: Time, frequency: nat)
    requires IsNormal(last) && IsNormal(now) && Total(last) <= Total(now) && frequency > 0
    ensures var times := StallMicros(last, now, frequency) * frequency;
      var left := 1000000 - (now.usec - last.usec);
      && (last.sec == now.sec ==> left - frequency < times <= left)
      && (last.sec < now.sec && frequency > 1 ==> times == 0)
  {
    var a := last.usec - now.usec + MICROS;
    DivTimes(a, frequency);
    if last.sec < now.sec && frequency > 1 {
      DivByTwoOrMore(a, frequency);
    } else if last.sec == now.sec {
      assert StallMicros(last, now, frequency) == a / frequency;
      assert (a / frequency + 1) * frequency == a / frequency * frequency + frequency;
    }
  }

  lemma DivByTwoOrMore(a: int, b: int)
    requires 0 <= a < 2 * MICROS && b > 1
    ensures a / b < MICROS
  {
    DivTimes(a, b);
    if a / b >= MICROS {
      assert a / b * b >= MICROS * 2 by {
        MulMono(MICROS, a / b, 2, b);
      }
    }
  }

  lemma MulMono(a: int, b: int, c: int, d: int)
    requires 0 <= a <= b && 0 <= c <= d
    ensures a * c <= b * d
  {
    assert a * c <= b * c;
    assert b * c <= b * d;
  }

  /** At two or more polls a second the server stalls exactly if the clock is still in the second of
      the last poll and at least `frequency` microseconds of that second's length are left: a poll
      across a second boundary does not wait at all, however little time has passed. */
  lemma StallsIff(last: Time, now: Time, frequency: nat)
    requires IsNormal(last) && IsNormal(now) && Total(last) <= Total(now) && frequency > 1
    ensures StallMicros(last, now, frequency) > 0
       <==> last.sec == now.sec && MICROS - (Total(now) - Total(last)) >= frequency
  {
    var stall := StallMicros(last, now, frequency);
    StallWithinSecond(last, now, frequency);
    assert stall >= 0;
    hide StallMicros;
    assert stall >= 1 ==> stall * frequency >= frequency;
  }
}
