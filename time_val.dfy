// Timestamps and the conversion of scheduler timeslices into trigger times.
//
// A `struct timeval` is a (seconds, microseconds) pair; the dispatcher orders
// them lexicographically. Timeslices are counted in SERVER_TIMESLICES_SEC units
// per second. C's integer `/` and `%` truncate toward zero, which differs from
// Dafny's Euclidean operators on negative operands, so they are written out.
module TimeVals {

  /** A `struct timeval`: whole seconds and a microsecond part. */
  datatype TimeVal = TimeVal(sec: int, usec: int)

  /** Scheduler timeslices per second (Kismet's SERVER_TIMESLICES_SEC). */
  const SERVER_TIMESLICES_SEC: int := 10

  const USEC_PER_SEC: int := 1000000

  /** `a` is strictly earlier than `b`: seconds first, then microseconds. */
  predicate Before(a: TimeVal, b: TimeVal)
  {
    a.sec < b.sec || (a.sec == b.sec && a.usec < b.usec)
  }

  /** A normalised timeval, as the system clock delivers it. */
  predicate ValidTime(t: TimeVal)
  {
    0 <= t.usec < USEC_PER_SEC
  }

  /** The instant a timeval denotes, in microseconds. */
  function Micros(t: TimeVal): int
  {
    t.sec * USEC_PER_SEC + t.usec
  }

  /** The lexicographic order is the order of the instants denoted. */
  lemma BeforeIsEarlier(a: TimeVal, b: TimeVal)
    requires ValidTime(a) && ValidTime(b)
    ensures Before(a, b) <==> Micros(a) < Micros(b)
    ensures a == b <==> Micros(a) == Micros(b)
  {
  }

  /** C's `a / b`: the quotient truncated toward zero. */
  function TruncDiv(a: int, b: int): int
    requires b > 0
  {
    if a >= 0 then a / b else -((-a) / b)
  }

  /**
   * C's quotient rounds toward zero: its multiple of the divisor lies between
   * zero and the dividend, and negating the dividend negates the quotient.
   */
  lemma TruncDivTowardZero(a: int, b: int)
    requires b > 0
    ensures a >= 0 ==> 0 <= TruncDiv(a, b) * b <= a
    ensures a < 0 ==> a <= TruncDiv(a, b) * b <= 0
    ensures TruncDiv(-a, b) == -TruncDiv(a, b)
  {
    var q, r := TruncDiv(a, b), TruncMod(a, b);
    if a >= 0 {
      NonNegQuotient(a, b);
    } else {
      NonNegQuotient(-a, b);
      assert TruncDiv(-a, b) == -q;
    }
  }

  lemma NonNegQuotient(a: int, b: int)
    requires a >= 0 && b > 0
    ensures 0 <= TruncDiv(a, b) * b <= a
    ensures TruncDiv(-a, b) * b == -(TruncDiv(a, b) * b)
  {
    var q, r := TruncDiv(a, b), TruncMod(a, b);
    assert q * b + r == a && 0 <= r;
    DivNonNeg(a, b);
    MulSign(q, b);
    assert TruncDiv(-a, b) == -q;
    NegMul(q, b);
  }

  lemma DivNonNeg(a: int, b: int)
    requires a >= 0 && b > 0
    ensures a / b >= 0
  {
    if a / b < 0 {
      assert a == (a / b) * b + a % b;
      MulSign(-(a / b) - 1, b);
      assert false;
    }
  }

  lemma NegMul(x: int, y: int)
    ensures (-x) * y == -(x * y)
  {
  }

  lemma MulSign(x: int, y: int)
    requires x >= 0 && y >= 0
    ensures x * y >= 0
  {
  }

  /** C's `a % b`: the remainder, carrying the sign of the dividend. */
  function TruncMod(a: int, b: int): (r: int)
    requires b > 0
    ensures TruncDiv(a, b) * b + r == a
    ensures a >= 0 ==> 0 <= r < b
    ensures a < 0 ==> -b < r <= 0
  {
    if a >= 0 then
      assert a == (a / b) * b + a % b;
      a % b
    else
      assert -a == ((-a) / b) * b + (-a) % b;
      -((-a) % b)
  }

  /**
   * The microsecond sum the event and closure registrations (and the
   * rescheduling in Tick) compute before their carry test.
   */
  function UsecSum(schedule: TimeVal, timeslices: int): int
  {
    schedule.usec + TruncMod(timeslices, SERVER_TIMESLICES_SEC) * (USEC_PER_SEC / SERVER_TIMESLICES_SEC)
  }

  /**
   * `schedule` plus `timeslices` scheduler timeslices, as the event and
   * closure registrations and Tick's rescheduling compute it.
   * QUIRK (as written): the carry test is `>= 999999`, not `>= 1000000`, so a
   * microsecond sum of exactly 999999 also bumps the seconds and stays at
   * 999999 microseconds: the trigger lands one second late.
   *
   * What it denotes: the schedule plus the interval, one whole second more
   * exactly when the microsecond sum is 999999, and, for a non-negative
   * interval, a normalised timeval.
   */
  function AddTimeslices(schedule: TimeVal, timeslices: int): (r: TimeVal)
    ensures ValidTime(schedule) ==>
      Micros(r) == Micros(schedule) + timeslices * (USEC_PER_SEC / SERVER_TIMESLICES_SEC)
                   + (if UsecSum(schedule, timeslices) == 999999 then USEC_PER_SEC else 0)
    ensures ValidTime(schedule) && timeslices >= 0 ==> ValidTime(r)
  {
    var q := TruncDiv(timeslices, SERVER_TIMESLICES_SEC);
    var rem := TruncMod(timeslices, SERVER_TIMESLICES_SEC);
    assert q * 10 + rem == timeslices;
    assert q * 1000000 + rem * 100000 == timeslices * 100000;
    var sec := schedule.sec + q;
    var usec := UsecSum(schedule, timeslices);
    if usec >= 999999 then TimeVal(sec + 1, usec % USEC_PER_SEC) else TimeVal(sec, usec)
  }

  /**
   * `schedule` plus `timeslices`, as the callback registration computes it.
   * QUIRK (as written): it divides by a literal 10 and adds the remainder
   * unscaled, as microseconds, with no carry at all. Each timeslice beyond
   * whole seconds therefore counts 1 microsecond instead of 100000, and the
   * microseconds may leave their range.
   */
  function AddCallbackTimeslices(schedule: TimeVal, timeslices: int): (r: TimeVal)
    ensures Micros(r) == Micros(schedule) + timeslices * (USEC_PER_SEC / SERVER_TIMESLICES_SEC)
                         - TruncMod(timeslices, 10) * 99999
    ensures r.usec - schedule.usec == TruncMod(timeslices, 10)
  {
    var q := TruncDiv(timeslices, 10);
    var rem := TruncMod(timeslices, 10);
    assert q * 1000000 + rem == timeslices * 100000 - rem * 99999;
    TimeVal(schedule.sec + q, schedule.usec + rem)
  }

  /** The late trigger the carry test produces, on a concrete schedule. */
  lemma CarryOneSecondLate()
    ensures AddTimeslices(TimeVal(0, 899999), 1) == TimeVal(1, 999999)
    ensures Micros(AddTimeslices(TimeVal(0, 899999), 1)) - Micros(TimeVal(0, 899999)) == 1100000
  {
  }

  /**
   * The callback registration agrees with the other two forms only when the
   * interval is a whole number of seconds and the odd carry does not fire.
   */
  lemma CallbackFormDisagrees(schedule: TimeVal, timeslices: int)
    requires ValidTime(schedule)
    ensures AddCallbackTimeslices(schedule, timeslices) == AddTimeslices(schedule, timeslices)
        <==> timeslices % 10 == 0 && schedule.usec != 999999
  {
    var r := TruncMod(timeslices, 10);
    if r != 0 {
      assert UsecSum(schedule, timeslices) == schedule.usec + r * 100000;
      assert AddCallbackTimeslices(schedule, timeslices).usec == schedule.usec + r;
    }
  }
}
