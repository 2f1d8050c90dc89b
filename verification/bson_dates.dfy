/** How a `DateTime` survives a trip through MongoDB. A BSON UTC datetime is a
    signed 64-bit count of milliseconds since the Unix epoch, so a stored
    instant keeps only whole milliseconds. The count is taken with C#'s
    integer division, which truncates toward zero, so instants before the
    epoch move up to it and later ones move down. */
module BsonDates {
  import opened Contracts

  const TicksPerMillisecond: int := 10_000

  /** 1970-01-01T00:00:00Z in `DateTime` ticks. */
  const UnixEpochTicks: int := 621_355_968_000_000_000

  /** C#'s `/` on integers: the quotient truncated toward zero. */
  function TruncatingDiv(a: int, b: int): (q: int)
    requires b > 0
    ensures a >= 0 ==> q * b <= a < q * b + b
    ensures a < 0 ==> q * b - b < a <= q * b
  {
    if a >= 0 then a / b else -((-a) / b)
  }

  /** The BSON value written for an instant. */
  function ToMilliseconds(t: Instant): int {
    TruncatingDiv(t - UnixEpochTicks, TicksPerMillisecond)
  }

  /** The instant a BSON value reads back as. */
  function FromMilliseconds(ms: int): Instant {
    UnixEpochTicks + ms * TicksPerMillisecond
  }

  /** A whole number of milliseconds from the epoch. */
  predicate OnMillisecond(t: Instant) {
    (t - UnixEpochTicks) % TicksPerMillisecond == 0
  }

  /** The instant read back after storing `t`: on a millisecond, and less
      than a millisecond from `t` toward the epoch. */
  function Stored(t: Instant): (s: Instant)
    ensures OnMillisecond(s)
    ensures t >= UnixEpochTicks ==> s <= t < s + TicksPerMillisecond
    ensures t < UnixEpochTicks ==> s - TicksPerMillisecond < t <= s
  {
    FromMilliseconds(ToMilliseconds(t))
  }

  /** Exactly the instants on a millisecond come back unchanged. */
  lemma {:induction false} StoredExactly(t: Instant)
    ensures Stored(t) == t <==> OnMillisecond(t)
  {
    var d := t - UnixEpochTicks;
    if OnMillisecond(t) {
      var k := d / TicksPerMillisecond;
      assert d == k * TicksPerMillisecond;
      if d < 0 {
        assert -d == (-k) * TicksPerMillisecond;
        assert (-d) / TicksPerMillisecond == -k;
      }
    }
  }

  /** Storing a read-back instant again changes nothing. */
  lemma {:induction false} StoredIdempotent(t: Instant)
    ensures Stored(Stored(t)) == Stored(t)
  {
    StoredExactly(Stored(t));
  }

  /** Storage keeps the order of instants (it never swaps two of them). */
  lemma {:induction false} StoredMonotone(t1: Instant, t2: Instant)
    requires t1 <= t2
    ensures Stored(t1) <= Stored(t2)
  {
    var d1 := t1 - UnixEpochTicks;
    var d2 := t2 - UnixEpochTicks;
    if d1 >= 0 {
      DivMonotone(d1, d2);
    } else if d2 < 0 {
      DivMonotone(-d2, -d1);
    }
  }

  lemma {:induction false} DivMonotone(a: int, b: int)
    requires 0 <= a <= b
    ensures a / TicksPerMillisecond <= b / TicksPerMillisecond
  {
  }
}
