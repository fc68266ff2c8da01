/** PostgreSQL intervals and Go durations (internal/db/pgtypes/interval.go). */
module Interval {
  import opened Common
  import opened GoInt

  /** pgtype.Interval: three parts, each of its own width. */
  datatype PgInterval = PgInterval(microseconds: int, days: int, months: int, valid: bool) {
    predicate WellTyped() {
      InRange(microseconds) && -0x8000_0000 <= days < 0x8000_0000 && -0x8000_0000 <= months < 0x8000_0000
    }

    /** Months count thirty days. */
    function Total(): int { microseconds + days * DAY + months * (30 * DAY) }
  }

  const DAY: int := 86_400_000_000

  class Interval {
    var duration: int  // nanoseconds
    var valid: bool

    constructor (d: int, valid: bool)
      ensures duration == d && this.valid == valid
    {
      duration, this.valid := d, valid;
    }

    /** NULL clears; otherwise the duration is the interval's total in nanoseconds, wrapped, however it is split. */
    method Scan(src: Option<PgInterval>)
      requires src.Some? ==> src.value.WellTyped()
      modifies this
      ensures src.None? ==> !valid && duration == 0
      ensures src.Some? ==> valid == src.value.valid && duration == Scanned(src.value)
    {
      if src.None? {
        valid, duration := false, 0;
        return;
      }
      var v := src.value;
      var micros := v.microseconds;
      micros := Int64(micros + DayMicros(v.days));
      micros := Int64(micros + DayMicros(v.months * 30));
      MicrosExact(v);
      Int64Mul(v.Total(), 1000);
      duration := Int64(micros * 1000);
      valid := v.valid;
    }

    /** Whole microseconds, cut toward zero; NULL when invalid. */
    method Value() returns (r: Option<PgInterval>)
      requires InRange(duration)
      ensures !valid ==> r.None?
      ensures valid ==> r == Some(PgInterval(Quotient(duration, 1000), 0, 0, true)) && r.value.WellTyped()
    {
      if !valid {
        return None;
      }
      var micros := if duration >= 0 then duration / 1000 else -((-duration) / 1000);
      r := Some(PgInterval(micros, 0, 0, true));
    }

    /** Writing a duration and reading it back. */
    method RoundTrip()
      requires InRange(duration) && valid
      modifies this
      ensures valid && duration == old(duration) - Remainder(old(duration), 1000)
    {
      var before := duration;
      var stored := Value();
      Scan(stored);
      StoredExactly(before);
    }
  }

  /** Go's division truncates toward zero. */
  function Quotient(x: int, y: int): int
    requires y > 0
  {
    if x >= 0 then x / y else -((-x) / y)
  }

  function Remainder(x: int, y: int): int
    requires y > 0
  {
    x - Quotient(x, y) * y
  }

  /** n days in microseconds, multiplied factor by factor. */
  function DayMicros(n: int): int {
    Int64(Int64(Int64(Int64(n * 24) * 60) * 60) * 1_000_000)
  }

  lemma DayProduct(n: int)
    ensures DayMicros(n) == Int64(n * DAY)
  {
    Int64Mul(n * 24, 60);
    Int64Mul(n * 24 * 60, 60);
    Int64Mul(n * 24 * 60 * 60, 1_000_000);
    assert n * 24 * 60 * 60 * 1_000_000 == n * DAY;
  }

  lemma SumWraps(a: int, b: int, c: int)
    ensures Int64(Int64(a + Int64(b)) + Int64(c)) == Int64(a + b + c)
  {
    Int64Add(b, a);
    Int64Add(a + b, Int64(c));
    Int64Add(c, a + b);
  }

  /** However often the sum wraps on the way, it ends at the wrapped total. */
  lemma MicrosExact(v: PgInterval)
    ensures Int64(Int64(v.microseconds + DayMicros(v.days)) + DayMicros(v.months * 30)) == Int64(v.Total())
  {
    DayProduct(v.days);
    DayProduct(v.months * 30);
    SumWraps(v.microseconds, v.days * DAY, v.months * 30 * DAY);
    assert v.months * 30 * DAY == v.months * (30 * DAY);
  }

  /** What is stored never overflows on the way back. */
  lemma StoredExactly(d: int)
    requires InRange(d)
    ensures Int64(Quotient(d, 1000) * 1000) == d - Remainder(d, 1000)
  {
    assert InRange(Quotient(d, 1000) * 1000);
  }

  /** The loss of a round trip: under a microsecond, toward zero, none exactly on whole microseconds, once. */
  lemma RoundTripLoss(d: int)
    requires InRange(d)
    ensures var back := d - Remainder(d, 1000);
            && InRange(back) && -1000 < d - back < 1000
            && (d >= 0 ==> 0 <= back <= d) && (d <= 0 ==> d <= back <= 0)
            && (back == d <==> d % 1000 == 0)
            && Remainder(back, 1000) == 0
  {
  }

  /** What Scan makes of a stored interval. */
  function Scanned(v: PgInterval): int { Int64(v.Total() * 1000) }

  const TWO_61: int := 0x2000_0000_0000_0000
  const INVERSE: int := 2066035336255469781
  const FACTOR: int := 112

  /** 125 has an inverse modulo 2^61, so only multiples of 2^61 times 1000 are multiples of 2^64. */
  lemma MultipleOf61(d: int)
    ensures d * 1000 % TWO_64 == 0 <==> d % TWO_61 == 0
  {
    if d % TWO_61 == 0 {
      var q := d / TWO_61;
      assert d * 1000 == (q * 125) * TWO_64;
    }
    if d * 1000 % TWO_64 == 0 {
      var q := d * 1000 / TWO_64;
      assert 125 * d == q * TWO_61;
      assert d == (INVERSE * q - FACTOR * d) * TWO_61 by {
        assert 125 * INVERSE == 1 + FACTOR * TWO_61;
        calc {
          d;
          (125 * INVERSE - FACTOR * TWO_61) * d;
          INVERSE * (125 * d) - FACTOR * TWO_61 * d;
          INVERSE * (q * TWO_61) - FACTOR * TWO_61 * d;
          (INVERSE * q - FACTOR * d) * TWO_61;
        }
      }
    }
  }

  /**
   Two stored intervals scan to the same duration if and only if their totals differ by a multiple of 2^61
   microseconds, however they are split; the duration is the total itself if and only if that is under 2^63 ns.
   */
  lemma ScannedAlikeIff(a: PgInterval, b: PgInterval)
    ensures Scanned(a) == Scanned(b) <==> (a.Total() - b.Total()) % TWO_61 == 0
    ensures Scanned(a) == a.Total() * 1000 <==> -9_223_372_036_854_775 <= a.Total() <= 9_223_372_036_854_775
  {
    var x, y := a.Total() * 1000, b.Total() * 1000;
    Int64EqualIff(x, y);
    MultipleOf61(a.Total() - b.Total());
    assert x - y == (a.Total() - b.Total()) * 1000;
  }

  /** Units: a microsecond is 1000 ns, a day 24 hours, a month thirty days, as long as the sum fits. */
  lemma ScannedUnits(v: PgInterval)
    ensures var ns := v.microseconds * 1_000 + v.days * 86_400_000_000_000 + v.months * 2_592_000_000_000_000;
            InRange(ns) ==> Scanned(v) == ns
  {
  }
}
