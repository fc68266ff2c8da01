/** Go's int64 arithmetic, which wraps around. */
module GoInt {
  const TWO_63: int := 0x8000_0000_0000_0000
  const TWO_64: int := 0x1_0000_0000_0000_0000

  predicate InRange(x: int) { -TWO_63 <= x < TWO_63 }

  /** The int64 congruent to x. */
  function Int64(x: int): (r: int)
    ensures InRange(r)
    ensures InRange(x) ==> r == x
  {
    (x + TWO_63) % TWO_64 - TWO_63
  }

  lemma Int64Multiple(x: int) returns (q: int)
    ensures Int64(x) == x - q * TWO_64
  {
    q := (x + TWO_63) / TWO_64;
  }

  lemma Int64Unique(x: int, y: int, q: int)
    requires x == y + q * TWO_64
    ensures Int64(x) == Int64(y)
  {
    var a := Int64Multiple(x);
    var b := Int64Multiple(y);
    var d := q - a + b;
    assert Int64(x) - Int64(y) == d * TWO_64 by {
      assert Int64(x) - Int64(y) == q * TWO_64 - a * TWO_64 + b * TWO_64;
    }
    assert -TWO_64 < d * TWO_64 < TWO_64;
    assert d == 0;
  }

  /** Two numbers wrap to the same int64 exactly when they differ by a multiple of 2^64. */
  lemma Int64EqualIff(x: int, y: int)
    ensures Int64(x) == Int64(y) <==> (x - y) % TWO_64 == 0
  {
    if Int64(x) == Int64(y) {
      var a := Int64Multiple(x);
      var b := Int64Multiple(y);
      assert x - y == (a - b) * TWO_64;
    }
    if (x - y) % TWO_64 == 0 {
      Int64Unique(x, y, (x - y) / TWO_64);
    }
  }

  /** Wrapping a summand early does not change a wrapped sum. */
  lemma Int64Add(x: int, y: int)
    ensures Int64(Int64(x) + y) == Int64(x + y)
  {
    var q := Int64Multiple(x);
    Int64Unique(x + y, Int64(x) + y, q);
  }

  /** Nor does wrapping a factor early change a wrapped product. */
  lemma Int64Mul(x: int, k: int)
    ensures Int64(Int64(x) * k) == Int64(x * k)
  {
    var q := Int64Multiple(x);
    assert x * k == Int64(x) * k + (q * k) * TWO_64 by {
      calc {
        Int64(x) * k;
        (x - q * TWO_64) * k;
        x * k - q * TWO_64 * k;
        x * k - (q * k) * TWO_64;
      }
    }
    Int64Unique(x * k, Int64(x) * k, q * k);
  }
}
