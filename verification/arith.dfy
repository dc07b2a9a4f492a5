/**
  Facts about multiplication and Euclidean division on integers, shared by the
  RAID address translation, the quadrant split of the threaded Game of Life
  and the random offsets of the write benchmark.
*/
module Arith {
  /** The smaller of two integers: min of copy_tool.c, and the chunk-size choice of ex1.c. */
  function Min(a: int, b: int): (m: int)
    ensures m <= a && m <= b
    ensures m == a || m == b
  {
    if a < b then a else b
  }

  /** A positive multiple of b is at least b. */
  lemma MulAtLeast(x: int, b: int)
    requires x >= 1 && b > 0
    ensures x * b >= b
  {
    assert x * b == (x - 1) * b + b;
  }

  /** Multiplying by a natural keeps the order of naturals. */
  lemma MulMonotone(a: nat, b: nat, c: nat)
    requires a <= b
    ensures a * c <= b * c
  {
  }

  lemma MulPositive(a: nat, b: nat)
    requires a > 0 && b > 0
    ensures a * b > 0
  {
  }

  lemma DoubleSquared(h: int)
    ensures (2 * h) * (2 * h) == 4 * (h * h)
  {
  }

  /** Quotient and remainder are unique. */
  lemma DivModUnique(a: int, b: int, q: int, r: int)
    requires b > 0 && 0 <= r < b && a == q * b + r
    ensures a / b == q && a % b == r
  {
    var q', r' := a / b, a % b;
    assert q' * b + r' == q * b + r;
    if q' > q {
      assert (q' - q) * b == r - r';
      MulAtLeast(q' - q, b);
    } else if q' < q {
      assert (q - q') * b == r' - r;
      MulAtLeast(q - q', b);
    }
  }

  /** Dividing by b and then by c is dividing by b * c. */
  lemma DivDiv(a: nat, b: nat, c: nat)
    requires b > 0 && c > 0
    ensures a / b / c == a / (b * c)
  {
    var q, r := a / (b * c), a % (b * c);
    var s, t := r / b, r % b;
    Regroup(a, b, c, q, r, s, t);
    DivModUnique(a, b, q * c + s, t);
    QuotientBelow(r, b, c);
    DivModUnique(q * c + s, c, q, s);
  }

  /** Splitting the remainder of a division by b * c into a multiple of b and a rest. */
  lemma Regroup(a: int, b: int, c: int, q: int, r: int, s: int, t: int)
    requires a == q * (b * c) + r && r == s * b + t
    ensures a == (q * c + s) * b + t
  {
    assert q * (b * c) == (q * c) * b;
  }

  /** A remainder modulo b * c holds fewer than c copies of b. */
  lemma QuotientBelow(r: nat, b: nat, c: nat)
    requires b > 0 && c > 0 && r < b * c
    ensures r / b < c
  {
    if r / b >= c {
      MulMonotone(c, r / b, b);
      assert false;
    }
  }

  /** A quotient by a positive divisor is at most the dividend. */
  lemma DivAtMost(a: nat, d: nat)
    requires d >= 1
    ensures a / d <= a
  {
    var q := a / d;
    assert a == d * q + a % d;
    if q > 0 {
      MulAtLeast(d, q);
    }
  }
}
