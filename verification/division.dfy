/** Division with remainder, as far as bit fields and positional numbers need it. */
module Division {
  lemma AtLeast(a: int, d: int)
    requires a >= 1 && d > 0
    ensures a * d >= d
  {
  }

  /** Quotient and remainder are unique. */
  lemma OneDivision(q: int, k: int, d: int, r: int, m: int)
    requires 0 <= r < d && 0 <= m < d && q * d + r == k * d + m
    ensures q == k && r == m
  {
    Expand(k, q, d);
    Expand(q, k, d);
    if k > q {
      AtLeast(k - q, d);
    } else if k < q {
      AtLeast(q - k, d);
    }
  }

  lemma Expand(a: int, b: int, d: int)
    ensures (a - b) * d == a * d - b * d
  {
  }

  lemma Parts(x: int, d: int)
    requires d > 0
    ensures x == x / d * d + x % d && 0 <= x % d < d
  {
  }

  lemma Divides(q: int, d: int, r: int)
    requires 0 <= r < d
    ensures (q * d + r) / d == q && (q * d + r) % d == r
  {
    var x := q * d + r;
    Parts(x, d);
    OneDivision(q, x / d, d, r, x % d);
  }

  lemma Distribute(q: int, b: int, m: int, a: int)
    ensures (q * b + m) * a == q * (a * b) + m * a
  {
    assert (q * b + m) * a == (q * b) * a + m * a;
    assert (q * b) * a == q * (b * a);
  }

  lemma LowPart(m: int, r: int, a: int, b: int)
    requires 0 <= m < b && 0 <= r < a
    ensures 0 <= m * a + r < a * b
  {
    if m < b - 1 {
      AtLeast(b - 1 - m, a);
    }
    assert (b - 1 - m) * a == a * b - a - m * a;
    if m > 0 {
      AtLeast(m, a);
    }
  }

  /** Dividing twice is dividing by the product; the middle digit is what the second division leaves. */
  lemma DivTwice(v: int, a: int, b: int)
    requires a > 0 && b > 0
    ensures a * b > 0 && v / a / b == v / (a * b) && v % (a * b) == v / a % b * a + v % a
  {
    var q, m, r := v / a / b, v / a % b, v % a;
    Parts(v, a);
    Parts(v / a, b);
    Distribute(q, b, m, a);
    LowPart(m, r, a, b);
    AtLeast(b, a);
    Divides(q, a * b, m * a + r);
  }

  /** Whole multiples do not change the remainder. */
  lemma ModShift(k: int, d: int, x: int)
    requires d > 0
    ensures (k * d + x) % d == x % d
  {
    Parts(x, d);
    assert k * d + x == (k + x / d) * d + x % d;
    Divides(k + x / d, d, x % d);
  }

  /** The digits of a number written in base 64. */
  lemma FourDigits(a: int, b: int, c: int, d: int)
    requires 0 <= b < 64 && 0 <= c < 64 && 0 <= d < 64
    ensures var v := ((a * 64 + b) * 64 + c) * 64 + d;
            v / 262144 == a && v / 4096 == a * 64 + b && v / 64 == (a * 64 + b) * 64 + c
            && v / 4096 % 64 == b && v / 64 % 64 == c && v % 64 == d
  {
    var v := ((a * 64 + b) * 64 + c) * 64 + d;
    Divides((a * 64 + b) * 64 + c, 64, d);
    Divides(a * 64 + b, 64, c);
    Divides(a, 64, b);
    DivTwice(v, 64, 64);
    DivTwice(v, 4096, 64);
  }
}
