/** The few facts about multiplication and division that enumerations need. */
module Arithmetic {
  lemma MulMonotone(a: int, b: int, d: nat)
    requires a <= b
    ensures a * d <= b * d
  {
    assert (b - a) * d >= 0;
  }

  /** Quotient and remainder are determined by the number. */
  lemma UniqueDivision(q: int, r: int, b: int, c: int, d: nat)
    requires 0 <= r < d && 0 <= c < d && q * d + r == b * d + c
    ensures q == b && r == c
  {
    assert (q + 1) * d == q * d + d && (b + 1) * d == b * d + d;
    if q < b {
      MulMonotone(q + 1, b, d);
    } else if q > b {
      MulMonotone(b + 1, q, d);
    }
  }

  lemma Division(a: int, d: nat)
    requires d > 0
    ensures a == (a / d) * d + a % d && 0 <= a % d < d
  {
  }

  lemma DivModUnique(a: int, b: int, c: int, d: nat)
    requires 0 <= c < d && a == b * d + c
    ensures a / d == b && a % d == c
  {
    Division(a, d);
    var q, r := a / d, a % d;
    UniqueDivision(q, r, b, c, d);
  }

  lemma DivBound(a: int, b: int, d: nat)
    requires d > 0 && a < b * d
    ensures a / d < b
  {
    Division(a, d);
    if b <= a / d { MulMonotone(b, a / d, d); }
  }

  lemma DivMonotone(q: int, r: int, d: nat)
    requires d > 0 && q <= r
    ensures q / d <= r / d
  {
    Division(q, d);
    Division(r, d);
    var x, y := q / d, r / d;
    assert (y + 1) * d == y * d + d;
    if x > y { MulMonotone(y + 1, x, d); }
  }

  lemma ProductBound(a: int, m: int, q: int, n: nat)
    requires 0 <= a < m && 0 <= q < n
    ensures 0 <= a * n + q < m * n
  {
    MulMonotone(0, a, n);
    MulMonotone(a + 1, m, n);
    assert (a + 1) * n == a * n + n;
  }

  lemma ProductOne(a: nat, b: nat)
    requires a * b == 1
    ensures a == 1 && b == 1
  {
    if a == 0 {
    } else if b >= 2 {
      MulMonotone(1, a, b);
    } else {
      assert b == 0 || b == 1;
    }
  }

  lemma ProductPositive(a: int, b: int)
    requires a > 0 && b > 0
    ensures a * b > 0
  {
  }

  lemma DivDivSplit(c: int, y: int, x: int, b: int, g: int)
    ensures (b * c + y) * g + x == c * (b * g) + (y * g + x)
  {
    calc {
      (b * c + y) * g;
      b * c * g + y * g;
      { assert b * c * g == c * (b * g); }
      c * (b * g) + y * g;
    }
  }

  /** Dividing by a product is dividing by its factors in turn. */
  lemma DivDiv(r: int, b: nat, g: nat)
    requires b > 0 && g > 0
    ensures b * g > 0
    ensures r / (b * g) == (r / g) / b
    ensures (r % (b * g)) / g == (r / g) % b
    ensures (r % (b * g)) % g == r % g
  {
    ProductPositive(b, g);
    Division(r, g);
    Division(r / g, b);
    var q, x := r / g, r % g;
    var c, y := q / b, q % b;
    ProductBound(y, b, x, g);
    assert q == b * c + y by { assert c * b == b * c; }
    DivDivSplit(c, y, x, b, g);
    DivModUnique(r, c, y * g + x, b * g);
    DivModUnique(y * g + x, y, x, g);
  }

  /** Successive numbers have the same quotient unless the second one starts a new block. */
  lemma SuccessiveQuotients(q: int, g: nat)
    requires g > 0
    ensures (q - 1) / g == if q % g != 0 then q / g else q / g - 1
  {
    Division(q, g);
    if q % g != 0 {
      DivModUnique(q - 1, q / g, q % g - 1, g);
    } else {
      assert (q / g - 1) * g == (q / g) * g - g;
      DivModUnique(q - 1, q / g - 1, g - 1, g);
    }
  }

  lemma SuccessiveRemainders(q: int, g: nat)
    requires g > 0
    ensures q % g == if (q + 1) % g != 0 then (q + 1) % g - 1 else g - 1
  {
    Division(q + 1, g);
    var b := (q + 1) / g;
    if (q + 1) % g != 0 {
      DivModUnique(q, b, (q + 1) % g - 1, g);
    } else {
      assert (b - 1) * g == b * g - g;
      DivModUnique(q, b - 1, g - 1, g);
    }
  }
}
