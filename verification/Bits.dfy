/** The bit operators that server/clientIp.ts applies to small natural numbers. */
module Bits {
  function Pow2(n: nat): (r: nat)
    ensures r >= 1
  {
    if n == 0 then 1 else 2 * Pow2(n - 1)
  }

  /** a & b */
  function And(a: nat, b: nat): nat
    decreases a
  {
    if a == 0 || b == 0 then 0 else 2 * And(a / 2, b / 2) + if a % 2 == 1 && b % 2 == 1 then 1 else 0
  }

  /** a | b */
  function Or(a: nat, b: nat): nat
    decreases a + b
  {
    if a == 0 then b
    else if b == 0 then a
    else 2 * Or(a / 2, b / 2) + if a % 2 == 1 || b % 2 == 1 then 1 else 0
  }

  /** a << n */
  function Shl(a: nat, n: nat): nat { a * Pow2(n) }

  /** a >> n */
  function Shr(a: nat, n: nat): nat { if n == 0 then a else Shr(a / 2, n - 1) }

  // ----- arithmetic -----

  lemma {:induction false} Pow2Adds(m: nat, n: nat)
    ensures Pow2(m + n) == Pow2(m) * Pow2(n)
  {
    if m > 0 {
      Pow2Adds(m - 1, n);
      MulAssoc(2, Pow2(m - 1), Pow2(n));
    }
  }

  lemma MulAssoc(a: int, b: int, c: int)
    ensures (a * b) * c == a * (b * c)
  {
  }

  lemma MulMonotone(a: int, b: int, m: int)
    requires a <= b && 0 <= m
    ensures a * m <= b * m
  {
  }

  /** The quotient and the remainder are the only ones. */
  lemma DivUnique(x: nat, b: nat, q: int, r: int)
    requires b > 0 && x == q * b + r && 0 <= r < b
    ensures x / b == q && x % b == r
  {
    var d := x / b - q;
    assert x == (x / b) * b + x % b;
    assert d * b == r - x % b by { assert d * b == (x / b) * b - q * b; }
    if d > 0 { MulMonotone(1, d, b); }
    if d < 0 { MulMonotone(d, -1, b); }
  }

  lemma DivOfSum(q: nat, r: nat, b: nat, c: nat)
    requires b > 0 && c > 0
    ensures (q * (c * b) + r) / b == q * c + r / b
  {
    MulAssoc(q, c, b);
    var x := q * (c * b) + r;
    var n := q * c + r / b;
    assert n * b == (q * c) * b + (r / b) * b;
    assert x == n * b + r % b;
    DivUnique(x, b, n, r % b);
  }

  lemma DivDiv(x: nat, b: nat, c: nat)
    requires b > 0 && c > 0
    ensures b * c > 0 && x / b / c == x / (b * c)
  {
    var y := x / b;
    var q, r := y / c, y % c * b + x % b;
    MulAssoc(q, c, b);
    assert x == y * b + x % b;
    assert y * b == (q * c) * b + (y % c) * b;
    MulMonotone(y % c, c - 1, b);
    assert (c - 1) * b == c * b - b;
    assert b * c == c * b;
    MulMonotone(1, c, b);
    DivUnique(x, b * c, q, r);
  }

  // ----- masks -----

  lemma {:induction false} AndOnes(a: nat, b: nat)
    requires a < Pow2(b)
    ensures And(a, Pow2(b) - 1) == a
  {
    if b > 0 && a > 0 {
      assert (Pow2(b) - 1) / 2 == Pow2(b - 1) - 1 && (Pow2(b) - 1) % 2 == 1;
      AndOnes(a / 2, b - 1);
    }
  }

  lemma {:induction false} AndShifted(a: nat, m: nat, k: nat)
    ensures And(a, Shl(m, k)) == Shl(And(Shr(a, k), m), k)
  {
    if k > 0 {
      ShlHalves(m, k);
      AndShifted(a / 2, m, k - 1);
      ShlHalves(And(Shr(a, k), m), k);
      AndEven(a, Shl(m, k - 1));
    }
  }

  lemma {:induction false} AndEven(a: nat, m: nat)
    ensures And(a, 2 * m) == 2 * And(a / 2, m)
  {
  }

  lemma ShlHalves(m: nat, k: nat)
    requires k > 0
    ensures Shl(m, k) == 2 * Shl(m, k - 1)
  {
  }

  lemma {:induction false} ShrSmall(a: nat, b: nat, k: nat)
    requires a < Pow2(b + k)
    ensures Shr(a, k) < Pow2(b)
  {
    if k > 0 { ShrSmall(a / 2, b, k - 1); }
  }

  /** Masking with b ones above k zeros keeps the top b bits of a number of b + k bits. */
  lemma MaskKeepsTop(a: nat, b: nat, k: nat)
    requires a < Pow2(b + k)
    ensures And(a, Shl(Pow2(b) - 1, k)) == Shl(Shr(a, k), k)
  {
    AndShifted(a, Pow2(b) - 1, k);
    ShrSmall(a, b, k);
    AndOnes(Shr(a, k), b);
  }

  /** Two numbers of b + k bits agree under the mask exactly when they agree after dropping k bits. */
  lemma MaskedEqualIff(x: nat, y: nat, b: nat, k: nat)
    requires x < Pow2(b + k) && y < Pow2(b + k)
    ensures And(x, Shl(Pow2(b) - 1, k)) == And(y, Shl(Pow2(b) - 1, k)) <==> Shr(x, k) == Shr(y, k)
  {
    MaskKeepsTop(x, b, k);
    MaskKeepsTop(y, b, k);
    ShlInjective(Shr(x, k), Shr(y, k), k);
  }

  lemma ShlInjective(p: nat, q: nat, k: nat)
    ensures Shl(p, k) == Shl(q, k) <==> p == q
  {
    if p < q { MulMonotone(p + 1, q, Pow2(k)); }
    if q < p { MulMonotone(q + 1, p, Pow2(k)); }
  }

  /** Dropping k bits is dividing by 2^k. */
  lemma {:induction false} ShrIsDivision(a: nat, k: nat)
    ensures Shr(a, k) == a / Pow2(k)
  {
    if k > 0 {
      ShrIsDivision(a / 2, k - 1);
      DivDiv(a, 2, Pow2(k - 1));
    }
  }

  /** Filling the low k bits of a shifted number adds to it. */
  lemma {:induction false} OrFillsLow(x: nat, y: nat, k: nat)
    requires y < Pow2(k)
    ensures Or(Shl(x, k), y) == Shl(x, k) + y
  {
    if k > 0 && x > 0 && y > 0 {
      ShlHalves(x, k);
      OrFillsLow(x, y / 2, k - 1);
      OrEven(Shl(x, k - 1), y);
    }
  }

  lemma OrEven(a: nat, y: nat)
    ensures Or(2 * a, y) == 2 * Or(a, y / 2) + y % 2
  {
  }
}
