/** Small facts about division and products that several modules share. */
module Arithmetic {

  function MinReal(a: real, b: real): real {
    if a < b then a else b
  }

  function MaxReal(a: real, b: real): real {
    if a < b then b else a
  }

  lemma TimesMonotone(a: nat, b: nat, q: nat)
    requires a <= b
    ensures a * q <= b * q
  {
  }

  lemma DivUnique(p: nat, q: nat, k: nat, r: nat)
    requires q > 0 && r < q && p == k * q + r
    ensures p / q == k && p % q == r
  {
    var k', r' := p / q, p % q;
    assert p == q * k' + r' && 0 <= r' < q;
    if k' < k {
      TimesMonotone(k' + 1, k, q);
    } else if k' > k {
      TimesMonotone(k + 1, k', q);
    }
  }

  lemma DivStep(p: nat, q: nat)
    requires 0 < q <= p
    ensures p / q == (p - q) / q + 1 && p % q == (p - q) % q
  {
    var k, r := (p - q) / q, (p - q) % q;
    assert p == (k + 1) * q + r;
    DivUnique(p, q, k + 1, r);
  }

  lemma DivMonotone(a: nat, b: nat, q: nat)
    requires q > 0 && a <= b
    ensures a / q <= b / q
  {
    assert a == q * (a / q) + a % q && b == q * (b / q) + b % q;
    if a / q > b / q {
      TimesMonotone(b / q + 1, a / q, q);
    }
  }

  lemma ScaledInRange(f: real, m: real)
    requires 0.0 <= f <= 1.0 && m >= 0.0
    ensures 0.0 <= f * m <= m
  {
    assert m - f * m == (1.0 - f) * m;
  }

  /** Python's `round`: to nearest, halves to even. */
  function RoundHalfEven(x: real): int {
    var f := x.Floor;
    var d := x - f as real;
    if d < 0.5 || (d == 0.5 && f % 2 == 0) then f else f + 1
  }

  /** The nearest whole number, and of two the even one. */
  lemma RoundHalfEvenIff(x: real, k: int)
    ensures RoundHalfEven(x) == k
       <==> || -0.5 < x - k as real < 0.5
            || ((x - k as real == 0.5 || x - k as real == -0.5) && k % 2 == 0)
  {
    var f := x.Floor;
    assert f as real <= x < f as real + 1.0;
  }

  lemma RoundNear(x: real)
    ensures -0.5 <= RoundHalfEven(x) as real - x <= 0.5
  {
  }
}
