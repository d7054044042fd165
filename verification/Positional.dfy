/** Positional notation: digit `i` of a number in base `b`, counted from the least significant. */
module Positional {
  function Pow(b: nat, k: nat): nat {
    if k == 0 then 1 else b * Pow(b, k - 1)
  }

  lemma {:induction false} PowPositive(b: nat, k: nat)
    requires b > 0
    ensures Pow(b, k) > 0
  {
    if k > 0 {
      PowPositive(b, k - 1);
      ProductPositive(b, Pow(b, k - 1));
    }
  }

  lemma ProductPositive(a: nat, b: nat)
    requires a > 0 && b > 0
    ensures a * b > 0
  {
  }

  function Digit(n: nat, b: nat, i: nat): nat
    requires b > 0
  {
    PowPositive(b, i);
    n / Pow(b, i) % b
  }

  // ---- products, kept away from the solver's nonlinear arithmetic ------------------

  function Mul(x: int, y: int): int {
    x * y
  }

  lemma MulMono(d: nat, x: int, y: int)
    requires x <= y
    ensures Mul(d, x) <= Mul(d, y)
  {
    assert d * (y - x) >= 0;
  }

  lemma MulAdds(d: int, x: int, y: int)
    ensures Mul(d, x + y) == Mul(d, x) + Mul(d, y) && Mul(d, 1) == d
  {
  }

  lemma MulAssoc(a: int, b: int, y: int)
    ensures Mul(a, Mul(b, y)) == Mul(Mul(a, b), y)
  {
  }

  function Quotient(n: nat, d: nat): nat
    requires d > 0
  {
    n / d
  }

  lemma QuotientBounds(n: nat, d: nat)
    requires d > 0
    ensures Mul(d, Quotient(n, d)) <= n < Mul(d, Quotient(n, d)) + d
  {
    assert n == d * (n / d) + n % d;
  }

  /** The quotient is the number that fits. */
  lemma QuotientUnique(n: nat, d: nat, q: nat)
    requires d > 0 && Mul(d, q) <= n < Mul(d, q) + d
    ensures Quotient(n, d) == q
  {
    hide Mul, Quotient;
    QuotientBounds(n, d);
    var p := Quotient(n, d);
    MulAdds(d, p, 1);
    MulAdds(d, q, 1);
    if p < q {
      MulMono(d, p + 1, q);
    } else if q < p {
      MulMono(d, q + 1, p);
    }
  }

  lemma DivDiv(n: nat, a: nat, b: nat)
    requires a > 0 && b > 0 && Mul(a, b) > 0
    ensures Quotient(n, Mul(a, b)) == Quotient(Quotient(n, a), b)
  {
    hide Mul, Quotient;
    var x := Quotient(n, a);
    var y := Quotient(x, b);
    QuotientBounds(n, a);
    QuotientBounds(x, b);
    MulMono(a, Mul(b, y), x);
    MulAssoc(a, b, y);
    MulMono(a, x + 1, Mul(b, y) + b);
    MulAdds(a, x, 1);
    MulAdds(a, Mul(b, y), b);
    QuotientUnique(n, Mul(a, b), y);
  }

  /** Shifting one digit out. */
  lemma DigitShift(n: nat, b: nat, i: nat)
    requires b > 0
    ensures Digit(n, b, 0) == n % b
    ensures Digit(n, b, i + 1) == Digit(n / b, b, i)
  {
    PowPositive(b, i);
    PowPositive(b, i + 1);
    assert Pow(b, i + 1) == Mul(b, Pow(b, i));
    DivDiv(n, b, Pow(b, i));
    assert n / Pow(b, i + 1) == Quotient(n, Mul(b, Pow(b, i)));
    assert n / b / Pow(b, i) == Quotient(Quotient(n, b), Pow(b, i));
  }

  /** One more digit at the low end. */
  lemma PowStep(n: nat, b: nat, k: nat)
    requires b > 0
    ensures n / b < Pow(b, k) <==> n < Pow(b, k + 1)
  {
    assert Pow(b, k + 1) == Mul(b, Pow(b, k)) && Quotient(n, b) == n / b;
    hide Mul, Quotient, Pow;
    QuotientBounds(n, b);
    MulAdds(b, Quotient(n, b), 1);
    if Quotient(n, b) < Pow(b, k) {
      MulMono(b, Quotient(n, b) + 1, Pow(b, k));
    } else {
      MulMono(b, Pow(b, k), Quotient(n, b));
    }
  }
}
