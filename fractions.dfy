/**
 * Exact fractions of non-negative integers, as Python's fractions.Fraction
 * builds them from two integers: reduced to lowest terms by their greatest
 * common divisor, then passed through limit_denominator() with its default cap.
 */
module Fractions {
  import opened Options

  /** A non-negative fraction num/den; not necessarily reduced. */
  datatype Frac = Frac(num: nat, den: nat)

  /** limit_denominator()'s default max_denominator. */
  const MaxDenominator: nat := 1000000

  datatype FractionError =
    | ZeroDenominator      // Fraction(n, 0) raises ZeroDivisionError
    | BeyondDenominatorCap // limit_denominator() would approximate

  /** f * count == total, i.e. f is total/count. */
  predicate Scales(f: Frac, count: nat, total: nat) {
    f.den > 0 && f.num * count == total * f.den
  }

  /** k divides a. */
  ghost predicate Divides(k: nat, a: nat) {
    k > 0 && a % k == 0
  }

  /** Euclid's algorithm. */
  function Gcd(a: nat, b: nat): (g: nat)
    ensures g == 0 <==> a == 0 && b == 0
    decreases b
  {
    if b == 0 then a else Gcd(b, a % b)
  }

  lemma DividesMultiple(k: nat, q: nat)
    requires k > 0
    ensures Divides(k, k * q) && (k * q) / k == q
  {
  }

  lemma DividesWitness(k: nat, a: nat)
    requires Divides(k, a)
    ensures a == k * (a / k)
  {
  }

  /** Divisibility through a % b: a common divisor of b and a % b divides a, and conversely. */
  lemma DividesMod(k: nat, a: nat, b: nat)
    requires b > 0 && Divides(k, b)
    ensures Divides(k, a) <==> Divides(k, a % b)
  {
    var q, m := a / b, a % b;
    assert a == q * b + m;
    DividesWitness(k, b);
    var j := b / k;
    assert q * b == k * (q * j) by {
      assert b == k * j;
    }
    if Divides(k, m) {
      DividesWitness(k, m);
      var i := m / k;
      assert a == k * (q * j + i);
      DividesMultiple(k, q * j + i);
    }
    if Divides(k, a) {
      DividesWitness(k, a);
      var i := a / k;
      assert m == k * (i - q * j);
      assert i - q * j >= 0 by {
        assert k * (i - q * j) >= 0;
      }
      DividesMultiple(k, i - q * j);
    }
  }

  /** The gcd divides both numbers. */
  lemma {:induction false} GcdDivides(a: nat, b: nat)
    requires a > 0 || b > 0
    ensures Divides(Gcd(a, b), a) && Divides(Gcd(a, b), b)
    decreases b
  {
    if b == 0 {
      DividesMultiple(a, 1);
    } else {
      GcdDivides(b, a % b);
      DividesMod(Gcd(a, b), a, b);
    }
  }

  /** Every common divisor divides the gcd. */
  lemma {:induction false} GcdGreatest(a: nat, b: nat, k: nat)
    requires Divides(k, a) && Divides(k, b)
    ensures Divides(k, Gcd(a, b))
    decreases b
  {
    if b > 0 {
      DividesMod(k, a, b);
      GcdGreatest(b, a % b, k);
    }
  }

  /** n/d in lowest terms. */
  function Reduce(n: nat, d: nat): (f: Frac)
    requires d > 0
    ensures f.den > 0 && f.num * d == f.den * n
    ensures Gcd(f.num, f.den) == 1
    ensures f.den <= d
  {
    var g := Gcd(n, d);
    GcdDivides(n, d);
    DividesWitness(g, n);
    DividesWitness(g, d);
    var f := Frac(n / g, d / g);
    LowestTerms(n, d, g, f.num, f.den);
    f
  }

  lemma MulMonotone(a: nat, b: nat, c: nat)
    requires a <= b
    ensures a * c <= b * c
  {
    assert b * c == a * c + (b - a) * c;
  }

  lemma MulCancel(a: nat, b: nat, c: nat)
    requires c > 0 && a * c == b * c
    ensures a == b
  {
    if a < b {
      assert (a + 1) * c == a * c + c;
      MulMonotone(a + 1, b, c);
    } else if b < a {
      assert (b + 1) * c == b * c + c;
      MulMonotone(b + 1, a, c);
    }
  }

  /** A divisor of a positive number is at most that number. */
  lemma DividesLe(k: nat, a: nat)
    requires a > 0 && Divides(k, a)
    ensures k <= a
  {
    DividesWitness(k, a);
    var q := a / k;
    assert q >= 1;
    MulMonotone(1, q, k);
    assert q * k == k * q;
  }

  /** Scaling a number and a divisor of it by the same factor keeps the division. */
  lemma DividesScaled(g: nat, h: nat, m: nat)
    requires g > 0 && Divides(h, m)
    ensures Divides(g * h, g * m)
  {
    DividesWitness(h, m);
    var a := m / h;
    assert g * m == (g * h) * a by {
      assert m == h * a;
    }
    DividesMultiple(g * h, a);
  }

  /** Dividing two numbers by their gcd leaves numbers whose gcd is 1. */
  lemma LowestTerms(n: nat, d: nat, g: nat, n': nat, d': nat)
    requires d > 0 && g == Gcd(n, d)
    requires n == g * n' && d == g * d'
    ensures d' > 0 && n' * d == d' * n
    ensures Gcd(n', d') == 1
    ensures d' <= d
  {
    assert d' > 0;
    assert g > 0;
    MulMonotone(1, g, d');
    MulRotate(n', g, d');
    var h := Gcd(n', d');
    GcdDivides(n', d');
    DividesScaled(g, h, n');
    DividesScaled(g, h, d');
    GcdGreatest(n, d, g * h);
    DividesLe(g * h, g);
    GcdOne(g, h);
  }

  lemma MulRotate(x: nat, y: nat, z: nat)
    ensures x * (y * z) == z * (y * x)
  {
  }

  lemma GcdOne(g: nat, h: nat)
    requires g > 0 && h > 0 && g * h <= g
    ensures h == 1
  {
    MulMonotone(1, h, g);
    if h > 1 {
      assert 2 * g > g;
      MulMonotone(2, h, g);
    }
  }

  /**
   * Fraction(n, d).limit_denominator(): the fraction in lowest terms when its
   * denominator is within the cap.
   */
  function LimitDenominator(n: nat, d: nat): (r: Result<Frac, FractionError>)
    ensures d == 0 <==> r == Failure(ZeroDenominator)
    ensures r.Success? ==> Scales(r.value, d, n) && Gcd(r.value.num, r.value.den) == 1
                           && r.value.den <= MaxDenominator
    ensures d > 0 ==> (r.Success? <==> Reduce(n, d).den <= MaxDenominator)
  {
    if d == 0 then Failure(ZeroDenominator)
    else
      var f := Reduce(n, d);
      if f.den <= MaxDenominator then Success(f) else Failure(BeyondDenominatorCap)
  }

  /** Lowest terms are unique: two coprime fractions of the same value are the same fraction. */
  lemma LowestTermsUnique(f: Frac, f': Frac)
    requires f.den > 0 && f'.den > 0
    requires Gcd(f.num, f.den) == 1 && Gcd(f'.num, f'.den) == 1
    requires f.num * f'.den == f'.num * f.den
    ensures f == f'
  {
    CoprimeDivides(f.num, f.den, f'.den, f'.num);
    assert f'.num * f.den == f.num * f'.den;
    CoprimeDivides(f'.num, f'.den, f.den, f.num);
    DividesLe(f.den, f'.den);
    DividesLe(f'.den, f.den);
    assert f.num * f.den == f'.num * f.den;
    MulCancel(f.num, f'.num, f.den);
  }

  /** Euclid's lemma in the form needed: if a and b are coprime and b divides a * c, then b divides c. */
  lemma CoprimeDivides(a: nat, b: nat, c: nat, e: nat)
    requires b > 0 && c > 0 && Gcd(a, b) == 1
    requires a * c == e * b
    ensures Divides(b, c)
  {
    GcdScales(a, b, c);
    ScaledPairDivisible(a, b, c, e);
    GcdGreatest(c * a, c * b, b);
  }

  lemma ScaledPairDivisible(a: nat, b: nat, c: nat, e: nat)
    requires b > 0 && a * c == e * b
    ensures Divides(b, c * a) && Divides(b, c * b)
  {
    assert c * a == b * e;
    assert c * b == b * c;
    DividesMultiple(b, e);
    DividesMultiple(b, c);
  }

  /** The gcd commutes with scaling: Gcd(c * a, c * b) == c * Gcd(a, b). */
  lemma {:induction false} GcdScales(a: nat, b: nat, c: nat)
    ensures Gcd(c * a, c * b) == c * Gcd(a, b)
    decreases b
  {
    if b == 0 {
      assert c * b == 0;
    } else if c == 0 {
      assert c * a == 0 && c * b == 0;
    } else {
      assert c * b > 0;
      ModScales(a, b, c);
      GcdScales(b, a % b, c);
    }
  }

  lemma ModScales(a: nat, b: nat, c: nat)
    requires b > 0 && c > 0
    ensures (c * a) % (c * b) == c * (a % b)
  {
    var q, m := a / b, a % b;
    assert c * a == q * (c * b) + c * m by {
      assert a == q * b + m;
      assert c * (q * b + m) == q * (c * b) + c * m;
    }
    MulMonotone(m + 1, b, c);
    assert (m + 1) * c == c * m + c;
    DivModUnique(c * a, c * b, q, c * m);
  }

  lemma DivModUnique(x: nat, y: nat, q: nat, m: nat)
    requires y > 0 && x == q * y + m && m < y
    ensures x % y == m
  {
    var q', m' := x / y, x % y;
    assert x == q' * y + m';
    if q' > q {
      assert (q + 1) * y == q * y + y;
      MulMonotone(q + 1, q', y);
    } else if q' < q {
      assert (q' + 1) * y == q' * y + y;
      MulMonotone(q' + 1, q, y);
    }
  }
}
