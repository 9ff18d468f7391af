/** gcf, lcm and reduce_fraction of bindings/python/rad_util.py on integers of
    either sign, with Python's floor division and floor modulus. */
module Euclid {

  /** Python's a % b: the remainder takes the sign of b. */
  function FloorMod(a: int, b: int): int
    requires b != 0
  {
    if b > 0 then a % b else -((-a) % (-b))
  }

  /** Python 2's a / b on integers: rounds towards minus infinity. */
  function FloorDiv(a: int, b: int): int
    requires b != 0
  {
    if b > 0 then a / b else (-a) / (-b)
  }

  function Abs(x: int): nat { if x < 0 then -x else x }

  ghost predicate Divides(d: int, x: int) { exists k :: x == d * k }

  /** g is the common divisor that every common divisor divides. */
  ghost predicate IsGcd(g: int, a: int, b: int) {
    && g >= 0 && Divides(g, a) && Divides(g, b)
    && forall d :: Divides(d, a) && Divides(d, b) ==> Divides(d, g)
  }

  /** |m| is the common multiple that divides every common multiple. */
  ghost predicate IsLcm(m: int, a: int, b: int) {
    && Divides(a, m) && Divides(b, m)
    && forall n :: Divides(a, n) && Divides(b, n) ==> Divides(m, n)
  }

  lemma DividesCombination(d: int, x: int, y: int, p: int, q: int)
    requires Divides(d, x) && Divides(d, y)
    ensures Divides(d, p * x + q * y)
  {
    var i :| x == d * i;
    var j :| y == d * j;
    assert p * x + q * y == d * (p * i + q * j) by {
      assert p * (d * i) == d * (p * i);
      assert q * (d * j) == d * (q * j);
    }
  }

  lemma FloorModStep(a: int, b: int)
    requires b != 0
    ensures a == b * FloorDiv(a, b) + FloorMod(a, b) && Abs(FloorMod(a, b)) < Abs(b)
  {
    if b < 0 { assert -a == -b * ((-a) / (-b)) + (-a) % (-b); }
  }

  /** x and y are combinations of a and b, and a and b are combinations of x and y. */
  datatype Bezout = Bezout(xa: int, xb: int, ya: int, yb: int, ax: int, ay: int, bx: int, by_: int)

  ghost predicate Related(z: Bezout, a: int, b: int, x: int, y: int) {
    && x == z.xa * a + z.xb * b && y == z.ya * a + z.yb * b
    && a == z.ax * x + z.ay * y && b == z.bx * x + z.by_ * y
  }

  /** One turn of Euclid's loop: (x, y) becomes (y, x - y * k). */
  lemma EuclidStep(z: Bezout, a: int, b: int, x: int, y: int, k: int, r: int)
    requires Related(z, a, b, x, y) && x == y * k + r
    ensures Related(Bezout(z.ya, z.yb, z.xa - z.ya * k, z.xb - z.yb * k,
                           z.ax * k + z.ay, z.ax, z.bx * k + z.by_, z.bx), a, b, y, r)
  {
    Subtract(z.xa, z.xb, z.ya, z.yb, a, b, k);
    Regroup(z.ax, z.ay, y, k, r);
    Regroup(z.bx, z.by_, y, k, r);
  }

  lemma Subtract(xa: int, xb: int, ya: int, yb: int, a: int, b: int, k: int)
    ensures xa * a + xb * b - (ya * a + yb * b) * k == (xa - ya * k) * a + (xb - yb * k) * b
  {
    assert ya * a * k == ya * k * a && yb * b * k == yb * k * b;
  }

  lemma Regroup(p: int, q: int, y: int, k: int, r: int)
    ensures p * (y * k + r) + q * y == (p * k + q) * y + p * r
  {
    assert p * (y * k + r) == p * (y * k) + p * r;
    assert p * (y * k) == p * k * y;
  }

  lemma ZeroRemainder(z: Bezout, a: int, b: int, x: int)
    requires Related(z, a, b, x, 0)
    ensures IsGcd(Abs(x), a, b)
    ensures exists p, q :: Abs(x) == p * a + q * b
  {
    var g := Abs(x);
    var s := if x < 0 then -1 else 1;
    assert a == g * (s * z.ax) && b == g * (s * z.bx);
    assert g == (s * z.xa) * a + (s * z.xb) * b;
    forall d | Divides(d, a) && Divides(d, b) ensures Divides(d, g) {
      DividesCombination(d, a, b, s * z.xa, s * z.xb);
    }
  }

  method Gcf(a: int, b: int) returns (g: int)
    ensures IsGcd(g, a, b)
    ensures exists p, q :: g == p * a + q * b
    ensures g == 0 <==> a == 0 && b == 0
  {
    var result, remainder := if a > b then a else b, if a > b then b else a;
    ghost var z := if a > b then Bezout(1, 0, 0, 1, 1, 0, 0, 1) else Bezout(0, 1, 1, 0, 0, 1, 1, 0);
    while remainder != 0
      invariant Related(z, a, b, result, remainder)
      decreases Abs(remainder)
    {
      var newRemainder := FloorMod(result, remainder);
      ghost var k := FloorDiv(result, remainder);
      FloorModStep(result, remainder);
      EuclidStep(z, a, b, result, remainder, k, newRemainder);
      z := Bezout(z.ya, z.yb, z.xa - z.ya * k, z.xb - z.yb * k, z.ax * k + z.ay, z.ax, z.bx * k + z.by_, z.bx);
      result, remainder := remainder, newRemainder;
    }
    ZeroRemainder(z, a, b, result);
    g := Abs(result);
  }

  lemma ExactDivision(x: int, g: int)
    requires g > 0 && Divides(g, x)
    ensures x == g * FloorDiv(x, g)
  {
    var k :| x == g * k;
    var t := k - x / g;
    assert g * t == x % g;
    SmallMultiple(g, t);
  }

  lemma SmallMultiple(g: int, t: int)
    requires 0 <= g * t < g
    ensures t == 0
  {
  }

  /** Among the common divisors of numbers not both 0, the gcd is the greatest. */
  lemma GcdIsGreatest(g: int, a: int, b: int, d: int)
    requires IsGcd(g, a, b) && (a != 0 || b != 0) && Divides(d, a) && Divides(d, b)
    ensures d <= g
  {
    assert g != 0;
    var k :| g == d * k;
    if d > 0 { FactorIsSmaller(d, k); }
  }

  lemma FactorIsSmaller(d: int, k: int)
    requires d > 0 && d * k > 0
    ensures d <= d * k
  {
  }

  /** The absolute value of an lcm is the least of the positive common multiples. */
  lemma LcmIsLeast(m: int, a: int, b: int, n: int)
    requires IsLcm(m, a, b) && n != 0 && Divides(a, n) && Divides(b, n)
    ensures 0 < Abs(m) <= Abs(n)
  {
    var k :| n == m * k;
    ProductIsLarger(m, k);
  }

  lemma ProductIsLarger(m: int, k: int)
    requires m * k != 0
    ensures 0 < Abs(m) <= Abs(m * k)
  {
    assert Abs(m * k) == Abs(m) * Abs(k);
    assert Abs(k) >= 1;
    assert Abs(m) * Abs(k) == Abs(m) + Abs(m) * (Abs(k) - 1);
  }

  method Lcm(a: int, b: int) returns (m: int)
    ensures IsLcm(m, a, b)
    ensures m >= 0 <==> a == 0 || b == 0 || (a > 0 <==> b > 0)
  {
    var denom := Gcf(a, b);
    if denom == 0 {
      m := 0;
      assert 0 == a * 0 && 0 == b * 0;
      forall n | Divides(a, n) ensures Divides(0, n) { assert n == 0 * 0; }
    } else {
      ExactDivision(a, denom);
      ExactDivision(b, denom);
      m := a * FloorDiv(b, denom);
      LcmDividesAll(denom, a, b, FloorDiv(a, denom), FloorDiv(b, denom), m);
      SignOfProduct(denom, FloorDiv(b, denom));
      SignOfProduct(a, FloorDiv(b, denom));
    }
  }

  lemma SignOfProduct(x: int, y: int)
    ensures x * y == 0 <==> x == 0 || y == 0
    ensures x * y > 0 <==> (x > 0 && y > 0) || (x < 0 && y < 0)
  {
  }

  /** If g = p a + q b divides a and b, then a b / g divides every common multiple. */
  lemma LcmDividesAll(g: int, a: int, b: int, i: int, j: int, m: int)
    requires g > 0 && a == g * i && b == g * j && m == a * j
    requires exists p, q :: g == p * a + q * b
    ensures IsLcm(m, a, b)
  {
    assert m == b * i by { assert g * i * j == g * j * i; }
    var p, q :| g == p * a + q * b;
    forall n | Divides(a, n) && Divides(b, n) ensures Divides(m, n) {
      var u :| n == a * u;
      var v :| n == b * v;
      CommonMultiple(g, a, b, j, m, p, q, n, u, v);
    }
  }

  lemma CommonMultiple(g: int, a: int, b: int, j: int, m: int, p: int, q: int, n: int, u: int, v: int)
    requires g > 0 && g == p * a + q * b && b == g * j && m == a * j && n == a * u == b * v
    ensures n == m * (p * v + q * u)
  {
    var ab := a * b;
    assert ab == g * m by { assert a * (g * j) == g * (a * j); }
    assert p * a * n == ab * (p * v) by { Shuffle(p, a, b, v); }
    assert q * b * n == ab * (q * u) by { Shuffle(q, b, a, u); assert b * a == ab; }
    assert g * n == ab * (p * v + q * u) by { Distribute(ab, p * v, q * u); Distribute(n, p * a, q * b); }
    assert g * n == g * (m * (p * v + q * u)) by { Associate(g, m, p * v + q * u); }
    CancelFactor(g, n, m * (p * v + q * u));
  }

  lemma Shuffle(p: int, a: int, b: int, v: int)
    ensures p * a * (b * v) == (a * b) * (p * v)
  {
    assert p * a * (b * v) == p * (a * b) * v;
  }

  lemma Distribute(x: int, y: int, z: int)
    ensures x * (y + z) == x * y + x * z && (y + z) * x == y * x + z * x
  {
  }

  lemma Associate(x: int, y: int, z: int)
    ensures (x * y) * z == x * (y * z)
  {
  }

  lemma CancelFactor(g: int, x: int, y: int)
    requires g > 0 && g * x == g * y
    ensures x == y
  {
    assert g * (x - y) == 0;
  }

  datatype Fraction = Fraction(numerator: int, denominator: int) | ZeroDivisionError

  method ReduceFraction(numerator: int, denominator: int) returns (r: Fraction)
    ensures r.ZeroDivisionError? <==> numerator == 0 && denominator == 0
    // a coprime pair with the same ratio and the same signs
    ensures r.Fraction? ==>
      && IsGcd(1, r.numerator, r.denominator)
      && exists g :: g > 0 && numerator == g * r.numerator && denominator == g * r.denominator
  {
    var g := Gcf(numerator, denominator);
    if g == 0 { return ZeroDivisionError; }
    ExactDivision(numerator, g);
    ExactDivision(denominator, g);
    r := Fraction(FloorDiv(numerator, g), FloorDiv(denominator, g));
    QuotientsAreCoprime(g, numerator, denominator, r.numerator, r.denominator);
  }

  lemma QuotientsAreCoprime(g: int, a: int, b: int, i: int, j: int)
    requires IsGcd(g, a, b) && g > 0 && a == g * i && b == g * j
    ensures IsGcd(1, i, j)
  {
    hide Divides;
    OneDivides(i);
    OneDivides(j);
    forall d | Divides(d, i) && Divides(d, j) ensures Divides(d, 1) {
      ScaleUp(g, d, i);
      ScaleUp(g, d, j);
      ScaleDown(g, d);
    }
  }

  lemma OneDivides(i: int)
    ensures Divides(1, i)
  {
    assert i == 1 * i;
  }

  lemma ScaleUp(g: int, d: int, i: int)
    requires Divides(d, i)
    ensures Divides(g * d, g * i)
  {
    var u :| i == d * u;
    assert g * i == (g * d) * u;
  }

  lemma ScaleDown(g: int, d: int)
    requires g > 0 && Divides(g * d, g)
    ensures Divides(d, 1)
  {
    var w :| g == (g * d) * w;
    assert (g * d) * w == g * (d * w);
    CancelFactor(g, d * w, 1);
    assert 1 == d * w;
  }
}
