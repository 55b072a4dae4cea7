/** Residue arithmetic modulo a positive integer, the conventions of the
    arbitrary-precision integers (src/crypto/bignum.h) and the field facts that
    hold when the modulus is prime. */
module Modular {

  /** A product under a name of its own, so that quantifiers can hang on it. */
  function Times(k: int, m: int): int { k * m }

  ghost predicate Divides(d: int, n: int) {
    exists k :: Times(k, d) == n
  }

  /** `a` and `b` leave the same residue modulo `m`. */
  ghost predicate Cong(a: int, b: int, m: int) {
    Divides(m, a - b)
  }

  ghost predicate IsPrime(p: int) {
    2 <= p && forall d :: 2 <= d < p ==> !Divides(d, p)
  }

  // ---------------------------------------------------------------- congruence

  lemma CongBy(a: int, b: int, m: int, k: int)
    requires a == b + k * m
    ensures Cong(a, b, m)
  {
    assert Times(k, m) == a - b;
  }

  lemma CongQuotient(a: int, b: int, m: int) returns (k: int)
    requires Cong(a, b, m)
    ensures a == b + k * m
  {
    k :| Times(k, m) == a - b;
  }

  lemma CongRefl(a: int, m: int)
    ensures Cong(a, a, m)
  {
    CongBy(a, a, m, 0);
  }

  lemma CongSym(a: int, b: int, m: int)
    requires Cong(a, b, m)
    ensures Cong(b, a, m)
  {
    var k := CongQuotient(a, b, m);
    CongBy(b, a, m, -k);
  }

  lemma CongTrans(a: int, b: int, c: int, m: int)
    requires Cong(a, b, m) && Cong(b, c, m)
    ensures Cong(a, c, m)
  {
    var k := CongQuotient(a, b, m);
    var l := CongQuotient(b, c, m);
    assert (k + l) * m == k * m + l * m;
    CongBy(a, c, m, k + l);
  }

  lemma CongAdd(a: int, b: int, c: int, d: int, m: int)
    requires Cong(a, b, m) && Cong(c, d, m)
    ensures Cong(a + c, b + d, m)
  {
    var k := CongQuotient(a, b, m);
    var l := CongQuotient(c, d, m);
    assert (k + l) * m == k * m + l * m;
    CongBy(a + c, b + d, m, k + l);
  }

  lemma CongSub(a: int, b: int, c: int, d: int, m: int)
    requires Cong(a, b, m) && Cong(c, d, m)
    ensures Cong(a - c, b - d, m)
  {
    var k := CongQuotient(a, b, m);
    var l := CongQuotient(c, d, m);
    assert (k - l) * m == k * m - l * m;
    CongBy(a - c, b - d, m, k - l);
  }

  lemma CongMul(a: int, b: int, c: int, d: int, m: int)
    requires Cong(a, b, m) && Cong(c, d, m)
    ensures Cong(a * c, b * d, m)
  {
    var k := CongQuotient(a, b, m);
    var l := CongQuotient(c, d, m);
    calc {
      a * c;
      (b + k * m) * (d + l * m);
      b * d + (b * l) * m + (k * d) * m + (k * m * l) * m;
      b * d + (b * l + k * d + k * m * l) * m;
    }
    CongBy(a * c, b * d, m, b * l + k * d + k * m * l);
  }

  lemma CongScale(x: int, a: int, b: int, m: int)
    requires Cong(a, b, m)
    ensures Cong(x * a, x * b, m)
  {
    CongRefl(x, m);
    CongMul(x, x, a, b, m);
  }

  // ---------------------------------------------------------------- remainders

  /** The remainder of `CBigNum::operator%`: it truncates toward zero, so it has
      the sign of the dividend (src/crypto/bignum.h:677-684). */
  function TruncMod(a: int, m: int): (r: int)
    requires m > 0
    ensures Cong(r, a, m)
    ensures -m < r < m
    ensures a >= 0 ==> r >= 0
    ensures a <= 0 ==> r <= 0
  {
    CongMod(a, m); CongMod(-a, m);
    CongRefl(0, m); CongSub(0, 0, (-a) % m, -a, m);
    if a >= 0 then a % m else -((-a) % m)
  }

  lemma CongMod(a: int, m: int)
    requires m > 0
    ensures Cong(a % m, a, m)
  {
    CongBy(a % m, a, m, -(a / m));
  }

  lemma MulMonotone(a: int, b: int, m: int)
    requires 0 <= m && a <= b
    ensures a * m <= b * m
  {
  }

  lemma MultipleBetween(k: int, m: int)
    requires m > 0
    requires -m < k * m < m
    ensures k == 0
  {
    if k >= 1 {
      MulMonotone(1, k, m);
    } else if k <= -1 {
      MulMonotone(k, -1, m);
    }
  }

  /** Two canonical residues that are congruent are equal. */
  lemma CongCanonical(a: int, b: int, m: int)
    requires 0 <= a < m && 0 <= b < m
    requires Cong(a, b, m)
    ensures a == b
  {
    var k := CongQuotient(a, b, m);
    MultipleBetween(k, m);
  }

  lemma CongIffMod(a: int, b: int, m: int)
    requires m > 0
    ensures Cong(a, b, m) <==> a % m == b % m
  {
    CongMod(a, m);
    CongMod(b, m);
    if Cong(a, b, m) {
      CongTrans(a % m, a, b, m);
      CongSym(b % m, b, m);
      CongTrans(a % m, b, b % m, m);
      CongCanonical(a % m, b % m, m);
    }
    if a % m == b % m {
      CongSym(a % m, a, m);
      CongTrans(a, a % m, b, m);
    }
  }

  // ------------------------------------------------------------------ inverses

  lemma DividesSum(g: int, a: int, b: int, x: int, y: int)
    requires Divides(g, a) && Divides(g, b)
    ensures Divides(g, a * x + b * y)
  {
    var k :| Times(k, g) == a;
    var l :| Times(l, g) == b;
    assert (k * g) * x + (l * g) * y == (k * x + l * y) * g;
    assert Times(k * x + l * y, g) == a * x + b * y;
  }

  /** The greatest common divisor with its Bezout coefficients. */
  function ExtendedGcd(a: nat, b: nat): (r: (nat, int, int))
    ensures r.0 == a * r.1 + b * r.2
    ensures Divides(r.0, a) && Divides(r.0, b)
    decreases b
  {
    if b == 0 then
      assert Times(1, a) == a && Times(0, a) == 0;
      (a, 1, 0)
    else
      var (g, x, y) := ExtendedGcd(b, a % b);
      GcdStep(a, b, g, x, y);
      (g, y, x - (a / b) * y)
  }

  lemma GcdStep(a: nat, b: nat, g: int, x: int, y: int)
    requires b > 0
    requires g == b * x + (a % b) * y
    requires Divides(g, b) && Divides(g, a % b)
    ensures g == a * y + b * (x - (a / b) * y)
    ensures Divides(g, a)
  {
    var q := a / b;
    assert a == b * q + a % b;
    calc {
      a * y + b * (x - q * y);
      (b * q + a % b) * y + b * x - b * (q * y);
      b * x + (a % b) * y;
      g;
    }
    DividesSum(g, b, a % b, q, 1);
  }

  /** `CBigNum::InverseMod`: the modular inverse in 0..m-1, and 0 when there is
      none (src/crypto/bignum.h:512-518). */
  function InverseMod(d: int, m: int): (r: int)
    requires m >= 2
    ensures 0 <= r < m
  {
    var (g, x, _) := ExtendedGcd(d % m, m);
    if g == 1 then x % m else 0
  }

  lemma InverseCorrect(d: int, p: int)
    requires IsPrime(p) && !Cong(d, 0, p)
    ensures Cong(d * InverseMod(d, p), 1, p)
  {
    var (g, x, y) := ExtendedGcd(d % p, p);
    InverseFacts(d, p, g, x, y);
  }

  lemma InverseFacts(d: int, m: int, g: nat, x: int, y: int)
    requires m >= 2
    requires g == (d % m) * x + m * y
    requires Divides(g, d % m) && Divides(g, m)
    ensures g == 1 ==> Cong(d * (x % m), 1, m)
    ensures IsPrime(m) && !Cong(d, 0, m) ==> g == 1
  {
    if g == 1 {
      UnitInverse(d, m, d % m, x, y);
    }
    if IsPrime(m) && !Cong(d, 0, m) {
      var k :| Times(k, g) == m;
      DivisorBound(k, g, m);
      if g == m {
        var l :| Times(l, g) == d % m;
        MultipleBetween(l, m);
        CongMod(d, m);
        CongSym(d % m, d, m);
      }
    }
  }

  lemma UnitInverse(d: int, m: int, r: int, x: int, y: int)
    requires m >= 2 && r == d % m && 1 == r * x + m * y
    ensures Cong(d * (x % m), 1, m)
  {
    hide Cong;
    CongMod(x, m);
    CongMod(d, m);
    CongMul(d, d, x % m, x, m) by { CongRefl(d, m); }
    CongSym(r, d, m);
    CongMul(d, r, x, x, m) by { CongRefl(x, m); }
    assert r * x == 1 + -y * m;
    CongBy(r * x, 1, m, -y);
    CongTrans(d * (x % m), d * x, r * x, m);
    CongTrans(d * (x % m), r * x, 1, m);
  }

  lemma DivisorBound(k: int, g: nat, m: int)
    requires Times(k, g) == m > 0
    ensures 1 <= g <= m
  {
    if k <= 0 {
      MulMonotone(k, 0, g);
    } else {
      MulMonotone(1, k, g);
    }
  }

  /** A factor that is not a multiple of the prime can be cancelled. */
  lemma CongCancel(d: int, a: int, b: int, p: int)
    requires IsPrime(p) && !Cong(d, 0, p)
    requires Cong(d * a, d * b, p)
    ensures Cong(a, b, p)
  {
    var r := InverseMod(d, p);
    InverseCorrect(d, p);
    CongScale(r, d * a, d * b, p);
    UndoFactor(d, r, a, p);
    UndoFactor(d, r, b, p);
    CongSym(r * (d * a), a, p);
    CongTrans(a, r * (d * a), r * (d * b), p);
    CongTrans(a, r * (d * b), b, p);
  }

  lemma UndoFactor(d: int, r: int, a: int, p: int)
    requires Cong(d * r, 1, p)
    ensures Cong(r * (d * a), a, p)
  {
    CongScale(a, d * r, 1, p);
    assert r * (d * a) == a * (d * r);
  }
}
