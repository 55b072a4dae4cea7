/** The polynomials of src/crypto/polynomial.cpp: coefficient vectors that are
    updated in place, products truncated to the size of their destination, and
    the Lagrange basis polynomial built by a loop that swaps two buffers. */
module Polynomial {
  import opened Modular
  import opened Interpolation

  // ---------------------------------------------------- exact polynomial ring

  /** The coefficient of x^i, zero outside the vector. */
  function Coeff(c: seq<int>, i: int): int {
    if 0 <= i < |c| then c[i] else 0
  }

  function Zeros(n: nat): (z: seq<int>)
    ensures |z| == n && forall i :: 0 <= i < n ==> z[i] == 0
  {
    seq(n, i => 0)
  }

  function PolyAdd(a: seq<int>, b: seq<int>): (c: seq<int>)
    ensures forall i {:trigger Coeff(c, i)} :: Coeff(c, i) == Coeff(a, i) + Coeff(b, i)
  {
    seq(if |a| < |b| then |b| else |a|, i => Coeff(a, i) + Coeff(b, i))
  }

  function PolyScale(y: int, a: seq<int>): (c: seq<int>)
    ensures |c| == |a| && forall i {:trigger Coeff(c, i)} :: Coeff(c, i) == y * Coeff(a, i)
  {
    seq(|a|, i requires 0 <= i < |a| => y * a[i])
  }

  /** The product, by the terms of the second factor. */
  function PolyMul(a: seq<int>, b: seq<int>): seq<int> {
    if b == [] then [] else PolyAdd(PolyScale(b[0], a), [0] + PolyMul(a, b[1..]))
  }

  lemma {:induction false} EvalAdd(a: seq<int>, b: seq<int>, x: int)
    ensures Eval(PolyAdd(a, b), x) == Eval(a, x) + Eval(b, x)
    decreases |a| + |b|
  {
    if a == [] {
      assert PolyAdd(a, b) == b;
    } else if b == [] {
      assert PolyAdd(a, b) == a;
    } else {
      EvalAdd(a[1..], b[1..], x);
      assert PolyAdd(a, b)[1..] == PolyAdd(a[1..], b[1..]);
      AddAlgebra(x, Eval(a[1..], x), Eval(b[1..], x), Eval(PolyAdd(a[1..], b[1..]), x));
    }
  }

  lemma AddAlgebra(x: int, u: int, v: int, w: int)
    requires w == u + v
    ensures x * w == x * u + x * v
  {
  }

  lemma {:induction false} EvalScale(y: int, a: seq<int>, x: int)
    ensures Eval(PolyScale(y, a), x) == y * Eval(a, x)
  {
    if a != [] {
      EvalScale(y, a[1..], x);
      assert PolyScale(y, a)[1..] == PolyScale(y, a[1..]);
      ScaleAlgebra(x, y, a[0], Eval(a[1..], x), Eval(PolyScale(y, a[1..]), x));
    }
  }

  lemma ScaleAlgebra(x: int, y: int, c: int, u: int, w: int)
    requires w == y * u
    ensures y * c + x * w == y * (c + x * u)
  {
  }

  /** The product polynomial takes the product of the values. */
  lemma {:induction false} EvalMul(a: seq<int>, b: seq<int>, x: int)
    ensures Eval(PolyMul(a, b), x) == Eval(a, x) * Eval(b, x)
  {
    if b != [] {
      EvalMul(a, b[1..], x);
      var m := PolyMul(a, b[1..]);
      EvalAdd(PolyScale(b[0], a), [0] + m, x);
      EvalScale(b[0], a, x);
      assert ([0] + m)[1..] == m;
      MulAlgebra(x, b[0], Eval(a, x), Eval(b[1..], x), Eval(m, x));
    }
  }

  lemma MulAlgebra(x: int, b: int, u: int, v: int, w: int)
    requires w == u * v
    ensures b * u + x * w == u * (b + x * v)
  {
    assert x * (u * v) == u * (x * v);
  }

  /** The contribution of the first `n` terms of `b` to the coefficient of x^i. */
  function PartialCoeff(a: seq<int>, b: seq<int>, i: int, n: nat): int
    requires n <= |b|
  {
    if n == 0 then 0 else PartialCoeff(a, b, i, n - 1) + b[n - 1] * Coeff(a, i - (n - 1))
  }

  lemma {:induction false} PartialFirst(a: seq<int>, b: seq<int>, i: int, n: nat)
    requires 1 <= n <= |b|
    ensures PartialCoeff(a, b, i, n) == b[0] * Coeff(a, i) + PartialCoeff(a, b[1..], i - 1, n - 1)
  {
    if n > 1 {
      PartialFirst(a, b, i, n - 1);
      assert b[1..][n - 2] == b[n - 1];
      assert (i - 1) - (n - 2) == i - (n - 1);
    } else {
      assert PartialCoeff(a, b, i, 0) == 0;
    }
  }

  lemma {:induction false} CoeffOfProduct(a: seq<int>, b: seq<int>, i: int)
    ensures Coeff(PolyMul(a, b), i) == PartialCoeff(a, b, i, |b|)
  {
    if b != [] {
      PartialFirst(a, b, i, |b|);
      CoeffOfProduct(a, b[1..], i - 1);
      var m := PolyMul(a, b[1..]);
      assert Coeff([0] + m, i) == Coeff(m, i - 1);
    }
  }

  // ------------------------------------------------------------- the class

  /** src/crypto/polynomial.h:19-42; `p` stands for the order of the curve. */
  class BigNumPolynomial {
    const p: int
    var coefficients: seq<int>

    constructor (p: int, coeffs: seq<int>)
      ensures this.p == p && coefficients == coeffs
    {
      this.p := p;
      coefficients := coeffs;
    }

    method Zero()
      modifies this
      ensures coefficients == Zeros(|old(coefficients)|)
    {
      var i := 0;
      while i < |coefficients|
        invariant 0 <= i <= |coefficients| == |old(coefficients)|
        invariant forall j :: 0 <= j < i ==> coefficients[j] == 0
      {
        coefficients := coefficients[i := 0];
        i := i + 1;
      }
      assert coefficients == Zeros(|old(coefficients)|);
    }

    /** The value modulo the order, with running powers of x. */
    method Evaluate(x: int) returns (result: int)
      requires p > 0
      ensures Cong(result, Eval(coefficients, x), p)
      ensures -p < result < p
      ensures x >= 0 && NonNegative(coefficients) ==> result >= 0
    {
      result := 0;
      var power := 1;
      ghost var exact := 1;
      ghost var sum := 0;
      CongRefl(0, p); CongRefl(1, p);
      var i := 0;
      while i < |coefficients|
        invariant 0 <= i <= |coefficients|
        invariant Cong(power, exact, p) && Cong(result, sum, p) && -p < result < p
        invariant sum + exact * Eval(coefficients[i..], x) == Eval(coefficients, x)
        invariant x >= 0 && NonNegative(coefficients) ==> power >= 0 && result >= 0
      {
        var c := coefficients[i];
        var term := TruncMod(power * c, p);
        result := EvaluateStep(result, power, c, term, sum, exact);
        HornerAlgebra(sum, exact, c, x, Eval(coefficients[i + 1..], x), Eval(coefficients[i..], x)) by {
          assert coefficients[i..][1..] == coefficients[i + 1..];
        }
        assert x >= 0 && NonNegative(coefficients) ==> power * x >= 0;
        PowerStep(power, exact, x);
        power := TruncMod(power * x, p);
        sum, exact := sum + exact * c, exact * x;
        i := i + 1;
      }
    }

    /** One accumulation of `evaluate`. */
    method EvaluateStep(result0: int, power: int, c: int, term: int, ghost sum: int, ghost exact: int)
      returns (result: int)
      requires p > 0
      requires term == TruncMod(power * c, p)
      requires Cong(power, exact, p) && Cong(result0, sum, p)
      ensures Cong(result, sum + exact * c, p)
      ensures -p < result < p
      ensures power >= 0 && c >= 0 && result0 >= 0 ==> result >= 0
    {
      CongRefl(c, p);
      CongMul(power, exact, c, c, p);
      CongTrans(term, power * c, exact * c, p);
      CongAdd(result0, sum, term, exact * c, p);
      assert power >= 0 && c >= 0 ==> power * c >= 0;
      result := TruncMod(result0 + term, p);
      CongTrans(result, result0 + term, sum + exact * c, p);
    }

    lemma PowerStep(power: int, exact: int, x: int)
      requires p > 0 && Cong(power, exact, p)
      ensures Cong(TruncMod(power * x, p), exact * x, p)
    {
      CongRefl(x, p);
      CongMul(power, exact, x, x, p);
      CongTrans(TruncMod(power * x, p), power * x, exact * x, p);
    }

    method MultiplyPower(power: nat)
      modifies this
      ensures coefficients == Zeros(power) + old(coefficients)
    {
      var i := 0;
      while i < power
        invariant 0 <= i <= power
        invariant coefficients == Zeros(i) + old(coefficients)
      {
        coefficients := [0] + coefficients;
        i := i + 1;
        assert Zeros(i) == [0] + Zeros(i - 1);
      }
    }

    method MultiplyBigNum(y: int)
      requires p > 0
      modifies this
      ensures |coefficients| == |old(coefficients)|
      ensures forall i :: 0 <= i < |coefficients| ==> coefficients[i] == TruncMod(y * old(coefficients)[i], p)
    {
      var i := 0;
      while i < |coefficients|
        invariant 0 <= i <= |coefficients| == |old(coefficients)|
        invariant forall j :: 0 <= j < i ==> coefficients[j] == TruncMod(y * old(coefficients)[j], p)
        invariant forall j :: i <= j < |coefficients| ==> coefficients[j] == old(coefficients)[j]
      {
        coefficients := coefficients[i := TruncMod(y * coefficients[i], p)];
        i := i + 1;
      }
    }

    /** Adds `poly`, dropping the coefficients that do not fit. */
    method AddBigNumPolynomial(poly: seq<int>)
      requires p > 0
      modifies this
      ensures |coefficients| == |old(coefficients)|
      ensures forall i :: 0 <= i < |coefficients| ==>
          coefficients[i] == if i < |poly| then TruncMod(old(coefficients)[i] + poly[i], p) else old(coefficients)[i]
    {
      var i := 0;
      while i < |poly| && i < |coefficients|
        invariant 0 <= i <= |coefficients| == |old(coefficients)| && i <= |poly|
        invariant forall j :: 0 <= j < i ==> coefficients[j] == TruncMod(old(coefficients)[j] + poly[j], p)
        invariant forall j :: i <= j < |coefficients| ==> coefficients[j] == old(coefficients)[j]
      {
        coefficients := coefficients[i := TruncMod(coefficients[i] + poly[i], p)];
        i := i + 1;
      }
    }
  }

  predicate NonNegative(c: seq<int>) {
    forall i :: 0 <= i < |c| ==> c[i] >= 0
  }

  lemma HornerAlgebra(sum: int, exact: int, c: int, x: int, rest: int, whole: int)
    requires whole == c + x * rest
    ensures sum + exact * c + (exact * x) * rest == sum + exact * whole
  {
    assert exact * (x * rest) == (exact * x) * rest;
  }

  // ---------------------------------------------------- the truncated product

  /** `BNPoly_multiply`: the product, truncated to the size that `result` has on
      entry (src/crypto/polynomial.cpp:129-144). */
  method MultiplyInto(result: BigNumPolynomial, poly1: seq<int>, poly2: seq<int>)
    requires result.p > 0
    modifies result
    ensures |result.coefficients| == |old(result.coefficients)|
    ensures forall k :: 0 <= k < |result.coefficients| ==>
        Cong(result.coefficients[k], Coeff(PolyMul(poly1, poly2), k), result.p)
    ensures NonNegative(poly1) && NonNegative(poly2) ==> NonNegative(result.coefficients)
  {
    result.Zero();
    CongRefl(0, result.p);
    var i := 0;
    while i < |poly2|
      invariant 0 <= i <= |poly2|
      invariant |result.coefficients| == |old(result.coefficients)|
      invariant IsPartial(result.coefficients, poly1, poly2, i, result.p)
      invariant NonNegative(poly1) && NonNegative(poly2) ==> NonNegative(result.coefficients)
    {
      AddTerm(result, poly1, poly2, i);
      i := i + 1;
    }
    forall k | 0 <= k < |result.coefficients|
      ensures Cong(result.coefficients[k], Coeff(PolyMul(poly1, poly2), k), result.p)
    {
      CoeffOfProduct(poly1, poly2, k);
    }
  }

  /** `c` holds the low coefficients of `a` times the first `i` terms of `b`. */
  ghost predicate IsPartial(c: seq<int>, a: seq<int>, b: seq<int>, i: nat, p: int)
    requires i <= |b|
  {
    forall k :: 0 <= k < |c| ==> Cong(c[k], PartialCoeff(a, b, k, i), p)
  }

  /** One round of `BNPoly_multiply`. */
  method AddTerm(result: BigNumPolynomial, poly1: seq<int>, poly2: seq<int>, i: nat)
    requires result.p > 0 && i < |poly2|
    requires IsPartial(result.coefficients, poly1, poly2, i, result.p)
    modifies result
    ensures |result.coefficients| == |old(result.coefficients)|
    ensures IsPartial(result.coefficients, poly1, poly2, i + 1, result.p)
    ensures NonNegative(poly1) && poly2[i] >= 0 && NonNegative(old(result.coefficients)) ==>
        NonNegative(result.coefficients)
  {
    ghost var before := result.coefficients;
    var term := new BigNumPolynomial(result.p, poly1);
    term.MultiplyBigNum(poly2[i]);
    ghost var scaled := term.coefficients;
    term.MultiplyPower(i);
    ghost var shifted := term.coefficients;
    result.AddBigNumPolynomial(term.coefficients);
    PartialStep(before, scaled, shifted, result.coefficients, poly1, poly2, i, result.p);
    if NonNegative(poly1) && poly2[i] >= 0 && NonNegative(before) {
      StaysNonNegative(before, scaled, shifted, result.coefficients, poly1, poly2[i], i, result.p);
    }
  }

  lemma PartialStep(before: seq<int>, scaled: seq<int>, term: seq<int>, after: seq<int>,
                    a: seq<int>, b: seq<int>, i: nat, p: int)
    requires p > 0 && i < |b|
    requires IsPartial(before, a, b, i, p)
    requires |scaled| == |a| && forall j :: 0 <= j < |a| ==> scaled[j] == TruncMod(b[i] * a[j], p)
    requires term == Zeros(i) + scaled
    requires |after| == |before| && forall k :: 0 <= k < |after| ==>
        after[k] == if k < |term| then TruncMod(before[k] + term[k], p) else before[k]
    ensures IsPartial(after, a, b, i + 1, p)
  {
    forall k | 0 <= k < |after|
      ensures Cong(after[k], PartialCoeff(a, b, k, i + 1), p)
    {
      ProductStep(before[k], scaled, term, a, b, k, i, p);
    }
  }

  lemma ProductStep(before: int, scaled: seq<int>, term: seq<int>, a: seq<int>, b: seq<int>, k: nat, i: nat, p: int)
    requires p > 0 && i < |b|
    requires |scaled| == |a| && forall j :: 0 <= j < |a| ==> scaled[j] == TruncMod(b[i] * a[j], p)
    requires term == Zeros(i) + scaled
    requires Cong(before, PartialCoeff(a, b, k, i), p)
    ensures Cong(if k < |term| then TruncMod(before + term[k], p) else before, PartialCoeff(a, b, k, i + 1), p)
  {
    var s := PartialCoeff(a, b, k, i);
    if k < |term| {
      var t := b[i] * Coeff(a, k - i);
      if k < i { assert term[k] == 0 && t == 0; CongRefl(0, p); } else { assert term[k] == scaled[k - i]; }
      CongAdd(before, s, term[k], t, p);
      CongTrans(TruncMod(before + term[k], p), before + term[k], s + t, p);
    } else {
      assert b[i] * 0 == 0;
    }
  }

  lemma StaysNonNegative(before: seq<int>, scaled: seq<int>, term: seq<int>, after: seq<int>,
                         a: seq<int>, y: int, i: nat, p: int)
    requires p > 0 && NonNegative(before) && NonNegative(a) && y >= 0
    requires |scaled| == |a| && forall j :: 0 <= j < |a| ==> scaled[j] == TruncMod(y * a[j], p)
    requires term == Zeros(i) + scaled
    requires |after| == |before| && forall k :: 0 <= k < |after| ==>
        after[k] == if k < |term| then TruncMod(before[k] + term[k], p) else before[k]
    ensures NonNegative(after)
  {
    forall j | 0 <= j < |a| ensures scaled[j] >= 0 { MulNonNegative(y, a[j]); }
  }

  method Swap(poly1: BigNumPolynomial, poly2: BigNumPolynomial)
    modifies poly1, poly2
    ensures poly1.coefficients == old(poly2.coefficients)
    ensures poly2.coefficients == old(poly1.coefficients)
  {
    var temp := poly1.coefficients;
    poly1.coefficients := poly2.coefficients;
    poly2.coefficients := temp;
  }

  // ------------------------------------------------------------ Lagrange basis

  /** The points before position k other than the j-th. */
  function Before(xs: seq<int>, j: nat, k: nat): seq<int>
    requires j < |xs| && k <= |xs|
  {
    if k <= j then xs[..k] else xs[..j] + xs[j + 1..k]
  }

  /** `LagrangePoly` (src/crypto/polynomial.cpp:154-186). The buffers have sizes
      one and two, so all but the low coefficients are lost; the constant term is
      the Lagrange coefficient at zero all the same. */
  method LagrangePoly(j: nat, values: seq<int>, p: int) returns (result: BigNumPolynomial)
    requires p >= 2 && j < |values|
    ensures fresh(result) && result.p == p
    ensures |result.coefficients| == 1 + (|values| - 1) % 2
    ensures Cong(result.coefficients[0], Lambda(values, j, p), p)
    ensures NonNegative(values) ==> NonNegative(result.coefficients)
  {
    hide Weight;
    WeightEmpty(values[j], p);
    result := new BigNumPolynomial(p, [1]);
    var factor := new BigNumPolynomial(p, [0, 0]);
    var product := new BigNumPolynomial(p, [0, 0]);
    CongRefl(1, p);
    ghost var xj, done: seq<int> := values[j], [];
    var k := 0;
    while k < |values|
      invariant 0 <= k <= |values|
      invariant fresh(result) && fresh(factor) && fresh(product)
      invariant result != factor && result != product && factor != product
      invariant result.p == factor.p == product.p == p
      invariant |factor.coefficients| == 2
      invariant |result.coefficients| == BufferSize(j, k)
      invariant |product.coefficients| == 3 - BufferSize(j, k)
      invariant done == Before(values, j, k)
      invariant Cong(result.coefficients[0], Weight(xj, done, p), p)
      invariant NonNegative(values) ==> NonNegative(result.coefficients)
    {
      BeforeAppend(values, j, k);
      if k != j {
        Round(result, factor, product, values[j], values[k], done);
        done := done + [values[k]];
      }
      k := k + 1;
    }
    assert done == Others(values, j);
  }

  lemma WeightEmpty(x: int, p: int)
    requires p >= 2
    ensures Weight(x, [], p) == 1
  {
  }

  /** The size of `result` before round k. */
  function BufferSize(j: nat, k: nat): nat {
    1 + (if k <= j then k else k - 1) % 2
  }

  lemma BeforeAppend(values: seq<int>, j: nat, k: nat)
    requires j < |values| && k < |values|
    ensures Before(values, j, k + 1) == if k == j then Before(values, j, k) else Before(values, j, k) + [values[k]]
    ensures BufferSize(j, k + 1) == if k == j then BufferSize(j, k) else 3 - BufferSize(j, k)
  {
    if k == j {
      assert Before(values, j, k + 1) == Before(values, j, k);
    } else {
      assert Before(values, j, k + 1) == Before(values, j, k) + [values[k]];
    }
  }

  /** One round of the loop of `LagrangePoly`, after which `result` accounts for
      the point x_k as well as the points `done`. */
  method Round(result: BigNumPolynomial, factor: BigNumPolynomial, product: BigNumPolynomial,
               xj: int, xk: int, ghost done: seq<int>)
    requires result != factor && result != product && factor != product
    requires result.p == factor.p == product.p >= 2
    requires |factor.coefficients| == 2 && result.coefficients != [] && product.coefficients != []
    requires Cong(result.coefficients[0], Weight(xj, done, result.p), result.p)
    modifies result, factor, product
    ensures |factor.coefficients| == 2
    ensures |result.coefficients| == |old(product.coefficients)|
    ensures |product.coefficients| == |old(result.coefficients)|
    ensures Cong(result.coefficients[0], Weight(xj, done + [xk], result.p), result.p)
    ensures xk >= 0 && NonNegative(old(result.coefficients)) ==> NonNegative(result.coefficients)
  {
    MultiplyFactor(result, factor, product, xj, xk, Weight(xj, done, result.p));
    WeightAppend(xj, done, xk, result.p);
    Swap(result, product);
  }

  /** `product` becomes `result` times (x - x_k) / (x_j - x_k),
      truncated; `w` is the weight accumulated so far. */
  method MultiplyFactor(result: BigNumPolynomial, factor: BigNumPolynomial, product: BigNumPolynomial,
                        xj: int, xk: int, ghost w: int)
    requires result != factor && result != product && factor != product
    requires result.p == factor.p == product.p >= 2
    requires |factor.coefficients| == 2 && result.coefficients != [] && product.coefficients != []
    requires Cong(result.coefficients[0], w, result.p)
    modifies factor, product
    ensures |factor.coefficients| == 2 && |product.coefficients| == |old(product.coefficients)|
    ensures Cong(product.coefficients[0], w * Factor(xj, xk, result.p), result.p)
    ensures xk >= 0 && NonNegative(result.coefficients) ==> NonNegative(product.coefficients)
  {
    var p := result.p;
    var difference := TruncMod(xj - xk, p);
    var inverse := InverseMod(difference, p);
    factor.Zero();
    var negated := TruncMod((p - 1) * xk, p);
    factor.coefficients := factor.coefficients[0 := negated][1 := 1];
    factor.MultiplyBigNum(inverse);
    MultiplyInto(product, result.coefficients, factor.coefficients);
    var r, f := result.coefficients, factor.coefficients;
    FactorTerm(xj, xk, difference, inverse, negated, f[0], p);
    if xk >= 0 { NonNegativeFactor(xk, inverse, negated, f, p); }
    ConstantTerm(r, f);
    WeightStep(r[0], f[0], w, Factor(xj, xk, p), product.coefficients[0], p);
  }

  /** The constant term of the linear factor is -x_k / (x_j - x_k). */
  lemma FactorTerm(xj: int, xk: int, difference: int, inverse: int, negated: int, f: int, p: int)
    requires p >= 2
    requires difference == TruncMod(xj - xk, p)
    requires inverse == InverseMod(difference, p)
    requires negated == TruncMod((p - 1) * xk, p)
    requires f == TruncMod(inverse * negated, p)
    ensures Cong(f, Factor(xj, xk, p), p)
  {
    CongIffMod(difference, xj - xk, p);
    assert inverse == InverseMod(xj - xk, p);
    assert (p - 1) * xk == -xk + xk * p;
    CongBy((p - 1) * xk, -xk, p, xk);
    CongTrans(negated, (p - 1) * xk, -xk, p);
    CongScale(inverse, negated, -xk, p);
    CongTrans(f, inverse * negated, inverse * -xk, p);
    assert inverse * -xk == -xk * inverse;
  }

  lemma NonNegativeFactor(xk: int, inverse: int, negated: int, f: seq<int>, p: int)
    requires p >= 2 && xk >= 0 && 0 <= inverse
    requires negated == TruncMod((p - 1) * xk, p)
    requires |f| == 2 && f[0] == TruncMod(inverse * negated, p) && f[1] == TruncMod(inverse * 1, p)
    ensures NonNegative(f)
  {
    MulNonNegative(p - 1, xk);
    MulNonNegative(inverse, negated);
  }

  lemma MulNonNegative(a: int, b: int)
    requires a >= 0 && b >= 0
    ensures a * b >= 0
  {
  }

  lemma ConstantTerm(a: seq<int>, b: seq<int>)
    requires a != [] && b != []
    ensures Coeff(PolyMul(a, b), 0) == a[0] * b[0]
  {
    CoeffOfProduct(a, b, 0);
    PartialFirst(a, b, 0, |b|);
    NoLowerTerms(a, b[1..], |b| - 1);
    Commute(a[0], b[0]);
  }

  lemma Commute(a: int, b: int)
    ensures a * b == b * a
  {
  }

  lemma {:induction false} NoLowerTerms(a: seq<int>, b: seq<int>, n: nat)
    requires n <= |b|
    ensures PartialCoeff(a, b, -1, n) == 0
  {
    if n > 0 {
      NoLowerTerms(a, b, n - 1);
      assert b[n - 1] * 0 == 0;
    }
  }

  lemma WeightStep(r: int, f: int, w: int, g: int, product: int, p: int)
    requires Cong(r, w, p) && Cong(f, g, p)
    requires Cong(product, r * f, p)
    ensures Cong(product, w * g, p)
  {
    CongMul(r, w, f, g, p);
    CongTrans(product, r * f, w * g, p);
  }
}
