/** Lagrange interpolation at zero modulo a prime: the mathematics behind the
    threshold secret sharing of src/crypto/polynomial.cpp and
    src/crypto/teleportcrypto.cpp. */
module Interpolation {
  import opened Modular

  /** The value at `x` of the integer polynomial with coefficients `c`, lowest first. */
  function Eval(c: seq<int>, x: int): int {
    if c == [] then 0 else c[0] + x * Eval(c[1..], x)
  }

  /** The quotient of `c` by x - b. */
  function Quotient(c: seq<int>, b: int): (q: seq<int>)
    ensures |q| == if c == [] then 0 else |c| - 1
  {
    if |c| <= 1 then [] else [Eval(c[1..], b)] + Quotient(c[1..], b)
  }

  lemma {:induction false} QuotientValue(c: seq<int>, b: int, x: int)
    ensures Eval(c, x) - Eval(c, b) == (x - b) * Eval(Quotient(c, b), x)
  {
    if |c| > 1 {
      var t := c[1..];
      QuotientValue(t, b, x);
      assert Quotient(c, b)[1..] == Quotient(t, b);
      QuotientAlgebra(c[0], x, b, Eval(t, x), Eval(t, b), Eval(Quotient(t, b), x),
                      Eval(c, x), Eval(c, b), Eval(Quotient(c, b), x));
    } else if |c| == 1 {
      assert c[1..] == [];
    }
  }

  lemma QuotientAlgebra(c0: int, x: int, b: int, tx: int, tb: int, q: int, cx: int, cb: int, r: int)
    requires tx - tb == (x - b) * q
    requires cx == c0 + x * tx && cb == c0 + b * tb && r == tb + x * q
    ensures cx - cb == (x - b) * r
  {
    calc {
      (x - b) * (tb + x * q);
      (x - b) * tb + x * ((x - b) * q);
      (x - b) * tb + x * (tx - tb);
      x * tx - b * tb;
    }
  }

  // -------------------------------------------------------- Lagrange weights

  /** -b / (a - b), the factor that the point b contributes to the weight of a. */
  function Factor(a: int, b: int, p: int): int
    requires p >= 2
  {
    -b * InverseMod(a - b, p)
  }

  /** The product of the factors that the points `ys` contribute to `x`. */
  function Weight(x: int, ys: seq<int>, p: int): int
    requires p >= 2
  {
    if ys == [] then 1
    else Weight(x, ys[..|ys| - 1], p) * Factor(x, ys[|ys| - 1], p)
  }

  function Others(xs: seq<int>, i: nat): (ys: seq<int>)
    requires i < |xs|
  {
    xs[..i] + xs[i + 1..]
  }

  /** The Lagrange coefficient at zero of the `i`-th point. */
  function Lambda(xs: seq<int>, i: nat, p: int): int
    requires p >= 2 && i < |xs|
  {
    Weight(xs[i], Others(xs, i), p)
  }

  /** The first `n` terms of the sum over i of Lambda(xs, i) * f(xs[i]). */
  ghost function Combine(xs: seq<int>, n: nat, f: int -> int, p: int): int
    requires p >= 2 && n <= |xs|
  {
    if n == 0 then 0
    else Combine(xs, n - 1, f, p) + Lambda(xs, n - 1, p) * f(xs[n - 1])
  }

  ghost predicate Distinct(xs: seq<int>, p: int) {
    forall i, j :: 0 <= i < j < |xs| ==> !Cong(xs[i] - xs[j], 0, p)
  }

  lemma WeightAppend(x: int, ys: seq<int>, b: int, p: int)
    requires p >= 2
    ensures Weight(x, ys + [b], p) == Weight(x, ys, p) * Factor(x, b, p)
  {
    assert (ys + [b])[..|ys|] == ys;
  }

  lemma LambdaAppend(ys: seq<int>, b: int, i: nat, p: int)
    requires p >= 2 && i <= |ys|
    ensures i < |ys| ==> Lambda(ys + [b], i, p) == Lambda(ys, i, p) * Factor(ys[i], b, p)
    ensures i == |ys| ==> Lambda(ys + [b], i, p) == Weight(b, ys, p)
  {
    if i < |ys| {
      assert Others(ys + [b], i) == Others(ys, i) + [b];
      WeightAppend(ys[i], Others(ys, i), b, p);
    } else {
      assert Others(ys + [b], i) == ys;
    }
  }

  /** Sums over a longer list are weighted sums over the shorter one. */
  lemma {:induction false} CombineAppend(ys: seq<int>, b: int, n: nat, f: int -> int, g: int -> int, p: int)
    requires p >= 2 && n <= |ys|
    requires forall i :: 0 <= i < n ==> g(ys[i]) == Factor(ys[i], b, p) * f(ys[i])
    ensures Combine(ys + [b], n, f, p) == Combine(ys, n, g, p)
  {
    if n > 0 {
      CombineAppend(ys, b, n - 1, f, g, p);
      LambdaAppend(ys, b, n - 1, p);
      var y := ys[n - 1];
      assert (ys + [b])[n - 1] == y;
      MulAssoc(Lambda(ys, n - 1, p), Factor(y, b, p), f(y));
    }
  }

  lemma MulAssoc(a: int, b: int, c: int)
    ensures (a * b) * c == a * (b * c)
  {
  }

  lemma CombineWhole(ys: seq<int>, b: int, f: int -> int, g: int -> int, p: int)
    requires p >= 2
    requires forall i :: 0 <= i < |ys| ==> g(ys[i]) == Factor(ys[i], b, p) * f(ys[i])
    ensures Combine(ys + [b], |ys| + 1, f, p) == Combine(ys, |ys|, g, p) + Weight(b, ys, p) * f(b)
  {
    CombineAppend(ys, b, |ys|, f, g, p);
    LambdaAppend(ys, b, |ys|, p);
  }

  /** Congruences between the summands carry over to the sums. */
  lemma {:induction false} CombineLinear(xs: seq<int>, n: nat, d: int, g: int -> int,
                                         u: int, g1: int -> int, v: int, g2: int -> int, p: int)
    requires p >= 2 && n <= |xs|
    requires forall i :: 0 <= i < n ==> Cong(d * g(xs[i]), u * g1(xs[i]) + v * g2(xs[i]), p)
    ensures Cong(d * Combine(xs, n, g, p), u * Combine(xs, n, g1, p) + v * Combine(xs, n, g2, p), p)
  {
    if n == 0 {
      assert d * 0 == 0 && u * 0 == 0 && v * 0 == 0;
      CongRefl(0, p);
    } else {
      var x, l := xs[n - 1], Lambda(xs, n - 1, p);
      CombineLinear(xs, n - 1, d, g, u, g1, v, g2, p);
      LinearStep(d, Combine(xs, n - 1, g, p), u, Combine(xs, n - 1, g1, p), v, Combine(xs, n - 1, g2, p),
                 l, g(x), g1(x), g2(x), p);
    }
  }

  lemma LinearStep(d: int, s: int, u: int, s1: int, v: int, s2: int, l: int, y: int, y1: int, y2: int, p: int)
    requires Cong(d * s, u * s1 + v * s2, p)
    requires Cong(d * y, u * y1 + v * y2, p)
    ensures Cong(d * (s + l * y), u * (s1 + l * y1) + v * (s2 + l * y2), p)
  {
    CongScale(l, d * y, u * y1 + v * y2, p);
    CongAdd(d * s, u * s1 + v * s2, l * (d * y), l * (u * y1 + v * y2), p);
    Distribute(d, s, l, y);
    DistributeTwo(u, v, s1, s2, l, y1, y2);
  }

  lemma Distribute(d: int, s: int, l: int, y: int)
    ensures d * s + l * (d * y) == d * (s + l * y)
  {
  }

  lemma DistributeTwo(u: int, v: int, s1: int, s2: int, l: int, y1: int, y2: int)
    ensures u * s1 + v * s2 + l * (u * y1 + v * y2) == u * (s1 + l * y1) + v * (s2 + l * y2)
  {
    Distribute(u, s1, l, y1);
    Distribute(v, s2, l, y2);
    assert l * (u * y1 + v * y2) == l * (u * y1) + l * (v * y2);
  }

  /** (a - b) * Factor(a, b) is -b. */
  lemma FactorCancels(a: int, b: int, p: int)
    requires IsPrime(p) && !Cong(a - b, 0, p)
    ensures Cong((a - b) * Factor(a, b, p), -b, p)
  {
    var r := InverseMod(a - b, p);
    InverseCorrect(a - b, p);
    CongScale(-b, (a - b) * r, 1, p);
    assert -b * ((a - b) * r) == (a - b) * (-b * r);
  }

  lemma NotCongFlip(a: int, b: int, p: int)
    requires !Cong(a - b, 0, p)
    ensures !Cong(b - a, 0, p)
  {
    if Cong(b - a, 0, p) {
      CongRefl(0, p);
      CongSub(0, 0, b - a, 0, p);
    }
  }

  /** The polynomial with coefficients `c` as a function. */
  ghost function AsFunction(c: seq<int>): (f: int -> int)
    ensures forall x :: f(x) == Eval(c, x)
  {
    x => Eval(c, x)
  }

  ghost function One(): (f: int -> int)
    ensures forall x :: f(x) == 1
  {
    x => 1
  }

  /** The sum over all points of `xs`. */
  ghost function Total(xs: seq<int>, f: int -> int, p: int): int
    requires p >= 2
  {
    Combine(xs, |xs|, f, p)
  }

  lemma TwoFactors(z: int, a: int, b: int, fa: int, fb: int)
    ensures fa * ((z - b) * fb) - fb * ((z - a) * fa) == (a - b) * (fa * fb)
    ensures fa * -b - fb * -a == -b * fa + a * fb
  {
    var m := fa * fb;
    assert fa * ((z - b) * fb) == (z - b) * m;
    assert fb * ((z - a) * fa) == (z - a) * m;
    assert (z - b) * m - (z - a) * m == (a - b) * m;
  }

  /** Partial fractions: (a - b) F(z, a) F(z, b) = a F(z, b) - b F(z, a). */
  lemma PartialFractions(z: int, a: int, b: int, fa: int, fb: int, p: int)
    requires Cong((z - a) * fa, -a, p) && Cong((z - b) * fb, -b, p)
    ensures Cong((a - b) * (fa * fb), -b * fa + a * fb, p)
  {
    CongScale(fa, (z - b) * fb, -b, p);
    CongScale(fb, (z - a) * fa, -a, p);
    CongSub(fa * ((z - b) * fb), fa * -b, fb * ((z - a) * fa), fb * -a, p);
    TwoFactors(z, a, b, fa, fb);
  }

  lemma DistinctDrop(zs: seq<int>, a: int, b: int, p: int)
    requires Distinct((zs + [a]) + [b], p)
    ensures Distinct(zs + [b], p) && Distinct(zs + [a], p)
    ensures !Cong(a - b, 0, p)
    ensures forall i :: 0 <= i < |zs| ==> !Cong(zs[i] - a, 0, p) && !Cong(zs[i] - b, 0, p)
  {
    var xs := (zs + [a]) + [b];
    var n := |zs|;
    assert xs[n] == a && xs[n + 1] == b;
    assert forall i :: 0 <= i < n ==> xs[i] == zs[i];
    forall i, j | 0 <= i < j < n + 1
      ensures !Cong((zs + [b])[i] - (zs + [b])[j], 0, p)
    {
      assert (zs + [b])[i] == xs[i];
      assert (zs + [b])[j] == xs[if j == n then n + 1 else j];
    }
    forall i | 0 <= i < n
      ensures !Cong(zs[i] - a, 0, p) && !Cong(zs[i] - b, 0, p)
    {
      assert !Cong(xs[i] - xs[n], 0, p) && !Cong(xs[i] - xs[n + 1], 0, p);
    }
    forall i, j | 0 <= i < j < n + 1
      ensures !Cong((zs + [a])[i] - (zs + [a])[j], 0, p)
    {
      assert (zs + [a])[i] == xs[i] && (zs + [a])[j] == xs[j];
    }
  }

  /** The sums of the weights of zs + [a, b], zs + [a] and zs + [b], all written
      over the common points zs. */
  lemma SplitSums(zs: seq<int>, a: int, b: int, fa: int -> int, fb: int -> int, fab: int -> int, p: int)
    requires p >= 2
    requires forall x :: fa(x) == Factor(x, a, p)
    requires forall x :: fb(x) == Factor(x, b, p)
    requires forall x :: fab(x) == fa(x) * fb(x)
    ensures Total((zs + [a]) + [b], One(), p)
         == Total(zs, fab, p) + (Weight(a, zs, p) * Factor(a, b, p) + Weight(b, zs, p) * Factor(b, a, p))
    ensures Total(zs + [a], One(), p) == Total(zs, fa, p) + Weight(a, zs, p)
    ensures Total(zs + [b], One(), p) == Total(zs, fb, p) + Weight(b, zs, p)
  {
    CombineWhole(zs + [a], b, One(), fb, p);
    CombineWhole(zs, a, fb, fab, p);
    CombineWhole(zs, a, One(), fa, p);
    CombineWhole(zs, b, One(), fb, p);
    WeightAppend(b, zs, a, p);
  }

  lemma LastTwoAlgebra(a: int, b: int, wa: int, wb: int, f: int, g: int)
    ensures (a - b) * (wa * f + wb * g) == wa * ((a - b) * f) + -wb * ((b - a) * g)
    ensures wa * -b + -wb * -a == -b * wa + a * wb
  {
    assert (a - b) * (wa * f + wb * g) == (a - b) * (wa * f) + (a - b) * (wb * g);
    assert (a - b) * (wa * f) == wa * ((a - b) * f);
    assert (a - b) * (wb * g) == -wb * ((b - a) * g);
  }

  lemma LastTwo(a: int, b: int, wa: int, wb: int, f: int, g: int, p: int)
    requires Cong((a - b) * f, -b, p) && Cong((b - a) * g, -a, p)
    ensures Cong((a - b) * (wa * f + wb * g), -b * wa + a * wb, p)
  {
    CongScale(wa, (a - b) * f, -b, p);
    CongScale(-wb, (b - a) * g, -a, p);
    CongAdd(wa * ((a - b) * f), wa * -b, -wb * ((b - a) * g), -wb * -a, p);
    LastTwoAlgebra(a, b, wa, wb, f, g);
  }

  lemma NevilleAlgebra(a: int, b: int, s: int, t: int, s1: int, s2: int, wa: int, wb: int)
    ensures (a - b) * s + (a - b) * t == (a - b) * (s + t)
    ensures -b * s1 + a * s2 + (-b * wa + a * wb) == -b * (s1 + wa) + a * (s2 + wb)
  {
    assert -b * (s1 + wa) == -b * s1 + -b * wa;
    assert a * (s2 + wb) == a * s2 + a * wb;
  }

  lemma NevilleTerms(zs: seq<int>, a: int, b: int, fa: int -> int, fb: int -> int, fab: int -> int, p: int)
    requires IsPrime(p) && Distinct((zs + [a]) + [b], p)
    requires forall x :: fa(x) == Factor(x, a, p)
    requires forall x :: fb(x) == Factor(x, b, p)
    requires forall x :: fab(x) == fa(x) * fb(x)
    ensures Cong((a - b) * Total(zs, fab, p), -b * Total(zs, fa, p) + a * Total(zs, fb, p), p)
  {
    DistinctDrop(zs, a, b, p);
    forall i | 0 <= i < |zs|
      ensures Cong((a - b) * fab(zs[i]), -b * fa(zs[i]) + a * fb(zs[i]), p)
    {
      NevilleTerm(zs[i], a, b, p);
    }
    CombineLinear(zs, |zs|, a - b, fab, -b, fa, a, fb, p);
  }

  lemma NevilleTerm(z: int, a: int, b: int, p: int)
    requires IsPrime(p) && !Cong(z - a, 0, p) && !Cong(z - b, 0, p)
    ensures Cong((a - b) * (Factor(z, a, p) * Factor(z, b, p)), -b * Factor(z, a, p) + a * Factor(z, b, p), p)
  {
    FactorCancels(z, a, p);
    FactorCancels(z, b, p);
    PartialFractions(z, a, b, Factor(z, a, p), Factor(z, b, p), p);
  }

  /** The terms of the points a and b themselves. */
  lemma NevilleEnds(zs: seq<int>, a: int, b: int, fa: int -> int, fb: int -> int, fab: int -> int, p: int)
    returns (t: int, wa: int, wb: int)
    requires IsPrime(p) && Distinct((zs + [a]) + [b], p)
    requires forall x :: fa(x) == Factor(x, a, p)
    requires forall x :: fb(x) == Factor(x, b, p)
    requires forall x :: fab(x) == fa(x) * fb(x)
    ensures Total((zs + [a]) + [b], One(), p) == Total(zs, fab, p) + t
    ensures Total(zs + [a], One(), p) == Total(zs, fa, p) + wa
    ensures Total(zs + [b], One(), p) == Total(zs, fb, p) + wb
    ensures Cong((a - b) * t, -b * wa + a * wb, p)
  {
    SplitSums(zs, a, b, fa, fb, fab, p);
    wa, wb := Weight(a, zs, p), Weight(b, zs, p);
    t := wa * Factor(a, b, p) + wb * Factor(b, a, p);
    EndTerms(zs, a, b, wa, wb, p);
  }

  lemma EndTerms(zs: seq<int>, a: int, b: int, wa: int, wb: int, p: int)
    requires IsPrime(p) && Distinct((zs + [a]) + [b], p)
    ensures Cong((a - b) * (wa * Factor(a, b, p) + wb * Factor(b, a, p)), -b * wa + a * wb, p)
  {
    DistinctDrop(zs, a, b, p);
    NotCongFlip(a, b, p);
    FactorCancels(a, b, p);
    FactorCancels(b, a, p);
    LastTwo(a, b, wa, wb, Factor(a, b, p), Factor(b, a, p), p);
  }

  ghost function FactorOf(b: int, p: int): (f: int -> int)
    requires p >= 2
    ensures forall x :: f(x) == Factor(x, b, p)
  {
    x => Factor(x, b, p)
  }

  ghost function ProductOf(f: int -> int, g: int -> int): (h: int -> int)
    ensures forall x :: h(x) == f(x) * g(x)
  {
    x => f(x) * g(x)
  }

  /** Neville's recurrence, for the constant function one. */
  lemma Neville(zs: seq<int>, a: int, b: int, p: int)
    requires IsPrime(p) && Distinct((zs + [a]) + [b], p)
    ensures Cong((a - b) * Total((zs + [a]) + [b], One(), p),
                 -b * Total(zs + [a], One(), p) + a * Total(zs + [b], One(), p), p)
  {
    var fa, fb := FactorOf(a, p), FactorOf(b, p);
    var fab := ProductOf(fa, fb);
    var t, wa, wb := NevilleEnds(zs, a, b, fa, fb, fab, p);
    NevilleTerms(zs, a, b, fa, fb, fab, p);
    NevilleSum(a, b, Total(zs, fab, p), t, Total(zs, fa, p), Total(zs, fb, p), wa, wb,
               Total((zs + [a]) + [b], One(), p), Total(zs + [a], One(), p), Total(zs + [b], One(), p), p);
  }

  lemma NevilleSum(a: int, b: int, s: int, t: int, s1: int, s2: int, wa: int, wb: int,
                   r: int, r1: int, r2: int, p: int)
    requires Cong((a - b) * s, -b * s1 + a * s2, p)
    requires Cong((a - b) * t, -b * wa + a * wb, p)
    requires r == s + t && r1 == s1 + wa && r2 == s2 + wb
    ensures Cong((a - b) * r, -b * r1 + a * r2, p)
  {
    CongAdd((a - b) * s, -b * s1 + a * s2, (a - b) * t, -b * wa + a * wb, p);
    NevilleAlgebra(a, b, s, t, s1, s2, wa, wb);
  }

  lemma {:induction false} WeightsSumToOne(xs: seq<int>, p: int)
    requires IsPrime(p) && Distinct(xs, p) && |xs| >= 1
    ensures Cong(Total(xs, One(), p), 1, p)
    decreases |xs|
  {
    if |xs| == 1 {
      assert Others(xs, 0) == [];
      assert Combine(xs, 1, One(), p) == Combine(xs, 0, One(), p) + Lambda(xs, 0, p) * 1;
      CongRefl(1, p);
    } else {
      var n := |xs| - 2;
      var zs, a, b := xs[..n], xs[n], xs[n + 1];
      assert xs == (zs + [a]) + [b];
      DistinctDrop(zs, a, b, p);
      WeightsSumToOne(zs + [a], p);
      WeightsSumToOne(zs + [b], p);
      Neville(zs, a, b, p);
      CancelNeville(a, b, Total(xs, One(), p), Total(zs + [a], One(), p), Total(zs + [b], One(), p), p);
    }
  }

  lemma CancelNeville(a: int, b: int, s: int, s1: int, s2: int, p: int)
    requires IsPrime(p) && !Cong(a - b, 0, p)
    requires Cong((a - b) * s, -b * s1 + a * s2, p)
    requires Cong(s1, 1, p) && Cong(s2, 1, p)
    ensures Cong(s, 1, p)
  {
    CongScale(-b, s1, 1, p);
    CongScale(a, s2, 1, p);
    CongAdd(-b * s1, -b * 1, a * s2, a * 1, p);
    CongTrans((a - b) * s, -b * s1 + a * s2, (a - b) * 1, p);
    CongCancel(a - b, s, 1, p);
  }

  /** K distinct points determine the constant term of every polynomial with at
      most K coefficients. */
  lemma {:induction false} Interpolate(xs: seq<int>, c: seq<int>, p: int)
    requires IsPrime(p) && Distinct(xs, p)
    requires |c| <= |xs|
    ensures Cong(Total(xs, AsFunction(c), p), Eval(c, 0), p)
    decreases |xs|
  {
    if c == [] {
      var f := AsFunction(c);
      forall i | 0 <= i < |xs| ensures Cong(f(xs[i]), 0 * f(xs[i]), p) {
        CongRefl(0, p);
      }
      CombineCong(xs, |xs|, f, 0, f, p);
    } else {
      var n := |xs| - 1;
      var ys, b := xs[..n], xs[n];
      assert xs == ys + [b];
      assert Distinct(ys, p) by { assert forall i :: 0 <= i < n ==> ys[i] == xs[i]; }
      Interpolate(ys, Quotient(c, b), p);
      InterpolateStep(ys, b, c, p);
    }
  }

  lemma InterpolateStep(ys: seq<int>, b: int, c: seq<int>, p: int)
    requires IsPrime(p) && Distinct(ys + [b], p)
    requires Cong(Total(ys, AsFunction(Quotient(c, b)), p), Eval(Quotient(c, b), 0), p)
    ensures Cong(Total(ys + [b], AsFunction(c), p), Eval(c, 0), p)
  {
    assert p >= 2;
    hide Total, Eval, Quotient, AsFunction, One, IsPrime, Distinct, Cong;
    var q := Quotient(c, b);
    WeightsSumToOne(ys + [b], p);
    DivideOut(ys, b, c, p);
    QuotientValue(c, b, 0);
    Assemble(Total(ys + [b], AsFunction(c), p), Eval(c, b), Total(ys + [b], One(), p), b,
             Total(ys, AsFunction(q), p), Eval(q, 0), Eval(c, 0), p);
  }

  lemma Assemble(t: int, e: int, s: int, b: int, s0: int, q0: int, c0: int, p: int)
    requires Cong(t, e * s + -b * s0, p)
    requires Cong(s, 1, p) && Cong(s0, q0, p)
    requires c0 - e == (0 - b) * q0
    ensures Cong(t, c0, p)
  {
    CongScale(e, s, 1, p);
    CongScale(-b, s0, q0, p);
    CongAdd(e * s, e * 1, -b * s0, -b * q0, p);
    CongTrans(t, e * s + -b * s0, c0, p);
  }

  /** x |-> (x - b) * e(x) */
  ghost function Shifted(b: int, e: int -> int): (g: int -> int)
    ensures forall x :: g(x) == (x - b) * e(x)
  {
    x => (x - b) * e(x)
  }

  /** f(x) = f(b) + (x - b) q(x), summed with the weights of ys + [b]. */
  lemma DivideOut(ys: seq<int>, b: int, c: seq<int>, p: int)
    requires IsPrime(p) && Distinct(ys + [b], p)
    ensures Cong(Total(ys + [b], AsFunction(c), p),
                 Eval(c, b) * Total(ys + [b], One(), p) + -b * Total(ys, AsFunction(Quotient(c, b)), p), p)
  {
    var xs, e := ys + [b], AsFunction(Quotient(c, b));
    SplitAtPoint(xs, b, c, p);
    Shrink(ys, b, e, p);
    ReplaceSummand(Total(xs, AsFunction(c), p), Eval(c, b) * Total(xs, One(), p),
                   Total(xs, Shifted(b, e), p), -b * Total(ys, e, p), p);
  }

  lemma ReplaceSummand(t: int, u: int, v: int, w: int, p: int)
    requires Cong(t, u + v, p) && Cong(v, w, p)
    ensures Cong(t, u + w, p)
  {
    CongRefl(u, p);
    CongAdd(u, u, v, w, p);
    CongTrans(t, u + v, u + w, p);
  }

  lemma SplitAtPoint(xs: seq<int>, b: int, c: seq<int>, p: int)
    requires p >= 2
    ensures Cong(Total(xs, AsFunction(c), p),
                 Eval(c, b) * Total(xs, One(), p) + Total(xs, Shifted(b, AsFunction(Quotient(c, b))), p), p)
  {
    var f, g := AsFunction(c), Shifted(b, AsFunction(Quotient(c, b)));
    forall i | 0 <= i < |xs|
      ensures f(xs[i]) == Eval(c, b) + g(xs[i])
    {
      QuotientValue(c, b, xs[i]);
    }
    CombineShift(xs, |xs|, f, Eval(c, b), g, p);
    CongRefl(Total(xs, f, p), p);
  }

  /** The factor x - b removes the point b and leaves the multiple -b. */
  lemma Shrink(ys: seq<int>, b: int, e: int -> int, p: int)
    requires IsPrime(p) && Distinct(ys + [b], p)
    ensures Cong(Total(ys + [b], Shifted(b, e), p), -b * Total(ys, e, p), p)
  {
    ShrinkPoint(ys, b, e, p);
    ShrinkTerms(ys, b, e, p);
  }

  lemma ShrinkPoint(ys: seq<int>, b: int, e: int -> int, p: int)
    requires p >= 2
    ensures Total(ys + [b], Shifted(b, e), p) == Total(ys, ProductOf(FactorOf(b, p), Shifted(b, e)), p)
  {
    var g := Shifted(b, e);
    CombineWhole(ys, b, g, ProductOf(FactorOf(b, p), g), p);
    ZeroTimes(Weight(b, ys, p), e(b), b, g(b));
  }

  lemma ShrinkTerms(ys: seq<int>, b: int, e: int -> int, p: int)
    requires IsPrime(p) && Distinct(ys + [b], p)
    ensures Cong(Total(ys, ProductOf(FactorOf(b, p), Shifted(b, e)), p), -b * Total(ys, e, p), p)
  {
    var h := ProductOf(FactorOf(b, p), Shifted(b, e));
    forall i | 0 <= i < |ys|
      ensures Cong(h(ys[i]), -b * e(ys[i]), p)
    {
      assert (ys + [b])[i] == ys[i] && (ys + [b])[|ys|] == b;
      ShrinkTerm(ys[i], b, e(ys[i]), p);
    }
    CombineCong(ys, |ys|, h, -b, e, p);
  }

  lemma ShrinkTerm(y: int, b: int, w: int, p: int)
    requires IsPrime(p) && !Cong(y - b, 0, p)
    ensures Cong(Factor(y, b, p) * ((y - b) * w), -b * w, p)
  {
    FactorCancels(y, b, p);
    ScaleFactor(y - b, Factor(y, b, p), b, w, p);
  }

  lemma ZeroTimes(w: int, e: int, b: int, g: int)
    requires g == (b - b) * e
    ensures w * g == 0
  {
  }

  lemma ScaleFactor(d: int, f: int, b: int, w: int, p: int)
    requires Cong(d * f, -b, p)
    ensures Cong(f * (d * w), -b * w, p)
  {
    CongScale(w, d * f, -b, p);
    assert w * (d * f) == f * (d * w);
  }

  lemma {:induction false} CombineShift(xs: seq<int>, n: nat, f: int -> int, u: int, g: int -> int, p: int)
    requires p >= 2 && n <= |xs|
    requires forall i :: 0 <= i < n ==> f(xs[i]) == u + g(xs[i])
    ensures Combine(xs, n, f, p) == u * Combine(xs, n, One(), p) + Combine(xs, n, g, p)
  {
    if n > 0 {
      CombineShift(xs, n - 1, f, u, g, p);
      var x, l := xs[n - 1], Lambda(xs, n - 1, p);
      ShiftAlgebra(u, Combine(xs, n - 1, One(), p), Combine(xs, n - 1, g, p), l, f(x), g(x), One()(x));
    }
  }

  lemma ShiftAlgebra(u: int, s: int, t: int, l: int, y: int, z: int, o: int)
    requires y == u + z && o == 1
    ensures (u * s + t) + l * y == u * (s + l * o) + (t + l * z)
  {
    assert l * y == l * u + l * z;
    assert u * (s + l) == u * s + l * u;
  }

  lemma CombineCong(xs: seq<int>, n: nat, f: int -> int, u: int, g: int -> int, p: int)
    requires p >= 2 && n <= |xs|
    requires forall i :: 0 <= i < n ==> Cong(f(xs[i]), u * g(xs[i]), p)
    ensures Cong(Combine(xs, n, f, p), u * Combine(xs, n, g, p), p)
  {
    CombineLinear(xs, n, 1, f, u, g, 0, g, p);
  }
}
