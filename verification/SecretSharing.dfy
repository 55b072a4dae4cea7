/** Threshold secret sharing (src/crypto/teleportcrypto.cpp): dealing a key,
    rebuilding it from any K verified shares, and confirming a public key from
    the public values of the polynomial. */
module SecretSharing {
  import opened Modular
  import opened Interpolation
  import opened Group
  import opened Polynomial

  /** 1, 2, ..., n. */
  method PositiveIntegers(n: nat) returns (result: seq<int>)
    ensures result == UpTo(n)
  {
    result := [];
    if n == 0 { return; }
    result := [1];
    var i := 0;
    while i < n - 1
      invariant 0 <= i <= n - 1
      invariant result == UpTo(i + 1)
    {
      result := result + [result[|result| - 1] + 1];
      i := i + 1;
    }
  }

  function UpTo(n: nat): (xs: seq<int>)
    ensures |xs| == n && forall i :: 0 <= i < n ==> xs[i] == i + 1
  {
    seq(n, i => i + 1)
  }

  // ---------------------------------------------------------------- dealing

  /** `generate_key_with_secret_parts` (src/crypto/teleportcrypto.cpp:56-95) once the
      polynomial has been chosen: `random` are the k random coefficients. */
  method GenerateKeyWithSecretParts(random: seq<int>, given: int, n: nat, p: int)
    returns (pubkey: Point, secrets: seq<int>, coeffs: seq<int>, privkey: int)
    requires p > 0 && random != []
    ensures coeffs == if given != 0 then random[0 := given] else random
    ensures privkey == coeffs[0] && pubkey == Multiple(privkey, p)
    ensures SharesOf(secrets, coeffs, n, p) && forall i :: 0 <= i < |secrets| ==> -p < secrets[i] < p
    ensures NonNegative(coeffs) ==> NonNegative(secrets)
  {
    var poly := new BigNumPolynomial(p, random);
    if given != 0 {
      poly.coefficients := poly.coefficients[0 := given];
    }
    coeffs := poly.coefficients;
    secrets := [];
    var xs := PositiveIntegers(n);
    var i := 0;
    while i < n
      invariant 0 <= i <= n && poly.coefficients == coeffs
      invariant SharesOf(secrets, coeffs, i, p) && forall j :: 0 <= j < |secrets| ==> -p < secrets[j] < p
      invariant NonNegative(coeffs) ==> NonNegative(secrets)
    {
      var value := poly.Evaluate(xs[i]);
      secrets := secrets + [value];
      i := i + 1;
    }
    pubkey := Multiple(coeffs[0], p);
    privkey := coeffs[0];
  }

  /** The i-th share is the value of the polynomial at i + 1. */
  ghost predicate SharesOf(secrets: seq<int>, coeffs: seq<int>, n: nat, p: int) {
    |secrets| == n && forall i :: 0 <= i < n ==> Cong(secrets[i], Eval(coeffs, i + 1), p)
  }

  /** `publics_from_privates` (src/crypto/teleportcrypto.cpp:43-52). */
  method PublicsFromPrivates(secrets: seq<int>, p: int) returns (publics: seq<Point>)
    requires p > 0
    ensures |publics| == |secrets|
    ensures forall i :: 0 <= i < |secrets| ==> publics[i] == Multiple(secrets[i], p)
  {
    publics := [];
    var i := 0;
    while i < |secrets|
      invariant 0 <= i <= |secrets| && |publics| == i
      invariant forall j :: 0 <= j < i ==> publics[j] == Multiple(secrets[j], p)
    {
      publics := publics + [Multiple(secrets[i], p)];
      i := i + 1;
    }
  }

  // ------------------------------------------------------------ interpolation

  /** The first `n` terms of the sum over i of Lambda(xs, i) * ys[i]. */
  ghost function WeightedSum(xs: seq<int>, ys: seq<int>, n: nat, p: int): int
    requires p >= 2 && n <= |xs| && n <= |ys|
  {
    if n == 0 then 0 else WeightedSum(xs, ys, n - 1, p) + Lambda(xs, n - 1, p) * ys[n - 1]
  }

  lemma {:induction false} WeightedSumCong(xs: seq<int>, ys: seq<int>, f: int -> int, n: nat, p: int)
    requires p >= 2 && n <= |xs| && n <= |ys|
    requires forall i :: 0 <= i < n ==> Cong(ys[i], f(xs[i]), p)
    ensures Cong(WeightedSum(xs, ys, n, p), Combine(xs, n, f, p), p)
  {
    if n == 0 {
      CongRefl(0, p);
    } else {
      WeightedSumCong(xs, ys, f, n - 1, p);
      var l := Lambda(xs, n - 1, p);
      CongScale(l, ys[n - 1], f(xs[n - 1]), p);
      CongAdd(WeightedSum(xs, ys, n - 1, p), Combine(xs, n - 1, f, p), l * ys[n - 1], l * f(xs[n - 1]), p);
    }
  }

  /** Congruent values weigh up to congruent sums. */
  lemma {:induction false} CongruentValues(xs: seq<int>, ys: seq<int>, zs: seq<int>, n: nat, p: int)
    requires p >= 2 && n <= |xs| && n <= |ys| && n <= |zs|
    requires forall i :: 0 <= i < n ==> Cong(ys[i], zs[i], p)
    ensures Cong(WeightedSum(xs, ys, n, p), WeightedSum(xs, zs, n, p), p)
  {
    if n == 0 {
      CongRefl(0, p);
    } else {
      CongruentValues(xs, ys, zs, n - 1, p);
      var l := Lambda(xs, n - 1, p);
      CongScale(l, ys[n - 1], zs[n - 1], p);
      CongAdd(WeightedSum(xs, ys, n - 1, p), WeightedSum(xs, zs, n - 1, p), l * ys[n - 1], l * zs[n - 1], p);
    }
  }

  /** Values of a polynomial with at most |xs| coefficients at the distinct points
      xs give back its constant term. */
  lemma Reconstruct(xs: seq<int>, ys: seq<int>, c: seq<int>, p: int)
    requires IsPrime(p) && Distinct(xs, p)
    requires |c| <= |xs| == |ys|
    requires forall i :: 0 <= i < |xs| ==> Cong(ys[i], Eval(c, xs[i]), p)
    ensures Cong(WeightedSum(xs, ys, |xs|, p), Eval(c, 0), p)
  {
    WeightedSumCong(xs, ys, AsFunction(c), |xs|, p);
    Interpolate(xs, c, p);
    CongTrans(WeightedSum(xs, ys, |xs|, p), Combine(xs, |xs|, AsFunction(c), p), Eval(c, 0), p);
  }

  /** `generate_private_key_from_K_secret_parts` (src/crypto/teleportcrypto.cpp:145-171). */
  method GeneratePrivateKeyFromK(privkey0: int, secrets: seq<int>, xValues: seq<int>, k: nat, p: int)
    returns (privkey: int, pubkey: Point)
    requires p >= 2 && k <= |xValues|
    ensures |secrets| < k ==> privkey == privkey0 && pubkey == Multiple(-1, p)
    ensures |secrets| >= k ==>
        && Cong(privkey, WeightedSum(xValues, secrets, k, p), p)
        && -p < privkey < p
        && pubkey == Multiple(privkey, p)
        && (NonNegative(secrets) && NonNegative(xValues) ==> privkey >= 0)
  {
    if |secrets| < k {
      return privkey0, Multiple(-1, p);
    }
    var result := 0;
    CongRefl(0, p);
    var i := 0;
    while i < k
      invariant 0 <= i <= k
      invariant Cong(result, WeightedSum(xValues, secrets, i, p), p)
      invariant -p < result < p
      invariant NonNegative(secrets) && NonNegative(xValues) ==> result >= 0
    {
      var lagrange := LagrangeCoefficient(i, xValues, p);
      var term := TruncMod(lagrange * secrets[i], p);
      if NonNegative(secrets) && NonNegative(xValues) { MulNonNegative(lagrange, secrets[i]); }
      SumStep(result, WeightedSum(xValues, secrets, i, p), term, lagrange, Lambda(xValues, i, p), secrets[i], p);
      result := TruncMod(term + result, p);
      i := i + 1;
    }
    privkey := result;
    pubkey := Multiple(privkey, p);
  }

  /** The basis polynomial of point i, evaluated at zero. */
  method LagrangeCoefficient(i: nat, xValues: seq<int>, p: int) returns (lagrange: int)
    requires p >= 2 && i < |xValues|
    ensures Cong(lagrange, Lambda(xValues, i, p), p)
    ensures NonNegative(xValues) ==> lagrange >= 0
  {
    var poly := LagrangePoly(i, xValues, p);
    lagrange := poly.Evaluate(0);
    CongTrans(lagrange, poly.coefficients[0], Lambda(xValues, i, p), p);
  }

  lemma SumStep(result: int, sum: int, term: int, lagrange: int, lambda: int, y: int, p: int)
    requires p > 0 && Cong(result, sum, p) && Cong(lagrange, lambda, p)
    requires Cong(term, lagrange * y, p)
    ensures Cong(TruncMod(term + result, p), sum + lambda * y, p)
  {
    CongRefl(y, p);
    CongMul(lagrange, lambda, y, y, p);
    CongTrans(term, lagrange * y, lambda * y, p);
    CongAdd(term, lambda * y, result, sum, p);
    CongTrans(TruncMod(term + result, p), term + result, sum + lambda * y, p);
  }

  // -------------------------------------------------------- rebuilding the key

  /** A share that is present and opens its commitment. */
  predicate Matches(secrets: seq<int>, commitments: seq<Point>, i: int, p: int)
    requires p > 0 && 0 <= i < |secrets| && i < |commitments|
  {
    secrets[i] != 0 && Multiple(secrets[i], p) == commitments[i]
  }

  /** A share that is present and does not. */
  predicate Cheats(secrets: seq<int>, commitments: seq<Point>, i: int, p: int)
    requires p > 0 && 0 <= i < |secrets| && i < |commitments|
  {
    secrets[i] != 0 && Multiple(secrets[i], p) != commitments[i]
  }

  predicate Increasing(s: seq<int>) {
    forall i, j :: 0 <= i < j < |s| ==> s[i] < s[j]
  }

  /** The positions below n whose share matches its commitment, in order. */
  function Matching(secrets: seq<int>, commitments: seq<Point>, n: nat, p: int): (r: seq<int>)
    requires p > 0 && n <= |secrets| && n <= |commitments|
    ensures Increasing(r)
    ensures forall i :: i in r <==> 0 <= i < n && Matches(secrets, commitments, i, p)
  {
    if n == 0 then []
    else
      var r := Matching(secrets, commitments, n - 1, p);
      assert forall i :: 0 <= i < |r| ==> r[i] in r;
      if Matches(secrets, commitments, n - 1, p) then r + [n - 1] else r
  }

  /** The positions below n whose share is present and wrong, in order. */
  function Cheating(secrets: seq<int>, commitments: seq<Point>, n: nat, p: int): (r: seq<int>)
    requires p > 0 && n <= |secrets| && n <= |commitments|
    ensures Increasing(r)
    ensures forall i :: i in r <==> 0 <= i < n && Cheats(secrets, commitments, i, p)
  {
    if n == 0 then []
    else
      var r := Cheating(secrets, commitments, n - 1, p);
      assert forall i :: 0 <= i < |r| ==> r[i] in r;
      if Cheats(secrets, commitments, n - 1, p) then r + [n - 1] else r
  }

  /** The commitments are the public values of the polynomial `coeffs` at 1..n. */
  ghost predicate Commits(coeffs: seq<int>, commitments: seq<Point>, n: nat, p: int)
    requires p > 0
  {
    n <= |commitments| && forall i :: 0 <= i < n ==> commitments[i] == Multiple(Eval(coeffs, i + 1), p)
  }

  function PointsOf(chosen: seq<int>): (xs: seq<int>)
    ensures |xs| == |chosen| && forall j :: 0 <= j < |xs| ==> xs[j] == chosen[j] + 1
  {
    seq(|chosen|, j requires 0 <= j < |chosen| => chosen[j] + 1)
  }

  function ValuesOf(secrets: seq<int>, chosen: seq<int>): (ys: seq<int>)
    requires forall i :: i in chosen ==> 0 <= i < |secrets|
    ensures |ys| == |chosen| && forall j :: 0 <= j < |ys| ==> chosen[j] in chosen && ys[j] == secrets[chosen[j]]
  {
    seq(|chosen|, j requires 0 <= j < |chosen| => assert chosen[j] in chosen; secrets[chosen[j]])
  }

  /** What the first k matching shares weigh up to. */
  ghost function Rebuilt(secrets: seq<int>, commitments: seq<Point>, n: nat, k: nat, p: int): int
    requires p >= 2 && n <= |secrets| && n <= |commitments| && k <= |Matching(secrets, commitments, n, p)|
  {
    var chosen := Matching(secrets, commitments, n, p)[..k];
    assert forall i :: i in chosen ==> i in Matching(secrets, commitments, n, p);
    WeightedSum(PointsOf(chosen), ValuesOf(secrets, chosen), k, p)
  }

  /** `generate_private_key_from_N_secret_parts` (src/crypto/teleportcrypto.cpp:98-142);
      `k` is the number of shares required. Whichever k shares are present and right, the
      result is the constant term of the dealer's polynomial. */
  method GeneratePrivateKeyFromN(privkey0: int, secrets: seq<int>, commitments: seq<Point>, n: nat, k: nat,
                                 cheaters0: seq<int>, p: int)
    returns (status: int, privkey: int, cheated: bool, cheaters: seq<int>)
    requires IsPrime(p) && k <= n
    requires n <= |secrets| && n <= |commitments|
    ensures cheaters == cheaters0 + Cheating(secrets, commitments, n, p)
    ensures cheated <==> cheaters != []
    ensures status == if |Matching(secrets, commitments, n, p)| >= k then 1 else -1
    ensures status == -1 ==> privkey == privkey0
    ensures status == 1 ==> -p < privkey < p && Cong(privkey, Rebuilt(secrets, commitments, n, k, p), p)
    ensures status == 1 && NonNegative(secrets) ==> privkey >= 0
    ensures forall coeffs :: status == 1 && n <= p && |coeffs| <= k && Commits(coeffs, commitments, n, p) ==>
        Cong(privkey, Eval(coeffs, 0), p)
  {
    hide Matching, Cheating, WeightedSum, Eval, Cong, Commits;
    var verified, xInputs;
    verified, xInputs, cheaters := Verify(secrets, commitments, n, cheaters0, p);
    cheated := |cheaters| > 0;
    if |verified| < k {
      return -1, privkey0, cheated, cheaters;
    }
    ghost var chosen := Matching(secrets, commitments, n, p)[..k];
    assert forall j :: 0 <= j < k ==> chosen[j] in Matching(secrets, commitments, n, p);
    FirstSelected(verified, xInputs, Matching(secrets, commitments, n, p), secrets, k);
    verified := verified[..k];
    xInputs := xInputs[..k];
    var pubkey;
    privkey, pubkey := GeneratePrivateKeyFromK(privkey0, verified, xInputs, k, p);
    status := 1;
    forall coeffs | n <= p && |coeffs| <= k && Commits(coeffs, commitments, n, p)
      ensures Cong(privkey, Eval(coeffs, 0), p)
    {
      AnyShares(secrets, commitments, chosen, verified, xInputs, coeffs, n, p);
      CongTrans(privkey, WeightedSum(xInputs, verified, k, p), Eval(coeffs, 0), p);
    }
  }

  lemma FirstSelected(verified: seq<int>, xInputs: seq<int>, chosen: seq<int>, secrets: seq<int>, k: nat)
    requires Selected(verified, xInputs, chosen, secrets) && k <= |chosen|
    ensures forall i :: i in chosen[..k] ==> 0 <= i < |secrets|
    ensures verified[..k] == ValuesOf(secrets, chosen[..k]) && xInputs[..k] == PointsOf(chosen[..k])
    ensures Selected(verified[..k], xInputs[..k], chosen[..k], secrets)
    ensures NonNegative(xInputs[..k]) && (NonNegative(secrets) ==> NonNegative(verified[..k]))
  {
  }

  /** The loop that sorts the shares into verified ones and cheaters. */
  method Verify(secrets: seq<int>, commitments: seq<Point>, n: nat, cheaters0: seq<int>, p: int)
    returns (verified: seq<int>, xInputs: seq<int>, cheaters: seq<int>)
    requires p > 0 && n <= |secrets| && n <= |commitments|
    ensures cheaters == cheaters0 + Cheating(secrets, commitments, n, p)
    ensures Selected(verified, xInputs, Matching(secrets, commitments, n, p), secrets)
  {
    verified, xInputs, cheaters := [], [], cheaters0;
    var xValues := PositiveIntegers(n);
    var i := 0;
    assert Cheating(secrets, commitments, 0, p) == [] && Matching(secrets, commitments, 0, p) == [];
    hide Matching, Cheating, Increasing, Multiple;
    while i < n
      invariant 0 <= i <= n
      invariant cheaters == cheaters0 + Cheating(secrets, commitments, i, p)
      invariant Selected(verified, xInputs, Matching(secrets, commitments, i, p), secrets)
    {
      OneMorePosition(secrets, commitments, i, p);
      if secrets[i] != 0 {
        var check := Multiple(secrets[i], p);
        if check != commitments[i] {
          cheaters := cheaters + [i];
        } else {
          verified := verified + [secrets[i]];
          xInputs := xInputs + [xValues[i]];
        }
      }
      i := i + 1;
    }
  }

  lemma OneMorePosition(secrets: seq<int>, commitments: seq<Point>, i: nat, p: int)
    requires p > 0 && i < |secrets| && i < |commitments|
    ensures Matching(secrets, commitments, i + 1, p) == Matching(secrets, commitments, i, p)
      + if Matches(secrets, commitments, i, p) then [i] else []
    ensures Cheating(secrets, commitments, i + 1, p) == Cheating(secrets, commitments, i, p)
      + if Cheats(secrets, commitments, i, p) then [i] else []
  {
  }

  /** The collected shares and points are those of the chosen positions. */
  ghost predicate Selected(verified: seq<int>, xInputs: seq<int>, chosen: seq<int>, secrets: seq<int>) {
    && |verified| == |xInputs| == |chosen|
    && forall j :: 0 <= j < |chosen| ==>
         0 <= chosen[j] < |secrets| && verified[j] == secrets[chosen[j]] && xInputs[j] == chosen[j] + 1
  }

  /** Any selection of matching shares, as many as there are coefficients,
      interpolates to the constant term. */
  lemma AnyShares(secrets: seq<int>, commitments: seq<Point>, chosen: seq<int>, verified: seq<int>, xInputs: seq<int>,
                  coeffs: seq<int>, n: nat, p: int)
    requires IsPrime(p) && n <= p && n <= |secrets| && n <= |commitments|
    requires Increasing(chosen) && |coeffs| <= |chosen|
    requires forall i :: i in chosen ==> 0 <= i < n && Matches(secrets, commitments, i, p)
    requires Selected(verified, xInputs, chosen, secrets)
    requires Commits(coeffs, commitments, n, p)
    ensures Cong(WeightedSum(xInputs, verified, |xInputs|, p), Eval(coeffs, 0), p)
  {
    forall i, j | 0 <= i < j < |xInputs|
      ensures !Cong(xInputs[i] - xInputs[j], 0, p)
    {
      assert chosen[i] in chosen && chosen[j] in chosen;
      SmallDifference(xInputs[i], xInputs[j], p);
    }
    forall i | 0 <= i < |xInputs|
      ensures Cong(verified[i], Eval(coeffs, xInputs[i]), p)
    {
      assert chosen[i] in chosen;
      MultipleEqual(secrets[chosen[i]], Eval(coeffs, chosen[i] + 1), p);
    }
    Reconstruct(xInputs, verified, coeffs, p);
  }

  lemma SmallDifference(a: int, b: int, p: int)
    requires p > 0 && 1 <= a < b <= p
    ensures !Cong(a - b, 0, p)
  {
    if Cong(a - b, 0, p) {
      var q := CongQuotient(a - b, 0, p);
      MultipleBetween(q, p);
    }
  }

  // ----------------------------------------------------- confirming public keys

  /** `generate_public_key_from_K_polynomial_point_values`
      (src/crypto/teleportcrypto.cpp:207-230): interpolation in the exponent. */
  method GeneratePublicKeyFromK(pointValues: seq<Point>, xValues: seq<int>, k: nat, p: int) returns (pubkey: Point)
    requires p >= 2 && k <= |xValues| && k <= |pointValues|
    ensures OnCurve(pubkey, p)
    ensures Cong(pubkey.residue, WeightedSum(xValues, Residues(pointValues), k, p), p)
  {
    pubkey := Infinity;
    CongRefl(0, p);
    var i := 0;
    while i < k
      invariant 0 <= i <= k && OnCurve(pubkey, p)
      invariant Cong(pubkey.residue, WeightedSum(xValues, Residues(pointValues), i, p), p)
    {
      var lagrange := LagrangeCoefficient(i, xValues, p);
      var term := Scale(lagrange, pointValues[i], p);
      ghost var before := pubkey;
      pubkey := Add(term, pubkey, p);
      ScaleResidue(lagrange, pointValues[i], p);
      AddResidue(term, before, p);
      PointStep(before.residue, WeightedSum(xValues, Residues(pointValues), i, p), term.residue, lagrange,
                Lambda(xValues, i, p), pointValues[i].residue, pubkey.residue, p);
      i := i + 1;
    }
  }

  lemma PointStep(before: int, sum: int, term: int, lagrange: int, lambda: int, y: int, after: int, p: int)
    requires p > 0 && Cong(before, sum, p) && Cong(lagrange, lambda, p)
    requires Cong(term, lagrange * y, p) && Cong(after, term + before, p)
    ensures Cong(after, sum + lambda * y, p)
  {
    SumStep(before, sum, term, lagrange, lambda, y, p);
    CongSym(TruncMod(term + before, p), term + before, p);
    CongTrans(after, term + before, TruncMod(term + before, p), p);
    CongTrans(after, TruncMod(term + before, p), sum + lambda * y, p);
  }

  function Residues(points: seq<Point>): (r: seq<int>)
    ensures |r| == |points| && forall i :: 0 <= i < |r| ==> r[i] == points[i].residue
  {
    seq(|points|, i requires 0 <= i < |points| => points[i].residue)
  }

  /** `confirm_public_key_with_N_polynomial_point_values`
      (src/crypto/teleportcrypto.cpp:181-204), with `k` for the number of shares required. */
  method ConfirmPublicKey(pubkey: Point, pointValues: seq<Point>, n: nat, k: nat, p: int) returns (ok: bool)
    requires p >= 2 && k <= n && OnCurve(pubkey, p) && pointValues != []
    ensures ok <==> |pointValues| == n && Cong(WeightedSum(UpTo(k), Residues(pointValues), k, p), pubkey.residue, p)
  {
    if |pointValues| != n {
      return false;
    }
    var xValues := PositiveIntegers(n);
    xValues := xValues[..k];
    assert xValues == UpTo(k);
    var pubkey2 := GeneratePublicKeyFromK(pointValues[..k], xValues, k, p);
    SameWeightedSum(xValues, Residues(pointValues[..k]), Residues(pointValues), k, p);
    ok := pubkey2 == pubkey;
    PointEqual(pubkey2, pubkey, p);
    ghost var w := WeightedSum(UpTo(k), Residues(pointValues), k, p);
    CongSym(pubkey2.residue, w, p);
    if Cong(pubkey2.residue, pubkey.residue, p) {
      CongTrans(w, pubkey2.residue, pubkey.residue, p);
    }
    if Cong(w, pubkey.residue, p) {
      CongTrans(pubkey2.residue, w, pubkey.residue, p);
    }
  }

  lemma {:induction false} SameWeightedSum(xs: seq<int>, ys: seq<int>, zs: seq<int>, n: nat, p: int)
    requires p >= 2 && n <= |xs| && n <= |ys| && n <= |zs|
    requires forall i :: 0 <= i < n ==> ys[i] == zs[i]
    ensures WeightedSum(xs, ys, n, p) == WeightedSum(xs, zs, n, p)
  {
    if n > 0 {
      SameWeightedSum(xs, ys, zs, n - 1, p);
    }
  }

  // ------------------------------------------------------- too few shares

  /** X * (X - xs[0]) * (X - xs[1]) * ... */
  function Vanishing(xs: seq<int>): (v: seq<int>) {
    if xs == [] then [0, 1] else PolyMul(Vanishing(xs[..|xs| - 1]), [-xs[|xs| - 1], 1])
  }

  lemma LinearTimes(a: seq<int>, b: int, x: int)
    requires a != []
    ensures |PolyMul(a, [b, 1])| == |a| + 1
    ensures Eval(PolyMul(a, [b, 1]), x) == Eval(a, x) * (b + x)
  {
    assert [b, 1][1..] == [1] && [1][1..] == [];
    assert PolyMul(a, [1]) == PolyAdd(PolyScale(1, a), [0] + PolyMul(a, []));
    assert |PolyMul(a, [1])| == |a|;
    EvalMul(a, [b, 1], x);
    assert Eval([1], x) == 1 + x * 0;
    assert Eval([b, 1], x) == b + x * 1;
  }

  lemma JustX(x: int)
    ensures Eval([0, 1], x) == x
  {
    assert [0, 1][1..] == [1] && [1][1..] == [];
    assert Eval([1], x) == 1 + x * 0;
    assert Eval([0, 1], x) == 0 + x * Eval([1], x);
  }

  lemma VanishingStep(ys: seq<int>, b: int, x: int)
    requires Vanishing(ys) != []
    ensures |Vanishing(ys + [b])| == |Vanishing(ys)| + 1
    ensures Eval(Vanishing(ys + [b]), x) == Eval(Vanishing(ys), x) * (x - b)
  {
    var v := Vanishing(ys);
    assert (ys + [b])[..|ys|] == ys;
    assert Vanishing(ys + [b]) == PolyMul(v, [-b, 1]);
    hide Eval, PolyMul, Vanishing;
    LinearTimes(v, -b, x);
    assert x - b == -b + x;
  }

  lemma {:induction false} VanishingFacts(xs: seq<int>, x: int)
    ensures |Vanishing(xs)| == |xs| + 2
    ensures x == 0 || x in xs ==> Eval(Vanishing(xs), x) == 0
  {
    if xs == [] {
      JustX(x);
    } else {
      hide Eval, PolyMul, Vanishing;
      var ys, b := xs[..|xs| - 1], xs[|xs| - 1];
      assert xs == ys + [b];
      VanishingFacts(ys, x);
      VanishingStep(ys, b, x);
      ZeroFactor(Eval(Vanishing(ys), x), x - b);
    }
  }

  lemma ZeroFactor(a: int, b: int)
    ensures a == 0 || b == 0 ==> a * b == 0
  {
  }

  /** Away from zero and from the given points the polynomial does not vanish modulo p. */
  lemma {:induction false} VanishingElsewhere(xs: seq<int>, x: int, p: int)
    requires IsPrime(p) && !Cong(x, 0, p)
    requires forall i :: 0 <= i < |xs| ==> !Cong(x - xs[i], 0, p)
    ensures !Cong(Eval(Vanishing(xs), x), 0, p)
  {
    if xs == [] {
      JustX(x);
    } else {
      hide Eval, PolyMul, Vanishing, Cong, IsPrime;
      var ys, b := xs[..|xs| - 1], xs[|xs| - 1];
      assert xs == ys + [b];
      VanishingElsewhere(ys, x, p);
      VanishingFacts(ys, x);
      VanishingStep(ys, b, x);
      NonZeroProduct(Eval(Vanishing(ys), x), x - b, p);
    }
  }

  lemma NonZeroProduct(a: int, b: int, p: int)
    requires IsPrime(p) && !Cong(a, 0, p) && !Cong(b, 0, p)
    ensures !Cong(a * b, 0, p)
  {
    if Cong(a * b, 0, p) {
      assert a * 0 == 0;
      CongCancel(a, b, 0, p);
    }
  }

  /** Fewer shares than coefficients say nothing about the key: whatever values the shares at
      K - 1 distinct non-zero points have, every key is the constant term of some polynomial
      with K coefficients that takes those values. */
  lemma {:induction false} FewSharesRevealNothing(xs: seq<int>, ys: seq<int>, key: int, p: int) returns (c: seq<int>)
    requires IsPrime(p) && |ys| == |xs| && Distinct(xs, p)
    requires forall i :: 0 <= i < |xs| ==> !Cong(xs[i], 0, p)
    ensures |c| == |xs| + 1 && Eval(c, 0) == key
    ensures forall i :: 0 <= i < |xs| ==> Cong(Eval(c, xs[i]), ys[i], p)
  {
    if xs == [] {
      c := [key];
    } else {
      var n := |xs| - 1;
      var before := FewSharesRevealNothing(xs[..n], ys[..n], key, p);
      forall i | 0 <= i < n
        ensures !Cong(xs[n] - xs[..n][i], 0, p)
      {
        NotCongFlip(xs[i], xs[n], p);
      }
      assert xs == xs[..n] + [xs[n]] && ys == ys[..n] + [ys[n]];
      hide Eval, Distinct, Cong, IsPrime;
      c := OneMoreShare(xs[..n], ys[..n], before, key, xs[n], ys[n], p);
    }
  }

  lemma OneMoreShare(xs: seq<int>, ys: seq<int>, before: seq<int>, key: int, x: int, y: int, p: int)
      returns (c: seq<int>)
    requires IsPrime(p) && |ys| == |xs| && !Cong(x, 0, p)
    requires forall i :: 0 <= i < |xs| ==> !Cong(x - xs[i], 0, p)
    requires |before| == |xs| + 1 && Eval(before, 0) == key
    requires forall i :: 0 <= i < |xs| ==> Cong(Eval(before, xs[i]), ys[i], p)
    ensures |c| == |xs| + 2 && Eval(c, 0) == key
    ensures Cong(Eval(c, x), y, p) && forall i :: 0 <= i < |xs| ==> Cong(Eval(c, xs[i]), ys[i], p)
  {
    assert p >= 2;
    hide Eval, Vanishing, Cong, IsPrime;
    var v := Vanishing(xs);
    VanishingElsewhere(xs, x, p);
    var inverse := InverseMod(Eval(v, x), p);
    var factor := (y - Eval(before, x)) * inverse;
    c := PolyAdd(before, PolyScale(factor, v));
    VanishingFacts(xs, 0);
    AddMultiple(before, factor, v, 0);
    forall i | 0 <= i < |xs|
      ensures Eval(c, xs[i]) == Eval(before, xs[i])
    {
      VanishingFacts(xs, xs[i]);
      AddMultiple(before, factor, v, xs[i]);
    }
    AddMultiple(before, factor, v, x);
    InverseCorrect(Eval(v, x), p);
    FillGap(Eval(before, x), y, Eval(v, x), inverse, p);
  }

  lemma AddMultiple(a: seq<int>, factor: int, v: seq<int>, x: int)
    ensures Eval(PolyAdd(a, PolyScale(factor, v)), x) == Eval(a, x) + factor * Eval(v, x)
    ensures Eval(v, x) == 0 ==> Eval(PolyAdd(a, PolyScale(factor, v)), x) == Eval(a, x)
  {
    EvalAdd(a, PolyScale(factor, v), x);
    EvalScale(factor, v, x);
    ZeroFactor(factor, Eval(v, x));
  }

  lemma FillGap(a: int, y: int, v: int, inverse: int, p: int)
    requires p > 0 && Cong(v * inverse, 1, p)
    ensures Cong(a + ((y - a) * inverse) * v, y, p)
  {
    CongScale(y - a, v * inverse, 1, p);
    CongRefl(a, p);
    CongAdd(a, a, (y - a) * (v * inverse), (y - a) * 1, p);
    assert ((y - a) * inverse) * v == (y - a) * (v * inverse);
  }

  /** A polynomial with no more coefficients than distinct roots modulo p is zero modulo p. */
  lemma {:induction false} OnlyZeroVanishes(xs: seq<int>, c: seq<int>, p: int)
    requires IsPrime(p) && Distinct(xs, p) && |c| <= |xs|
    requires forall i :: 0 <= i < |xs| ==> Cong(Eval(c, xs[i]), 0, p)
    ensures forall i :: 0 <= i < |c| ==> Cong(c[i], 0, p)
    decreases |xs|
  {
    if c != [] {
      hide Eval, Quotient, IsPrime, Cong;
      var n := |xs| - 1;
      var q := Quotient(c, xs[n]);
      forall i | 0 <= i < n
        ensures Cong(Eval(q, xs[..n][i]), 0, p)
      {
        QuotientValue(c, xs[n], xs[i]);
        CongSub(Eval(c, xs[i]), 0, Eval(c, xs[n]), 0, p);
        assert (xs[i] - xs[n]) * 0 == 0;
        CongCancel(xs[i] - xs[n], Eval(q, xs[i]), 0, p);
      }
      OnlyZeroVanishes(xs[..n], q, p);
      ZeroQuotient(c, xs[n], p);
    }
  }

  /** With a root and a quotient that is zero, a polynomial is zero. */
  lemma {:induction false} ZeroQuotient(c: seq<int>, b: int, p: int)
    requires Cong(Eval(c, b), 0, p)
    requires forall i :: 0 <= i < |Quotient(c, b)| ==> Cong(Quotient(c, b)[i], 0, p)
    ensures forall i :: 0 <= i < |c| ==> Cong(c[i], 0, p)
  {
    if c != [] {
      var rest := c[1..];
      var q := Quotient(c, b);
      if |c| == 1 {
        CongRefl(0, p);
      } else {
        assert q[0] == Eval(rest, b) && q[1..] == Quotient(rest, b);
      }
      assert Cong(Eval(rest, b), 0, p);
      ZeroQuotient(rest, b, p);
      CongScale(b, Eval(rest, b), 0, p);
      assert b * 0 == 0;
      CongSub(Eval(c, b), 0, b * Eval(rest, b), 0, p);
    }
  }

  /** And the polynomial is the only one: two polynomials with K coefficients that take the same
      values at K - 1 distinct non-zero points and have the same key are the same modulo p. So for
      every key there are equally many. */
  lemma SharesAndKeyDetermine(xs: seq<int>, c: seq<int>, d: seq<int>, p: int)
    requires IsPrime(p) && Distinct(xs, p) && |c| == |d| == |xs| + 1
    requires forall i :: 0 <= i < |xs| ==> !Cong(xs[i], 0, p)
    requires Cong(Eval(c, 0), Eval(d, 0), p)
    requires forall i :: 0 <= i < |xs| ==> Cong(Eval(c, xs[i]), Eval(d, xs[i]), p)
    ensures forall i :: 0 <= i < |c| ==> Cong(c[i], d[i], p)
  {
    hide Eval, IsPrime, Cong;
    var zs, e := xs + [0], PolyAdd(c, PolyScale(-1, d));
    assert Distinct(zs, p);
    forall i | 0 <= i < |zs|
      ensures Cong(Eval(e, zs[i]), 0, p)
    {
      AddMultiple(c, -1, d, zs[i]);
      CongRefl(Eval(d, zs[i]), p);
      CongSub(Eval(c, zs[i]), Eval(d, zs[i]), Eval(d, zs[i]), Eval(d, zs[i]), p);
    }
    OnlyZeroVanishes(zs, e, p);
    forall i | 0 <= i < |c|
      ensures Cong(c[i], d[i], p)
    {
      assert Coeff(e, i) == Coeff(c, i) + -1 * Coeff(d, i);
      CongRefl(d[i], p);
      CongAdd(e[i], 0, d[i], d[i], p);
    }
  }
}
