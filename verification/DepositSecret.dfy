/** Parts of a deposit address: how a relay deals one, how everybody checks the
    public values, how the recipients unmask their shares, and when a complaint
    about a share can be refuted (src/deposit/deposit_secret.cpp,
    src/deposit/deposit_messages.h, src/deposit/disclosure_messages.h). */
module DepositSecret {
  import opened Modular
  import opened Interpolation
  import opened Group
  import opened Polynomial
  import opened SecretSharing
  import opened Bits

  const SECRETS_PER_ADDRESS_PART := 4
  const ADDRESS_PART_SECRETS_NEEDED := 3

  /** The order of the group and the two hash functions the protocol uses: of a
      point (src/crypto/bignum_hashes.h:6-10) and of a list of points. */
  datatype Params = Params(order: int, hash: Point -> nat, listHash: seq<Point> -> nat)

  /** The published part (src/deposit/deposit_secret.h:30-90); `relays` is what
      `Relays()` yields for it. */
  datatype AddressPartSecret = AddressPartSecret(
    coefficientPoints: seq<Point>,
    pointValues: seq<Point>,
    masked: seq<int>,
    relays: seq<Point>,
    relayListHash: nat)
  {
    function PubKey(): Point {
      if |coefficientPoints| > 0 then coefficientPoints[0] else Infinity
    }
  }

  ghost predicate AllOnCurve(points: seq<Point>, p: int) {
    forall i :: 0 <= i < |points| ==> OnCurve(points[i], p)
  }

  // ---------------------------------------------------------- Feldman's check

  /** `PointPolynomial::evaluate` (src/crypto/polynomial.cpp:196-209): evaluation in
      the exponent. */
  method EvaluatePoints(coefficients: seq<Point>, x: int, p: int) returns (result: Point)
    requires p > 0
    ensures OnCurve(result, p)
    ensures Cong(result.residue, Eval(Residues(coefficients), x), p)
  {
    result := Infinity;
    var power := 1;
    ghost var exact, sum := 1, 0;
    ghost var c := Residues(coefficients);
    CongRefl(0, p); CongRefl(1, p);
    var i := 0;
    while i < |coefficients|
      invariant 0 <= i <= |coefficients| && OnCurve(result, p)
      invariant Cong(power, exact, p) && Cong(result.residue, sum, p)
      invariant sum + exact * Eval(c[i..], x) == Eval(c, x)
    {
      var term := Scale(power, coefficients[i], p);
      ghost var before := result;
      result := Add(result, term, p);
      ScaleResidue(power, coefficients[i], p);
      AddResidue(before, term, p);
      TermStep(before.residue, sum, term.residue, power, exact, c[i], result.residue, p);
      HornerAlgebra(sum, exact, c[i], x, Eval(c[i + 1..], x), Eval(c[i..], x)) by {
        assert c[i..][1..] == c[i + 1..];
      }
      PowerCong(power, exact, x, p);
      power := TruncMod(power * x, p);
      sum, exact := sum + exact * c[i], exact * x;
      i := i + 1;
    }
  }

  lemma TermStep(before: int, sum: int, term: int, power: int, exact: int, c: int, after: int, p: int)
    requires Cong(before, sum, p) && Cong(power, exact, p)
    requires Cong(term, power * c, p) && Cong(after, before + term, p)
    ensures Cong(after, sum + exact * c, p)
  {
    CongRefl(c, p);
    CongMul(power, exact, c, c, p);
    CongTrans(term, power * c, exact * c, p);
    CongAdd(before, sum, term, exact * c, p);
    CongTrans(after, before + term, sum + exact * c, p);
  }

  lemma PowerCong(power: int, exact: int, x: int, p: int)
    requires p > 0 && Cong(power, exact, p)
    ensures Cong(TruncMod(power * x, p), exact * x, p)
  {
    CongRefl(x, p);
    CongMul(power, exact, x, x, p);
    CongTrans(TruncMod(power * x, p), power * x, exact * x, p);
  }

  /** The public values are those of one polynomial with the public coefficients. */
  ghost predicate Consistent(coefficients: seq<Point>, values: seq<Point>, n: nat, p: int)
    requires p > 0
  {
    n <= |values| && forall i :: 0 <= i < n ==> Cong(Eval(Residues(coefficients), i + 1), values[i].residue, p)
  }

  /** `ValidateKeys` (src/deposit/deposit_secret.cpp:109-140) for n values and a
      threshold of k. The two checks it makes are in fact one: whenever the
      evaluation loop accepts, the Lagrange confirmation accepts as well. */
  method ValidateKeys(secret: AddressPartSecret, n: nat, k: nat, p: int) returns (ok: bool)
    requires IsPrime(p) && 0 < k <= n <= p
    requires n == |secret.pointValues| && |secret.coefficientPoints| <= k
    requires AllOnCurve(secret.coefficientPoints, p) && AllOnCurve(secret.pointValues, p)
    ensures ok <==> Consistent(secret.coefficientPoints, secret.pointValues, n, p)
  {
    var pubkey := secret.PubKey();
    var xs := PositiveIntegers(n);
    var i := 0;
    while i < n
      invariant 0 <= i <= n
      invariant Consistent(secret.coefficientPoints, secret.pointValues, i, p)
    {
      var evaluation := EvaluatePoints(secret.coefficientPoints, xs[i], p);
      EvaluationMatches(evaluation, secret.coefficientPoints, secret.pointValues[i], i + 1, p);
      if evaluation != secret.pointValues[i] {
        return false;
      }
      i := i + 1;
    }
    var confirmed := ConfirmPublicKey(pubkey, secret.pointValues, n, k, p);
    ConfirmationFollows(secret, n, k, p);
    ok := confirmed;
  }

  lemma EvaluationMatches(evaluation: Point, coefficients: seq<Point>, value: Point, x: int, p: int)
    requires OnCurve(evaluation, p) && OnCurve(value, p)
    requires Cong(evaluation.residue, Eval(Residues(coefficients), x), p)
    ensures evaluation == value <==> Cong(Eval(Residues(coefficients), x), value.residue, p)
  {
    var e := Eval(Residues(coefficients), x);
    PointEqual(evaluation, value, p);
    CongSym(evaluation.residue, e, p);
    if Cong(evaluation.residue, value.residue, p) {
      CongTrans(e, evaluation.residue, value.residue, p);
    }
    if Cong(e, value.residue, p) {
      CongTrans(evaluation.residue, e, value.residue, p);
    }
  }

  /** If the values are consistent with the coefficients, interpolating any k of
      them in the exponent gives the public key. */
  lemma ConfirmationFollows(secret: AddressPartSecret, n: nat, k: nat, p: int)
    requires IsPrime(p) && k <= n <= p
    requires n <= |secret.pointValues| && |secret.coefficientPoints| <= k
    requires Consistent(secret.coefficientPoints, secret.pointValues, n, p)
    ensures Cong(WeightedSum(UpTo(k), Residues(secret.pointValues), k, p), secret.PubKey().residue, p)
  {
    var xs, c := UpTo(k), Residues(secret.coefficientPoints);
    var ys := Residues(secret.pointValues)[..k];
    forall i, j | 0 <= i < j < k ensures !Cong(xs[i] - xs[j], 0, p) {
      SmallDifference(xs[i], xs[j], p);
    }
    forall i | 0 <= i < k ensures Cong(ys[i], Eval(c, xs[i]), p) {
      CongSym(Eval(c, i + 1), ys[i], p);
    }
    Reconstruct(xs, ys, c, p);
    SameWeightedSum(xs, ys, Residues(secret.pointValues), k, p);
    EvalAtZero(c);
  }

  lemma EvalAtZero(c: seq<int>)
    ensures Eval(c, 0) == if c == [] then 0 else c[0]
  {
  }

  /** `AddressPartSecret::Validate` (src/deposit/deposit_secret.cpp:88-107). */
  method Validate(secret: AddressPartSecret, params: Params) returns (ok: bool)
    requires IsPrime(params.order) && SECRETS_PER_ADDRESS_PART <= params.order
    requires AllOnCurve(secret.coefficientPoints, params.order) && AllOnCurve(secret.pointValues, params.order)
    ensures ok <==> ValidPart(secret, params)
  {
    if |secret.coefficientPoints| != ADDRESS_PART_SECRETS_NEEDED ||
       |secret.pointValues| != SECRETS_PER_ADDRESS_PART ||
       |secret.masked| != SECRETS_PER_ADDRESS_PART {
      return false;
    }
    var keysOk := ValidateKeys(secret, SECRETS_PER_ADDRESS_PART, ADDRESS_PART_SECRETS_NEEDED, params.order);
    ok := params.listHash(secret.relays) == secret.relayListHash && keysOk;
  }

  ghost predicate ValidPart(secret: AddressPartSecret, params: Params)
    requires params.order > 0
  {
    && |secret.coefficientPoints| == ADDRESS_PART_SECRETS_NEEDED
    && |secret.pointValues| == |secret.masked| == SECRETS_PER_ADDRESS_PART
    && params.listHash(secret.relays) == secret.relayListHash
    && Consistent(secret.coefficientPoints, secret.pointValues, SECRETS_PER_ADDRESS_PART, params.order)
  }

  // ------------------------------------------------------------- key store

  /** The private keys stored under their public keys. */
  type KeyStore = map<Point, int>

  /** A missing key reads as zero. */
  function Lookup(keys: KeyStore, point: Point): int {
    if point in keys then keys[point] else 0
  }

  /** Every stored private key opens the point it is stored under. */
  ghost predicate KeysOpen(keys: KeyStore, p: int)
    requires p > 0
  {
    forall point :: point in keys ==> Multiple(keys[point], p) == point
  }

  /** The mask of a share exchanged between the holders of `privkey` and `point`. */
  function SharedSecret(privkey: int, point: Point, params: Params): nat
    requires params.order > 0
  {
    params.hash(Scale(privkey, point, params.order))
  }

  /** What the mask is: the hash of the point that both private keys together make. */
  lemma MaskIs(a: int, b: int, params: Params)
    requires params.order > 0
    ensures SharedSecret(a, Multiple(b, params.order), params) == params.hash(Multiple(a * b, params.order))
  {
    ScaleMultiple(a, b, params.order);
  }

  /** The number is the share masked for the holder of the relay's key, whatever that is. */
  ghost predicate MaskedFor(masked: int, share: int, relay: Point, params: Params)
    requires params.order > 0
  {
    forall k :: relay == Multiple(k, params.order) ==>
      masked == BigXor(share, params.hash(Multiple(share * k, params.order)))
  }

  lemma MaskedForRelay(share: int, relay: Point, params: Params)
    requires params.order > 0
    ensures MaskedFor(BigXor(share, SharedSecret(share, relay, params)), share, relay, params)
  {
    hide BigXor, SharedSecret, Multiple;
    forall k | relay == Multiple(k, params.order)
      ensures SharedSecret(share, relay, params) == params.hash(Multiple(share * k, params.order))
    {
      MaskIs(share, k, params);
    }
  }

  /** The part publishes the polynomial with the given coefficients, and the shares are its values
      at 1, 2, ..., reduced. */
  ghost predicate DealtFrom(random: seq<int>, secret: AddressPartSecret, secrets: seq<int>, p: int)
    requires p > 0
  {
    && |secret.coefficientPoints| == |random| && |secrets| == |secret.relays|
    && (forall i :: 0 <= i < |random| ==> secret.coefficientPoints[i] == Multiple(random[i], p))
    && SharesOf(secrets, random, |secrets|, p)
    && forall i :: 0 <= i < |secrets| ==> 0 <= secrets[i] < p
  }

  /** The store with the first n shares under their public values. */
  function WithShares(keys: KeyStore, secrets: seq<int>, n: nat, p: int): KeyStore
    requires p > 0 && n <= |secrets|
  {
    if n == 0 then keys else WithShares(keys, secrets, n - 1, p)[Multiple(secrets[n - 1], p) := secrets[n - 1]]
  }

  lemma OneMoreKey(keys: KeyStore, key: int, p: int)
    requires p > 0 && KeysOpen(keys, p)
    ensures KeysOpen(keys[Multiple(key, p) := key], p)
  {
  }

  lemma {:induction false} WithSharesFacts(keys: KeyStore, secrets: seq<int>, points: seq<Point>, n: nat, p: int)
    requires p > 0 && n <= |secrets| == |points| && KeysOpen(keys, p)
    requires forall i :: 0 <= i < |secrets| ==> points[i] == Multiple(secrets[i], p)
    ensures KeysOpen(WithShares(keys, secrets, n, p), p)
    ensures WithShares(keys, secrets, n, p).Keys == keys.Keys + set i | 0 <= i < n :: points[i]
  {
    if n > 0 {
      WithSharesFacts(keys, secrets, points, n - 1, p);
    }
  }

  /** The constructor of a part (src/deposit/deposit_secret.cpp:14-48), given the
      random coefficients. The relay that deals it stores all its keys. */
  method DealPart(random: seq<int>, relays: seq<Point>, keys0: KeyStore, params: Params)
    returns (secret: AddressPartSecret, privkey: int, secrets: seq<int>, keys: KeyStore)
    requires IsPrime(params.order) && SECRETS_PER_ADDRESS_PART <= params.order
    requires |random| == ADDRESS_PART_SECRETS_NEEDED && NonNegative(random)
    requires |relays| == SECRETS_PER_ADDRESS_PART
    requires KeysOpen(keys0, params.order)
    ensures ValidPart(secret, params) && secret.relays == relays
    ensures AllOnCurve(secret.coefficientPoints, params.order) && AllOnCurve(secret.pointValues, params.order)
    ensures privkey == random[0] && secret.PubKey() == Multiple(privkey, params.order)
    ensures Deals(secret, secrets, params) && DealtFrom(random, secret, secrets, params.order)
    ensures forall i :: 0 <= i < |relays| ==> MaskedFor(secret.masked[i], secrets[i], relays[i], params)
    ensures KeysOpen(keys, params.order)
    ensures keys == WithShares(keys0[secret.PubKey() := random[0]], secrets, |secrets|, params.order)
    ensures keys.Keys == keys0.Keys + {secret.PubKey()} +
        (set i | 0 <= i < |secret.pointValues| :: secret.pointValues[i])
  {
    hide BigXor, IsPrime, Consistent, KeysOpen, MaskedFor;
    var p := params.order;
    var pubkey, coeffs;
    pubkey, secrets, coeffs, privkey := GenerateKeyWithSecretParts(random, 0, |relays|, p);
    var coefficientPoints := PublicsFromPrivates(coeffs, p);
    var pointValues := PublicsFromPrivates(secrets, p);
    keys := keys0[pubkey := privkey];
    OneMoreKey(keys0, privkey, p);
    var masked := [];
    var i := 0;
    while i < |relays|
      invariant 0 <= i <= |relays| && |masked| == i
      invariant keys == WithShares(keys0[pubkey := privkey], secrets, i, p)
      invariant forall j :: 0 <= j < i ==>
          masked[j] == BigXor(secrets[j], SharedSecret(secrets[j], relays[j], params))
    {
      keys := keys[Multiple(secrets[i], p) := secrets[i]];
      var shared := params.hash(Scale(secrets[i], relays[i], p));
      var m := XorBigNum(secrets[i], shared);
      masked := masked + [m];
      i := i + 1;
    }
    forall j | 0 <= j < |relays|
      ensures MaskedFor(masked[j], secrets[j], relays[j], params)
    {
      MaskedForRelay(secrets[j], relays[j], params);
    }
    secret := AddressPartSecret(coefficientPoints, pointValues, masked, relays, params.listHash(relays));
    WithSharesFacts(keys0[pubkey := privkey], secrets, pointValues, |relays|, p);
    HonestPartIsConsistent(coeffs, secrets, coefficientPoints, pointValues, |relays|, p);
  }

  /** The masks of `secret` hide exactly the shares `secrets`. */
  ghost predicate Deals(secret: AddressPartSecret, secrets: seq<int>, params: Params)
    requires params.order > 0
  {
    && |secrets| == |secret.pointValues| == |secret.masked| == |secret.relays|
    && NonNegative(secrets)
    && forall i :: 0 <= i < |secrets| ==>
         && secret.pointValues[i] == Multiple(secrets[i], params.order)
         && secret.masked[i] == BigXor(secrets[i], SharedSecret(secrets[i], secret.relays[i], params))
  }

  lemma HonestPartIsConsistent(coeffs: seq<int>, secrets: seq<int>, coefficientPoints: seq<Point>,
                               pointValues: seq<Point>, n: nat, p: int)
    requires p > 0 && SharesOf(secrets, coeffs, n, p)
    requires |coefficientPoints| == |coeffs| && |pointValues| == |secrets|
    requires forall i :: 0 <= i < |coeffs| ==> coefficientPoints[i] == Multiple(coeffs[i], p)
    requires forall i :: 0 <= i < |secrets| ==> pointValues[i] == Multiple(secrets[i], p)
    ensures Consistent(coefficientPoints, pointValues, n, p)
  {
    var c := Residues(coefficientPoints);
    forall i | 0 <= i < |coeffs| ensures Cong(c[i], coeffs[i], p) {
      MultipleResidue(coeffs[i], p);
    }
    forall i | 0 <= i < n ensures Cong(Eval(c, i + 1), pointValues[i].residue, p) {
      EvalCong(c, coeffs, i + 1, p);
      CongSym(secrets[i], Eval(coeffs, i + 1), p);
      CongTrans(Eval(c, i + 1), Eval(coeffs, i + 1), secrets[i], p);
      MultipleResidue(secrets[i], p);
      CongSym(pointValues[i].residue, secrets[i], p);
      CongTrans(Eval(c, i + 1), secrets[i], pointValues[i].residue, p);
    }
  }

  lemma {:induction false} EvalCong(c: seq<int>, d: seq<int>, x: int, p: int)
    requires |c| == |d| && forall i :: 0 <= i < |c| ==> Cong(c[i], d[i], p)
    ensures Cong(Eval(c, x), Eval(d, x), p)
  {
    if c == [] {
      CongRefl(0, p);
    } else {
      EvalCong(c[1..], d[1..], x, p);
      CongScale(x, Eval(c[1..], x), Eval(d[1..], x), p);
      CongAdd(c[0], d[0], x * Eval(c[1..], x), x * Eval(d[1..], x), p);
    }
  }

  // -------------------------------------------------------- receiving shares

  /** What a recipient with the relay key `privkey` unmasks. */
  function Unmask(privkey: int, point: Point, masked: int, params: Params): int
    requires params.order > 0
  {
    BigXor(SharedSecret(privkey, point, params), masked)
  }

  /** The recipient's check of a share. */
  predicate ShareOpens(privkey: int, point: Point, masked: int, params: Params)
    requires params.order > 0
  {
    Multiple(Unmask(privkey, point, masked, params), params.order) == point
  }

  /** What the recipient's check means: unmasking with the hash of the common point gives a number
      that opens the public value. */
  lemma ShareOpensExactly(privkey: int, share: int, masked: int, params: Params)
    requires params.order > 0
    ensures var p := params.order;
      var point, unmasked := Multiple(share, p), BigXor(params.hash(Multiple(privkey * share, p)), masked);
      && Unmask(privkey, point, masked, params) == unmasked
      && (ShareOpens(privkey, point, masked, params) <==> Cong(unmasked, share, p))
  {
    hide BigXor;
    MaskIs(privkey, share, params);
    MultipleEqual(BigXor(params.hash(Multiple(privkey * share, params.order)), masked), share, params.order);
  }

  /** One share: nothing happens without the relay's key; otherwise the unmasked
      share is stored if it opens the public value, and reported if not. */
  function ReceiveShare(keys: KeyStore, point: Point, masked: int, relay: Point, params: Params): (r: (KeyStore, bool))
    requires params.order > 0
    ensures KeysOpen(keys, params.order) ==> KeysOpen(r.0, params.order)
    ensures r.1 <==> relay in keys && !ShareOpens(keys[relay], point, masked, params)
  {
    if relay !in keys then (keys, false)
    else
      var secret := Unmask(keys[relay], point, masked, params);
      if Multiple(secret, params.order) == point then (keys[point := secret], false) else (keys, true)
  }

  /** What the holders of keys in `keys` store and report of the first `n` shares. */
  function Received(keys: KeyStore, points: seq<Point>, masked: seq<int>, relays: seq<Point>, n: nat, params: Params)
    : (r: (KeyStore, seq<int>))
    requires params.order > 0 && n <= |points| && n <= |masked| && n <= |relays|
  {
    if n == 0 then (keys, [])
    else
      var (k, bad) := Received(keys, points, masked, relays, n - 1, params);
      var (k', isBad) := ReceiveShare(k, points[n - 1], masked[n - 1], relays[n - 1], params);
      (k', if isBad then bad + [n - 1] else bad)
  }

  /** Receiving shares keeps the store honest, touches only the public values of
      the part, and reports exactly the shares that do not open. */
  lemma {:induction false} ReceivedFacts(keys: KeyStore, points: seq<Point>, masked: seq<int>, relays: seq<Point>,
                                         n: nat, params: Params)
    requires params.order > 0 && n <= |points| && n <= |masked| && n <= |relays|
    ensures var r := Received(keys, points, masked, relays, n, params);
      && (KeysOpen(keys, params.order) ==> KeysOpen(r.0, params.order))
      && keys.Keys <= r.0.Keys
      && (forall point :: point in r.0 ==> point in points[..n] || (point in keys && r.0[point] == keys[point]))
      && (forall i :: i in r.1 <==> 0 <= i < n && Reported(keys, points, masked, relays, i, params))
  {
    if n > 0 {
      ReceivedFacts(keys, points, masked, relays, n - 1, params);
      assert points[..n] == points[..n - 1] + [points[n - 1]];
    }
  }

  /** The recipient of share i holds the relay's key when it comes to it, and the
      share does not open. */
  predicate Reported(keys: KeyStore, points: seq<Point>, masked: seq<int>, relays: seq<Point>, i: nat, params: Params)
    requires params.order > 0 && i < |points| && i < |masked| && i < |relays|
  {
    var k := Received(keys, points, masked, relays, i, params).0;
    relays[i] in k && !ShareOpens(k[relays[i]], points[i], masked[i], params)
  }

  /** The store only grows from share to share. */
  lemma {:induction false} ReceivedGrows(keys: KeyStore, points: seq<Point>, masked: seq<int>, relays: seq<Point>,
                                         m: nat, n: nat, params: Params)
    requires params.order > 0 && m <= n <= |points| && n <= |masked| && n <= |relays|
    ensures Received(keys, points, masked, relays, m, params).0.Keys
      <= Received(keys, points, masked, relays, n, params).0.Keys
  {
    if m < n {
      ReceivedGrows(keys, points, masked, relays, m, n - 1, params);
    }
  }

  /** A relay's key that no earlier share replaces decides about its share: the share is stored if it
      opens and reported if it does not. */
  lemma ReceivedStores(keys: KeyStore, points: seq<Point>, masked: seq<int>, relays: seq<Point>, n: nat, i: nat,
                       params: Params)
    requires params.order > 0 && i < n <= |points| && n <= |masked| && n <= |relays|
    requires relays[i] !in points[..i]
    ensures var r := Received(keys, points, masked, relays, n, params);
      && (i in r.1 <==> relays[i] in keys && !ShareOpens(keys[relays[i]], points[i], masked[i], params))
      && (relays[i] in keys && ShareOpens(keys[relays[i]], points[i], masked[i], params) ==> points[i] in r.0)
  {
    hide ShareOpens;
    ReceivedFacts(keys, points, masked, relays, i, params);
    ReceivedFacts(keys, points, masked, relays, n, params);
    ReceivedGrows(keys, points, masked, relays, i + 1, n, params);
    StoredIfOpens(Received(keys, points, masked, relays, i, params).0, points[i], masked[i], relays[i], params);
  }

  lemma StoredIfOpens(keys: KeyStore, point: Point, masked: int, relay: Point, params: Params)
    requires params.order > 0
    ensures relay in keys && ShareOpens(keys[relay], point, masked, params) ==>
      point in ReceiveShare(keys, point, masked, relay, params).0
    ensures !(relay in keys && ShareOpens(keys[relay], point, masked, params)) ==>
      ReceiveShare(keys, point, masked, relay, params).0 == keys
  {
  }

  /** A public value none of whose shares opens keeps the key it had, if any. */
  lemma {:induction false} ReceivedLeaves(keys: KeyStore, points: seq<Point>, masked: seq<int>, relays: seq<Point>,
                                          n: nat, point: Point, params: Params)
    requires params.order > 0 && n <= |points| && n <= |masked| && n <= |relays|
    requires forall i :: 0 <= i < n && points[i] == point ==>
      && relays[i] !in points[..i]
      && !(relays[i] in keys && ShareOpens(keys[relays[i]], points[i], masked[i], params))
    ensures var r := Received(keys, points, masked, relays, n, params).0;
      (point in r <==> point in keys) && (point in keys ==> r[point] == keys[point])
  {
    if n > 0 {
      hide ShareOpens;
      ReceivedLeaves(keys, points, masked, relays, n - 1, point, params);
      ReceivedFacts(keys, points, masked, relays, n - 1, params);
      var k := Received(keys, points, masked, relays, n - 1, params).0;
      if points[n - 1] == point {
        StoredIfOpens(k, point, masked[n - 1], relays[n - 1], params);
      }
    }
  }

  /** `AddressPartSecret::ValidateAndStoreMySecrets`
      (src/deposit/deposit_secret.cpp:142-170). */
  method ValidateAndStoreMySecrets(secret: AddressPartSecret, keys0: KeyStore, params: Params)
    returns (ok: bool, badSecrets: seq<int>, keys: KeyStore)
    requires params.order > 0
    requires |secret.relays| <= |secret.pointValues| && |secret.relays| <= |secret.masked|
    ensures (keys, badSecrets) ==
        Received(keys0, secret.pointValues, secret.masked, secret.relays, |secret.relays|, params)
    ensures ok <==> badSecrets == []
  {
    ok, badSecrets, keys := true, [], keys0;
    var i := 0;
    while i < |secret.relays|
      invariant 0 <= i <= |secret.relays|
      invariant (keys, badSecrets) == Received(keys0, secret.pointValues, secret.masked, secret.relays, i, params)
      invariant ok <==> badSecrets == []
    {
      if secret.relays[i] in keys {
        var privkey := keys[secret.relays[i]];
        var shared := params.hash(Scale(privkey, secret.pointValues[i], params.order));
        var share := XorBigNum(shared, secret.masked[i]);
        if Multiple(share, params.order) == secret.pointValues[i] {
          keys := keys[secret.pointValues[i] := share];
        } else {
          badSecrets := badSecrets + [i];
          ok := false;
        }
      }
      i := i + 1;
    }
  }

  /** A part dealt by the constructor leads to no complaint, and every recipient
      stores its share. */
  lemma {:induction false} HonestPartIsReceived(secret: AddressPartSecret, secrets: seq<int>, keys: KeyStore,
                                                n: nat, params: Params)
    requires params.order > 0 && KeysOpen(keys, params.order)
    requires Deals(secret, secrets, params) && n <= |secrets|
    ensures Received(keys, secret.pointValues, secret.masked, secret.relays, n, params).1 == []
    ensures forall i :: 0 <= i < n && secret.relays[i] in keys ==>
        secret.pointValues[i] in Received(keys, secret.pointValues, secret.masked, secret.relays, n, params).0
  {
    if n > 0 {
      HonestPartIsReceived(secret, secrets, keys, n - 1, params);
      ReceivedFacts(keys, secret.pointValues, secret.masked, secret.relays, n - 1, params);
      var k := Received(keys, secret.pointValues, secret.masked, secret.relays, n - 1, params).0;
      if secret.relays[n - 1] in k {
        HonestShareOpens(secrets[n - 1], k[secret.relays[n - 1]], secret.relays[n - 1], secret.pointValues[n - 1],
                         secret.masked[n - 1], params);
      }
    }
  }

  lemma HonestShareOpens(share: int, privkey: int, relay: Point, point: Point, masked: int, params: Params)
    requires params.order > 0 && share >= 0
    requires Multiple(privkey, params.order) == relay && Multiple(share, params.order) == point
    requires masked == BigXor(share, SharedSecret(share, relay, params))
    ensures Unmask(privkey, point, masked, params) == share
    ensures ShareOpens(privkey, point, masked, params)
  {
    Exchange(share, privkey, relay, params);
    BigXorUndo(share, SharedSecret(share, relay, params));
  }

  /** Both ends of an exchange arrive at the same mask. */
  lemma Exchange(secret: int, privkey: int, relay: Point, params: Params)
    requires params.order > 0 && Multiple(privkey, params.order) == relay
    ensures SharedSecret(privkey, Multiple(secret, params.order), params) == SharedSecret(secret, relay, params)
  {
    SharedPoint(privkey, secret, params.order);
  }

  // ------------------------------------------------------ complaints decided

  /** `DepositAddressPartRefutation::Validate` and `DepositDisclosureRefutation::Validate`
      (src/deposit/deposit_messages.h:265-280, src/deposit/disclosure_messages.h:151-166)
      for the share at one position; `relay` is the complainer's key. */
  predicate RefutationValid(secret: int, relay: Point, point: Point, masked: int, params: Params)
    requires params.order > 0
  {
    && point == Multiple(secret, params.order)
    && masked == BigXor(SharedSecret(secret, relay, params), secret)
    && Multiple(secret, params.order) == point
  }

  /** In terms of the complainer's key: the secret opens the public value, and masked with the hash of
      the common point it is what was published. */
  lemma RefutationExactly(secret: int, key: int, point: Point, masked: int, params: Params)
    requires params.order > 0
    ensures RefutationValid(secret, Multiple(key, params.order), point, masked, params) <==>
      && point == Multiple(secret, params.order)
      && masked == BigXor(params.hash(Multiple(secret * key, params.order)), secret)
  {
    MaskIs(secret, key, params);
  }

  /** The recipient's check of a mask that is not negative passes if and only if some
      non-negative secret refutes a complaint about it; and then it is the unmasked one. No
      secret refutes a complaint about a negative mask. */
  lemma ComplaintDecided(privkey: int, relay: Point, point: Point, masked: int, params: Params)
    requires params.order > 0 && OnCurve(point, params.order)
    requires Multiple(privkey, params.order) == relay
    ensures masked >= 0 && ShareOpens(privkey, point, masked, params)
        <==> exists secret :: secret >= 0 && RefutationValid(secret, relay, point, masked, params)
    ensures forall secret :: secret >= 0 && RefutationValid(secret, relay, point, masked, params) ==>
        secret == Unmask(privkey, point, masked, params)
    ensures forall secret :: RefutationValid(secret, relay, point, masked, params) ==> masked >= 0
  {
    var shared := SharedSecret(privkey, point, params);
    var unmasked := Unmask(privkey, point, masked, params);
    if masked >= 0 {
      BigXorUndo(masked, shared);
    }
    if masked >= 0 && ShareOpens(privkey, point, masked, params) {
      Exchange(unmasked, privkey, relay, params);
      assert RefutationValid(unmasked, relay, point, masked, params);
    }
    forall secret | secret >= 0 && RefutationValid(secret, relay, point, masked, params)
      ensures masked >= 0 && secret == unmasked && ShareOpens(privkey, point, masked, params)
    {
      Exchange(secret, privkey, relay, params);
      BigXorUndo(secret, shared);
    }
  }

  /** A complaint is decided when the check fails exactly if it cannot be refuted. */
  ghost predicate Decided(privkey: int, relay: Point, point: Point, masked: int, params: Params)
    requires params.order > 0
  {
    ShareOpens(privkey, point, masked, params)
    <==> exists secret :: RefutationValid(secret, relay, point, masked, params)
  }

  /** With negative numbers allowed for masks and secrets, as the code does, complaints are
      decided with two exceptions. A mask equal to the shared secret is refutable although it
      unmasks to zero. A negative mask is not refutable although the check passes when the
      shared secret itself opens the point. */
  lemma ComplaintDecidedExactly(privkey: int, relay: Point, point: Point, masked: int, params: Params)
    requires params.order > 0 && OnCurve(point, params.order)
    requires Multiple(privkey, params.order) == relay
    ensures var shared := SharedSecret(privkey, point, params);
      Decided(privkey, relay, point, masked, params)
      <==> if masked < 0 then Multiple(shared, params.order) != point else masked != shared || point == Infinity
  {
    hide ShareOpens, RefutationValid, SharedSecret, Multiple;
    ComplaintDecided(privkey, relay, point, masked, params);
    var shared := SharedSecret(privkey, point, params);
    UnusualMasks(privkey, point, masked, params);
    if masked == shared {
      NegativeRefutation(privkey, relay, point, params);
    }
    forall secret | secret < 0 && RefutationValid(secret, relay, point, masked, params)
      ensures masked == shared
    {
      NegativeSecret(secret, privkey, relay, point, masked, params);
    }
  }

  /** A mask equal to the shared secret unmasks to zero; a negative one to the shared secret. */
  lemma UnusualMasks(privkey: int, point: Point, masked: int, params: Params)
    requires params.order > 0
    ensures var shared := SharedSecret(privkey, point, params);
      && (masked == shared ==> (ShareOpens(privkey, point, masked, params) <==> point == Infinity))
      && (masked < 0 ==> (ShareOpens(privkey, point, masked, params) <==> Multiple(shared, params.order) == point))
  {
    hide Multiple;
    XorZero(SharedSecret(privkey, point, params));
    ZeroOpensInfinity(params.order);
  }

  lemma NegativeSecret(secret: int, privkey: int, relay: Point, point: Point, masked: int, params: Params)
    requires params.order > 0 && Multiple(privkey, params.order) == relay
    requires secret < 0 && RefutationValid(secret, relay, point, masked, params)
    ensures masked == SharedSecret(privkey, point, params)
  {
    Exchange(secret, privkey, relay, params);
  }

  /** Every public value has a negative opening, and it refutes a complaint about the mask
      that is the shared secret. */
  lemma NegativeRefutation(privkey: int, relay: Point, point: Point, params: Params)
    requires params.order > 0 && OnCurve(point, params.order)
    requires Multiple(privkey, params.order) == relay
    ensures RefutationValid(point.residue - params.order, relay, point, SharedSecret(privkey, point, params), params)
  {
    var secret := point.residue - params.order;
    NegativeOpening(point, secret, params.order);
    Exchange(secret, privkey, relay, params);
  }

  lemma NegativeOpening(point: Point, secret: int, p: int)
    requires p > 0 && OnCurve(point, p) && secret == point.residue - p
    ensures Multiple(secret, p) == point
  {
    CongBy(secret, point.residue, p, -1);
    MultipleEqual(secret, point.residue, p);
    CongMod(point.residue, p);
    CongCanonical(point.residue % p, point.residue, p);
  }

  /** In every group, with every hash and for every relay and every public value but infinity,
      there is a mask that the recipient cannot use and the dealer can refute complaints
      about. */
  lemma RefutableUselessMask(privkey: int, point: Point, params: Params)
    requires params.order > 0 && OnCurve(point, params.order) && point != Infinity
    ensures var masked := SharedSecret(privkey, point, params);
      && !ShareOpens(privkey, point, masked, params)
      && RefutationValid(point.residue - params.order, Multiple(privkey, params.order), point, masked, params)
  {
    hide ShareOpens, RefutationValid, SharedSecret;
    UnusualMasks(privkey, point, SharedSecret(privkey, point, params), params);
    NegativeRefutation(privkey, Multiple(privkey, params.order), point, params);
  }

  // ------------------------------------------------------------- disclosures

  /** The masks a relay publishes to disclose the shares it dealt
      (src/deposit/deposit_secret.cpp:204-230). */
  method Disclose(secret: AddressPartSecret, relays: seq<Point>, keys: KeyStore, params: Params)
      returns (masked: seq<int>)
    requires params.order > 0 && |relays| <= |secret.pointValues|
    ensures |masked| == |relays|
    ensures forall i :: 0 <= i < |relays| ==>
        var share := Lookup(keys, secret.pointValues[i]);
        && masked[i] == BigXor(share, SharedSecret(share, relays[i], params))
        && MaskedFor(masked[i], share, relays[i], params)
  {
    hide BigXor, MaskedFor;
    masked := [];
    var i := 0;
    while i < |relays|
      invariant 0 <= i <= |relays| && |masked| == i
      invariant forall j :: 0 <= j < i ==>
          var share := Lookup(keys, secret.pointValues[j]);
          && masked[j] == BigXor(share, SharedSecret(share, relays[j], params))
          && MaskedFor(masked[j], share, relays[j], params)
    {
      var share := Lookup(keys, secret.pointValues[i]);
      MaskedForRelay(share, relays[i], params);
      var shared := params.hash(Scale(share, relays[i], params.order));
      var m := XorBigNum(share, shared);
      masked := masked + [m];
      i := i + 1;
    }
  }

  /** The disclosed share does not agree with the mask published first. */
  predicate BadOriginal(share: int, secret: AddressPartSecret, i: nat, params: Params)
    requires params.order > 0 && i < |secret.relays| && i < |secret.masked|
  {
    BigXor(share, SharedSecret(share, secret.relays[i], params)) != secret.masked[i]
  }

  /** In terms of the relay's key: the number published first is not the share masked with the hash
      of the common point. */
  lemma BadOriginalExactly(share: int, secret: AddressPartSecret, i: nat, key: int, params: Params)
    requires params.order > 0 && i < |secret.relays| && i < |secret.masked|
    requires secret.relays[i] == Multiple(key, params.order)
    ensures BadOriginal(share, secret, i, params)
      <==> secret.masked[i] != BigXor(share, params.hash(Multiple(share * key, params.order)))
  {
    MaskIs(share, key, params);
  }

  /** The recipient of share i obtains `share`, and it disagrees with the mask
      published first. */
  predicate Convicts(keys: KeyStore, secret: AddressPartSecret, relays: seq<Point>, masked: seq<int>,
                     i: nat, share: int, params: Params)
    requires params.order > 0 && i < |secret.pointValues| && i < |masked| && i < |relays|
    requires i < |secret.relays| && i < |secret.masked|
  {
    var k := Received(keys, secret.pointValues, masked, relays, i, params).0;
    && relays[i] in k
    && share == Unmask(k[relays[i]], secret.pointValues[i], masked[i], params)
    && Multiple(share, params.order) == secret.pointValues[i]
    && BadOriginal(share, secret, i, params)
  }

  /** `AddressPartSecretDisclosure::ValidateAndStoreMySecrets`
      (src/deposit/deposit_secret.cpp:266-307). `ok` stays true in every case. */
  method ValidateAndStoreDisclosed(secret: AddressPartSecret, relays: seq<Point>, masked: seq<int>,
                                   keys0: KeyStore, params: Params)
    returns (ok: bool, badDisclosure: seq<int>, badOriginal: seq<(int, int)>, keys: KeyStore)
    requires params.order > 0
    requires |relays| <= |secret.pointValues| && |relays| <= |masked|
    requires |relays| <= |secret.relays| && |relays| <= |secret.masked|
    ensures (keys, badDisclosure) == Received(keys0, secret.pointValues, masked, relays, |relays|, params)
    ensures forall i, share :: (i, share) in badOriginal <==>
        0 <= i < |relays| && Convicts(keys0, secret, relays, masked, i, share, params)
    ensures ok
  {
    ok, badDisclosure, badOriginal, keys := true, [], [], keys0;
    var i := 0;
    while i < |relays|
      invariant 0 <= i <= |relays|
      invariant (keys, badDisclosure) == Received(keys0, secret.pointValues, masked, relays, i, params)
      invariant forall j, share :: (j, share) in badOriginal <==>
          0 <= j < i && Convicts(keys0, secret, relays, masked, j, share, params)
    {
      if relays[i] in keys {
        var privkey := keys[relays[i]];
        var shared := params.hash(Scale(privkey, secret.pointValues[i], params.order));
        var share := XorBigNum(shared, masked[i]);
        if Multiple(share, params.order) != secret.pointValues[i] {
          badDisclosure := badDisclosure + [i];
        } else {
          keys := keys[secret.pointValues[i] := share];
          var original := params.hash(Scale(share, secret.relays[i], params.order));
          var m := XorBigNum(share, original);
          if m != secret.masked[i] {
            badOriginal := badOriginal + [(i, share)];
          }
        }
      }
      i := i + 1;
    }
  }

  /** `ValidatePurportedlyBadSecret` (src/deposit/deposit_secret.cpp:309-324): a
      reported share convicts the dealer exactly when it opens the public value
      and disagrees with the mask published first. */
  method ValidatePurportedlyBadSecret(secret: AddressPartSecret, position: nat, share: int, params: Params)
    returns (bad: bool)
    requires params.order > 0 && position < |secret.pointValues|
    requires position < |secret.relays| && position < |secret.masked|
    ensures bad <==> Multiple(share, params.order) == secret.pointValues[position]
                     && BadOriginal(share, secret, position, params)
    ensures forall key :: secret.relays[position] == Multiple(key, params.order) ==>
      (bad <==> && Multiple(share, params.order) == secret.pointValues[position]
                && secret.masked[position] != BigXor(share, params.hash(Multiple(share * key, params.order))))
  {
    forall key | secret.relays[position] == Multiple(key, params.order)
      ensures BadOriginal(share, secret, position, params)
        <==> secret.masked[position] != BigXor(share, params.hash(Multiple(share * key, params.order)))
    {
      BadOriginalExactly(share, secret, position, key, params);
    }
    if Multiple(share, params.order) != secret.pointValues[position] {
      return false;
    }
    var original := params.hash(Scale(share, secret.relays[position], params.order));
    var m := XorBigNum(share, original);
    if m == secret.masked[position] {
      return false;
    }
    bad := true;
  }

  lemma ScaleSame(a: int, b: int, point: Point, p: int)
    requires p > 0 && Multiple(a, p) == Multiple(b, p)
    ensures Scale(a, point, p) == Scale(b, point, p)
  {
    MultipleEqual(a, b, p);
    CongRefl(point.residue, p);
    CongMul(a, b, point.residue, point.residue, p);
    CongIffMod(a * point.residue, b * point.residue, p);
  }

  lemma XorIsZero(x: nat, y: nat)
    ensures Xor(x, y) == 0 <==> x == y
  {
    XorUndo(x, y);
    XorZero(x);
    XorZero(y);
  }

  /** Which of the numbers that open the public value convict a dealer whose masks hide the
      shares themselves: all but the share, and but its negative in case the share equals the
      shared secret. */
  lemma ConvictsHonestDealerExactly(secret: AddressPartSecret, secrets: seq<int>, share: int, i: nat, params: Params)
    requires params.order > 0 && Deals(secret, secrets, params) && i < |secrets|
    requires Multiple(share, params.order) == secret.pointValues[i]
    ensures var shared := SharedSecret(secrets[i], secret.relays[i], params);
      BadOriginal(share, secret, i, params)
      <==> share != secrets[i] && !(share == -secrets[i] && secrets[i] == shared)
  {
    var shared := SharedSecret(secrets[i], secret.relays[i], params);
    ScaleSame(share, secrets[i], secret.relays[i], params.order);
    BigXorUndo(secrets[i], shared);
    if share >= 0 {
      BigXorUndo(share, shared);
    } else {
      XorIsZero(-share, shared);
      XorIsZero(secrets[i], shared);
    }
  }

  /** The share plus the group order convicts every honest dealer. */
  lemma ShareAndOrderConvicts(secret: AddressPartSecret, secrets: seq<int>, i: nat, params: Params)
    requires params.order > 0 && Deals(secret, secrets, params) && i < |secrets|
    ensures var share := secrets[i] + params.order;
      Multiple(share, params.order) == secret.pointValues[i] && BadOriginal(share, secret, i, params)
  {
    var share := secrets[i] + params.order;
    CongBy(share, secrets[i], params.order, 1);
    MultipleEqual(share, secrets[i], params.order);
    ConvictsHonestDealerExactly(secret, secrets, share, i, params);
  }

  /** Whom a disclosure convicts: a relay that discloses a non-negative number that opens the public
      value is convicted with that number, exactly when it is not the one it dealt. */
  lemma DisclosureConvictsExactly(secret: AddressPartSecret, secrets: seq<int>, keys: KeyStore, relays: seq<Point>,
      masked: seq<int>, i: nat, disclosed: int, share: int, params: Params)
    requires params.order > 0 && Deals(secret, secrets, params) && KeysOpen(keys, params.order)
    requires i < |secrets| && i < |relays| && i < |masked|
    requires Received(keys, secret.pointValues, masked, relays, i, params).0.Keys >= {relays[i]}
    requires disclosed >= 0 && Multiple(disclosed, params.order) == secret.pointValues[i]
    requires MaskedFor(masked[i], disclosed, relays[i], params)
    ensures Convicts(keys, secret, relays, masked, i, share, params)
      <==> share == disclosed && disclosed != secrets[i]
  {
    hide BigXor, Received;
    var p := params.order;
    ReceivedFacts(keys, secret.pointValues, masked, relays, i, params);
    var k := Received(keys, secret.pointValues, masked, relays, i, params).0;
    var privkey := k[relays[i]];
    assert Multiple(privkey, p) == relays[i];
    MaskIs(disclosed, privkey, params);
    HonestShareOpens(disclosed, privkey, relays[i], secret.pointValues[i], masked[i], params);
    ConvictsHonestDealerExactly(secret, secrets, disclosed, i, params);
  }

  /** Checking first that the number is reduced would protect the honest dealer, whose shares
      are reduced (`DealPart`). */
  lemma ReducedShareDoesNotConvict(secret: AddressPartSecret, secrets: seq<int>, share: int, i: nat, params: Params)
    requires params.order > 0 && Deals(secret, secrets, params) && i < |secrets| && secrets[i] < params.order
    requires Multiple(share, params.order) == secret.pointValues[i]
    ensures 0 <= share < params.order ==> !BadOriginal(share, secret, i, params)
    ensures share >= params.order ==> BadOriginal(share, secret, i, params)
  {
    MultipleEqual(share, secrets[i], params.order);
    if 0 <= share < params.order {
      CongCanonical(share, secrets[i], params.order);
    }
    ConvictsHonestDealerExactly(secret, secrets, share, i, params);
  }
}
