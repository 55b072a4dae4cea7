/** Signatures of hashes and of credit transactions with any number of inputs
    (src/crypto/signature.h, src/credits/creditsign.h). */
module Signature {
  import opened Modular
  import opened Group
  import opened Bits
  import opened Quotients
  import DepositSecret

  /** The group order, the 252-bit digest of a point and a hash, and the hash iterated
      over the inputs. */
  datatype Scheme = Scheme(order: int, digest: (Point, nat) -> nat, hash: nat -> nat)

  ghost predicate Sound(scheme: Scheme) {
    && 0 < scheme.order < Pow2(256)
    && forall r: Point, h: nat :: scheme.digest(r, h) < Pow2(252)
  }

  /** Conversion of a big number to 256 bits: the low bits of its magnitude. */
  function GetUint256(x: int): nat {
    Magnitude(x) % Pow2(256)
  }

  lemma SmallUint256(x: nat)
    requires x < Pow2(256)
    ensures GetUint256(x) == x
  {
    hide Pow2;
    SmallMod(x, Pow2(256));
  }

  datatype Sig = Sig(signature: nat, exhibit: nat)

  function SignHashWithKey(hash: nat, privkey: int, scheme: Scheme): Sig
    requires scheme.order > 0
  {
    var p := scheme.order;
    var k := scheme.digest(Multiple(hash, p), GetUint256(privkey));
    var r := Multiple(k, p);
    var exhibit := scheme.digest(r, hash);
    var remainder := TruncMod(k - privkey * exhibit, p);
    var signature := if remainder < 0 then remainder + p else remainder;
    Sig(GetUint256(signature), GetUint256(exhibit))
  }

  predicate VerifySignatureOfHash(sig: Sig, hash: nat, pubkey: Point, scheme: Scheme)
    requires scheme.order > 0
  {
    var p := scheme.order;
    var r := Add(Multiple(sig.signature, p), Scale(sig.exhibit, pubkey, p), p);
    sig.exhibit == scheme.digest(r, hash)
  }

  /** A signature verifies under the public key of the private key, whatever its sign. */
  lemma SignatureVerifies(hash: nat, privkey: int, scheme: Scheme)
    requires Sound(scheme)
    ensures VerifySignatureOfHash(SignHashWithKey(hash, privkey, scheme), hash, Multiple(privkey, scheme.order), scheme)
  {
    hide Pow2, GetUint256, TruncMod;
    var p := scheme.order;
    var k := scheme.digest(Multiple(hash, p), GetUint256(privkey));
    var exhibit := scheme.digest(Multiple(k, p), hash);
    var remainder := TruncMod(k - privkey * exhibit, p);
    var signature := if remainder < 0 then remainder + p else remainder;
    Pow2Monotone(252, 256);
    SmallUint256(exhibit);
    SmallUint256(signature);
    assert Cong(signature, k - privkey * exhibit, p) by {
      CongBy(remainder + p, remainder, p, 1);
      if remainder < 0 {
        CongTrans(signature, remainder, k - privkey * exhibit, p);
      }
    }
    VerificationPoint(signature, exhibit, privkey, k, p);
  }

  /** The point the verifier forms is the nonce point of the signer. */
  lemma VerificationPoint(signature: int, exhibit: int, privkey: int, k: int, p: int)
    requires p > 0 && Cong(signature, k - privkey * exhibit, p)
    ensures Add(Multiple(signature, p), Scale(exhibit, Multiple(privkey, p), p), p) == Multiple(k, p)
  {
    hide Multiple, Scale, Add;
    ScaleMultiple(exhibit, privkey, p);
    MultipleSum(signature, exhibit * privkey, p);
    CongRefl(exhibit * privkey, p);
    CongAdd(signature, k - privkey * exhibit, exhibit * privkey, exhibit * privkey, p);
    assert k - privkey * exhibit + exhibit * privkey == k;
    MultipleEqual(signature + exhibit * privkey, k, p);
  }

  /** A signature is accepted under a public key exactly when its exhibit is the digest of the point
      that signature and exhibit make with the private key. */
  lemma VerifiesExactly(sig: Sig, hash: nat, privkey: int, scheme: Scheme)
    requires scheme.order > 0
    ensures VerifySignatureOfHash(sig, hash, Multiple(privkey, scheme.order), scheme)
      <==> sig.exhibit == scheme.digest(Multiple(sig.signature + sig.exhibit * privkey, scheme.order), hash)
  {
    hide Multiple, Scale, Add;
    ScaleMultiple(sig.exhibit, privkey, scheme.order);
    MultipleSum(sig.signature, sig.exhibit * privkey, scheme.order);
  }

  /** For one exhibit there is one signature modulo the order, if the digest tells points apart. */
  lemma SignatureIsUnique(sig: Sig, other: Sig, hash: nat, privkey: int, scheme: Scheme)
    requires scheme.order > 0 && sig.exhibit == other.exhibit
    requires forall r, s :: scheme.digest(r, hash) == scheme.digest(s, hash) ==> r == s
    requires VerifySignatureOfHash(sig, hash, Multiple(privkey, scheme.order), scheme)
    ensures VerifySignatureOfHash(other, hash, Multiple(privkey, scheme.order), scheme)
      <==> Cong(other.signature, sig.signature, scheme.order)
  {
    hide VerifySignatureOfHash;
    var p, product := scheme.order, sig.exhibit * privkey;
    VerifiesExactly(sig, hash, privkey, scheme);
    VerifiesExactly(other, hash, privkey, scheme);
    MultipleEqual(other.signature + product, sig.signature + product, p);
    CongRefl(product, p);
    if Cong(other.signature, sig.signature, p) {
      CongAdd(other.signature, sig.signature, product, product, p);
    }
    if Cong(other.signature + product, sig.signature + product, p) {
      CongSub(other.signature + product, sig.signature + product, product, product, p);
    }
  }

  /** What signing makes: the nonce is the digest of the point of the hash with the key's magnitude,
      the exhibit the digest of the nonce point with the hash, and the signature the reduced number
      that completes the key times the exhibit to the nonce. */
  lemma SignatureIs(hash: nat, privkey: int, scheme: Scheme)
    requires Sound(scheme)
    ensures var sig := SignHashWithKey(hash, privkey, scheme);
      var nonce := scheme.digest(Multiple(hash, scheme.order),
                                 (if privkey < 0 then -privkey else privkey) % Pow2(256));
      && sig.exhibit == scheme.digest(Multiple(nonce, scheme.order), hash)
      && 0 <= sig.signature < scheme.order
      && Cong(sig.signature + sig.exhibit * privkey, nonce, scheme.order)
  {
    hide Pow2, TruncMod, Multiple, Cong;
    var p := scheme.order;
    var nonce := scheme.digest(Multiple(hash, p), GetUint256(privkey));
    var exhibit := scheme.digest(Multiple(nonce, p), hash);
    var remainder := TruncMod(nonce - privkey * exhibit, p);
    var signature := if remainder < 0 then remainder + p else remainder;
    assert SignHashWithKey(hash, privkey, scheme) == Sig(GetUint256(signature), GetUint256(exhibit));
    assert exhibit < Pow2(252) && 0 <= signature < p < Pow2(256);
    assert GetUint256(privkey) == (if privkey < 0 then -privkey else privkey) % Pow2(256);
    hide SignHashWithKey, Sound, GetUint256;
    Pow2Monotone(252, 256);
    SmallUint256(exhibit);
    SmallUint256(signature);
    SignatureCompletes(signature, remainder, nonce, privkey, exhibit, p);
  }

  lemma SignatureCompletes(signature: int, remainder: int, nonce: int, privkey: int, exhibit: int, p: int)
    requires p > 0 && Cong(remainder, nonce - privkey * exhibit, p)
    requires signature == remainder || signature == remainder + p
    ensures Cong(signature + exhibit * privkey, nonce, p)
  {
    CongBy(remainder + p, remainder, p, 1);
    CongRefl(remainder, p);
    CongTrans(signature, remainder, nonce - privkey * exhibit, p);
    CongRefl(exhibit * privkey, p);
    CongAdd(signature, nonce - privkey * exhibit, exhibit * privkey, exhibit * privkey, p);
    assert nonce - privkey * exhibit + exhibit * privkey == nonce;
  }

  // ------------------------------------------------------------- transactions

  /** An unsigned transaction: its hash and the public keys of its inputs. */
  datatype UnsignedTransaction = UnsignedTransaction(hash: nat, inputs: seq<Point>)

  datatype SignedTransaction = SignedTransaction(rawtx: UnsignedTransaction, signature: Sig)

  /** The hash after n iterations: the weight of input n - 1. */
  function Iterated(hash: nat, n: nat, scheme: Scheme): nat {
    if n == 0 then hash else scheme.hash(Iterated(hash, n - 1, scheme))
  }

  /** Iterating once more is iterating from the hash of the hash. */
  lemma {:induction false} IteratedFromHash(hash: nat, n: nat, scheme: Scheme)
    ensures Iterated(hash, 0, scheme) == hash
    ensures Iterated(hash, n + 1, scheme) == Iterated(scheme.hash(hash), n, scheme)
  {
    if n > 0 {
      IteratedFromHash(hash, n - 1, scheme);
    }
  }

  /** The weighted sum of the keys of the first n inputs, the number behind the
      verification key. */
  function WeightedKeys(tx: UnsignedTransaction, privkeys: seq<int>, n: nat, scheme: Scheme): int
    requires n <= |privkeys| && scheme.order > 0
  {
    if n == 0 then 0 else
      WeightedKeys(tx, privkeys, n - 1, scheme) + TruncMod(Iterated(tx.hash, n, scheme), scheme.order) * privkeys[n - 1]
  }

  /** Each input contributes its key times the hash iterated once more than its index: adding d to
      key i adds that weight times d, and keys that are all zero weigh nothing. */
  lemma {:induction false} InputWeight(tx: UnsignedTransaction, privkeys: seq<int>, i: nat, d: int, n: nat,
      scheme: Scheme)
    requires i < n <= |privkeys| && scheme.order > 0
    ensures Cong(WeightedKeys(tx, privkeys[i := privkeys[i] + d], n, scheme),
                 WeightedKeys(tx, privkeys, n, scheme) + Iterated(tx.hash, i + 1, scheme) * d, scheme.order)
    ensures (forall j :: 0 <= j < n ==> privkeys[j] == 0) ==> WeightedKeys(tx, privkeys, n, scheme) == 0
  {
    hide TruncMod, Iterated;
    var p, more := scheme.order, privkeys[i := privkeys[i] + d];
    var weight := Iterated(tx.hash, n, scheme);
    var reduced := TruncMod(weight, p);
    var before := WeightedKeys(tx, privkeys, n - 1, scheme);
    ZeroKeys(tx, privkeys, n, scheme);
    if i == n - 1 {
      SameKeys(tx, privkeys, more, n - 1, scheme);
      WeightStep(before, reduced, weight, privkeys[i], d, p);
    } else {
      InputWeight(tx, privkeys, i, d, n - 1, scheme);
      var rest := reduced * privkeys[n - 1];
      CongRefl(rest, p);
      CongAdd(WeightedKeys(tx, more, n - 1, scheme), before + Iterated(tx.hash, i + 1, scheme) * d, rest, rest, p);
    }
  }

  lemma WeightStep(before: int, reduced: int, weight: int, key: int, d: int, p: int)
    requires Cong(reduced, weight, p)
    ensures Cong(before + reduced * (key + d), before + reduced * key + weight * d, p)
  {
    CongRefl(d, p);
    CongMul(reduced, weight, d, d, p);
    CongRefl(before + reduced * key, p);
    CongAdd(before + reduced * key, before + reduced * key, reduced * d, weight * d, p);
    assert reduced * (key + d) == reduced * key + reduced * d;
  }

  lemma {:induction false} SameKeys(tx: UnsignedTransaction, a: seq<int>, b: seq<int>, n: nat, scheme: Scheme)
    requires n <= |a| && n <= |b| && scheme.order > 0 && a[..n] == b[..n]
    ensures WeightedKeys(tx, a, n, scheme) == WeightedKeys(tx, b, n, scheme)
  {
    if n > 0 {
      assert a[..n - 1] == a[..n][..n - 1] == b[..n - 1];
      assert a[n - 1] == a[..n][n - 1] == b[n - 1];
      SameKeys(tx, a, b, n - 1, scheme);
    }
  }

  lemma {:induction false} ZeroKeys(tx: UnsignedTransaction, privkeys: seq<int>, n: nat, scheme: Scheme)
    requires n <= |privkeys| && scheme.order > 0
    ensures (forall j :: 0 <= j < n ==> privkeys[j] == 0) ==> WeightedKeys(tx, privkeys, n, scheme) == 0
  {
    if n > 0 {
      ZeroKeys(tx, privkeys, n - 1, scheme);
    }
  }

  ghost predicate Opens(tx: UnsignedTransaction, privkeys: seq<int>, scheme: Scheme)
    requires scheme.order > 0
  {
    |privkeys| == |tx.inputs| && forall i :: 0 <= i < |privkeys| ==> tx.inputs[i] == Multiple(privkeys[i], scheme.order)
  }

  /** The sum of the input points, each times its weight. */
  function VerificationKey(tx: UnsignedTransaction, n: nat, scheme: Scheme): Point
    requires n <= |tx.inputs| && scheme.order > 0
  {
    if n == 0 then Multiple(0, scheme.order) else
      var weight := TruncMod(Iterated(tx.hash, n, scheme), scheme.order);
      Add(VerificationKey(tx, n - 1, scheme), Scale(weight, tx.inputs[n - 1], scheme.order), scheme.order)
  }

  method GetTransactionVerificationKey(tx: UnsignedTransaction, scheme: Scheme) returns (key: Point)
    requires scheme.order > 0
    ensures key == VerificationKey(tx, |tx.inputs|, scheme)
  {
    hide TruncMod, Add, Scale;
    var hash := tx.hash;
    key := Multiple(0, scheme.order);
    var i := 0;
    while i < |tx.inputs|
      invariant i <= |tx.inputs| && hash == Iterated(tx.hash, i, scheme) && key == VerificationKey(tx, i, scheme)
    {
      hash := scheme.hash(hash);
      key := Add(key, Scale(TruncMod(hash, scheme.order), tx.inputs[i], scheme.order), scheme.order);
      i := i + 1;
    }
  }

  /** The verification key is the public key of the weighted sum of the private keys. */
  lemma {:induction false} KeyIsWeightedSum(tx: UnsignedTransaction, privkeys: seq<int>, n: nat, scheme: Scheme)
    requires scheme.order > 0 && Opens(tx, privkeys, scheme) && n <= |tx.inputs|
    ensures VerificationKey(tx, n, scheme) == Multiple(WeightedKeys(tx, privkeys, n, scheme), scheme.order)
  {
    hide TruncMod, Add, Scale, Multiple;
    if n > 0 {
      KeyIsWeightedSum(tx, privkeys, n - 1, scheme);
      var weight := TruncMod(Iterated(tx.hash, n, scheme), scheme.order);
      KeyStep(WeightedKeys(tx, privkeys, n - 1, scheme), weight, privkeys[n - 1], scheme.order);
    }
  }

  lemma KeyStep(sum: int, weight: int, privkey: int, p: int)
    requires p > 0
    ensures Add(Multiple(sum, p), Scale(weight, Multiple(privkey, p), p), p) == Multiple(sum + weight * privkey, p)
  {
    hide Multiple, Scale, Add;
    ScaleMultiple(weight, privkey, p);
    MultipleSum(sum, weight * privkey, p);
  }

  /** The private keys the store holds for the inputs; a missing key reads as zero. */
  function StoredKeys(inputs: seq<Point>, keys: DepositSecret.KeyStore): (s: seq<int>)
    ensures |s| == |inputs| && forall i :: 0 <= i < |s| ==> s[i] == DepositSecret.Lookup(keys, inputs[i])
  {
    seq(|inputs|, i requires 0 <= i < |inputs| => DepositSecret.Lookup(keys, inputs[i]))
  }

  /** Signs with the weighted sum of the stored keys and stores that sum under its own
      public key. */
  method SignTx(tx: UnsignedTransaction, keys: DepositSecret.KeyStore, scheme: Scheme)
      returns (sig: Sig, keys': DepositSecret.KeyStore, ghost signingKey: int)
    requires scheme.order > 0
    ensures sig == SignHashWithKey(tx.hash, signingKey, scheme)
    ensures Cong(signingKey, WeightedKeys(tx, StoredKeys(tx.inputs, keys), |tx.inputs|, scheme), scheme.order)
    ensures keys' == keys[Multiple(signingKey, scheme.order) := signingKey]
    ensures DepositSecret.KeysOpen(keys, scheme.order) ==> DepositSecret.KeysOpen(keys', scheme.order)
  {
    hide TruncMod, SignHashWithKey;
    var p := scheme.order;
    var signing := 0;
    var hash := tx.hash;
    ghost var stored := StoredKeys(tx.inputs, keys);
    CongRefl(0, p);
    var i := 0;
    while i < |tx.inputs|
      invariant i <= |tx.inputs| && hash == Iterated(tx.hash, i, scheme)
      invariant Cong(signing, WeightedKeys(tx, stored, i, scheme), p)
    {
      var privkey := DepositSecret.Lookup(keys, tx.inputs[i]);
      hash := scheme.hash(hash);
      SigningStep(signing, WeightedKeys(tx, stored, i, scheme), TruncMod(hash, p), privkey, p);
      signing := TruncMod(signing + TruncMod(hash, p) * privkey, p);
      i := i + 1;
    }
    keys' := keys[Multiple(signing, p) := signing];
    sig := SignHashWithKey(tx.hash, signing, scheme);
    signingKey := signing;
  }

  lemma SigningStep(signing: int, sum: int, weight: int, privkey: int, p: int)
    requires p > 0 && Cong(signing, sum, p)
    ensures Cong(TruncMod(signing + weight * privkey, p), sum + weight * privkey, p)
  {
    hide TruncMod;
    CongRefl(weight * privkey, p);
    CongAdd(signing, sum, weight * privkey, weight * privkey, p);
    CongTrans(TruncMod(signing + weight * privkey, p), signing + weight * privkey, sum + weight * privkey, p);
  }

  method SignTransaction(tx: UnsignedTransaction, keys: DepositSecret.KeyStore, scheme: Scheme)
      returns (signed: SignedTransaction, keys': DepositSecret.KeyStore, ghost signingKey: int)
    requires scheme.order > 0
    ensures signed == SignedTransaction(tx, SignHashWithKey(tx.hash, signingKey, scheme))
    ensures Cong(signingKey, WeightedKeys(tx, StoredKeys(tx.inputs, keys), |tx.inputs|, scheme), scheme.order)
    ensures keys' == keys[Multiple(signingKey, scheme.order) := signingKey]
    ensures DepositSecret.KeysOpen(keys, scheme.order) ==> DepositSecret.KeysOpen(keys', scheme.order)
  {
    var sig;
    sig, keys', signingKey := SignTx(tx, keys, scheme);
    signed := SignedTransaction(tx, sig);
  }

  /** The exhibit is the digest of the point that the signature makes with the weighted keys. */
  predicate Accepted(tx: UnsignedTransaction, privkeys: seq<int>, sig: Sig, scheme: Scheme)
    requires scheme.order > 0 && |privkeys| == |tx.inputs|
  {
    var key := WeightedKeys(tx, privkeys, |privkeys|, scheme);
    sig.exhibit == scheme.digest(Multiple(sig.signature + sig.exhibit * key, scheme.order), tx.hash)
  }

  /** A signature of a transaction is accepted exactly when it belongs to the weighted sum of the
      keys of its inputs. */
  lemma TransactionVerifiesExactly(tx: UnsignedTransaction, privkeys: seq<int>, sig: Sig, scheme: Scheme)
    requires scheme.order > 0 && Opens(tx, privkeys, scheme)
    ensures VerifySignatureOfHash(sig, tx.hash, VerificationKey(tx, |tx.inputs|, scheme), scheme)
      <==> Accepted(tx, privkeys, sig, scheme)
  {
    hide VerifySignatureOfHash;
    KeyIsWeightedSum(tx, privkeys, |tx.inputs|, scheme);
    VerifiesExactly(sig, tx.hash, WeightedKeys(tx, privkeys, |privkeys|, scheme), scheme);
  }

  method VerifyTransactionSignature(signed: SignedTransaction, scheme: Scheme) returns (ok: bool)
    requires scheme.order > 0
    ensures ok <==> VerifySignatureOfHash(signed.signature, signed.rawtx.hash,
        VerificationKey(signed.rawtx, |signed.rawtx.inputs|, scheme), scheme)
    ensures forall privkeys :: Opens(signed.rawtx, privkeys, scheme) ==>
      (ok <==> Accepted(signed.rawtx, privkeys, signed.signature, scheme))
  {
    hide VerifySignatureOfHash, VerificationKey, Accepted;
    var key := GetTransactionVerificationKey(signed.rawtx, scheme);
    forall privkeys | Opens(signed.rawtx, privkeys, scheme)
      ensures VerifySignatureOfHash(signed.signature, signed.rawtx.hash, key, scheme)
        <==> Accepted(signed.rawtx, privkeys, signed.signature, scheme)
    {
      TransactionVerifiesExactly(signed.rawtx, privkeys, signed.signature, scheme);
    }
    ok := VerifySignatureOfHash(signed.signature, signed.rawtx.hash, key, scheme);
  }

  /** Every transaction whose inputs' stored keys open their public keys is signed so that the
      signature is accepted, for any number of inputs: `SignTx` signs with such a number. */
  lemma SignedTransactionVerifies(tx: UnsignedTransaction, keys: DepositSecret.KeyStore, signingKey: int,
      scheme: Scheme)
    requires Sound(scheme)
    requires forall i :: 0 <= i < |tx.inputs| ==>
      tx.inputs[i] == Multiple(DepositSecret.Lookup(keys, tx.inputs[i]), scheme.order)
    requires Cong(signingKey, WeightedKeys(tx, StoredKeys(tx.inputs, keys), |tx.inputs|, scheme), scheme.order)
    ensures VerifySignatureOfHash(SignHashWithKey(tx.hash, signingKey, scheme), tx.hash,
                                  VerificationKey(tx, |tx.inputs|, scheme), scheme)
  {
    hide SignHashWithKey, VerifySignatureOfHash;
    var stored := StoredKeys(tx.inputs, keys);
    KeyIsWeightedSum(tx, stored, |tx.inputs|, scheme);
    SignatureVerifies(tx.hash, signingKey, scheme);
    MultipleEqual(signingKey, WeightedKeys(tx, stored, |tx.inputs|, scheme), scheme.order);
  }
}
