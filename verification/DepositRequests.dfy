/** Address requests, part messages and stored keys as values: what the deposit handlers
    record (src/deposit/deposits.cpp, src/deposit/withdraw.cpp), when a record is
    consistent, and what can be recovered from it. */
module DepositRequests {
  import opened Modular
  import opened Interpolation
  import opened Group
  import opened SecretSharing
  import opened Bits
  import opened DepositSecret

  datatype Option<T> = None | Some(value: T)

  /** `DepositAddressPartMessage`, with its hash. */
  datatype PartMessage = PartMessage(hash: nat, request: nat, position: nat, secret: AddressPartSecret)

  /** What is recorded about an address request. */
  datatype Request = Request(
    partsReceived: nat,        // a bit mask of positions
    parts: seq<nat>,           // hashes, in order of arrival
    address: Option<Point>,
    offset: Option<Point>,
    isMine: bool,
    cancelled: bool,
    importComplete: bool)

  const NewRequest := Request(0, [], None, None, false, false, false)

  /** `DepositAddressPartDisclosure`, with its hash; `relays` is what `Relays()` yields for it. */
  datatype Disclosure = Disclosure(hash: nat, partHash: nat, relays: seq<Point>, masked: seq<int>, relayListHash: nat)

  /** The outcome of looking for all the secrets of an address. */
  datatype Outcome = AlreadyImported | Missing | WrongKey | Imported(key: int, walletKey: int)

  type Messages = map<nat, PartMessage>

  /** A recovered key that does not open what it should: the key of a part, or the key of the
      address of a request, with the parts it had at the time. */
  datatype Mismatch = PartMismatch(part: nat) | AddressMismatch(request: nat, parts: seq<nat>)

  /** Everything a node stores about deposits. Part messages are stored as they arrive, before
      anything is checked (src/teleportnode/message_handler.h:163-164). */
  datatype State = State(
    keydata: KeyStore,
    messages: Messages,
    requests: map<nat, Request>,
    offsets: map<Point, Point>,
    processed: set<nat>,
    disclosures: map<nat, nat>,          // of a part, by hash
    log: seq<Mismatch>)

  /** The sum of the public keys of the parts. */
  function SumOfParts(parts: seq<nat>, messages: Messages, p: int): (a: Point)
    requires p > 0 && forall h :: h in parts ==> h in messages
    ensures OnCurve(a, p)
  {
    if parts == [] then Infinity
    else
      var n := |parts| - 1;
      Add(SumOfParts(parts[..n], messages, p), messages[parts[n]].secret.PubKey(), p)
  }

  /** The sum of one part is its public key, and the sum of two lists the sum of their sums. */
  lemma {:induction false} SumsAdd(a: seq<nat>, b: seq<nat>, messages: Messages, p: int)
    requires p > 0 && forall h :: h in a + b ==> h in messages
    requires forall h :: h in a + b ==> OnCurve(messages[h].secret.PubKey(), p)
    ensures (forall h :: h in a ==> h in messages) && (forall h :: h in b ==> h in messages)
    ensures SumOfParts(a + b, messages, p) == Add(SumOfParts(a, messages, p), SumOfParts(b, messages, p), p)
    ensures |a| == 1 ==> SumOfParts(a, messages, p) == messages[a[0]].secret.PubKey()
    decreases |b|
  {
    assert forall h :: h in a || h in b ==> h in a + b;
    if |a| == 1 {
      AddNothing(messages[a[0]].secret.PubKey(), p);
      assert a[..0] == [];
    }
    if b == [] {
      assert a + b == a;
      AddNothing(SumOfParts(a, messages, p), p);
    } else {
      var n := |b| - 1;
      var last := messages[b[n]].secret.PubKey();
      assert (a + b)[..|a + b| - 1] == a + b[..n];
      assert forall h :: h in a + b[..n] ==> h in a + b;
      SumsAdd(a, b[..n], messages, p);
      AddThree(SumOfParts(a, messages, p), SumOfParts(b[..n], messages, p), last, p);
    }
  }

  lemma AddNothing(a: Point, p: int)
    requires OnCurve(a, p)
    ensures Add(a, Infinity, p) == a == Add(Infinity, a, p)
  {
  }

  lemma AddThree(a: Point, b: Point, c: Point, p: int)
    requires p > 0
    ensures Add(Add(a, b, p), c, p) == Add(a, Add(b, c, p), p)
  {
    CongMod(a.residue + b.residue, p); CongMod(b.residue + c.residue, p);
    CongRefl(a.residue, p); CongRefl(c.residue, p);
    CongAdd((a.residue + b.residue) % p, a.residue + b.residue, c.residue, c.residue, p);
    CongAdd(a.residue, a.residue, (b.residue + c.residue) % p, b.residue + c.residue, p);
    CongIffMod((a.residue + b.residue) % p + c.residue, a.residue + b.residue + c.residue, p);
    CongIffMod(a.residue + (b.residue + c.residue) % p, a.residue + b.residue + c.residue, p);
  }

  function Positions(parts: seq<nat>, messages: Messages): set<nat>
    requires forall h :: h in parts ==> h in messages
  {
    set h | h in parts :: messages[h].position
  }

  /** A request whose parts are known, sit at distinct positions recorded in the
      mask, and whose address is the sum of all the parts. */
  ghost predicate GoodRequest(hash: nat, r: Request, messages: Messages, perDeposit: nat, p: int)
    requires p > 0
  {
    && (forall h :: h in r.parts ==> h in messages && messages[h].request == hash && messages[h].position < perDeposit)
    && (forall i: nat :: Bit(r.partsReceived, i) <==> i in Positions(r.parts, messages))
    && |Positions(r.parts, messages)| == |r.parts|
    && (r.address.Some? <==> |r.parts| == perDeposit)
    && (r.address.Some? ==> r.address.value == SumOfParts(r.parts, messages, p))
  }

  /** What every message that can be read satisfies, valid or not: its points are on the curve
      and its relay list has the length `ChooseRelays` gives it. */
  ghost predicate Decoded(m: PartMessage, params: Params) {
    && |m.secret.relays| == SECRETS_PER_ADDRESS_PART
    && AllOnCurve(m.secret.coefficientPoints, params.order)
    && AllOnCurve(m.secret.pointValues, params.order)
  }

  ghost predicate GoodRequests(requests: map<nat, Request>, messages: Messages, perDeposit: nat, p: int)
    requires p > 0
  {
    forall h :: h in requests ==> GoodRequest(h, requests[h], messages, perDeposit, p)
  }

  ghost predicate AllDecoded(messages: Messages, params: Params) {
    forall h :: h in messages ==> messages[h].hash == h && Decoded(messages[h], params)
  }

  /** Only valid parts are recorded in requests. */
  ghost predicate PartsValid(requests: map<nat, Request>, messages: Messages, params: Params)
    requires params.order > 0
  {
    forall h, g :: h in requests && g in requests[h].parts ==>
      g in messages && ValidPart(messages[g].secret, params)
  }

  /** A part key is not recovered because the part is not valid or one of its public values is
      the point at infinity; an address key is not recovered because the address was not fixed
      yet. */
  ghost predicate Explained(m: Mismatch, requests: map<nat, Request>, messages: Messages,
      perDeposit: nat, params: Params)
    requires params.order > 0
  {
    match m
    case PartMismatch(h) =>
      h in messages && (!ValidPart(messages[h].secret, params) || Infinity in messages[h].secret.pointValues)
    case AddressMismatch(h, parts) =>
      |parts| < perDeposit && h in requests && parts <= requests[h].parts
  }

  ghost predicate AllExplained(log: seq<Mismatch>, requests: map<nat, Request>, messages: Messages, perDeposit: nat,
                               params: Params)
    requires params.order > 0
  {
    forall m :: m in log ==> Explained(m, requests, messages, perDeposit, params)
  }

  /** The keys of all recorded offsets are stored. */
  ghost predicate OffsetsStored(requests: map<nat, Request>, offsets: map<Point, Point>, keys: KeyStore) {
    && (forall h :: h in requests && requests[h].offset.Some? ==> requests[h].offset.value in keys)
    && (forall address :: address in offsets ==> offsets[address] in keys)
  }

  /** The keys of all the parts are stored. */
  ghost predicate AllStored(parts: seq<nat>, messages: Messages, keys: KeyStore)
    requires forall h :: h in parts ==> h in messages
  {
    forall h :: h in parts ==> messages[h].secret.PubKey() in keys
  }

  lemma UpdateRequest(requests: map<nat, Request>, h: nat, r: Request, messages: Messages, perDeposit: nat, p: int)
    requires p > 0 && GoodRequests(requests, messages, perDeposit, p)
    requires GoodRequest(h, r, messages, perDeposit, p)
    ensures GoodRequests(requests[h := r], messages, perDeposit, p)
  {
  }

  /** Fields outside the invariant do not matter. */
  lemma SameParts(h: nat, r: Request, q: Request, messages: Messages, perDeposit: nat, p: int)
    requires p > 0 && GoodRequest(h, r, messages, perDeposit, p)
    requires q.partsReceived == r.partsReceived && q.parts == r.parts && q.address == r.address
    ensures GoodRequest(h, q, messages, perDeposit, p)
  {
  }

  lemma OffsetsKept(requests: map<nat, Request>, offsets: map<Point, Point>, keys: KeyStore, h: nat, r: Request,
                    more: KeyStore)
    requires OffsetsStored(requests, offsets, keys)
    requires forall point :: point in keys ==> point in more
    requires r.offset.Some? ==> r.offset.value in more
    ensures OffsetsStored(requests[h := r], offsets, more)
    ensures OffsetsStored(requests, offsets, more)
  {
  }

  /** Explanations last: messages do not change and requests only gain parts. */
  lemma StillExplained(log: seq<Mismatch>, requests: map<nat, Request>, messages: Messages, h: nat, r: Request,
                       perDeposit: nat, params: Params)
    requires params.order > 0 && AllExplained(log, requests, messages, perDeposit, params)
    requires h in requests ==> requests[h].parts <= r.parts
    ensures AllExplained(log, requests[h := r], messages, perDeposit, params)
  {
    forall m | m in log
      ensures Explained(m, requests[h := r], messages, perDeposit, params)
    {
      assert Explained(m, requests, messages, perDeposit, params);
    }
  }

  lemma ValidWithPart(requests: map<nat, Request>, messages: Messages, h: nat, r: Request, params: Params)
    requires params.order > 0 && PartsValid(requests, messages, params)
    requires forall g :: g in r.parts ==> g in messages && ValidPart(messages[g].secret, params)
    ensures PartsValid(requests[h := r], messages, params)
  {
  }

  // ------------------------------------------------------------- set lemmas

  function Below(n: nat): (s: set<nat>)
    ensures |s| == n && forall i :: i in s <==> 0 <= i < n
  {
    if n == 0 then {} else Below(n - 1) + {n - 1}
  }

  /** n distinct positions below n are all the positions. */
  lemma AllTaken(s: set<nat>, n: nat)
    requires forall i :: i in s ==> i < n
    requires |s| == n
    ensures forall i :: 0 <= i < n ==> i in s
  {
    forall i | 0 <= i < n
      ensures i in s
    {
      if i !in s {
        SubsetSize(s, Below(n) - {i});
      }
    }
  }

  lemma {:induction false} SubsetSize(a: set<nat>, b: set<nat>)
    requires a <= b
    ensures |a| <= |b|
  {
    if a != {} {
      var x :| x in a;
      SubsetSize(a - {x}, b - {x});
    }
  }

  /** Adding a part at a free position. */
  lemma AddPosition(parts: seq<nat>, messages: Messages, h: nat)
    requires forall g :: g in parts ==> g in messages
    requires h in messages && messages[h].position !in Positions(parts, messages)
    ensures Positions(parts + [h], messages) == Positions(parts, messages) + {messages[h].position}
    ensures |Positions(parts + [h], messages)| == |Positions(parts, messages)| + 1
  {
    assert forall g :: g in parts + [h] <==> g in parts || g == h;
    assert Positions(parts + [h], messages) == Positions(parts, messages) + {messages[h].position};
  }

  lemma {:induction false} SumUnchanged(parts: seq<nat>, before: Messages, after: Messages, p: int)
    requires p > 0
    requires forall h :: h in parts ==> h in before && h in after && before[h] == after[h]
    ensures SumOfParts(parts, before, p) == SumOfParts(parts, after, p)
    ensures Positions(parts, before) == Positions(parts, after)
  {
    if parts != [] {
      SumUnchanged(parts[..|parts| - 1], before, after, p);
    }
  }

  // --------------------------------------------------------- recovering a part

  /** The positions whose share is stored and not zero. */
  function Present(keys: KeyStore, points: seq<Point>, n: nat): (r: seq<int>)
    requires n <= |points|
    ensures forall i :: i in r <==> 0 <= i < n && Lookup(keys, points[i]) != 0
  {
    if n == 0 then []
    else if Lookup(keys, points[n - 1]) != 0 then Present(keys, points, n - 1) + [n - 1]
    else Present(keys, points, n - 1)
  }

  function Shares(keys: KeyStore, points: seq<Point>): (s: seq<int>)
    ensures |s| == |points| && forall i :: 0 <= i < |s| ==> s[i] == Lookup(keys, points[i])
  {
    seq(|points|, i requires 0 <= i < |points| => Lookup(keys, points[i]))
  }

  /** In an honest store, the shares that match their commitments are the ones
      that are present, and nobody looks like a cheater. */
  lemma {:induction false} StoredSharesMatch(keys: KeyStore, points: seq<Point>, n: nat, p: int)
    requires p > 0 && n <= |points| && KeysOpen(keys, p)
    ensures Matching(Shares(keys, points), points, n, p) == Present(keys, points, n)
    ensures Cheating(Shares(keys, points), points, n, p) == []
  {
    if n > 0 {
      StoredSharesMatch(keys, points, n - 1, p);
    }
  }

  /** The commitments of a valid part come from a polynomial with as many
      coefficients as shares are needed. */
  lemma PartCommits(secret: AddressPartSecret, params: Params)
    requires params.order > 0 && ValidPart(secret, params)
    requires AllOnCurve(secret.pointValues, params.order)
    ensures Commits(Residues(secret.coefficientPoints), secret.pointValues, SECRETS_PER_ADDRESS_PART, params.order)
  {
    var c, p := Residues(secret.coefficientPoints), params.order;
    forall i | 0 <= i < SECRETS_PER_ADDRESS_PART
      ensures secret.pointValues[i] == Multiple(Eval(c, i + 1), p)
    {
      var e := Eval(c, i + 1);
      MultipleResidue(e, p);
      CongTrans(Multiple(e, p).residue, e, secret.pointValues[i].residue, p);
      PointEqual(Multiple(e, p), secret.pointValues[i], p);
    }
  }

  /** The point that the stored shares of a part interpolate to, valid or not; infinity when too
      few of them are there. */
  ghost function RecoveredPoint(keys: KeyStore, points: seq<Point>, p: int): Point
    requires p >= 2 && |points| >= SECRETS_PER_ADDRESS_PART
  {
    var n, k := SECRETS_PER_ADDRESS_PART, ADDRESS_PART_SECRETS_NEEDED;
    var shares := Shares(keys, points);
    if |Matching(shares, points, n, p)| >= k then Multiple(Rebuilt(shares, points, n, k, p), p) else Infinity
  }

  /** The loop of `RecoverSecretPart` up to the comparison with the public key
      (src/deposit/withdraw.cpp:437-467). */
  method RecoverPartKey(secret: AddressPartSecret, keys: KeyStore, params: Params) returns (secretPart: int)
    requires IsPrime(params.order) && |secret.pointValues| >= SECRETS_PER_ADDRESS_PART
    ensures Multiple(secretPart, params.order) == RecoveredPoint(keys, secret.pointValues, params.order)
  {
    hide Matching, Cheating, Eval;
    var p := params.order;
    var secrets: seq<int> := [];
    var i := 0;
    while i < |secret.pointValues|
      invariant 0 <= i <= |secret.pointValues| && |secrets| == i
      invariant forall j :: 0 <= j < i ==> secrets[j] == Lookup(keys, secret.pointValues[j])
    {
      secrets := secrets + [Lookup(keys, secret.pointValues[i])];
      i := i + 1;
    }
    assert secrets == Shares(keys, secret.pointValues);
    var status, cheated, cheaters;
    status, secretPart, cheated, cheaters := GeneratePrivateKeyFromN(0, secrets, secret.pointValues,
      SECRETS_PER_ADDRESS_PART, ADDRESS_PART_SECRETS_NEEDED, [], p);
    if status == 1 {
      MultipleEqual(secretPart,
          Rebuilt(secrets, secret.pointValues, SECRETS_PER_ADDRESS_PART, ADDRESS_PART_SECRETS_NEEDED, p), p);
    } else {
      ZeroOpensInfinity(p);
    }
  }

  /** The key of a valid part is recovered exactly when enough of its stored shares are not zero
      or the part is the point at infinity. */
  lemma ValidPartRecovers(secret: AddressPartSecret, keys: KeyStore, params: Params)
    requires IsPrime(params.order) && SECRETS_PER_ADDRESS_PART <= params.order
    requires ValidPart(secret, params) && KeysOpen(keys, params.order)
    requires AllOnCurve(secret.coefficientPoints, params.order) && AllOnCurve(secret.pointValues, params.order)
    ensures RecoveredPoint(keys, secret.pointValues, params.order) == secret.PubKey() <==>
        || |Present(keys, secret.pointValues, SECRETS_PER_ADDRESS_PART)| >= ADDRESS_PART_SECRETS_NEEDED
        || secret.PubKey() == Infinity
  {
    var n, k, p := SECRETS_PER_ADDRESS_PART, ADDRESS_PART_SECRETS_NEEDED, params.order;
    hide Matching, Cheating, Eval, Present, WeightedSum;
    var points := secret.pointValues;
    var shares := Shares(keys, points);
    StoredSharesMatch(keys, points, n, p);
    PartCommits(secret, params);
    if |Matching(shares, points, n, p)| >= k {
      ValidPartRebuilds(secret, shares, params);
      RecoveredKeyOpens(secret, Rebuilt(shares, points, n, k, p), params);
    }
  }

  lemma ValidPartRebuilds(secret: AddressPartSecret, shares: seq<int>, params: Params)
    requires IsPrime(params.order) && SECRETS_PER_ADDRESS_PART <= params.order
    requires ValidPart(secret, params) && |shares| == |secret.pointValues|
    requires AllOnCurve(secret.pointValues, params.order)
    requires |Matching(shares, secret.pointValues, SECRETS_PER_ADDRESS_PART, params.order)|
      >= ADDRESS_PART_SECRETS_NEEDED
    ensures Cong(Rebuilt(shares, secret.pointValues, SECRETS_PER_ADDRESS_PART, ADDRESS_PART_SECRETS_NEEDED,
                         params.order),
                 Eval(Residues(secret.coefficientPoints), 0), params.order)
  {
    hide Matching, Eval, WeightedSum;
    var n, k, p := SECRETS_PER_ADDRESS_PART, ADDRESS_PART_SECRETS_NEEDED, params.order;
    var all := Matching(shares, secret.pointValues, n, p);
    var chosen := all[..k];
    assert forall j :: 0 <= j < k ==> chosen[j] in all;
    PartCommits(secret, params);
    AnyShares(shares, secret.pointValues, chosen, ValuesOf(shares, chosen), PointsOf(chosen),
              Residues(secret.coefficientPoints), n, p);
  }

  /** The public values at the chosen positions interpolate to the public key. */
  ghost predicate Interpolates(points: seq<Point>, chosen: seq<int>, pubkey: Point, p: int)
    requires p >= 2 && forall i :: i in chosen ==> 0 <= i < |points|
  {
    Cong(WeightedSum(PointsOf(chosen), ValuesOf(Residues(points), chosen), |chosen|, p), pubkey.residue, p)
  }

  /** What can be told from the public values of a part and from which of its shares are there: the
      public values of the first three shares interpolate to the public key, or too few are there
      and the public key is infinity. */
  ghost predicate SharesFit(secret: AddressPartSecret, keys: KeyStore, p: int)
    requires p >= 2 && |secret.pointValues| >= SECRETS_PER_ADDRESS_PART
  {
    var present := Present(keys, secret.pointValues, SECRETS_PER_ADDRESS_PART);
    if |present| < ADDRESS_PART_SECRETS_NEEDED then secret.PubKey() == Infinity
    else
      var chosen := present[..ADDRESS_PART_SECRETS_NEEDED];
      assert forall i :: i in chosen ==> i in present;
      Interpolates(secret.pointValues, chosen, secret.PubKey(), p)
  }

  /** The stored shares of any part, valid or not, recover its key exactly when they fit. */
  lemma RecoversExactly(secret: AddressPartSecret, keys: KeyStore, p: int)
    requires IsPrime(p) && KeysOpen(keys, p) && |secret.pointValues| >= SECRETS_PER_ADDRESS_PART
    requires AllOnCurve(secret.coefficientPoints, p) && AllOnCurve(secret.pointValues, p)
    ensures RecoveredPoint(keys, secret.pointValues, p) == secret.PubKey() <==> SharesFit(secret, keys, p)
  {
    assert p >= 2;
    hide Matching, Cheating, Present, WeightedSum, Cong, IsPrime;
    var n, k, points := SECRETS_PER_ADDRESS_PART, ADDRESS_PART_SECRETS_NEEDED, secret.pointValues;
    var shares, present := Shares(keys, points), Present(keys, points, n);
    StoredSharesMatch(keys, points, n, p);
    if |present| >= k {
      var chosen := present[..k];
      assert forall i :: i in chosen ==> i in present;
      var rebuilt := WeightedSum(PointsOf(chosen), ValuesOf(shares, chosen), k, p);
      var public := WeightedSum(PointsOf(chosen), ValuesOf(Residues(points), chosen), k, p);
      SharesWeighLikePoints(keys, points, chosen, p);
      var residue := secret.PubKey().residue;
      CanonicalMultiple(secret.PubKey(), p);
      MultipleEqual(rebuilt, residue, p);
      CongSym(rebuilt, public, p);
      if Cong(rebuilt, residue, p) {
        CongTrans(public, rebuilt, residue, p);
      }
      if Cong(public, residue, p) {
        CongTrans(rebuilt, public, residue, p);
      }
    }
  }

  /** Stored shares weigh up to the same residue as their public values. */
  lemma SharesWeighLikePoints(keys: KeyStore, points: seq<Point>, chosen: seq<int>, p: int)
    requires p >= 2 && KeysOpen(keys, p)
    requires forall i :: i in chosen ==> 0 <= i < |points| && Lookup(keys, points[i]) != 0
    ensures Cong(WeightedSum(PointsOf(chosen), ValuesOf(Shares(keys, points), chosen), |chosen|, p),
                 WeightedSum(PointsOf(chosen), ValuesOf(Residues(points), chosen), |chosen|, p), p)
  {
    var ys, zs := ValuesOf(Shares(keys, points), chosen), ValuesOf(Residues(points), chosen);
    forall j | 0 <= j < |chosen|
      ensures Cong(ys[j], zs[j], p)
    {
      var i := chosen[j];
      assert i in chosen;
      MultipleResidue(ys[j], p);
      CongSym(zs[j], ys[j], p);
    }
    CongruentValues(PointsOf(chosen), ys, zs, |chosen|, p);
  }

  /** Replacing the public key of a valid part makes it invalid, and its stored shares recover
      another key than it shows. */
  lemma AlteredPartMismatches(secret: AddressPartSecret, keys: KeyStore, other: Point, params: Params)
    requires IsPrime(params.order) && SECRETS_PER_ADDRESS_PART <= params.order
    requires ValidPart(secret, params) && KeysOpen(keys, params.order)
    requires AllOnCurve(secret.coefficientPoints, params.order) && AllOnCurve(secret.pointValues, params.order)
    requires |Present(keys, secret.pointValues, SECRETS_PER_ADDRESS_PART)| >= ADDRESS_PART_SECRETS_NEEDED
    requires OnCurve(other, params.order) && other != secret.PubKey()
    ensures var altered := secret.(coefficientPoints := secret.coefficientPoints[0 := other]);
      !ValidPart(altered, params) && !SharesFit(altered, keys, params.order)
  {
    hide Present, RecoveredPoint, SharesFit;
    var altered := secret.(coefficientPoints := secret.coefficientPoints[0 := other]);
    ValidPartRecovers(secret, keys, params);
    RecoversExactly(altered, keys, params.order);
    if ValidPart(altered, params) {
      ValidPartRecovers(altered, keys, params);
    }
  }

  /** A part can be rejected and fit all the same: with another relay list hash a valid part is no
      longer valid, and its key is recovered as before. */
  lemma RejectedPartCanFit(secret: AddressPartSecret, keys: KeyStore, hash: nat, params: Params)
    requires IsPrime(params.order) && SECRETS_PER_ADDRESS_PART <= params.order
    requires ValidPart(secret, params) && KeysOpen(keys, params.order)
    requires AllOnCurve(secret.coefficientPoints, params.order) && AllOnCurve(secret.pointValues, params.order)
    requires |Present(keys, secret.pointValues, SECRETS_PER_ADDRESS_PART)| >= ADDRESS_PART_SECRETS_NEEDED
    requires hash != secret.relayListHash
    ensures var altered := secret.(relayListHash := hash);
      !ValidPart(altered, params) && SharesFit(altered, keys, params.order)
  {
    hide Present, RecoveredPoint, SharesFit;
    ValidPartRecovers(secret, keys, params);
    RecoversExactly(secret.(relayListHash := hash), keys, params.order);
  }

  /** Without infinity among the public values of a valid part, enough stored shares recover its
      key. */
  lemma MismatchExplained(secret: AddressPartSecret, keys: KeyStore, params: Params)
    requires IsPrime(params.order) && SECRETS_PER_ADDRESS_PART <= params.order
    requires ValidPart(secret, params) && KeysOpen(keys, params.order)
    requires AllOnCurve(secret.coefficientPoints, params.order) && AllOnCurve(secret.pointValues, params.order)
    requires EnoughStored(keys, secret.pointValues)
    requires RecoveredPoint(keys, secret.pointValues, params.order) != secret.PubKey()
    ensures Infinity in secret.pointValues
  {
    hide RecoveredPoint, Present, CountStored;
    ValidPartRecovers(secret, keys, params);
    if Infinity !in secret.pointValues {
      ZeroOpensInfinity(params.order);
      assert NoZeroShare(keys, secret.pointValues);
      StoredArePresent(keys, secret.pointValues, |secret.pointValues|);
    }
  }

  lemma RecoveredKeyOpens(secret: AddressPartSecret, key: int, params: Params)
    requires params.order > 0 && ValidPart(secret, params) && AllOnCurve(secret.coefficientPoints, params.order)
    requires Cong(key, Eval(Residues(secret.coefficientPoints), 0), params.order)
    ensures Multiple(key, params.order) == secret.PubKey()
  {
    var c := Residues(secret.coefficientPoints);
    EvalAtZero(c);
    MultipleEqual(key, c[0], params.order);
    CanonicalMultiple(secret.PubKey(), params.order);
  }

  lemma CanonicalMultiple(point: Point, p: int)
    requires OnCurve(point, p)
    ensures Multiple(point.residue, p) == point
  {
    MultipleResidue(point.residue, p);
    PointEqual(Multiple(point.residue, p), point, p);
  }

  /** What the recipient of a (backup) withdrawal unmasks. */
  function ReceivedSecret(keys: KeyStore, pubkey: Point, masked: int, recipientKey: Point, params: Params): int
    requires params.order > 0
  {
    BigXor(masked, SharedSecret(Lookup(keys, recipientKey), pubkey, params))
  }

  /** In terms of the key of the public value: the hash of the common point comes off the mask. */
  lemma ReceivedSecretIs(keys: KeyStore, key: int, masked: int, recipientKey: Point, params: Params)
    requires params.order > 0
    ensures ReceivedSecret(keys, Multiple(key, params.order), masked, recipientKey, params)
      == BigXor(masked, params.hash(Multiple(Lookup(keys, recipientKey) * key, params.order)))
  {
    MaskIs(Lookup(keys, recipientKey), key, params);
  }

  function KeysWith(keys: KeyStore, point: Point, masked: int, recipientKey: Point, params: Params): KeyStore
    requires params.order > 0
  {
    keys[point := ReceivedSecret(keys, point, masked, recipientKey, params)]
  }

  /** What `SetSecret` masks (src/deposit/withdrawal_messages.h:141-146 and 347-353),
      `CheckAndSaveSecret` unmasks, for every key but one that is the negative of the shared secret
      it is masked with. */
  lemma WithdrawalArrives(secret: int, recipientPrivkey: int, keys: KeyStore, params: Params)
    requires params.order > 0
    requires Multiple(recipientPrivkey, params.order) in keys
    requires KeysOpen(keys, params.order)
    ensures var recipient := Multiple(recipientPrivkey, params.order);
      var shared := SharedSecret(secret, recipient, params);
      ReceivedSecret(keys, Multiple(secret, params.order), BigXor(secret, shared), recipient, params) == secret
      <==> !(secret < 0 && -secret == shared)
  {
    var recipient := Multiple(recipientPrivkey, params.order);
    var shared := SharedSecret(secret, recipient, params);
    Exchange(secret, keys[recipient], recipient, params);
    MaskTwice(secret, shared);
  }

  /** Masking twice loses a negative number exactly when the mask is its magnitude. */
  lemma MaskTwice(x: int, mask: nat)
    ensures BigXor(BigXor(x, mask), mask) == x <==> !(x < 0 && -x == mask)
  {
    hide Xor;
    var m := Magnitude(x);
    XorUndo(m, mask);
    XorCommutes(Xor(m, mask), mask);
    XorIsZero(m, mask);
    XorZero(mask);
  }

  /** The request with one more part, and with its address if that was the last. */
  function WithPart(r: Request, msg: PartMessage, messages: Messages, perDeposit: nat, p: int): Request
    requires p > 0 && msg.hash in messages && forall h :: h in r.parts ==> h in messages
  {
    var q := r.(partsReceived := SetBit(r.partsReceived, msg.position), parts := r.parts + [msg.hash]);
    if |q.parts| == perDeposit then q.(address := Some(SumOfParts(q.parts, messages, p))) else q
  }

  function AddressOf(r: Request): Point {
    if r.address.Some? then r.address.value else Infinity
  }

  function OffsetAddress(address: Point, offsets: map<Point, Point>, p: int): Point
    requires p > 0
  {
    if address in offsets then Add(address, offsets[address], p) else address
  }

  /** The store with a key for the address and, if it has an offset, the key of
      the secret address. */
  function ImportedKeys(keys: KeyStore, address: Point, key: int, offsets: map<Point, Point>,
      walletKey: int, p: int): KeyStore
    requires p > 0
  {
    var k := keys[address := key];
    if address in offsets then k[OffsetAddress(address, offsets, p) := walletKey] else k
  }

  predicate EnoughStored(keys: KeyStore, points: seq<Point>) {
    CountStored(keys, points, |points|) >= ADDRESS_PART_SECRETS_NEEDED
  }

  predicate NoZeroShare(keys: KeyStore, points: seq<Point>) {
    forall i :: 0 <= i < |points| && points[i] in keys ==> keys[points[i]] != 0
  }

  lemma AddressIsSum(hash: nat, r: Request, messages: Messages, perDeposit: nat, p: int)
    requires p > 0 && GoodRequest(hash, r, messages, perDeposit, p)
    ensures r.address.Some? ==> r.address.value == SumOfParts(r.parts, messages, p)
  {
  }

  lemma EmptySum(messages: Messages, p: int)
    requires p > 0
    ensures SumOfParts([], messages, p) == Infinity
  {
  }

  lemma PartRecorded(hash: nat, r: Request, msg: PartMessage, messages: Messages, perDeposit: nat, p: int)
    requires p > 0 && GoodRequest(hash, r, messages, perDeposit, p)
    requires msg.hash in messages && messages[msg.hash] == msg && msg.request == hash && msg.position < perDeposit
    requires !Bit(r.partsReceived, msg.position)
    ensures GoodRequest(hash, WithPart(r, msg, messages, perDeposit, p), messages, perDeposit, p)
  {
    NotYetFull(hash, r, messages, msg.position, perDeposit, p);
    MaskStep(r, msg, messages);
  }

  function KeysAfterRequest(keys: KeyStore, depositorKey: int, offset: Option<int>, p: int): KeyStore
    requires p > 0
  {
    var k := keys[Multiple(depositorKey, p) := depositorKey];
    if offset.Some? then k[Multiple(offset.value, p) := offset.value] else k
  }

  lemma EmptyRequestIsGood(hash: nat, messages: Messages, perDeposit: nat, p: int)
    requires p > 0 && perDeposit > 0
    ensures GoodRequest(hash, NewRequest, messages, perDeposit, p)
  {
    forall i: nat ensures !Bit(0, i) { ZeroBits(i); }
    assert Positions([], messages) == {};
  }

  /** While some position is free, fewer than all the parts have arrived. */
  lemma NotYetFull(hash: nat, r: Request, messages: Messages, position: nat, perDeposit: nat, p: int)
    requires p > 0 && GoodRequest(hash, r, messages, perDeposit, p)
    requires position < perDeposit && !Bit(r.partsReceived, position)
    ensures |r.parts| != perDeposit && r.address == None
  {
    if |r.parts| == perDeposit {
      AllTaken(Positions(r.parts, messages), perDeposit);
    }
  }

  /** A request without an address lacks some part. */
  lemma NotAllParts(hash: nat, r: Request, messages: Messages, perDeposit: nat, p: int)
    requires p > 0 && GoodRequest(hash, r, messages, perDeposit, p) && r.address.None?
    ensures |r.parts| < perDeposit
  {
    SubsetSize(Positions(r.parts, messages), Below(perDeposit));
  }

  lemma MaskStep(r: Request, msg: PartMessage, messages: Messages)
    requires msg.hash in messages && messages[msg.hash] == msg
    requires forall h :: h in r.parts ==> h in messages
    requires forall i: nat :: Bit(r.partsReceived, i) <==> i in Positions(r.parts, messages)
    requires !Bit(r.partsReceived, msg.position)
    ensures forall i: nat ::
        Bit(SetBit(r.partsReceived, msg.position), i) <==> i in Positions(r.parts + [msg.hash], messages)
    ensures |Positions(r.parts + [msg.hash], messages)| == |Positions(r.parts, messages)| + 1
  {
    AddPosition(r.parts, messages, msg.hash);
    forall i: nat
      ensures Bit(SetBit(r.partsReceived, msg.position), i) <==> i in Positions(r.parts + [msg.hash], messages)
    {
      SetBitBits(r.partsReceived, msg.position, i);
    }
  }

  /** Sums of keys open sums of points, reduced or not. */
  lemma SumOpens(a: int, b: int, p: int)
    requires p > 0
    ensures Multiple(TruncMod(a + b, p), p) == Add(Multiple(a, p), Multiple(b, p), p)
  {
    MultipleEqual(TruncMod(a + b, p), a + b, p);
    MultipleSum(a, b, p);
  }

  function CountStored(keys: KeyStore, points: seq<Point>, n: nat): nat
    requires n <= |points|
  {
    if n == 0 then 0 else CountStored(keys, points, n - 1) + (if points[n - 1] in keys then 1 else 0)
  }

  /** The positions below n whose public value has a key. */
  function Held(keys: KeyStore, points: seq<Point>, n: nat): (places: set<nat>)
    requires n <= |points|
    ensures forall i :: i in places <==> 0 <= i < n && points[i] in keys
  {
    set i | 0 <= i < n && points[i] in keys
  }

  /** There is enough to try exactly when at least three positions have a stored key. */
  lemma EnoughExactly(keys: KeyStore, points: seq<Point>)
    ensures EnoughStored(keys, points) <==> |Held(keys, points, |points|)| >= 3
  {
    HeldCounted(keys, points, |points|);
  }

  lemma {:induction false} HeldCounted(keys: KeyStore, points: seq<Point>, n: nat)
    requires n <= |points|
    ensures CountStored(keys, points, n) == |Held(keys, points, n)|
  {
    hide Held;
    if n == 0 {
      assert Held(keys, points, 0) == {};
    } else {
      HeldCounted(keys, points, n - 1);
      var before := Held(keys, points, n - 1);
      assert Held(keys, points, n) == if points[n - 1] in keys then before + {n - 1} else before;
    }
  }

  lemma {:induction false} StoredArePresent(keys: KeyStore, points: seq<Point>, n: nat)
    requires n <= |points|
    requires NoZeroShare(keys, points)
    ensures |Present(keys, points, n)| == CountStored(keys, points, n)
  {
    if n > 0 {
      StoredArePresent(keys, points, n - 1);
    }
  }

  lemma {:induction false} PresentAreStored(keys: KeyStore, points: seq<Point>, n: nat)
    requires n <= |points|
    ensures |Present(keys, points, n)| <= CountStored(keys, points, n)
  {
    if n > 0 {
      PresentAreStored(keys, points, n - 1);
    }
  }
}
