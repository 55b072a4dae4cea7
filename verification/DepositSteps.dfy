/** What each event does to the stored state, as functions on values: the specification of the
    deposit handlers. */
module DepositSteps {
  import opened Modular
  import opened Interpolation
  import opened Group
  import opened Polynomial
  import opened Bits
  import opened DepositSecret
  import opened DepositRequests

  function RequestIn(s: State, hash: nat): Request {
    if hash in s.requests then s.requests[hash] else NewRequest
  }

  /** The parts of every request are stored. */
  ghost predicate PartsStored(s: State) {
    forall h, g :: h in s.requests && g in s.requests[h].parts ==> g in s.messages
  }

  // ---------------------------------------------------------- requests and parts

  function AfterRequest(s: State, hash: nat, depositorKey: int, offset: Option<int>, p: int): State
    requires p > 0
  {
    var r := RequestIn(s, hash);
    var point := if offset.Some? then Some(Multiple(offset.value, p)) else r.offset;
    s.(keydata := KeysAfterRequest(s.keydata, depositorKey, offset, p),
       requests := s.requests[hash := r.(isMine := true, offset := point)])
  }

  function AfterCancel(s: State, hash: nat): State {
    s.(requests := s.requests[hash := RequestIn(s, hash).(cancelled := true)])
  }

  /** A part recorded at its position; the last one fixes the address, and the offset of an own
      request is filed under the address. */
  function AfterRecord(s: State, msg: PartMessage, perDeposit: nat, p: int): State
    requires p > 0 && msg.hash in s.messages && PartsStored(s)
  {
    var r := WithPart(RequestIn(s, msg.request), msg, s.messages, perDeposit, p);
    var fixed := |r.parts| == perDeposit && r.isMine && r.offset.Some?;
    s.(requests := s.requests[msg.request := r],
       offsets := if fixed && r.address.Some? then s.offsets[r.address.value := r.offset.value] else s.offsets)
  }

  /** The message is a repeat, badly signed or invalid. */
  ghost predicate PartFails(s: State, msg: PartMessage, signed: bool, params: Params)
    requires params.order > 0
  {
    msg.hash in s.processed || !signed || !ValidPart(msg.secret, params)
  }

  /** The shares of a part that this node can unmask, and those it complains about. */
  function ReceivedOf(s: State, secret: AddressPartSecret, masked: seq<int>, relays: seq<Point>, params: Params)
    : (KeyStore, seq<int>)
    requires params.order > 0 && |relays| <= |secret.pointValues| && |relays| <= |masked|
  {
    Received(s.keydata, secret.pointValues, masked, relays, |relays|, params)
  }

  ghost function AfterPart(s: State, msg: PartMessage, signed: bool, perDeposit: nat, params: Params): State
    requires params.order > 0 && |msg.secret.relays| == SECRETS_PER_ADDRESS_PART && PartsStored(s)
  {
    var stored := s.(messages := s.messages[msg.hash := msg]);
    if PartFails(s, msg, signed, params) then stored
    else if Bit(RequestIn(s, msg.request).partsReceived, msg.position) then AfterCancel(stored, msg.request)
    else
      var (keys, complaints) := ReceivedOf(s, msg.secret, msg.secret.masked, msg.secret.relays, params);
      var received := stored.(keydata := keys, processed := s.processed + {msg.hash});
      if complaints != [] then received else AfterRecord(received, msg, perDeposit, params.order)
  }

  // ------------------------------------------------------------------ disclosures

  predicate DisclosureValid(d: Disclosure, params: Params) {
    params.listHash(d.relays) == d.relayListHash && |d.masked| == SECRETS_PER_ADDRESS_PART
  }

  /** The part has everything the recipients of a disclosure look at. */
  predicate Discloses(secret: AddressPartSecret, d: Disclosure) {
    && |d.relays| <= |secret.pointValues| && |d.relays| <= |d.masked|
    && |d.relays| <= |secret.relays| && |d.relays| <= |secret.masked|
  }

  /** The disclosure is the first of a known part and gets as far as its shares. */
  predicate DisclosureHandled(s: State, d: Disclosure, signed: bool, params: Params) {
    && signed && DisclosureValid(d, params) && d.partHash in s.messages && d.partHash !in s.disclosures
    && Discloses(s.messages[d.partHash].secret, d)
  }

  /** A second disclosure of a part cancels its request unless it is the first one again. */
  function AfterDisclosure(s: State, d: Disclosure, signed: bool, params: Params): State
    requires params.order > 0
  {
    if !signed || !DisclosureValid(d, params) || d.partHash !in s.messages then s
    else if d.partHash in s.disclosures then
      if s.disclosures[d.partHash] != d.hash then AfterCancel(s, s.messages[d.partHash].request) else s
    else if !Discloses(s.messages[d.partHash].secret, d) then s
    else
      var keys := ReceivedOf(s, s.messages[d.partHash].secret, d.masked, d.relays, params).0;
      s.(keydata := keys, disclosures := s.disclosures[d.partHash := d.hash])
  }

  // ------------------------------------------------------------------ withdrawals

  predicate SecretOpens(s: State, point: Point, masked: int, recipientKey: Point, params: Params)
    requires params.order > 0
  {
    Multiple(ReceivedSecret(s.keydata, point, masked, recipientKey, params), params.order) == point
  }

  function AfterSecret(s: State, point: Point, masked: int, recipientKey: Point, params: Params): State
    requires params.order > 0
  {
    if SecretOpens(s, point, masked, recipientKey, params)
    then s.(keydata := KeysWith(s.keydata, point, masked, recipientKey, params)) else s
  }

  /** The sum of the keys of the parts, reduced at every step. */
  function KeySum(parts: seq<nat>, messages: Messages, keys: KeyStore, p: int): int
    requires p > 0 && forall h :: h in parts ==> h in messages
  {
    if parts == [] then 0
    else
      var n := |parts| - 1;
      TruncMod(KeySum(parts[..n], messages, keys, p) + Lookup(keys, messages[parts[n]].secret.PubKey()), p)
  }

  function WalletKey(s: State, address: Point, key: int, p: int): int
    requires p > 0
  {
    if address in s.offsets
    then TruncMod(key + Lookup(s.keydata[address := key], s.offsets[address]), p) else key
  }

  /** Looking for all the secrets of a request. */
  ghost function AfterAll(s: State, hash: nat, p: int): State
    requires p > 0 && PartsStored(s)
  {
    var r := RequestIn(s, hash);
    var key, address := KeySum(r.parts, s.messages, s.keydata, p), AddressOf(r);
    if r.importComplete || !AllStored(r.parts, s.messages, s.keydata) then s
    else if Multiple(key, p) != address then s.(log := s.log + [AddressMismatch(hash, r.parts)])
    else s.(keydata := ImportedKeys(s.keydata, address, key, s.offsets, WalletKey(s, address, key, p), p),
            requests := s.requests[hash := r.(importComplete := true)])
  }

  /** A withdrawal of the part recorded at an index of a request with a fixed address. */
  ghost function AfterWithdrawal(s: State, hash: nat, index: nat, masked: int, recipientKey: Point, accepted: bool,
                                 params: Params): State
    requires params.order > 0 && PartsStored(s)
  {
    var r := RequestIn(s, hash);
    if !accepted || r.address.None? || index >= |r.parts| then s
    else
      var point := s.messages[r.parts[index]].secret.PubKey();
      if SecretOpens(s, point, masked, recipientKey, params)
      then AfterAll(AfterSecret(s, point, masked, recipientKey, params), hash, params.order) else s
  }

  /** Comparing a recovered key with the public key of its part. */
  function AfterRecovery(s: State, partHash: nat, key: int, p: int): State
    requires p > 0 && partHash in s.messages
  {
    var pubkey := s.messages[partHash].secret.PubKey();
    if Multiple(key, p) == pubkey then s.(keydata := s.keydata[pubkey := key])
    else s.(log := s.log + [PartMismatch(partHash)])
  }

  /** Enough secrets of a part are stored to try to recover its key. */
  predicate Recoverable(keys: KeyStore, points: seq<Point>) {
    EnoughStored(keys, points) && |points| >= SECRETS_PER_ADDRESS_PART
  }

  /** A backup withdrawal of a share of any stored part; `key` is what its stored shares give. */
  ghost function AfterBackup(s: State, partHash: nat, position: nat, masked: int, recipientKey: Point, accepted: bool,
                             key: int, params: Params): State
    requires params.order > 0 && PartsStored(s)
  {
    if !accepted || partHash !in s.messages || position >= |s.messages[partHash].secret.pointValues| then s
    else
      var points := s.messages[partHash].secret.pointValues;
      var saved := AfterSecret(s, points[position], masked, recipientKey, params);
      if !SecretOpens(s, points[position], masked, recipientKey, params) || !Recoverable(saved.keydata, points)
      then saved
      else AfterAll(AfterRecovery(saved, partHash, key, params.order), s.messages[partHash].request, params.order)
  }

  /** The key that the stored shares of the part give once the new one is saved. */
  ghost predicate IsRecovered(s: State, partHash: nat, position: nat, masked: int, recipientKey: Point, key: int,
                              params: Params)
    requires params.order >= 2
  {
    partHash in s.messages && position < |s.messages[partHash].secret.pointValues| ==>
      var points := s.messages[partHash].secret.pointValues;
      var saved := AfterSecret(s, points[position], masked, recipientKey, params);
      Recoverable(saved.keydata, points) ==>
        Multiple(key, params.order) == RecoveredPoint(saved.keydata, points, params.order)
  }

  // ----------------------------------------------------------------------- events

  /** What a node can receive or do. */
  datatype Event =
    | RequestSent(hash: nat, depositorKey: int, offset: Option<int>)
    | PartDealt(hash: nat, request: nat, position: nat, random: seq<int>, relays: seq<Point>)
    | PartArrived(msg: PartMessage, signed: bool)
    | DisclosureArrived(disclosure: Disclosure, signed: bool)
    | WithdrawalArrived(request: nat, index: nat, masked: int, recipientKey: Point, accepted: bool)
    | BackupArrived(partHash: nat, position: nat, masked: int, recipientKey: Point, accepted: bool)

  /** Points decode to the curve, relay lists have the length `ChooseRelays` gives them, and
      signatures are accepted only for positions that exist. */
  ghost predicate WellFormed(e: Event, perDeposit: nat, params: Params) {
    match e
    case RequestSent(_, _, _) => true
    case PartDealt(_, _, position, random, relays) =>
      && position < perDeposit && |relays| == SECRETS_PER_ADDRESS_PART
      && |random| == ADDRESS_PART_SECRETS_NEEDED && NonNegative(random)
    case PartArrived(msg, signed) => Decoded(msg, params) && (signed ==> msg.position < perDeposit)
    case DisclosureArrived(d, _) => |d.relays| == SECRETS_PER_ADDRESS_PART
    case WithdrawalArrived(_, _, _, _, _) => true
    case BackupArrived(_, _, _, _, _) => true
  }

  /** A hash stands for one message. */
  predicate Fresh(s: State, msg: PartMessage) {
    msg.hash in s.messages ==> s.messages[msg.hash] == msg
  }

  /** The honest part with the given coefficients and relays, and the store with all its keys. */
  ghost predicate Dealt(random: seq<int>, keys0: KeyStore, secret: AddressPartSecret, secrets: seq<int>,
      keys: KeyStore, relays: seq<Point>, params: Params)
    requires params.order > 0 && random != []
  {
    && ValidPart(secret, params) && secret.relays == relays && Deals(secret, secrets, params)
    && DealtFrom(random, secret, secrets, params.order)
    && keys == WithShares(keys0[secret.PubKey() := random[0]], secrets, |secrets|, params.order)
  }

  /** The coefficients, the relays and the store determine everything that is dealt. */
  lemma DealtOnce(random: seq<int>, keys0: KeyStore, a: AddressPartSecret, b: AddressPartSecret,
      s: seq<int>, t: seq<int>, keysA: KeyStore, keysB: KeyStore, relays: seq<Point>, params: Params)
    requires params.order > 0 && random != []
    requires Dealt(random, keys0, a, s, keysA, relays, params) && Dealt(random, keys0, b, t, keysB, relays, params)
    ensures a == b && s == t && keysA == keysB
  {
    hide BigXor, Eval, Consistent;
    var p := params.order;
    forall i | 0 <= i < |s|
      ensures s[i] == t[i]
    {
      CongSym(t[i], Eval(random, i + 1), p);
      CongTrans(s[i], Eval(random, i + 1), t[i], p);
      CongCanonical(s[i], t[i], p);
    }
    assert s == t;
    assert a.coefficientPoints == b.coefficientPoints && a.pointValues == b.pointValues && a.masked == b.masked;
  }

  /** What every state of a run satisfies. */
  ghost predicate Kept(s: State, params: Params)
    requires params.order > 0
  {
    PartsStored(s) && KeysOpen(s.keydata, params.order) && AllDecoded(s.messages, params)
  }

  /** One event takes the state from s to t. */
  ghost predicate Follows(s: State, e: Event, t: State, perDeposit: nat, params: Params)
    requires params.order >= 2 && Kept(s, params) && WellFormed(e, perDeposit, params)
  {
    match e
    case RequestSent(hash, depositorKey, offset) => t == AfterRequest(s, hash, depositorKey, offset, params.order)
    case PartDealt(hash, request, position, random, relays) =>
      if hash in s.messages || hash in s.processed then t == s
      else exists secret, secrets, keys ::
        && Dealt(random, s.keydata, secret, secrets, keys, relays, params)
        && t == AfterPart(s.(keydata := keys), PartMessage(hash, request, position, secret), true, perDeposit, params)
    case PartArrived(msg, signed) =>
      t == if Fresh(s, msg) then AfterPart(s, msg, signed, perDeposit, params) else s
    case DisclosureArrived(d, signed) => t == AfterDisclosure(s, d, signed, params)
    case WithdrawalArrived(request, index, masked, recipientKey, accepted) =>
      t == AfterWithdrawal(s, request, index, masked, recipientKey, accepted, params)
    case BackupArrived(partHash, position, masked, recipientKey, accepted) =>
      exists key ::
        && IsRecovered(s, partHash, position, masked, recipientKey, key, params)
        && t == AfterBackup(s, partHash, position, masked, recipientKey, accepted, key, params)
  }

  /** The i-th event takes the i-th state to the next. */
  ghost predicate StepAt(trace: seq<State>, events: seq<Event>, i: nat, perDeposit: nat, params: Params)
    requires params.order >= 2 && i < |events| && |trace| == |events| + 1
  {
    && Kept(trace[i], params) && WellFormed(events[i], perDeposit, params)
    && Follows(trace[i], events[i], trace[i + 1], perDeposit, params)
  }

  /** States before, between and after the events of a run. */
  ghost predicate IsTrace(trace: seq<State>, events: seq<Event>, perDeposit: nat, params: Params)
    requires params.order >= 2
  {
    && |trace| == |events| + 1 && Kept(trace[|events|], params)
    && forall i :: 0 <= i < |events| ==> StepAt(trace, events, i, perDeposit, params)
  }

  /** Saving a secret changes the keys only. */
  lemma SecretOnly(s: State, point: Point, masked: int, recipientKey: Point, params: Params)
    requires params.order > 0
    ensures var t := AfterSecret(s, point, masked, recipientKey, params); t == s.(keydata := t.keydata)
    ensures !SecretOpens(s, point, masked, recipientKey, params) ==>
      AfterSecret(s, point, masked, recipientKey, params) == s
  {
  }

  /** Some key is what the stored shares give. */
  lemma AnyKey(s: State, partHash: nat, position: nat, masked: int, recipientKey: Point, params: Params)
      returns (key: int)
    requires params.order >= 2
    ensures IsRecovered(s, partHash, position, masked, recipientKey, key, params)
  {
    key := 0;
    if partHash in s.messages && position < |s.messages[partHash].secret.pointValues| {
      var points := s.messages[partHash].secret.pointValues;
      var saved := AfterSecret(s, points[position], masked, recipientKey, params);
      if Recoverable(saved.keydata, points) {
        var point := RecoveredPoint(saved.keydata, points, params.order);
        ZeroOpensInfinity(params.order);
        CanonicalMultiple(point, params.order);
        key := point.residue;
      }
    }
  }

  /** An honest part whose keys are all stored joins its request if its position is free. */
  lemma OwnPartRecorded(s: State, msg: PartMessage, secrets: seq<int>, perDeposit: nat, params: Params)
    requires params.order > 0 && |msg.secret.relays| == SECRETS_PER_ADDRESS_PART && PartsStored(s)
    requires ValidPart(msg.secret, params) && Deals(msg.secret, secrets, params) && KeysOpen(s.keydata, params.order)
    requires msg.hash !in s.processed && msg.secret.PubKey() in s.keydata
    ensures var t := AfterPart(s, msg, true, perDeposit, params);
      !Bit(RequestIn(s, msg.request).partsReceived, msg.position) ==>
        msg.hash in RequestIn(t, msg.request).parts && msg.secret.PubKey() in t.keydata
  {
    hide Received, Bit, SumOfParts;
    var secret := msg.secret;
    HonestPartIsReceived(secret, secrets, s.keydata, |secret.relays|, params);
    ReceivedFacts(s.keydata, secret.pointValues, secret.masked, secret.relays, |secret.relays|, params);
  }

  // ------------------------------------------------------ when a key is recovered

  /** Looking for all the secrets only adds keys, and logs at most one address. */
  lemma AllAdds(s: State, hash: nat, p: int)
    requires p > 0 && PartsStored(s)
    ensures var t := AfterAll(s, hash, p);
      && s.keydata.Keys <= t.keydata.Keys
      && (t.log == s.log || t.log == s.log + [AddressMismatch(hash, RequestIn(s, hash).parts)])
  {
  }

  lemma SavedKeysOpen(s: State, point: Point, masked: int, recipientKey: Point, params: Params)
    requires params.order > 0 && KeysOpen(s.keydata, params.order)
    ensures var t := AfterSecret(s, point, masked, recipientKey, params);
      && KeysOpen(t.keydata, params.order) && s.keydata.Keys <= t.keydata.Keys
      && (SecretOpens(s, point, masked, recipientKey, params) ==> t.keydata.Keys == s.keydata.Keys + {point})
  {
  }

  /** A backup withdrawal saves a share of a stored part, with which there are enough to try. */
  predicate BackupTried(s: State, partHash: nat, position: nat, masked: int, recipientKey: Point, accepted: bool,
                        params: Params)
    requires params.order > 0
  {
    && accepted && partHash in s.messages && position < |s.messages[partHash].secret.pointValues|
    && var points := s.messages[partHash].secret.pointValues;
       && SecretOpens(s, points[position], masked, recipientKey, params)
       && Recoverable(AfterSecret(s, points[position], masked, recipientKey, params).keydata, points)
  }

  /** A backup withdrawal of any part, valid or not, takes the wrong-key branch exactly when it is
      tried and the shares do not fit the part; if they fit, the key of the part is stored. */
  lemma BackupLogsExactly(s: State, partHash: nat, position: nat, masked: int, recipientKey: Point, accepted: bool,
                          key: int, params: Params)
    requires IsPrime(params.order) && Kept(s, params)
    requires IsRecovered(s, partHash, position, masked, recipientKey, key, params)
    ensures var t := AfterBackup(s, partHash, position, masked, recipientKey, accepted, key, params);
      && s.log <= t.log
      && if BackupTried(s, partHash, position, masked, recipientKey, accepted, params) then
           var secret := s.messages[partHash].secret;
           var saved := AfterSecret(s, secret.pointValues[position], masked, recipientKey, params);
           && (PartMismatch(partHash) in t.log[|s.log|..] <==> !SharesFit(secret, saved.keydata, params.order))
           && (forall h :: PartMismatch(h) in t.log[|s.log|..] ==> h == partHash)
           && (SharesFit(secret, saved.keydata, params.order) ==> secret.PubKey() in t.keydata)
         else t.log == s.log
  {
    assert params.order >= 2;
    hide KeysOpen, RecoveredPoint, SharesFit, SecretOpens, AfterSecret, Recoverable, AfterAll, AllOnCurve, IsPrime;
    hide AfterRecovery, Multiple;
    if accepted && partHash in s.messages && position < |s.messages[partHash].secret.pointValues| {
      var secret := s.messages[partHash].secret;
      var point := secret.pointValues[position];
      SecretOnly(s, point, masked, recipientKey, params);
      SavedKeysOpen(s, point, masked, recipientKey, params);
      var saved := AfterSecret(s, point, masked, recipientKey, params);
      if BackupTried(s, partHash, position, masked, recipientKey, accepted, params) {
        EnoughPoints(saved.keydata, secret.pointValues);
        RecoversExactly(secret, saved.keydata, params.order);
        RecoveryLogs(saved, partHash, key, params.order);
      }
    }
  }

  /** Recovering a part and then looking at its request logs the part exactly when the key does not
      open it. */
  lemma RecoveryLogs(s: State, partHash: nat, key: int, p: int)
    requires p > 0 && PartsStored(s) && partHash in s.messages
    ensures var t := AfterAll(AfterRecovery(s, partHash, key, p), s.messages[partHash].request, p);
      var pubkey := s.messages[partHash].secret.PubKey();
      && s.log <= t.log
      && (PartMismatch(partHash) in t.log[|s.log|..] <==> Multiple(key, p) != pubkey)
      && (forall h :: PartMismatch(h) in t.log[|s.log|..] ==> h == partHash)
      && (Multiple(key, p) == pubkey ==> pubkey in t.keydata)
  {
    hide AfterAll, Multiple;
    var after := AfterRecovery(s, partHash, key, p);
    var request := s.messages[partHash].request;
    AllAdds(after, request, p);
    var t, address := AfterAll(after, request, p), AddressMismatch(request, RequestIn(after, request).parts);
    NewEntries(s.log, Multiple(key, p) != s.messages[partHash].secret.PubKey(), partHash, address, t.log);
  }

  lemma EnoughPoints(keys: KeyStore, points: seq<Point>)
    requires Recoverable(keys, points)
    ensures |points| >= SECRETS_PER_ADDRESS_PART
  {
  }

  /** A part that was rejected because its public key is not the one its shares belong to is still
      stored, and the backup withdrawals of enough of its shares log a mismatch, also when its
      request has a fixed address. */
  lemma AlteredPartIsLogged(s: State, partHash: nat, position: nat, masked: int, recipientKey: Point, key: int,
                            valid: AddressPartSecret, other: Point, params: Params)
    requires IsPrime(params.order) && SECRETS_PER_ADDRESS_PART <= params.order && Kept(s, params)
    requires ValidPart(valid, params) && OnCurve(other, params.order) && other != valid.PubKey()
    requires AllOnCurve(valid.coefficientPoints, params.order)
    requires partHash in s.messages && position < SECRETS_PER_ADDRESS_PART
    requires s.messages[partHash].secret == valid.(coefficientPoints := valid.coefficientPoints[0 := other])
    requires SecretOpens(s, valid.pointValues[position], masked, recipientKey, params)
    requires var keys := AfterSecret(s, valid.pointValues[position], masked, recipientKey, params).keydata;
      |Present(keys, valid.pointValues, SECRETS_PER_ADDRESS_PART)| >= ADDRESS_PART_SECRETS_NEEDED
    requires IsRecovered(s, partHash, position, masked, recipientKey, key, params)
    ensures !ValidPart(s.messages[partHash].secret, params)
    ensures var t := AfterBackup(s, partHash, position, masked, recipientKey, true, key, params);
      s.log <= t.log && PartMismatch(partHash) in t.log[|s.log|..]
  {
    hide ValidPart, KeysOpen, Present, SharesFit, SecretOpens, AfterSecret, CountStored, IsRecovered, AfterBackup;
    PartSizes(valid, params);
    var point := valid.pointValues[position];
    SavedKeysOpen(s, point, masked, recipientKey, params);
    var saved := AfterSecret(s, point, masked, recipientKey, params);
    PresentAreStored(saved.keydata, valid.pointValues, SECRETS_PER_ADDRESS_PART);
    assert Decoded(s.messages[partHash], params);
    AlteredPartMismatches(valid, saved.keydata, other, params);
    BackupLogsExactly(s, partHash, position, masked, recipientKey, true, key, params);
  }

  /** At most two entries follow the log: the part if it is logged, and an address. */
  lemma NewEntries(log: seq<Mismatch>, logged: bool, part: nat, address: Mismatch, all: seq<Mismatch>)
    requires var before := if logged then log + [PartMismatch(part)] else log;
      address.AddressMismatch? && (all == before || all == before + [address])
    ensures log <= all && (PartMismatch(part) in all[|log|..] <==> logged)
    ensures forall h :: PartMismatch(h) in all[|log|..] ==> h == part
  {
    var more := all[|log|..];
    if logged {
      assert more[0] == PartMismatch(part);
    }
  }

  /** The event is a backup withdrawal of a share of the part that is tried with shares that do not
      fit the part. */
  ghost predicate MismatchAt(s: State, e: Event, part: nat, params: Params)
    requires params.order >= 2
  {
    && e.BackupArrived? && e.partHash == part
    && BackupTried(s, part, e.position, e.masked, e.recipientKey, e.accepted, params)
    && var secret := s.messages[part].secret;
       var saved := AfterSecret(s, secret.pointValues[e.position], e.masked, e.recipientKey, params);
       !SharesFit(secret, saved.keydata, params.order)
  }

  lemma StepLogs(s: State, e: Event, t: State, part: nat, perDeposit: nat, params: Params)
    requires IsPrime(params.order) && params.order >= 2 && Kept(s, params) && WellFormed(e, perDeposit, params)
    requires Follows(s, e, t, perDeposit, params)
    ensures s.log <= t.log
    ensures PartMismatch(part) in t.log <==> PartMismatch(part) in s.log || MismatchAt(s, e, part, params)
  {
    hide MismatchAt, IsRecovered, IsPrime, KeysOpen, AllDecoded, AfterBackup, AfterWithdrawal, AfterPart;
    hide AfterRequest, AfterDisclosure, ValidPart, Deals, DealtFrom, WithShares;
    if e.BackupArrived? {
      var key :| IsRecovered(s, e.partHash, e.position, e.masked, e.recipientKey, key, params)
        && t == AfterBackup(s, e.partHash, e.position, e.masked, e.recipientKey, e.accepted, key, params);
      BackupLogs(s, e, key, part, params);
    } else {
      NoMismatch(s, e, part, params);
      match e {
        case RequestSent(hash, depositorKey, offset) => RequestLogs(s, hash, depositorKey, offset, params.order);
        case PartDealt(hash, request, position, random, relays) =>
          if hash !in s.messages && hash !in s.processed {
            var secret, secrets, keys :| Dealt(random, s.keydata, secret, secrets, keys, relays, params)
              && t == AfterPart(s.(keydata := keys), PartMessage(hash, request, position, secret), true, perDeposit,
                                params);
            PartLogs(s.(keydata := keys), PartMessage(hash, request, position, secret), true, perDeposit, params);
          }
        case PartArrived(msg, signed) => PartLogs(s, msg, signed, perDeposit, params);
        case DisclosureArrived(d, signed) => DisclosureLogs(s, d, signed, params);
        case WithdrawalArrived(request, index, masked, recipientKey, accepted) =>
          WithdrawalLogs(s, request, index, masked, recipientKey, accepted, params);
      }
    }
  }

  lemma RequestLogs(s: State, hash: nat, depositorKey: int, offset: Option<int>, p: int)
    requires p > 0
    ensures AfterRequest(s, hash, depositorKey, offset, p).log == s.log
  {
  }

  lemma PartLogs(s: State, msg: PartMessage, signed: bool, perDeposit: nat, params: Params)
    requires params.order > 0 && |msg.secret.relays| == SECRETS_PER_ADDRESS_PART && PartsStored(s)
    ensures AfterPart(s, msg, signed, perDeposit, params).log == s.log
  {
    hide Received, WithPart, ValidPart, Bit;
  }

  lemma DisclosureLogs(s: State, d: Disclosure, signed: bool, params: Params)
    requires params.order > 0
    ensures AfterDisclosure(s, d, signed, params).log == s.log
  {
    hide Received;
  }

  lemma NoMismatch(s: State, e: Event, part: nat, params: Params)
    requires params.order >= 2 && !e.BackupArrived?
    ensures !MismatchAt(s, e, part, params)
  {
  }

  lemma BackupLogs(s: State, e: Event, key: int, part: nat, params: Params)
    requires IsPrime(params.order) && Kept(s, params) && e.BackupArrived?
    requires IsRecovered(s, e.partHash, e.position, e.masked, e.recipientKey, key, params)
    ensures var t := AfterBackup(s, e.partHash, e.position, e.masked, e.recipientKey, e.accepted, key, params);
      && s.log <= t.log
      && (PartMismatch(part) in t.log <==> PartMismatch(part) in s.log || MismatchAt(s, e, part, params))
  {
    assert params.order >= 2;
    hide SharesFit, BackupTried, AfterSecret, IsRecovered, IsPrime, KeysOpen, AllDecoded, AfterBackup;
    BackupLogsExactly(s, e.partHash, e.position, e.masked, e.recipientKey, e.accepted, key, params);
    var t := AfterBackup(s, e.partHash, e.position, e.masked, e.recipientKey, e.accepted, key, params);
    assert t.log == s.log + t.log[|s.log|..];
  }

  lemma WithdrawalLogs(s: State, hash: nat, index: nat, masked: int, recipientKey: Point, accepted: bool,
                       params: Params)
    requires params.order > 0 && PartsStored(s)
    ensures var t := AfterWithdrawal(s, hash, index, masked, recipientKey, accepted, params);
      t.log == s.log || t.log == s.log + [AddressMismatch(hash, RequestIn(s, hash).parts)]
  {
    hide SecretOpens, AfterSecret, AfterAll;
    var r := RequestIn(s, hash);
    if accepted && r.address.Some? && index < |r.parts| {
      var point := s.messages[r.parts[index]].secret.PubKey();
      SecretOnly(s, point, masked, recipientKey, params);
      AllAdds(AfterSecret(s, point, masked, recipientKey, params), hash, params.order);
    }
  }

  /** Over every run, a part is logged exactly if some backup withdrawal of it was tried with shares
      that did not fit it. */
  lemma {:induction false} RunLogsExactly(trace: seq<State>, events: seq<Event>, n: nat, part: nat, perDeposit: nat,
                                          params: Params)
    requires IsPrime(params.order) && params.order >= 2
    requires IsTrace(trace, events, perDeposit, params) && n <= |events|
    ensures PartMismatch(part) in trace[n].log <==>
      || PartMismatch(part) in trace[0].log
      || exists i :: 0 <= i < n && MismatchAt(trace[i], events[i], part, params)
  {
    hide Follows, Kept, MismatchAt, WellFormed, IsPrime;
    if n > 0 {
      RunLogsExactly(trace, events, n - 1, part, perDeposit, params);
      assert StepAt(trace, events, n - 1, perDeposit, params);
      StepLogs(trace[n - 1], events[n - 1], trace[n], part, perDeposit, params);
    }
  }

  // ------------------------------------------------------------------- progress

  lemma {:induction false} KeySumOpens(parts: seq<nat>, messages: Messages, keys: KeyStore, p: int)
    requires p > 0 && KeysOpen(keys, p)
    requires forall h :: h in parts ==> h in messages
    requires AllStored(parts, messages, keys)
    ensures Multiple(KeySum(parts, messages, keys, p), p) == SumOfParts(parts, messages, p)
  {
    if parts == [] {
      ZeroOpensInfinity(p);
    } else {
      var n := |parts| - 1;
      KeySumOpens(parts[..n], messages, keys, p);
      assert parts[n] in parts;
      SumOpens(KeySum(parts[..n], messages, keys, p), Lookup(keys, messages[parts[n]].secret.PubKey()), p);
    }
  }

  /** What the handlers keep about a request with a fixed address. */
  ghost predicate Ready(s: State, hash: nat, perDeposit: nat, p: int)
    requires p > 0
  {
    && PartsStored(s) && KeysOpen(s.keydata, p) && OffsetsStored(s.requests, s.offsets, s.keydata)
    && GoodRequest(hash, RequestIn(s, hash), s.messages, perDeposit, p)
    && RequestIn(s, hash).address.Some? && !RequestIn(s, hash).importComplete
  }

  /** The address of the request and the address with its offset can be spent from. */
  ghost predicate Spendable(s: State, hash: nat, p: int)
    requires p > 0
  {
    && hash in s.requests && s.requests[hash].address.Some? && KeysOpen(s.keydata, p)
    && var address := s.requests[hash].address.value;
       address in s.keydata && (address in s.offsets ==> Add(address, s.offsets[address], p) in s.keydata)
  }

  /** Looking for all the secrets of a fixed address imports it exactly when all are there. */
  lemma AllImport(s: State, hash: nat, perDeposit: nat, p: int)
    requires p > 0 && Ready(s, hash, perDeposit, p)
    ensures var t := AfterAll(s, hash, p);
      && (RequestIn(t, hash).importComplete <==> AllStored(RequestIn(s, hash).parts, s.messages, s.keydata))
      && (RequestIn(t, hash).importComplete ==> Spendable(t, hash, p))
      && t.log == s.log && t.requests.Keys == s.requests.Keys
      && (forall h :: h in s.requests ==> t.requests[h].address == s.requests[h].address)
  {
    hide KeySum, GoodRequest, SumOfParts;
    var r := RequestIn(s, hash);
    AddressIsSum(hash, r, s.messages, perDeposit, p);
    if AllStored(r.parts, s.messages, s.keydata) {
      KeySumOpens(r.parts, s.messages, s.keydata, p);
      ImportedKeysOpen(s, r.address.value, KeySum(r.parts, s.messages, s.keydata, p), p);
    }
  }

  lemma ImportedKeysOpen(s: State, address: Point, key: int, p: int)
    requires p > 0 && KeysOpen(s.keydata, p) && OffsetsStored(s.requests, s.offsets, s.keydata)
    requires Multiple(key, p) == address
    ensures var keys := ImportedKeys(s.keydata, address, key, s.offsets, WalletKey(s, address, key, p), p);
      && KeysOpen(keys, p) && address in keys && OffsetAddress(address, s.offsets, p) in keys
  {
    if address in s.offsets {
      var imported := s.keydata[address := key];
      SumOpens(key, Lookup(imported, s.offsets[address]), p);
    }
  }

  /** A withdrawal that opens a part of a fixed address completes the import exactly when the keys
      of all the other parts are there, and then the address can be spent from. */
  lemma LastWithdrawalImports(s: State, hash: nat, index: nat, masked: int, recipientKey: Point, perDeposit: nat,
                              params: Params)
    requires params.order > 0 && Ready(s, hash, perDeposit, params.order)
    requires index < |RequestIn(s, hash).parts|
    requires SecretOpens(s, s.messages[RequestIn(s, hash).parts[index]].secret.PubKey(), masked, recipientKey, params)
    ensures var t := AfterWithdrawal(s, hash, index, masked, recipientKey, true, params);
      var parts := RequestIn(s, hash).parts;
      && (RequestIn(t, hash).importComplete <==>
           forall h :: h in parts ==>
             var pubkey := s.messages[h].secret.PubKey();
             pubkey in s.keydata || pubkey == s.messages[parts[index]].secret.PubKey())
      && (RequestIn(t, hash).importComplete ==>
           var address := s.requests[hash].address.value;
           && address in t.keydata && Multiple(t.keydata[address], params.order) == address
           && (address in t.offsets ==>
                var point := Add(address, t.offsets[address], params.order);
                point in t.keydata && Multiple(t.keydata[point], params.order) == point))
  {
    hide SecretOpens, AfterSecret, AfterAll, GoodRequest;
    var point := s.messages[RequestIn(s, hash).parts[index]].secret.PubKey();
    SecretOnly(s, point, masked, recipientKey, params);
    SavedKeysOpen(s, point, masked, recipientKey, params);
    AllImport(AfterSecret(s, point, masked, recipientKey, params), hash, perDeposit, params.order);
  }

  /** When a relay is gone, enough shares of its part do the same: a backup withdrawal with which
      three non-zero shares of a valid part are there completes the import exactly when the keys
      of all the other parts are there. */
  lemma LastShareImports(s: State, partHash: nat, position: nat, masked: int, recipientKey: Point, key: int,
                         perDeposit: nat, params: Params)
    requires IsPrime(params.order) && SECRETS_PER_ADDRESS_PART <= params.order && partHash in s.messages
    requires ValidPart(s.messages[partHash].secret, params) && AllDecoded(s.messages, params)
    requires position < SECRETS_PER_ADDRESS_PART
    requires var hash := s.messages[partHash].request;
      Ready(s, hash, perDeposit, params.order) && partHash in RequestIn(s, hash).parts
    requires var points := s.messages[partHash].secret.pointValues;
      && SecretOpens(s, points[position], masked, recipientKey, params)
      && var keys := AfterSecret(s, points[position], masked, recipientKey, params).keydata;
         |Present(keys, points, SECRETS_PER_ADDRESS_PART)| >= ADDRESS_PART_SECRETS_NEEDED
    requires IsRecovered(s, partHash, position, masked, recipientKey, key, params)
    ensures var t := AfterBackup(s, partHash, position, masked, recipientKey, true, key, params);
      var hash := s.messages[partHash].request;
      var points := s.messages[partHash].secret.pointValues;
      var saved := AfterSecret(s, points[position], masked, recipientKey, params);
      && (RequestIn(t, hash).importComplete <==>
           forall h :: h in RequestIn(s, hash).parts ==>
             var pubkey := s.messages[h].secret.PubKey();
             pubkey in saved.keydata || pubkey == s.messages[partHash].secret.PubKey())
      && (RequestIn(t, hash).importComplete ==>
           var address := s.requests[hash].address.value;
           && address in t.keydata && Multiple(t.keydata[address], params.order) == address
           && (address in t.offsets ==>
                var point := Add(address, t.offsets[address], params.order);
                point in t.keydata && Multiple(t.keydata[point], params.order) == point))
      && t.log == s.log
  {
    hide SecretOpens, AfterSecret, AfterAll, GoodRequest, ValidPart, Present, RecoveredPoint, CountStored;
    var secret := s.messages[partHash].secret;
    PartSizes(secret, params);
    var point := secret.pointValues[position];
    SecretOnly(s, point, masked, recipientKey, params);
    SavedKeysOpen(s, point, masked, recipientKey, params);
    var saved := AfterSecret(s, point, masked, recipientKey, params);
    PresentAreStored(saved.keydata, secret.pointValues, SECRETS_PER_ADDRESS_PART);
    assert Decoded(s.messages[partHash], params);
    ValidPartRecovers(secret, saved.keydata, params);
    var recovered := saved.(keydata := saved.keydata[secret.PubKey() := key]);
    assert AfterRecovery(saved, partHash, key, params.order) == recovered;
    AllImport(recovered, s.messages[partHash].request, perDeposit, params.order);
  }

  lemma PartSizes(secret: AddressPartSecret, params: Params)
    requires params.order > 0 && ValidPart(secret, params)
    ensures |secret.pointValues| == SECRETS_PER_ADDRESS_PART && |secret.coefficientPoints| > 0
  {
  }
}
