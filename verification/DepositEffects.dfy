/** What each event of the deposit protocol does to the stored state, field by field: the state
    after a step compared with the state before. */
module DepositEffects {
  import opened Modular
  import opened Interpolation
  import opened Group
  import opened Bits
  import opened DepositSecret
  import opened DepositRequests
  import opened DepositSteps

  /** Whatever is not a public value of the given list has the key it had, or none as before. */
  ghost predicate SameOutside(before: KeyStore, after: KeyStore, points: seq<Point>) {
    forall point :: point !in points ==>
      (point in after <==> point in before) && (point in before ==> after[point] == before[point])
  }

  // -------------------------------------------------------------------- requests

  /** Sending a request marks it as one's own, records the point of the offset, and stores the keys of
      the depositor and of the offset; nothing else changes. */
  lemma RequestEffect(s: State, hash: nat, depositorKey: int, offset: Option<int>, t: State, perDeposit: nat,
                      params: Params)
    requires params.order >= 2 && Kept(s, params)
    requires Follows(s, RequestSent(hash, depositorKey, offset), t, perDeposit, params)
    ensures var r := if hash in s.requests then s.requests[hash] else NewRequest;
      var point := if offset.Some? then Some(Multiple(offset.value, params.order)) else r.offset;
      t.requests == s.requests[hash := r.(isMine := true, offset := point)]
    ensures Multiple(depositorKey, params.order) in t.keydata
    ensures offset.Some? ==>
      var point := Multiple(offset.value, params.order); point in t.keydata && t.keydata[point] == offset.value
    ensures var points := [Multiple(depositorKey, params.order)]
        + if offset.Some? then [Multiple(offset.value, params.order)] else [];
      SameOutside(s.keydata, t.keydata, points)
    ensures t == s.(keydata := t.keydata, requests := t.requests)
  {
  }

  // ----------------------------------------------------------------------- parts

  /** A part that is a repeat, badly signed or not valid is stored, and nothing else happens. */
  lemma RejectedPartEffect(s: State, msg: PartMessage, signed: bool, t: State, perDeposit: nat, params: Params)
    requires params.order >= 2 && Kept(s, params) && WellFormed(PartArrived(msg, signed), perDeposit, params)
    requires Fresh(s, msg) && (msg.hash in s.processed || !signed || !ValidPart(msg.secret, params))
    requires Follows(s, PartArrived(msg, signed), t, perDeposit, params)
    ensures t == s.(messages := s.messages[msg.hash := msg])
  {
    hide Received, ValidPart, AfterRecord;
  }

  /** A second part at a position of a request is stored and cancels the request. */
  lemma SecondPartEffect(s: State, msg: PartMessage, t: State, perDeposit: nat, params: Params)
    requires params.order >= 2 && Kept(s, params) && WellFormed(PartArrived(msg, true), perDeposit, params)
    requires Fresh(s, msg) && msg.hash !in s.processed && ValidPart(msg.secret, params)
    requires msg.request in s.requests && Bit(s.requests[msg.request].partsReceived, msg.position)
    requires Follows(s, PartArrived(msg, true), t, perDeposit, params)
    ensures t == s.(messages := s.messages[msg.hash := msg],
                    requests := s.requests[msg.request := s.requests[msg.request].(cancelled := true)])
  {
    hide Received, ValidPart, AfterRecord;
  }

  /** The request as it is recorded, or a new one. */
  function Before(s: State, hash: nat): Request {
    if hash in s.requests then s.requests[hash] else NewRequest
  }

  /** The first valid part at a position is stored and marked as processed. The shares whose relay key
      the node holds are stored if they open, and no key outside the public values of the part
      changes. If a share does not open, no request changes. */
  lemma FirstPartEffect(s: State, msg: PartMessage, t: State, i: nat, perDeposit: nat, params: Params)
    requires params.order >= 2 && Kept(s, params) && WellFormed(PartArrived(msg, true), perDeposit, params)
    requires Fresh(s, msg) && msg.hash !in s.processed && ValidPart(msg.secret, params)
    requires !Bit(Before(s, msg.request).partsReceived, msg.position) && i < SECRETS_PER_ADDRESS_PART
    requires Follows(s, PartArrived(msg, true), t, perDeposit, params)
    ensures |msg.secret.pointValues| == |msg.secret.masked| == |msg.secret.relays| == SECRETS_PER_ADDRESS_PART
    ensures t.messages == s.messages[msg.hash := msg] && t.processed == s.processed + {msg.hash}
    ensures t.disclosures == s.disclosures && t.log == s.log
    ensures SameOutside(s.keydata, t.keydata, msg.secret.pointValues)
    ensures var points, relay := msg.secret.pointValues, msg.secret.relays[i];
      relay in s.keydata && relay !in points[..i] ==>
        if ShareOpens(s.keydata[relay], points[i], msg.secret.masked[i], params) then points[i] in t.keydata
        else t.requests == s.requests && t.offsets == s.offsets
  {
    hide ShareOpens, Received, Bit;
    ValidSizes(msg.secret, params);
    FirstPart(s, msg, t, perDeposit, params);
    var secret := msg.secret;
    ReceivedFacts(s.keydata, secret.pointValues, secret.masked, secret.relays, |secret.relays|, params);
    assert secret.pointValues[..|secret.relays|] == secret.pointValues;
    if secret.relays[i] !in secret.pointValues[..i] {
      ReceivedStores(s.keydata, secret.pointValues, secret.masked, secret.relays, |secret.relays|, i, params);
    }
  }

  lemma ValidSizes(secret: AddressPartSecret, params: Params)
    requires params.order > 0 && ValidPart(secret, params)
    ensures |secret.pointValues| == |secret.masked| == SECRETS_PER_ADDRESS_PART
  {
  }

  /** How the step of a first part is put together. */
  lemma FirstPart(s: State, msg: PartMessage, t: State, perDeposit: nat, params: Params)
    requires params.order >= 2 && Kept(s, params) && WellFormed(PartArrived(msg, true), perDeposit, params)
    requires Fresh(s, msg) && msg.hash !in s.processed && ValidPart(msg.secret, params)
    requires !Bit(Before(s, msg.request).partsReceived, msg.position)
    requires Follows(s, PartArrived(msg, true), t, perDeposit, params)
    ensures |msg.secret.pointValues| == |msg.secret.masked| == |msg.secret.relays|
    ensures var secret := msg.secret;
      var (keys, bad) := Received(s.keydata, secret.pointValues, secret.masked, secret.relays, |secret.relays|, params);
      var stored := s.(messages := s.messages[msg.hash := msg], keydata := keys, processed := s.processed + {msg.hash});
      && PartsStored(stored)
      && t == if bad != [] then stored else AfterRecord(stored, msg, perDeposit, params.order)
  {
    hide Received, AfterRecord, Bit;
  }

  /** A part dealt from given coefficients is stored with the multiples of the coefficients and of the
      values of their polynomial, masked for its relays. At a free position it joins its request,
      with its key stored. */
  lemma DealtPartEffect(s: State, hash: nat, request: nat, position: nat, random: seq<int>, relays: seq<Point>,
                        t: State, perDeposit: nat, params: Params) returns (shares: seq<int>)
    requires params.order >= 2 && Kept(s, params) && hash !in s.messages && hash !in s.processed
    requires WellFormed(PartDealt(hash, request, position, random, relays), perDeposit, params)
    requires Follows(s, PartDealt(hash, request, position, random, relays), t, perDeposit, params)
    ensures hash in t.messages && t.messages[hash].request == request && t.messages[hash].position == position
    ensures var secret := t.messages[hash].secret;
      && secret.relays == relays && |secret.coefficientPoints| == |random|
      && (forall i :: 0 <= i < |random| ==> secret.coefficientPoints[i] == Multiple(random[i], params.order))
      && |secret.pointValues| == |secret.masked| == |shares| == |relays|
      && forall i :: 0 <= i < |relays| ==>
           && 0 <= shares[i] < params.order && Cong(shares[i], Eval(random, i + 1), params.order)
           && secret.pointValues[i] == Multiple(shares[i], params.order)
           && MaskedFor(secret.masked[i], shares[i], relays[i], params)
    ensures !Bit(Before(s, request).partsReceived, position) ==>
      && request in t.requests && hash in t.requests[request].parts
      && Multiple(random[0], params.order) in t.keydata
  {
    var secret, secrets, keys :| Dealt(random, s.keydata, secret, secrets, keys, relays, params)
      && t == AfterPart(s.(keydata := keys), PartMessage(hash, request, position, secret), true, perDeposit, params);
    shares := secrets;
    forall i | 0 <= i < |relays|
      ensures MaskedFor(secret.masked[i], shares[i], relays[i], params)
    {
      MaskedForRelay(shares[i], relays[i], params);
    }
    hide Bit, Received, ValidPart, MaskedFor, BigXor, Eval, AfterRecord;
    OneMoreKey(s.keydata, random[0], params.order);
    WithSharesFacts(s.keydata[Multiple(random[0], params.order) := random[0]], secrets, secret.pointValues, |secrets|,
                    params.order);
    OwnPartRecorded(s.(keydata := keys), PartMessage(hash, request, position, secret), secrets, perDeposit, params);
    DealtStored(s.(keydata := keys), PartMessage(hash, request, position, secret), perDeposit, params);
  }

  lemma DealtStored(s: State, msg: PartMessage, perDeposit: nat, params: Params)
    requires params.order > 0 && |msg.secret.relays| == SECRETS_PER_ADDRESS_PART && PartsStored(s)
    ensures AfterPart(s, msg, true, perDeposit, params).messages == s.messages[msg.hash := msg]
  {
    hide Bit, Received, ValidPart, WithPart;
  }

  /** If every share whose relay key the node holds opens, the part joins its request at its position.
      The last part fixes the address as the sum of the public keys, and an offset of one's own
      request is filed under the address. */
  lemma RecordedPartEffect(s: State, msg: PartMessage, t: State, perDeposit: nat, params: Params)
    requires params.order >= 2 && Kept(s, params) && WellFormed(PartArrived(msg, true), perDeposit, params)
    requires Fresh(s, msg) && msg.hash !in s.processed && ValidPart(msg.secret, params)
    requires !Bit(Before(s, msg.request).partsReceived, msg.position)
    requires var secret := msg.secret;
      forall i :: 0 <= i < |secret.relays| && i < |secret.pointValues| && i < |secret.masked| ==>
        && secret.relays[i] !in secret.pointValues[..i]
        && (secret.relays[i] in s.keydata ==>
             ShareOpens(s.keydata[secret.relays[i]], secret.pointValues[i], secret.masked[i], params))
    requires Follows(s, PartArrived(msg, true), t, perDeposit, params)
    ensures var r := Before(s, msg.request);
      && msg.request in t.requests
      && var q := t.requests[msg.request];
         && q.parts == r.parts + [msg.hash]
         && (forall i: nat :: Bit(q.partsReceived, i) <==> i == msg.position || Bit(r.partsReceived, i))
         && (forall h :: h in q.parts ==> h in t.messages)
         && q.address == (if |q.parts| == perDeposit then Some(SumOfParts(q.parts, t.messages, params.order))
                          else r.address)
         && q.offset == r.offset && q.isMine == r.isMine
         && q.cancelled == r.cancelled && q.importComplete == r.importComplete
         && t.requests == s.requests[msg.request := q]
         && t.offsets == (if |q.parts| == perDeposit && r.isMine && r.offset.Some?
                          then s.offsets[q.address.value := r.offset.value] else s.offsets)
  {
    var secret, n := msg.secret, |msg.secret.relays|;
    FirstPart(s, msg, t, perDeposit, params);
    NothingReported(s.keydata, secret, params);
    forall i: nat
      ensures Bit(SetBit(Before(s, msg.request).partsReceived, msg.position), i)
        <==> i == msg.position || Bit(Before(s, msg.request).partsReceived, i)
    {
      SetBitBits(Before(s, msg.request).partsReceived, msg.position, i);
    }
    hide Bit, SetBit, Received, ShareOpens, SumOfParts, ValidPart, Follows, Kept;
    RecordEffect(s.(messages := s.messages[msg.hash := msg], keydata := t.keydata, processed := t.processed), msg,
                 perDeposit, params.order);
  }

  lemma NothingReported(keys: KeyStore, secret: AddressPartSecret, params: Params)
    requires params.order > 0 && |secret.pointValues| == |secret.masked| == |secret.relays|
    requires forall i :: 0 <= i < |secret.relays| ==>
      && secret.relays[i] !in secret.pointValues[..i]
      && (secret.relays[i] in keys ==>
           ShareOpens(keys[secret.relays[i]], secret.pointValues[i], secret.masked[i], params))
    ensures Received(keys, secret.pointValues, secret.masked, secret.relays, |secret.relays|, params).1 == []
  {
    hide Received, ShareOpens;
    var n := |secret.relays|;
    var bad := Received(keys, secret.pointValues, secret.masked, secret.relays, n, params).1;
    ReceivedFacts(keys, secret.pointValues, secret.masked, secret.relays, n, params);
    if bad != [] {
      assert bad[0] in bad;
      ReceivedStores(keys, secret.pointValues, secret.masked, secret.relays, n, bad[0], params);
    }
  }

  lemma RecordEffect(s: State, msg: PartMessage, perDeposit: nat, p: int)
    requires p > 0 && msg.hash in s.messages && PartsStored(s)
    ensures var r, t := Before(s, msg.request), AfterRecord(s, msg, perDeposit, p);
      && msg.request in t.requests
      && var q := t.requests[msg.request];
         && (forall h :: h in q.parts ==> h in s.messages)
         && q == r.(partsReceived := SetBit(r.partsReceived, msg.position), parts := r.parts + [msg.hash],
                    address := if |q.parts| == perDeposit then Some(SumOfParts(q.parts, s.messages, p)) else r.address)
         && t == s.(requests := s.requests[msg.request := q], offsets := t.offsets)
         && t.offsets == (if |q.parts| == perDeposit && r.isMine && r.offset.Some?
                          then s.offsets[q.address.value := r.offset.value] else s.offsets)
  {
    hide SumOfParts, SetBit;
  }

  // ----------------------------------------------------------------- disclosures

  /** The first disclosure of a stored part, signed, for the relay list it names and with everything
      there that is looked at. */
  ghost predicate FirstDisclosure(s: State, d: Disclosure, params: Params) {
    && params.listHash(d.relays) == d.relayListHash && |d.masked| == SECRETS_PER_ADDRESS_PART
    && d.partHash in s.messages && d.partHash !in s.disclosures
    && var secret := s.messages[d.partHash].secret;
       && |d.relays| <= |secret.pointValues| && |d.relays| <= |d.masked|
       && |d.relays| <= |secret.relays| && |d.relays| <= |secret.masked|
  }

  /** The first disclosure of a part is recorded. The shares whose relay key the node holds are stored
      if they open, a public value none of whose shares opens keeps what it had, and no other key
      changes. */
  lemma DisclosureEffect(s: State, d: Disclosure, t: State, i: nat, point: Point, perDeposit: nat, params: Params)
    requires params.order >= 2 && Kept(s, params) && WellFormed(DisclosureArrived(d, true), perDeposit, params)
    requires FirstDisclosure(s, d, params) && i < |d.relays|
    requires Follows(s, DisclosureArrived(d, true), t, perDeposit, params)
    ensures t.disclosures == s.disclosures[d.partHash := d.hash]
    ensures t == s.(keydata := t.keydata, disclosures := t.disclosures)
    ensures SameOutside(s.keydata, t.keydata, s.messages[d.partHash].secret.pointValues)
    ensures var points, relay := s.messages[d.partHash].secret.pointValues, d.relays[i];
      && relay !in points[..i] && relay in s.keydata && ShareOpens(s.keydata[relay], points[i], d.masked[i], params)
      ==> points[i] in t.keydata
    ensures var points := s.messages[d.partHash].secret.pointValues;
      (forall j :: 0 <= j < |d.relays| && points[j] == point ==>
         && d.relays[j] !in points[..j]
         && !(d.relays[j] in s.keydata && ShareOpens(s.keydata[d.relays[j]], points[j], d.masked[j], params)))
      ==> (point in t.keydata <==> point in s.keydata) && (point in s.keydata ==> t.keydata[point] == s.keydata[point])
  {
    hide Received, ShareOpens;
    var points, n := s.messages[d.partHash].secret.pointValues, |d.relays|;
    ReceivedFacts(s.keydata, points, d.masked, d.relays, n, params);
    assert forall x :: x in points[..n] ==> x in points;
    if d.relays[i] !in points[..i] {
      ReceivedStores(s.keydata, points, d.masked, d.relays, n, i, params);
    }
    if forall j :: 0 <= j < n && points[j] == point ==>
         && d.relays[j] !in points[..j]
         && !(d.relays[j] in s.keydata && ShareOpens(s.keydata[d.relays[j]], points[j], d.masked[j], params)) {
      ReceivedLeaves(s.keydata, points, d.masked, d.relays, n, point, params);
    }
  }

  /** A share that its holder masks for a relay of this node arrives and is stored. */
  lemma DisclosedShareArrives(s: State, d: Disclosure, t: State, i: nat, share: int, perDeposit: nat, params: Params)
    requires params.order >= 2 && Kept(s, params) && WellFormed(DisclosureArrived(d, true), perDeposit, params)
    requires FirstDisclosure(s, d, params) && i < |d.relays|
    requires Follows(s, DisclosureArrived(d, true), t, perDeposit, params)
    requires var points := s.messages[d.partHash].secret.pointValues;
      d.relays[i] in s.keydata && d.relays[i] !in points[..i] && Multiple(share, params.order) == points[i]
    requires share >= 0 && MaskedFor(d.masked[i], share, d.relays[i], params)
    ensures s.messages[d.partHash].secret.pointValues[i] in t.keydata
  {
    hide Follows, ShareOpens, BigXor;
    var points, relay := s.messages[d.partHash].secret.pointValues, d.relays[i];
    var privkey := s.keydata[relay];
    assert relay == Multiple(privkey, params.order);
    MaskIs(share, privkey, params);
    HonestShareOpens(share, privkey, relay, points[i], d.masked[i], params);
    DisclosureEffect(s, d, t, i, points[i], perDeposit, params);
  }

  /** A second, different disclosure of a part cancels the request of the part; the same one again does
      nothing, and neither does one that is unsigned, for another relay list or of an unknown part. */
  lemma OtherDisclosureEffect(s: State, d: Disclosure, signed: bool, t: State, perDeposit: nat, params: Params)
    requires params.order >= 2 && Kept(s, params) && WellFormed(DisclosureArrived(d, signed), perDeposit, params)
    requires Follows(s, DisclosureArrived(d, signed), t, perDeposit, params)
    ensures !signed || params.listHash(d.relays) != d.relayListHash || d.partHash !in s.messages ==> t == s
    ensures
      && signed && params.listHash(d.relays) == d.relayListHash && |d.masked| == SECRETS_PER_ADDRESS_PART
      && d.partHash in s.messages && d.partHash in s.disclosures ==>
        var request := s.messages[d.partHash].request;
        if s.disclosures[d.partHash] == d.hash then t == s
        else t == s.(requests := s.requests[request := Before(s, request).(cancelled := true)])
  {
    hide Received;
  }

  // ----------------------------------------------------------------- withdrawals

  /** A withdrawal of a part of a request with a fixed address, in terms of the key of the part: unless
      the unmasked number opens the part, nothing happens; otherwise the part gets a key, and only
      the part, the address and the address with its offset can have another key than before. */
  lemma WithdrawalEffect(s: State, hash: nat, index: nat, masked: int, recipientKey: Point, accepted: bool, key: int,
                         t: State, perDeposit: nat, params: Params)
    requires params.order >= 2 && Kept(s, params)
    requires Follows(s, WithdrawalArrived(hash, index, masked, recipientKey, accepted), t, perDeposit, params)
    requires hash in s.requests && index < |s.requests[hash].parts|
    requires s.requests[hash].parts[index] in s.messages
    requires s.messages[s.requests[hash].parts[index]].secret.PubKey() == Multiple(key, params.order)
    ensures var p := params.order;
      var point, r := Multiple(key, p), s.requests[hash];
      var secret := BigXor(masked, params.hash(Multiple(Lookup(s.keydata, recipientKey) * key, p)));
      if !accepted || r.address.None? || !Cong(secret, key, p) then t == s
      else
        var address := r.address.value;
        && point in t.keydata && t.messages == s.messages && t.offsets == s.offsets
        && SameOutside(s.keydata, t.keydata,
             [point, address] + if address in s.offsets then [Add(address, s.offsets[address], p)] else [])
  {
    var p := params.order;
    var point, r := Multiple(key, p), s.requests[hash];
    ReceivedSecretIs(s.keydata, key, masked, recipientKey, params);
    var secret := BigXor(masked, params.hash(Multiple(Lookup(s.keydata, recipientKey) * key, p)));
    MultipleEqual(secret, key, p);
    assert SecretOpens(s, point, masked, recipientKey, params) <==> Cong(secret, key, p);
    hide BigXor, Multiple, Kept, AfterAll, SameOutside, SecretOpens, ReceivedSecret, Cong;
    if accepted && r.address.Some? && Cong(secret, key, p) {
      var saved := AfterSecret(s, point, masked, recipientKey, params);
      var touched := [r.address.value]
        + if r.address.value in s.offsets then [Add(r.address.value, s.offsets[r.address.value], p)] else [];
      AllTouches(saved, hash, r.address.value, p);
      assert [point, r.address.value] + touched[1..] == [point] + touched;
      OneMoreTouched(s.keydata, point, secret, t.keydata, touched);
    }
  }

  lemma OneMoreTouched(before: KeyStore, point: Point, key: int, after: KeyStore, points: seq<Point>)
    requires SameOutside(before[point := key], after, points)
    ensures SameOutside(before, after, [point] + points)
  {
  }

  /** Looking for all the secrets of a fixed address changes at most the keys of the address and of the
      address with its offset. */
  lemma AllTouches(s: State, hash: nat, address: Point, p: int)
    requires p > 0 && PartsStored(s) && hash in s.requests && s.requests[hash].address == Some(address)
    ensures var t := AfterAll(s, hash, p);
      && t.messages == s.messages && t.offsets == s.offsets && s.keydata.Keys <= t.keydata.Keys
      && SameOutside(s.keydata, t.keydata,
           [address] + if address in s.offsets then [Add(address, s.offsets[address], p)] else [])
  {
    hide KeySum, AllStored, ImportedKeys, WalletKey, Multiple, SameOutside;
    AllAdds(s, hash, p);
    var key := KeySum(s.requests[hash].parts, s.messages, s.keydata, p);
    var points := [address] + if address in s.offsets then [Add(address, s.offsets[address], p)] else [];
    ImportTouches(s.keydata, address, key, s.offsets, WalletKey(s, address, key, p), p);
    SameAsBefore(s.keydata, points);
  }

  lemma SameAsBefore(keys: KeyStore, points: seq<Point>)
    ensures SameOutside(keys, keys, points)
  {
  }

  lemma ImportTouches(keys: KeyStore, address: Point, key: int, offsets: map<Point, Point>, walletKey: int, p: int)
    requires p > 0
    ensures SameOutside(keys, ImportedKeys(keys, address, key, offsets, walletKey, p),
      [address] + if address in offsets then [Add(address, offsets[address], p)] else [])
  {
  }

  /** A backup withdrawal that is accepted for a stored part and position: the share is stored if and
      only if the unmasked number opens its public value, and if it does not, nothing happens. */
  lemma BackupEffect(s: State, partHash: nat, position: nat, masked: int, recipientKey: Point, accepted: bool,
                     share: int, t: State, perDeposit: nat, params: Params)
    requires params.order >= 2 && Kept(s, params)
    requires Follows(s, BackupArrived(partHash, position, masked, recipientKey, accepted), t, perDeposit, params)
    requires partHash in s.messages && position < |s.messages[partHash].secret.pointValues|
    requires s.messages[partHash].secret.pointValues[position] == Multiple(share, params.order)
    ensures var p := params.order;
      var secret := BigXor(masked, params.hash(Multiple(Lookup(s.keydata, recipientKey) * share, p)));
      if accepted && Cong(secret, share, p) then
        Multiple(share, p) in t.keydata && t.messages == s.messages && t.offsets == s.offsets
      else t == s
  {
    var p := params.order;
    var point := Multiple(share, p);
    ReceivedSecretIs(s.keydata, share, masked, recipientKey, params);
    var secret := BigXor(masked, params.hash(Multiple(Lookup(s.keydata, recipientKey) * share, p)));
    MultipleEqual(secret, share, p);
    var key :| IsRecovered(s, partHash, position, masked, recipientKey, key, params)
      && t == AfterBackup(s, partHash, position, masked, recipientKey, accepted, key, params);
    assert SecretOpens(s, point, masked, recipientKey, params) <==> Cong(secret, share, p);
    hide BigXor, Multiple, Kept, AfterAll, Recoverable, IsRecovered, SecretOpens, AfterSecret, AfterRecovery, Cong;
    SecretOnly(s, point, masked, recipientKey, params);
    SavedKey(s, point, masked, recipientKey, params);
    if accepted && Cong(secret, share, p) {
      var saved := AfterSecret(s, point, masked, recipientKey, params);
      if Recoverable(saved.keydata, s.messages[partHash].secret.pointValues) {
        RecoveryKeeps(saved, partHash, key, p);
        AllKeeps(AfterRecovery(saved, partHash, key, p), s.messages[partHash].request, p);
      }
    }
  }

  lemma SavedKey(s: State, point: Point, masked: int, recipientKey: Point, params: Params)
    requires params.order > 0
    ensures SecretOpens(s, point, masked, recipientKey, params) ==>
      point in AfterSecret(s, point, masked, recipientKey, params).keydata
  {
  }

  lemma RecoveryKeeps(s: State, partHash: nat, key: int, p: int)
    requires p > 0 && partHash in s.messages
    ensures var t := AfterRecovery(s, partHash, key, p);
      && t.messages == s.messages && t.offsets == s.offsets && t.requests == s.requests
      && s.keydata.Keys <= t.keydata.Keys
  {
  }

  lemma AllKeeps(s: State, hash: nat, p: int)
    requires p > 0 && PartsStored(s)
    ensures var t := AfterAll(s, hash, p);
      t.messages == s.messages && t.offsets == s.offsets && s.keydata.Keys <= t.keydata.Keys
  {
    AllAdds(s, hash, p);
    hide KeySum, AllStored, ImportedKeys, WalletKey, Multiple;
  }
}
