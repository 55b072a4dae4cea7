/** The deposit protocol as a node sees it: address parts, disclosures,
    withdrawals and backup withdrawals update the key store, and the key of an
    address is rebuilt from the keys of its parts (src/deposit/deposits.cpp,
    src/deposit/disclosure.cpp, src/deposit/withdraw.cpp,
    src/deposit/withdrawal_messages.h). */
module DepositHandler {
  import opened Modular
  import opened Group
  import opened Polynomial
  import opened Bits
  import opened DepositSecret
  import opened DepositRequests
  import opened DepositSteps

  class DepositHandler {
    const params: Params
    const perDeposit: nat                  // SECRETS_PER_DEPOSIT
    var keydata: KeyStore
    var messages: Messages                 // part messages by hash, checked or not
    var requests: map<nat, Request>
    var offsets: map<Point, Point>         // depositdata[address]["offset_point"]
    var processed: set<nat>
    var disclosures: map<nat, nat>         // depositdata[part]["disclosure"]
    var log: seq<Mismatch>                 // "Something has gone wrong"

    function Now(): State
      reads this
    {
      State(keydata, messages, requests, offsets, processed, disclosures, log)
    }

    /** Every stored key opens its point, every recorded part is valid, every fixed address is the
        sum of its parts, and every logged mismatch is explained. */
    ghost predicate Valid()
      reads this
    {
      && IsPrime(params.order) && SECRETS_PER_ADDRESS_PART <= params.order && perDeposit > 0
      && KeysOpen(keydata, params.order)
      && AllDecoded(messages, params)
      && PartsValid(requests, messages, params)
      && GoodRequests(requests, messages, perDeposit, params.order)
      && OffsetsStored(requests, offsets, keydata)
      && AllExplained(log, requests, messages, perDeposit, params)
    }

    constructor (params: Params, perDeposit: nat)
      requires IsPrime(params.order) && SECRETS_PER_ADDRESS_PART <= params.order && perDeposit > 0
      ensures Valid() && Now() == State(map[], map[], map[], map[], {}, map[], [])
      ensures this.params == params && this.perDeposit == perDeposit
    {
      this.params := params;
      this.perDeposit := perDeposit;
      keydata, messages, requests, offsets, processed, disclosures, log := map[], map[], map[], map[], {}, map[], [];
    }

    function RequestAt(hash: nat): Request
      reads this
    {
      if hash in requests then requests[hash] else NewRequest
    }

    lemma RequestIsGood(hash: nat)
      requires Valid()
      ensures GoodRequest(hash, RequestAt(hash), messages, perDeposit, params.order)
      ensures RequestAt(hash).offset.Some? ==> RequestAt(hash).offset.value in keydata
      ensures forall g :: g in RequestAt(hash).parts ==> g in messages && ValidPart(messages[g].secret, params)
      ensures PartsStored(Now())
    {
      EmptyRequestIsGood(hash, messages, perDeposit, params.order);
    }

    lemma StateKept()
      requires Valid()
      ensures Kept(Now(), params)
    {
      RequestIsGood(0);
    }

    /** A request with a fixed address is ready to be imported. */
    lemma StateReady(hash: nat)
      requires Valid() && RequestAt(hash).address.Some? && !RequestAt(hash).importComplete
      ensures Ready(Now(), hash, perDeposit, params.order)
    {
      RequestIsGood(hash);
    }

    /** Replacing what is recorded about a request by something that has at least its parts. */
    method UpdateRequestAt(hash: nat, r: Request)
      requires Valid()
      requires GoodRequest(hash, r, messages, perDeposit, params.order)
      requires forall g :: g in r.parts ==> g in messages && ValidPart(messages[g].secret, params)
      requires RequestAt(hash).parts <= r.parts && (r.offset.Some? ==> r.offset.value in keydata)
      modifies this`requests
      ensures Valid() && Now() == old(Now()).(requests := old(requests)[hash := r])
    {
      hide GoodRequest, GoodRequests, PartsValid, OffsetsStored, KeysOpen, AllExplained;
      UpdateRequest(requests, hash, r, messages, perDeposit, params.order);
      OffsetsKept(requests, offsets, keydata, hash, r, keydata);
      ValidWithPart(requests, messages, hash, r, params);
      StillExplained(log, requests, messages, hash, r, perDeposit, params);
      requests := requests[hash := r];
    }

    /** `SendDepositAddressRequest` (src/deposit/deposits.cpp:129-152): a fresh
        depositor key and, for a secret address, an offset. */
    method SendRequest(hash: nat, depositorKey: int, offset: Option<int>)
      requires Valid()
      modifies this`keydata, this`requests
      ensures Valid() && Now() == AfterRequest(old(Now()), hash, depositorKey, offset, params.order)
    {
      hide GoodRequest, GoodRequests, PartsValid, AllExplained;
      RequestIsGood(hash);
      var p := params.order;
      ghost var before := keydata;
      keydata := keydata[Multiple(depositorKey, p) := depositorKey];
      var request := RequestAt(hash).(isMine := true);
      if offset.Some? {
        var offsetPoint := Multiple(offset.value, p);
        request := request.(offset := Some(offsetPoint));
        keydata := keydata[offsetPoint := offset.value];
      }
      SameParts(hash, RequestAt(hash), request, messages, perDeposit, p);
      OffsetsKept(requests, offsets, before, hash, request, keydata);
      UpdateRequestAt(hash, request);
    }

    /** A part message as it arrives, stored before it is looked at
        (src/teleportnode/message_handler.h:154-179). */
    method StoreMessage(msg: PartMessage)
      requires Valid() && Decoded(msg, params) && Fresh(Now(), msg)
      modifies this`messages
      ensures Valid() && Now() == old(Now()).(messages := old(messages)[msg.hash := msg])
    {
      hide OffsetsStored, KeysOpen, ValidPart;
      ghost var before := messages;
      messages := messages[msg.hash := msg];
      forall h | h in requests
        ensures GoodRequest(h, requests[h], messages, perDeposit, params.order)
      {
        assert GoodRequest(h, requests[h], before, perDeposit, params.order);
        SumUnchanged(requests[h].parts, before, messages, params.order);
      }
      forall m | m in log
        ensures Explained(m, requests, messages, perDeposit, params)
      {
        assert Explained(m, requests, before, perDeposit, params);
      }
    }

    /** `HandleDepositAddressPartMessage` (src/deposit/deposits.cpp:180-224) behind the dispatcher.
        `signed` stands for the request being known and for `VerifySignature`, which accepts only
        the keys of the relays at positions below SECRETS_PER_DEPOSIT. */
    method HandlePart(msg: PartMessage, signed: bool) returns (complaints: seq<int>)
      requires Valid() && Decoded(msg, params) && Fresh(Now(), msg)
      requires signed ==> msg.position < perDeposit
      modifies this
      ensures Valid() && PartsStored(old(Now()))
      ensures Now() == AfterPart(old(Now()), msg, signed, perDeposit, params)
      ensures old(PartFails(Now(), msg, signed, params)) ==> complaints == []
      ensures old(Bit(RequestAt(msg.request).partsReceived, msg.position)) ==> complaints == []
      ensures !old(PartFails(Now(), msg, signed, params) || Bit(RequestAt(msg.request).partsReceived, msg.position)) ==>
          complaints == ReceivedOf(old(Now()), msg.secret, msg.secret.masked, msg.secret.relays, params).1
    {
      hide GoodRequest, GoodRequests, OffsetsStored, KeysOpen, Received, PartsValid, AllExplained, ValidPart;
      hide AfterRecord;
      complaints := [];
      RequestIsGood(msg.request);
      StoreMessage(msg);
      var ok := Validate(msg.secret, params);
      if msg.hash in processed || !signed || !ok {
        return;
      }
      RequestIsGood(msg.request);
      if Bit(RequestAt(msg.request).partsReceived, msg.position) {
        CancelRequest(msg.request);
        return;
      }
      complaints := StoreShares(msg);
      processed := processed + {msg.hash};
      if complaints == [] {
        RecordPart(msg);
      }
    }

    /** `CancelRequest` (src/deposit/deposits.cpp:480-484). */
    method CancelRequest(hash: nat)
      requires Valid()
      modifies this`requests
      ensures Valid() && Now() == AfterCancel(old(Now()), hash)
    {
      hide GoodRequest, GoodRequests, PartsValid, OffsetsStored, KeysOpen, AllExplained;
      RequestIsGood(hash);
      var request := RequestAt(hash).(cancelled := true);
      SameParts(hash, RequestAt(hash), request, messages, perDeposit, params.order);
      UpdateRequestAt(hash, request);
    }

    /** `CheckAndSaveSharesFromAddressPart` (src/deposit/deposits.cpp:226-243). */
    method StoreShares(msg: PartMessage) returns (complaints: seq<int>)
      requires Valid() && Decoded(msg, params) && ValidPart(msg.secret, params)
      modifies this`keydata
      ensures Valid()
      ensures var r := ReceivedOf(old(Now()), msg.secret, msg.secret.masked, msg.secret.relays, params);
        Now() == old(Now()).(keydata := r.0) && complaints == r.1
    {
      hide GoodRequests, AllDecoded, PartsValid, AllExplained;
      var stored, keys;
      ReceivedFacts(keydata, msg.secret.pointValues, msg.secret.masked, msg.secret.relays, |msg.secret.relays|, params);
      stored, complaints, keys := ValidateAndStoreMySecrets(msg.secret, keydata, params);
      keydata := keys;
    }

    /** Recording a part at a free position; the last one fixes the address. */
    method RecordPart(msg: PartMessage)
      requires Valid()
      requires msg.hash in messages && messages[msg.hash] == msg && msg.position < perDeposit
      requires ValidPart(msg.secret, params) && !Bit(RequestAt(msg.request).partsReceived, msg.position)
      modifies this`requests, this`offsets
      ensures Valid() && PartsStored(old(Now())) && Now() == AfterRecord(old(Now()), msg, perDeposit, params.order)
    {
      hide GoodRequest, AllDecoded, GoodRequests, KeysOpen, Positions, PartsValid, AllExplained, ValidPart;
      RequestIsGood(msg.request);
      var request := RequestAt(msg.request);
      NotYetFull(msg.request, request, messages, msg.position, perDeposit, params.order);
      var updated := request.(partsReceived := SetBit(request.partsReceived, msg.position),
                              parts := request.parts + [msg.hash]);
      if |updated.parts| == perDeposit {
        updated := HandleParts(updated);
      }
      PartRecorded(msg.request, request, msg, messages, perDeposit, params.order);
      UpdateRequestAt(msg.request, updated);
    }

    /** `HandleDepositAddressParts` (src/deposit/deposits.cpp:245-297): the address is
        the sum of the public keys of the parts. */
    method HandleParts(request: Request) returns (updated: Request)
      requires Valid()
      requires forall h :: h in request.parts ==> h in messages
      requires request.offset.Some? ==> request.offset.value in keydata
      modifies this`offsets
      ensures Valid()
      ensures updated == request.(address := Some(SumOfParts(request.parts, messages, params.order)))
      ensures offsets == if request.isMine && request.offset.Some?
          then old(offsets)[updated.address.value := request.offset.value] else old(offsets)
    {
      hide GoodRequests, AllDecoded, PartsValid, AllExplained;
      var address := Infinity;
      var i := 0;
      while i < |request.parts|
        invariant 0 <= i <= |request.parts|
        invariant address == SumOfParts(request.parts[..i], messages, params.order)
      {
        address := Add(address, messages[request.parts[i]].secret.PubKey(), params.order);
        assert request.parts[..i + 1][..i] == request.parts[..i];
        i := i + 1;
      }
      assert request.parts[..i] == request.parts;
      updated := request.(address := Some(address));
      if request.isMine && request.offset.Some? {
        offsets := offsets[address := request.offset.value];
      }
    }

    /** `HandleDepositAddressPartDisclosure` (src/deposit/disclosure.cpp:142-175 and 200-241). A
        disclosure of an unknown part waits as an orphan. */
    method HandleDisclosure(d: Disclosure, signed: bool) returns (badDisclosure: seq<int>, badOriginal: seq<(int, int)>)
      requires Valid()
      modifies this`keydata, this`disclosures, this`requests
      ensures Valid() && Now() == AfterDisclosure(old(Now()), d, signed, params)
      ensures !old(DisclosureHandled(Now(), d, signed, params)) ==> badDisclosure == [] && badOriginal == []
      ensures old(DisclosureHandled(Now(), d, signed, params)) ==>
          && badDisclosure == ReceivedOf(old(Now()), messages[d.partHash].secret, d.masked, d.relays, params).1
          && forall i, share :: (i, share) in badOriginal <==>
               0 <= i < |d.relays| &&
                   Convicts(old(keydata), messages[d.partHash].secret, d.relays, d.masked, i, share, params)
    {
      hide GoodRequests, GoodRequest, Received, Convicts, PartsValid, AllExplained;
      badDisclosure, badOriginal := [], [];
      if !signed || !DisclosureValid(d, params) || d.partHash !in messages {
        return;
      }
      if d.partHash in disclosures {
        if disclosures[d.partHash] != d.hash {
          CancelRequest(messages[d.partHash].request);
        }
        return;
      }
      var secret := messages[d.partHash].secret;
      if !Discloses(secret, d) {
        return;
      }
      var ok, keys;
      ReceivedFacts(keydata, secret.pointValues, d.masked, d.relays, |d.relays|, params);
      ok, badDisclosure, badOriginal, keys := ValidateAndStoreDisclosed(secret, d.relays, d.masked, keydata, params);
      keydata := keys;
      disclosures := disclosures[d.partHash := d.hash];
    }

    /** `CheckAndSaveSecret` of withdrawals and backup withdrawals
        (src/deposit/withdrawal_messages.h:160-183 and 374-387). */
    method CheckAndSaveSecret(point: Point, masked: int, recipientKey: Point) returns (ok: bool)
      requires Valid()
      modifies this`keydata
      ensures Valid() && ok == old(SecretOpens(Now(), point, masked, recipientKey, params))
      ensures Now() == AfterSecret(old(Now()), point, masked, recipientKey, params)
      ensures forall key :: point == Multiple(key, params.order) ==>
        var secret := BigXor(masked, params.hash(Multiple(Lookup(old(keydata), recipientKey) * key, params.order)));
        && (ok <==> Multiple(secret, params.order) == point)
        && keydata == if ok then old(keydata)[point := secret] else old(keydata)
    {
      forall key | point == Multiple(key, params.order)
        ensures ReceivedSecret(keydata, point, masked, recipientKey, params)
          == BigXor(masked, params.hash(Multiple(Lookup(keydata, recipientKey) * key, params.order)))
      {
        ReceivedSecretIs(keydata, key, masked, recipientKey, params);
      }
      hide GoodRequests, AllDecoded, PartsValid, AllExplained;
      var recipientPrivkey := Lookup(keydata, recipientKey);
      var shared := params.hash(Scale(recipientPrivkey, point, params.order));
      var secret := XorBigNum(masked, shared);
      if Multiple(secret, params.order) != point {
        return false;
      }
      keydata := keydata[point := secret];
      ok := true;
    }

    /** `RecoverSecretPart` (src/deposit/withdraw.cpp:437-467), for any stored part: the mismatch is
        logged exactly when the stored shares interpolate to another point than the public key. */
    method RecoverSecretPart(partHash: nat) returns (ghost key: int)
      requires Valid() && partHash in messages && Recoverable(keydata, messages[partHash].secret.pointValues)
      modifies this`keydata, this`log
      ensures Valid() && Now() == AfterRecovery(old(Now()), partHash, key, params.order)
      ensures Multiple(key, params.order)
          == RecoveredPoint(old(keydata), messages[partHash].secret.pointValues, params.order)
    {
      hide GoodRequests, PartsValid, RecoveredPoint, EnoughStored, ValidPart;
      var secret := messages[partHash].secret;
      var secretPart := RecoverPartKey(secret, keydata, params);
      key := secretPart;
      if secret.PubKey() != Multiple(secretPart, params.order) {
        if ValidPart(secret, params) {
          MismatchExplained(secret, keydata, params);
        }
        log := log + [PartMismatch(partHash)];
        return;
      }
      keydata := keydata[secret.PubKey() := secretPart];
    }

    /** `CheckForAllSecretsOfAddress` (src/deposit/withdraw.cpp:469-536): once the
        address has been fixed, the sum of the keys of its parts always opens it. */
    method CheckForAllSecrets(requestHash: nat) returns (outcome: Outcome)
      requires Valid()
      modifies this`keydata, this`requests, this`log
      ensures Valid() && PartsStored(old(Now())) && Now() == AfterAll(old(Now()), requestHash, params.order)
      ensures outcome == AlreadyImported <==> old(RequestAt(requestHash)).importComplete
      ensures outcome == Missing <==>
          && !old(RequestAt(requestHash)).importComplete
          && !AllStored(old(RequestAt(requestHash)).parts, messages, old(keydata))
      ensures outcome == WrongKey <==>
          && !old(RequestAt(requestHash)).importComplete
          && AllStored(old(RequestAt(requestHash)).parts, messages, old(keydata))
          && old(RequestAt(requestHash)).address.None?
          && SumOfParts(old(RequestAt(requestHash)).parts, messages, params.order) != Infinity
      ensures outcome == WrongKey <==> log != old(log)
      ensures outcome.Imported? ==>
          var address := AddressOf(old(RequestAt(requestHash)));
          && Multiple(outcome.key, params.order) == address
          && Multiple(outcome.walletKey, params.order) == OffsetAddress(address, offsets, params.order)
    {
      hide GoodRequests, AllDecoded, OffsetsStored, GoodRequest, PartsValid, AllExplained, SumOfParts, KeySum;
      RequestIsGood(requestHash);
      var p := params.order;
      var request := RequestAt(requestHash);
      if request.importComplete {
        return AlreadyImported;
      }
      var complete, privkey := SumOfKeys(request.parts);
      if !complete {
        return Missing;
      }
      var address := AddressOf(request);
      AddressIsSum(requestHash, request, messages, perDeposit, p);
      if Multiple(privkey, p) != address {
        EmptySum(messages, p);
        LogAddress(requestHash);
        return WrongKey;
      }
      var walletKey := ImportKey(address, privkey);
      MarkImported(requestHash);
      outcome := Imported(privkey, walletKey);
    }

    method LogAddress(hash: nat)
      requires Valid() && RequestAt(hash).address.None? && RequestAt(hash).parts != []
      modifies this`log
      ensures Valid() && Now() == old(Now()).(log := old(log) + [AddressMismatch(hash, RequestAt(hash).parts)])
    {
      hide GoodRequests, AllDecoded, OffsetsStored, GoodRequest, PartsValid, KeysOpen;
      RequestIsGood(hash);
      NotAllParts(hash, RequestAt(hash), messages, perDeposit, params.order);
      log := log + [AddressMismatch(hash, RequestAt(hash).parts)];
    }

    method MarkImported(hash: nat)
      requires Valid()
      modifies this`requests
      ensures Valid() && Now() ==
          old(Now()).(requests := old(requests)[hash := old(RequestAt(hash)).(importComplete := true)])
    {
      hide GoodRequest, GoodRequests, PartsValid, OffsetsStored, KeysOpen, AllExplained;
      RequestIsGood(hash);
      var request := RequestAt(hash).(importComplete := true);
      SameParts(hash, RequestAt(hash), request, messages, perDeposit, params.order);
      UpdateRequestAt(hash, request);
    }

    /** The loop of `CheckForAllSecretsOfAddress`. */
    method SumOfKeys(parts: seq<nat>) returns (complete: bool, privkey: int)
      requires Valid()
      requires forall h :: h in parts ==> h in messages
      ensures complete <==> AllStored(parts, messages, keydata)
      ensures complete ==> privkey == KeySum(parts, messages, keydata, params.order)
      ensures complete ==> Multiple(privkey, params.order) == SumOfParts(parts, messages, params.order)
    {
      hide GoodRequests, AllDecoded, OffsetsStored, PartsValid, AllExplained;
      var p := params.order;
      privkey := 0;
      var i := 0;
      while i < |parts|
        invariant 0 <= i <= |parts| && privkey == KeySum(parts[..i], messages, keydata, p)
        invariant forall j :: 0 <= j < i ==> messages[parts[j]].secret.PubKey() in keydata
      {
        var pubkey := messages[parts[i]].secret.PubKey();
        if pubkey !in keydata {
          return false, privkey;
        }
        assert parts[..i + 1][..i] == parts[..i];
        privkey := TruncMod(privkey + keydata[pubkey], p);
        i := i + 1;
      }
      assert parts[..i] == parts;
      KeySumOpens(parts, messages, keydata, p);
      complete := true;
    }

    /** The end of `CheckForAllSecretsOfAddress`: storing the key, with the offset
        of a secret address added. */
    method ImportKey(address: Point, privkey: int) returns (walletKey: int)
      requires Valid() && Multiple(privkey, params.order) == address
      modifies this`keydata
      ensures Valid() && walletKey == WalletKey(old(Now()), address, privkey, params.order)
      ensures Multiple(walletKey, params.order) == OffsetAddress(address, offsets, params.order)
      ensures Multiple(walletKey, params.order)
        == if address in offsets then Add(address, offsets[address], params.order) else address
      ensures Now() ==
          old(Now()).(keydata := ImportedKeys(old(keydata), address, privkey, offsets, walletKey, params.order))
    {
      hide GoodRequests, AllDecoded, PartsValid, AllExplained;
      var p := params.order;
      keydata := keydata[address := privkey];
      walletKey := privkey;
      if address in offsets {
        var offsetPoint := offsets[address];
        var offset := Lookup(keydata, offsetPoint);
        SumOpens(privkey, offset, p);
        walletKey := TruncMod(privkey + offset, p);
        keydata := keydata[Add(address, offsetPoint, p) := walletKey];
      }
    }

    /** `CheckForEnoughSecretsOfAddressPart` (src/deposit/withdraw.cpp:416-435). */
    method CheckForEnoughSecrets(partHash: nat) returns (ghost key: int)
      requires Valid() && partHash in messages
      modifies this`keydata, this`requests, this`log
      ensures Valid() && PartsStored(old(Now()))
      ensures var points := messages[partHash].secret.pointValues;
        if Recoverable(old(keydata), points)
        then Multiple(key, params.order) == RecoveredPoint(old(keydata), points, params.order)
          && Now() ==
              AfterAll(AfterRecovery(old(Now()), partHash, key, params.order), messages[partHash].request, params.order)
        else Now() == old(Now())
    {
      hide GoodRequests, OffsetsStored, KeysOpen, RecoveredPoint, AfterAll, PartsValid, AllExplained, AllDecoded;
      RequestIsGood(messages[partHash].request);
      var part := messages[partHash];
      var points := part.secret.pointValues;
      var count := 0;
      var i := 0;
      while i < |points|
        invariant 0 <= i <= |points| && count == CountStored(keydata, points, i)
      {
        if points[i] in keydata {
          count := count + 1;
        }
        i := i + 1;
      }
      key := 0;
      if count >= ADDRESS_PART_SECRETS_NEEDED && |points| >= SECRETS_PER_ADDRESS_PART {
        key := RecoverSecretPart(partHash);
        var outcome := CheckForAllSecrets(part.request);
      }
    }

    /** `HandleWithdrawalMessage` for a withdrawal of one's own (src/deposit/withdraw.cpp:276-316).
        `hash` is the request found under the withdrawn address and `index` the position in its
        parts; `accepted` stands for the signature and for the address not being withdrawn yet. No
        mismatch is ever logged. */
    method HandleWithdrawal(hash: nat, index: nat, masked: int, recipientKey: Point, accepted: bool)
      returns (complain: bool)
      requires Valid()
      modifies this`keydata, this`requests, this`log
      ensures Valid() && PartsStored(old(Now())) && log == old(log)
      ensures Now() == AfterWithdrawal(old(Now()), hash, index, masked, recipientKey, accepted, params)
      ensures complain <==>
          var r := old(RequestAt(hash));
          accepted && r.address.Some? && index < |r.parts|
          && !SecretOpens(old(Now()), messages[r.parts[index]].secret.PubKey(), masked, recipientKey, params)
    {
      hide GoodRequests, OffsetsStored, KeysOpen, ReceivedSecret, AfterAll, PartsValid, AllExplained, AllDecoded;
      hide SecretOpens, AfterSecret, GoodRequest;
      RequestIsGood(hash);
      complain := false;
      var request := RequestAt(hash);
      if !accepted || request.address.None? || index >= |request.parts| {
        return;
      }
      var ok := CheckAndSaveSecret(messages[request.parts[index]].secret.PubKey(), masked, recipientKey);
      SecretOnly(old(Now()), messages[request.parts[index]].secret.PubKey(), masked, recipientKey, params);
      if !ok {
        complain := true;
      } else {
        var outcome := CheckForAllSecrets(hash);
      }
    }

    /** `HandleBackupWithdrawalMessage` for a withdrawal of one's own
        (src/deposit/withdraw.cpp:365-414), of a share of any part that has arrived. */
    method HandleBackupWithdrawal(partHash: nat, position: nat, masked: int, recipientKey: Point, accepted: bool)
      returns (complain: bool, ghost key: int)
      requires Valid()
      modifies this`keydata, this`requests, this`log
      ensures Valid() && PartsStored(old(Now()))
      ensures IsRecovered(old(Now()), partHash, position, masked, recipientKey, key, params)
      ensures Now() == AfterBackup(old(Now()), partHash, position, masked, recipientKey, accepted, key, params)
      ensures complain <==>
          && accepted && partHash in messages && position < |messages[partHash].secret.pointValues|
          && !SecretOpens(old(Now()), messages[partHash].secret.pointValues[position], masked, recipientKey, params)
    {
      hide GoodRequests, OffsetsStored, KeysOpen, ReceivedSecret, AfterAll, PartsValid, AllExplained, AllDecoded;
      hide SecretOpens, AfterSecret, AfterRecovery, RecoveredPoint, Recoverable, GoodRequest;
      RequestIsGood(0);
      key := AnyKey(Now(), partHash, position, masked, recipientKey, params);
      complain := false;
      if !accepted || partHash !in messages || position >= |messages[partHash].secret.pointValues| {
        return;
      }
      var point := messages[partHash].secret.pointValues[position];
      var ok := CheckAndSaveSecret(point, masked, recipientKey);
      SecretOnly(old(Now()), point, masked, recipientKey, params);
      if !ok {
        complain := true;
      } else {
        ghost var recovered := CheckForEnoughSecrets(partHash);
        if Recoverable(AfterSecret(old(Now()), point, masked, recipientKey, params).keydata,
                       messages[partHash].secret.pointValues) {
          key := recovered;
        }
      }
    }

    /** A relay deals a part of its own (src/deposit/deposit_messages.h:131-142) and
        handles the message it broadcasts. Nobody has reason to complain. */
    method DealOwnPart(hash: nat, request: nat, position: nat, random: seq<int>, relays: seq<Point>)
      returns (ghost secret: AddressPartSecret, ghost secrets: seq<int>, ghost keys: KeyStore)
      requires Valid() && position < perDeposit
      requires |random| == ADDRESS_PART_SECRETS_NEEDED && NonNegative(random)
      requires |relays| == SECRETS_PER_ADDRESS_PART
      requires hash !in messages && hash !in processed
      modifies this
      ensures Valid() && PartsStored(old(Now())) &&
          Dealt(random, old(keydata), secret, secrets, keys, relays, params)
      ensures Now() ==
          AfterPart(old(Now()).(keydata := keys), PartMessage(hash, request, position, secret), true,
                    perDeposit, params)
      ensures !old(Bit(RequestAt(request).partsReceived, position)) ==>
          && hash in RequestAt(request).parts && secret.PubKey() in keydata
    {
      hide GoodRequests, GoodRequest, OffsetsStored, ValidPart, Received, PartsValid, AllExplained, Deals;
      hide AfterPart;
      var dealt, privkey, shares, stored := DealPart(random, relays, keydata, params);
      secret, secrets, keys := dealt, shares, stored;
      RequestIsGood(request);
      KeepOffsets(stored);
      keydata := stored;
      OwnPartRecorded(Now(), PartMessage(hash, request, position, dealt), shares, perDeposit, params);
      var complaints := HandlePart(PartMessage(hash, request, position, dealt), true);
    }

    lemma KeepOffsets(keys: KeyStore)
      requires OffsetsStored(requests, offsets, keydata) && keydata.Keys <= keys.Keys
      ensures OffsetsStored(requests, offsets, keys)
    {
    }

    method Handle(event: Event)
      requires Valid() && WellFormed(event, perDeposit, params)
      modifies this
      ensures Valid() && Kept(old(Now()), params) && Follows(old(Now()), event, Now(), perDeposit, params)
    {
      hide GoodRequests, GoodRequest, OffsetsStored, ValidPart, PartsValid, AllExplained, Deals, AllDecoded, KeysOpen;
      hide AfterPart, AfterRequest, AfterDisclosure, AfterWithdrawal, AfterBackup, IsRecovered, Dealt;
      StateKept();
      match event {
        case RequestSent(hash, depositorKey, offset) =>
          SendRequest(hash, depositorKey, offset);
        case PartDealt(hash, request, position, random, relays) =>
          if hash !in messages && hash !in processed {
            ghost var secret, secrets, keys := DealOwnPart(hash, request, position, random, relays);
          }
        case PartArrived(msg, signed) =>
          if Fresh(Now(), msg) {
            var complaints := HandlePart(msg, signed);
          }
        case DisclosureArrived(d, signed) =>
          var badDisclosure, badOriginal := HandleDisclosure(d, signed);
        case WithdrawalArrived(request, index, masked, recipientKey, accepted) =>
          var complain := HandleWithdrawal(request, index, masked, recipientKey, accepted);
        case BackupArrived(partHash, position, masked, recipientKey, accepted) =>
          var complain; ghost var key;
          complain, key := HandleBackupWithdrawal(partHash, position, masked, recipientKey, accepted);
      }
    }

    /** Every run takes the state through the specified steps. After it every stored key still opens
        its point, and every mismatch logged, one for each time a branch that reports one was taken,
        has one of its causes. */
    method Run(events: seq<Event>) returns (ghost trace: seq<State>)
      requires Valid()
      requires forall e :: e in events ==> WellFormed(e, perDeposit, params)
      modifies this
      ensures Valid() && KeysOpen(keydata, params.order) && AllExplained(log, requests, messages, perDeposit, params)
      ensures forall h :: PartMismatch(h) in log ==>
        h in messages && (!ValidPart(messages[h].secret, params) || Infinity in messages[h].secret.pointValues)
      ensures forall h, parts :: AddressMismatch(h, parts) in log ==>
        |parts| < perDeposit && h in requests && parts <= requests[h].parts
      ensures IsTrace(trace, events, perDeposit, params) && trace[0] == old(Now()) && trace[|events|] == Now()
    {
      hide GoodRequests, GoodRequest, OffsetsStored, PartsValid, Follows, WellFormed, Kept;
      StateKept();
      trace := [Now()];
      for i := 0 to |events|
        invariant Valid() && |trace| == i + 1 && trace[0] == old(Now()) && trace[i] == Now()
        invariant forall j :: 0 <= j <= i ==> Kept(trace[j], params)
        invariant forall j :: 0 <= j < i ==> Follows(trace[j], events[j], trace[j + 1], perDeposit, params)
      {
        Handle(events[i]);
        StateKept();
        trace := trace + [Now()];
      }
      forall j | 0 <= j < |events|
        ensures StepAt(trace, events, j, perDeposit, params)
      {
        assert Follows(trace[j], events[j], trace[j + 1], perDeposit, params);
      }
    }
  }
}
