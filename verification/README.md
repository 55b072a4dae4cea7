# Teleport in Dafny

A model of the arithmetic, protocol and storage core of Teleport, a peer-to-peer currency node, with
proofs about it. The files follow the program:

* `Modular`, `Interpolation`, `Group`, `Polynomial`, `SecretSharing`: the polynomials, Lagrange
  coefficients and key sharing of `src/crypto`, over any prime group order.
* `Bits`, `DepositSecret`, `DepositRequests`, `DepositSteps`, `DepositEffects`, `DepositHandler`: how deposit
  address parts are dealt, checked, disclosed, complained about, withdrawn and rebuilt (`src/deposit`), up to an
  invariant of the key store and of the log over every run of the handlers.
* `BitChain`, `SpentChain`: which credits are spent, and the reorganisation from one chain tip to
  another (`src/credits/creditutil.cpp`).
* `HashTree`, `OrderedTree`, `CreditBatch`: Merkle trees with cached hashes and the branches that prove
  a credit belongs to a batch.
* `Base58`, `Quotients`, `Limbs`, `Division`, `Uint256`: base conversion in buffers of bounded size, and
  fixed-width integers of any number of limbs.
* `ShortHash`, `Signature`: compressed hash lists and their recovery, and transaction signatures.
* `Serialize`, `BufferedFile`, `PageLocks`: integer encodings, the rewindable ring buffer and the page
  lock counter of `src/base`.

Objects that the program changes in place are classes whose methods are proved against functions on
values; calculations are functions. A point of the curve is its discrete logarithm modulo the group
order, so point arithmetic is arithmetic of residues. Hash functions are parameters. Random numbers,
the answers of the file system and the outcome of signature checks are inputs.

Check everything with `dafny verify dfyconfig.toml`.

## Where the code does less than it promises

* A complaint about a share can be refuted by a negative number when the mask equals the shared secret,
  because the exclusive-or loop does not run for a negative second operand
  (`DepositSecret.RefutableUselessMask`). For a negative mask no refutation is ever valid, although the
  check passes when the shared secret opens the point (`DepositSecret.ComplaintDecidedExactly`).
* An honest dealer is convicted by the share plus the group order, which opens the same point
  (`DepositSecret.ShareAndOrderConvicts`); complaints are not checked to carry a reduced share, which
  would prevent it (`DepositSecret.ReducedShareDoesNotConvict`).
* Parts are stored before they are validated, and a backup withdrawal with which enough shares of a stored
  part are there ends in the wrong-key branch exactly when the public values of the first three non-zero
  ones do not interpolate to its public key, or when fewer are non-zero and its public key is not infinity
  (`DepositSteps.BackupLogsExactly`, `DepositSteps.RunLogsExactly`). That happens to a
  rejected part whose public key was exchanged (`DepositSteps.AlteredPartIsLogged`), not to every rejected
  part (`DepositRequests.RejectedPartCanFit`), and to valid parts only with infinity among their public
  values (`DepositRequests.MismatchExplained`).
* A withdrawn key does not arrive when it is the negative of the shared secret it is masked with
  (`DepositRequests.WithdrawalArrives`).
* Dividing a number with its top bit set by one never ends (`Division.TerminatesExactly`).
* Asking for a position after a late addition makes a batch keep its old root
  (`CreditBatch.RootAfterLateAddition`).
* The leaf hash of four bytes of data or more does not depend on the position it is meant to include
  (`OrderedTree.LeafIgnoresPosition`).
* The ring buffer guarantees rewinding relative to what has been read from the file, not to the reading
  position (`BufferedFile.RewindExactly`), and a position next to 2^64 can leave the window
  (`BufferedFile.StaysInWindow`).
* `GetFork` gives 0 instead of the common ancestor for two different tips of the same height
  (`SpentChain.ForkMissedExactly`, `SpentChain.SiblingsMissed`); reorganisation is correct all the same.
* Locking a range that ends on the last page of the address space never ends
  (`PageLocks.PassableExactly`), and a range that runs past it is not locked (`PageLocks.WrappedTouches`).
* Two elements of an ordered tree whose hashes collide get one place (`OrderedTree.RanksOf`).
* The documentation of variable-length integers shows for 16511 and 65535 the encodings of two other
  numbers (`Serialize.DocumentedEncodings`); the code is followed.

## Model

| member | source | states |
|---|---|---|
| Modular.TruncMod | src/crypto/bignum.h:677-684 | the remainder keeps the sign of the dividend: congruent to it, between -m and m, never of the opposite sign |
| Modular.InverseCorrect | src/crypto/bignum.h:512-518 | modulo a prime, a number not divisible by it times its inverse is congruent to 1 |
| Interpolation.Interpolate | src/crypto/polynomial.cpp:154-186 | for every prime, every set of distinct points and every polynomial with at most that many coefficients, the Lagrange-weighted sum of its values is its constant term |
| Interpolation.WeightsSumToOne | src/crypto/polynomial.cpp:154-186 | the Lagrange weights at zero of any distinct points sum to 1 (by Neville's recurrence) |
| Polynomial.BigNumPolynomial.Evaluate | src/crypto/polynomial.cpp:74-91 | the loop with running power returns the value of the polynomial modulo p, in (-p, p), non-negative on non-negative input |
| Polynomial.BigNumPolynomial.MultiplyPower | src/crypto/polynomial.cpp:93-101 | the coefficients move up by the power, zeros below |
| Polynomial.BigNumPolynomial.AddBigNumPolynomial | src/crypto/polynomial.cpp:112-126 | addition modulo p that never grows the receiver: longer arguments are cut off |
| Polynomial.CoeffOfProduct | src/crypto/polynomial.cpp:129-144 | coefficient i of the true product is the sum the multiplication loop adds up |
| Polynomial.EvalMul | src/crypto/polynomial.cpp:129-144 | the product the loop is measured against evaluates to the product of the values |
| Polynomial.MultiplyInto | src/crypto/polynomial.cpp:129-144 | every coefficient of the result buffer is that of the true product modulo p; the product is truncated to the size of the buffer and nothing else is lost |
| Polynomial.Swap | src/crypto/polynomial.cpp:147-152 | exchanges the two coefficient vectors |
| Polynomial.LagrangePoly | src/crypto/polynomial.cpp:154-186 | for any number of points and despite two buffers of sizes 1 and 2 being swapped every round, the constant term is the true Lagrange coefficient modulo p |
| SecretSharing.PositiveIntegers | src/crypto/polynomial.cpp:17-33 | the points 1..n, empty for n = 0 |
| SecretSharing.GenerateKeyWithSecretParts | src/crypto/teleportcrypto.cpp:56-95 | the shares are the values of the dealt polynomial at 1..n, the private key its constant term, the public key the matching point |
| SecretSharing.PublicsFromPrivates | src/crypto/teleportcrypto.cpp:43-52 | the commitments are the multiples of the generator by the secrets |
| SecretSharing.Reconstruct | src/crypto/teleportcrypto.cpp:145-171 | any K shares at distinct points determine the constant term |
| SecretSharing.LagrangeCoefficient | src/crypto/teleportcrypto.cpp:145-171 | evaluating the truncated Lagrange polynomial at zero gives the true Lagrange weight |
| SecretSharing.GeneratePrivateKeyFromK | src/crypto/teleportcrypto.cpp:145-171 | the result is the weighted sum of the first K shares modulo p with its public key; too few shares leave the key alone and give the multiple of -1 |
| SecretSharing.GeneratePrivateKeyFromN | src/crypto/teleportcrypto.cpp:98-142 | succeeds exactly when at least K non-zero shares match their commitments, lists exactly the non-zero shares that do not, returns the number that the first K matching shares weigh up to, and whenever the commitments are to a polynomial of size K the key is its constant term, whichever shares are present |
| SecretSharing.Verify | src/crypto/teleportcrypto.cpp:98-142 | keeps exactly the non-zero shares that match their commitment, with their points |
| SecretSharing.AnyShares | src/crypto/teleportcrypto.cpp:98-142 | any K or more matching shares, in any selection, weigh up to the constant term |
| SecretSharing.FewSharesRevealNothing | src/crypto/teleportcrypto.cpp:56-95 | the other half of the threshold: for a prime p, any values at any K-1 distinct points that are not multiples of p, and any key, some polynomial with K coefficients takes those values and has that constant term |
| SecretSharing.OnlyZeroVanishes | src/crypto/teleportcrypto.cpp:56-95 | for a prime p, a polynomial with no more coefficients than distinct roots modulo p is zero modulo p |
| SecretSharing.SharesAndKeyDetermine | src/crypto/teleportcrypto.cpp:56-95 | and only one: two polynomials with K coefficients and the same values at K-1 distinct non-zero points and the same key are congruent coefficient by coefficient, so every key is equally likely |
| SecretSharing.GeneratePublicKeyFromK | src/crypto/teleportcrypto.cpp:207-230 | interpolation in the exponent: the point of the weighted sum of the committed values |
| SecretSharing.ConfirmPublicKey | src/crypto/teleportcrypto.cpp:181-204 | accepts exactly when the number of values is right and the first K interpolate to the public key |
| Bits.XorBigNum | src/crypto/bignum.h:701-720 | the bit-flipping loop computes the exclusive-or of the magnitudes with the sign of the first operand, and returns it unchanged when the second is not positive |
| Bits.BigXorUndo | src/crypto/bignum.h:701-720 | masking twice with the same non-negative number gives the number back, from either side |
| Bits.OrBit | src/crypto/hashtrees.h:45-58 | a digit of the disjunction is set if and only if either number has it |
| Bits.AndBit | src/crypto/uint256.h:104-109 | a digit of the conjunction is set if and only if both numbers have it |
| DepositSecret.EvaluatePoints | src/crypto/polynomial.cpp:196-209 | evaluation in the exponent is the point of the value of the committed polynomial |
| DepositSecret.ValidateKeys | src/deposit/deposit_secret.cpp:109-140 | Feldman check: accepts exactly when every point value is the evaluation of the coefficient points; the Lagrange confirmation that follows can no longer fail |
| DepositSecret.ConfirmationFollows | src/deposit/deposit_secret.cpp:109-140 | whenever the N evaluations agree, interpolating the first K values in the exponent gives the public key |
| DepositSecret.Validate | src/deposit/deposit_secret.cpp:88-107 | accepts exactly the consistent parts with the right sizes and relay list hash |
| DepositSecret.DealPart | src/deposit/deposit_secret.cpp:14-48 | the part publishes the polynomial with the given coefficients, its shares are the reduced values of that polynomial, its key is the first coefficient; every share is masked with the hash of the share times the key of its relay times the generator; the part is accepted by Validate, and the store is the old one with its keys, each opening its point |
| DepositSecret.MaskIs | src/deposit/deposit_secret.cpp:44-45 | for all keys a and b, the mask between a and the point of b is the hash of the point of a times b |
| DepositSecret.HonestPartIsConsistent | src/deposit/deposit_secret.cpp:14-48 | commitments made from the dealt coefficients and shares pass the Feldman check |
| DepositSecret.ReceivedFacts | src/deposit/deposit_secret.cpp:142-170 | receiving shares keeps every stored key opening its point, forgets no key, changes only the public values of the part, and reports exactly the shares that do not open |
| DepositSecret.ReceivedStores | src/deposit/deposit_secret.cpp:142-170 | a share whose relay key the node holds, and no earlier share replaces, is stored if it opens and reported if and only if it does not |
| DepositSecret.ReceivedLeaves | src/deposit/deposit_secret.cpp:142-170 | a public value none of whose shares opens keeps the key it had, or none |
| DepositSecret.ValidateAndStoreMySecrets | src/deposit/deposit_secret.cpp:142-170 | the loop is the share-by-share reception; it succeeds exactly when nothing is reported |
| DepositSecret.HonestPartIsReceived | src/deposit/deposit_secret.cpp:142-170 | an honest part gets no complaint and every relay that holds its key stores its share |
| DepositSecret.Exchange | src/deposit/deposit_secret.cpp:142-170 | both ends of the exchange derive the same mask |
| DepositSecret.ShareOpensExactly | src/deposit/deposit_secret.cpp:153-163 | unmasking takes the hash of the point of relay key times share off the mask, and the check passes if and only if the result is congruent to the share |
| DepositSecret.RefutationExactly | src/deposit/deposit_messages.h:265-280 | a refutation is valid if and only if the secret opens the public value and the published number is the secret masked with the hash of the point of secret times relay key |
| DepositSecret.ComplaintDecided | src/deposit/deposit_messages.h:265-280 | for every mask: some non-negative secret makes the refutation valid if and only if the mask is not negative and the relay's decryption check passes, that secret is the decrypted one, and a negative mask is never refuted |
| DepositSecret.ComplaintDecidedExactly | src/deposit/disclosure_messages.h:151-166 | over all integers as masks and secrets: a refutation exists exactly when the check passes, if and only if a non-negative mask differs from the shared secret or the point is infinity, and a negative mask comes with a shared secret that does not open the point |
| DepositSecret.RefutableUselessMask | src/deposit/deposit_messages.h:265-280 | for every group, hash, key and every point other than infinity: masked with the shared secret itself, the check fails and yet a negative secret refutes the complaint |
| DepositSecret.Disclose | src/deposit/deposit_secret.cpp:204-230 | every disclosed share is masked for the relay at its position, with the hash of the point of share times relay key |
| DepositSecret.ValidateAndStoreDisclosed | src/deposit/deposit_secret.cpp:266-307 | stores the shares that open, reports the ones that do not, and convicts the original exactly at the shares that open but were masked differently; the result is true in every case |
| DepositSecret.DisclosureConvictsExactly | src/deposit/deposit_secret.cpp:266-307 | a relay that discloses a non-negative number opening the public value is convicted with exactly that number, if and only if it is not the share it dealt |
| DepositSecret.ValidatePurportedlyBadSecret | src/deposit/deposit_secret.cpp:309-324 | a share is proof against the dealer exactly when it opens the point and the original number is not the share masked with the hash of the point of share times relay key |
| DepositSecret.BadOriginalExactly | src/deposit/deposit_secret.cpp:309-324 | the comparison with the original mask in terms of the key of the relay |
| DepositSecret.ConvictsHonestDealerExactly | src/deposit/deposit_secret.cpp:309-324 | for every integer that opens the point of an honestly masked share: it convicts the dealer if and only if it is not the share itself (nor, when the share equals the shared secret, the negative of the share) |
| DepositSecret.ShareAndOrderConvicts | src/deposit/disclosure_messages.h:102-118 | the share plus the group order opens the point and convicts every honest dealer |
| DepositSecret.ReducedShareDoesNotConvict | src/deposit/disclosure_messages.h:102-118 | under the guard that is missing, 0 <= share < order, no opening convicts an honest dealer, and from the order upwards every opening does |
| DepositRequests.StoredSharesMatch | src/deposit/withdraw.cpp:437-467 | under the key-store invariant the stored shares that are not zero are exactly the ones that match, and none cheats |
| DepositRequests.EnoughExactly | src/deposit/withdraw.cpp:416-435 | recovery is tried exactly when at least three positions of the part have a stored key |
| DepositRequests.RecoverPartKey | src/deposit/withdraw.cpp:437-467 | for every part with the values read, the point of the recovered number is that of what the stored shares weigh up to, and infinity when too few match |
| DepositRequests.ValidPartRecovers | src/deposit/withdraw.cpp:437-467 | the recovered key opens a valid part if and only if enough non-zero shares are stored or the part is the point at infinity |
| DepositRequests.MismatchExplained | src/deposit/withdraw.cpp:416-467 | with enough shares stored, the wrong-key branch is taken for a valid part only if one of its public values is the point at infinity |
| DepositRequests.RecoversExactly | src/deposit/withdraw.cpp:437-467 | for every stored part, valid or not: the stored shares recover its key if and only if the public values of the first three stored shares interpolate to its public key (or too few are stored and the public key is infinity) |
| DepositRequests.AlteredPartMismatches | src/deposit/withdraw.cpp:437-467 | a valid part whose public key alone is exchanged is no longer valid, and its stored shares do not fit it |
| DepositRequests.RejectedPartCanFit | src/deposit/withdraw.cpp:437-467 | a valid part with another relay list hash is no longer valid, and its stored shares fit it all the same |
| DepositSteps.OwnPartRecorded | src/deposit/deposits.cpp:180-224 | an honestly dealt part that comes back at a free position is recorded in its request with its key stored |
| DepositSteps.DealtOnce | src/deposit/deposit_secret.cpp:14-48 | coefficients, relays and store determine the part, the shares and the new store |
| DepositSteps.BackupLogsExactly | src/deposit/withdraw.cpp:365-467 | a backup withdrawal of any stored part, valid or not, takes the wrong-key branch if and only if its share opens, enough shares are stored and they do not fit the part; if they fit, the key of the part is stored |
| DepositSteps.RunLogsExactly | src/deposit/withdraw.cpp:365-467 | over every run, a part is logged with a wrong key if and only if some backup withdrawal of it was tried with shares that did not fit |
| DepositSteps.AllImport | src/deposit/withdraw.cpp:469-536 | looking for all the secrets of a fixed address imports it if and only if the keys of all its parts are stored; then the address and the address with its offset have keys that open them, and nothing is logged |
| DepositSteps.LastWithdrawalImports | src/deposit/withdraw.cpp:276-316 | a withdrawal that opens a part of a fixed address completes the import if and only if the keys of all the other parts are stored, and the address can then be spent from |
| DepositSteps.LastShareImports | src/deposit/withdraw.cpp:365-467 | when a relay is gone: a backup withdrawal that brings the third non-zero share of a valid part does the same |
| DepositSteps.AlteredPartIsLogged | src/deposit/withdraw.cpp:416-467 | a part rejected because its public key was exchanged stays in the store, and a backup withdrawal of its shares logs the wrong-key message |
| DepositEffects.RequestEffect | src/deposit/deposits.cpp:129-152 | after a request is sent it is marked as own, the point of its offset is recorded, the keys of depositor and offset are stored under their points, and nothing else has changed |
| DepositEffects.RejectedPartEffect | src/deposit/deposits.cpp:180-192 | a repeated, badly signed or invalid part is stored and nothing else has changed |
| DepositEffects.SecondPartEffect | src/deposit/deposits.cpp:193-203 | a second part at a position cancels the request and nothing else has changed |
| DepositEffects.FirstPartEffect | src/deposit/deposits.cpp:180-243 | after the first valid part at a position, every share whose relay key the node holds is stored if it opens, and if one does not, no request has changed; no key outside the public values has changed |
| DepositEffects.RecordedPartEffect | src/deposit/deposits.cpp:205-297 | if all its shares open, the part has joined the request at its position; the last part fixes the address as the sum of the public keys and files the offset of an own request under it |
| DepositEffects.DealtPartEffect | src/deposit/deposit_messages.h:131-142 | a part dealt from given coefficients is stored with their multiples, the multiples of its shares and their masks, and at a free position has joined its request with its key stored |
| DepositEffects.DisclosureEffect | src/deposit/disclosure.cpp:142-241 | after the first disclosure of a part, every share whose relay key the node holds is stored if it opens, a public value none of whose shares opens has what it had, and nothing else has changed but the record of the disclosure |
| DepositEffects.DisclosedShareArrives | src/deposit/disclosure.cpp:142-241 | a share that its holder masks for a relay whose key this node holds is stored |
| DepositEffects.OtherDisclosureEffect | src/deposit/disclosure.cpp:142-175 | a second, different disclosure cancels the request of the part; an unsigned one, one for another relay list, one of an unknown part and the same one again change nothing |
| DepositEffects.WithdrawalEffect | src/deposit/withdraw.cpp:276-316 | a withdrawal changes nothing unless the unmasked number is congruent to the key of the part; then the part has a key, and only the part, the address and the address with its offset can have another one |
| DepositEffects.BackupEffect | src/deposit/withdraw.cpp:365-414 | a backup withdrawal stores the share if and only if the unmasked number is congruent to it, and changes nothing otherwise |
| DepositHandler.DepositHandler.constructor | src/deposit/deposits.cpp:129-152 | an empty handler satisfies the invariant |
| DepositHandler.DepositHandler.SendRequest | src/deposit/deposits.cpp:129-152 | the request is marked as own with its offset point, the offset key stored under its point, nothing else changes; invariant kept |
| DepositHandler.DepositHandler.StoreMessage | src/teleportnode/message_handler.h:154-179 | every part goes into the store before anything is checked; invariant kept |
| DepositHandler.DepositHandler.HandlePart | src/deposit/deposits.cpp:180-224 | a part that fails validation is stored and changes nothing else; a second part at a position cancels the request; otherwise the shares are received, and without complaints the part joins the request, whose address becomes the sum of its parts when the last position arrives; the whole new state, the complaints and the invariant |
| DepositHandler.DepositHandler.StoreShares | src/deposit/deposits.cpp:226-243 | receives the shares of a part, returning the positions to complain about |
| DepositHandler.DepositHandler.CancelRequest | src/deposit/deposits.cpp:480-484 | marks the request cancelled and keeps the invariant |
| DepositHandler.DepositHandler.HandleParts | src/deposit/deposits.cpp:245-297 | the address is the sum of the public keys of the parts, with the offset recorded for own requests |
| DepositRequests.SumsAdd | src/deposit/deposits.cpp:245-297 | the sum of one part is its public key, and the sum of two lists is the sum of their sums |
| DepositHandler.DepositHandler.HandleDisclosure | src/deposit/disclosure.cpp:142-175 | an unsigned disclosure, one with another relay list hash or of an unknown part changes and reports nothing; a second, different disclosure of a part cancels its request; the first is recorded and its shares are received, returning exactly the bad ones and the convictions; the whole new state |
| DepositHandler.DepositHandler.CheckAndSaveSecret | src/deposit/withdrawal_messages.h:160-183 | a withdrawn secret, which is the mask without the hash of the point of recipient key times part key, is stored exactly when it opens its point; nothing else changes |
| DepositHandler.DepositHandler.RecoverSecretPart | src/deposit/withdraw.cpp:437-467 | for every stored part, validated or not: stores the key when it opens the part and logs the part otherwise, and does nothing else |
| DepositHandler.DepositHandler.CheckForAllSecrets | src/deposit/withdraw.cpp:469-536 | with all parts stored, the summed keys open the address; the wrong-key branch is taken and logged exactly when the address was never fixed and the sum is not infinity |
| DepositHandler.DepositHandler.SumOfKeys | src/deposit/withdraw.cpp:469-494 | the keys of the parts sum to a key of the sum of their public keys |
| DepositHandler.DepositHandler.ImportKey | src/deposit/withdraw.cpp:500-536 | the imported wallet key opens the address, plus its offset if one is recorded |
| DepositHandler.DepositHandler.CheckForEnoughSecrets | src/deposit/withdraw.cpp:416-435 | for every stored part, tries to recover exactly when enough shares are stored, with the key those shares give, and then checks the request |
| DepositHandler.DepositHandler.HandleWithdrawal | src/deposit/withdraw.cpp:276-316 | complains exactly when the secret does not open the part; the whole new state, in which nothing is logged |
| DepositHandler.DepositHandler.HandleBackupWithdrawal | src/deposit/withdraw.cpp:365-414 | for every stored part, validated or not: complains exactly when the share does not open its point value; the whole new state with the key the stored shares give |
| DepositHandler.DepositHandler.DealOwnPart | src/deposit/deposit_messages.h:131-142 | the part dealt from the given coefficients joins the relay's own request with its key stored; the whole new state |
| DepositHandler.DepositHandler.Handle | src/deposit/deposits.cpp:180-224 | every event takes the state to the one its handler describes and keeps the invariant |
| DepositHandler.DepositHandler.StateReady | src/deposit/withdraw.cpp:276-316 | in every state the handler can be in, a request with a fixed address that is not imported meets the assumption under which the import is decided |
| DepositHandler.DepositHandler.Run | src/deposit/withdraw.cpp:416-519 | over every run of requests, parts, disclosures, withdrawals and backup withdrawals: the states follow the events one by one, in every state each stored private key opens the point it is stored under, and every logged wrong key has its cause, which is a part that is not valid or has infinity among its public values, or an address with parts still missing |
| DepositRequests.WithdrawalArrives | src/deposit/withdrawal_messages.h:141-146 | for every key: what SetSecret masks for a recipient is what the recipient decrypts, if and only if the key is not the negative of the shared secret |
| BitChain.BitChain.Add | src/crypto/hashtrees.h:570-575 | appends one clear bit, at every length modulo 8 |
| BitChain.BitChain.Set | src/crypto/hashtrees.h:577-582 | sets exactly one bit, and none past the end |
| BitChain.BitChain.Clear | src/crypto/hashtrees.h:584-589 | clears exactly one bit, and none past the end |
| BitChain.BitChain.Get | src/crypto/hashtrees.h:591-596 | reads the bit, false past the end |
| BitChain.BitChain.SetLength | src/crypto/hashtrees.h:611-624 | keeps the common bits, clears the rest, also when shrinking inside a byte and growing again |
| BitChain.ContentsDetermineBytes | src/crypto/hashtrees.h:598-601 | chains with equal length and bits have equal bytes, so comparing bytes compares contents |
| SpentChain.GetFork | src/credits/creditutil.cpp:154-189 | ends on every acyclic parent map; the result is the fork of the two chains: the nearest common ancestor when the tips are equal or at different distances from it, and 0 otherwise; the steps are counted when the first tip is farther |
| SpentChain.ChainFollowsParents | src/credits/creditutil.cpp:93-98 | the chain of a tip starts at the tip, each hash is followed by the parent on its record, and it ends where there is no record or no parent |
| SpentChain.ForkMissedExactly | src/credits/creditutil.cpp:154-189 | for two tips with a common ancestor in any block tree, the fork is 0 if and only if the tips are different and equally high, and otherwise the nearest common ancestor |
| SpentChain.SiblingsMissed | src/credits/creditutil.cpp:154-189 | two blocks on the same parent, at any height of any block tree, get 0 and not the parent |
| SpentChain.ForkUnique | src/credits/creditutil.cpp:154-189 | the fork is determined by the two chains |
| SpentChain.ForkOnBoth | src/credits/creditutil.cpp:154-189 | a fork other than 0 lies on both chains |
| SpentChain.CancelCommon | src/credits/creditutil.cpp:243-252 | the pairwise cancelling loop is multiset difference in both directions |
| SpentChain.GetSpentChainDifferences | src/credits/creditutil.cpp:191-257 | succeeds exactly within the look-back limit and returns the spends of the target branch minus those of the start branch, and the reverse |
| SpentChain.CollectedIs | src/credits/creditutil.cpp:142-146 | what a walk collects: i is collected if and only if the record of some hash walked over spends i; one hash gives the list on its record |
| SpentChain.DifferencesMean | src/credits/creditutil.cpp:191-257 | on a tree without double spends, i is to be set if and only if a record of the target chain spends it and none of the start chain does, and to be cleared in the reverse case |
| SpentChain.CommonTrunk | src/credits/creditutil.cpp:191-257 | below the fork both chains are the same |
| SpentChain.ReplayMeaning | src/credits/creditutil.cpp:352-376 | on a tree without double spends, replaying from genesis gives the length on the record of the tip, and bit i is set exactly when the record of some hash of the chain spends i |
| SpentChain.GoodTreeGrows | src/credits/creditutil.cpp:352-376 | a tree without double spends stays one when a block is added on top whose spends are below its length, distinct and not spent in the chain before it |
| SpentChain.ChangeSpentChain | src/credits/creditutil.cpp:352-376 | reorganisation: succeeds exactly within the look-back limit for a target of non-zero length; then the bit chain has the length on the record of the target, and bit i is set if and only if the record of some hash of the target chain spends i; otherwise the chain is unchanged |
| SpentChain.Reorganised | src/credits/creditutil.cpp:352-376 | resizing, setting and clearing the differences of the two branches is the replay of the target |
| HashTree.CombineIsSymmetric | src/crypto/hashtrees.h:45-58 | combining does not depend on the order of its arguments |
| HashTree.CombineExactly | src/crypto/hashtrees.h:45-58 | with a hash that tells pairs apart, two pairs combine alike if and only if they differ in the same digits and their own hashes have the same digits between them |
| HashTree.BranchReachesRoot | src/crypto/hashtrees.h:262-292 | for every tree size and leaf, folding the leaf with its siblings gives the root |
| HashTree.FoldTellsApart | src/crypto/hashtrees.h:841-848 | with a hash that tells pairs apart, a branch takes two leaves to the same root if and only if they are equal |
| HashTree.HashIgnoresBeyond | src/crypto/hashtrees.h:221-259 | asked for a shorter length, the hash of a range does not depend on any leaf behind that length |
| HashTree.RootIsTree | src/crypto/hashtrees.h:130-147 | the root of a range of leaves is the tree over the list: the first half, rounded down, combined with the rest |
| HashTree.RootBindsLeaf | src/crypto/hashtrees.h:221-259 | with a hash that tells pairs apart, replacing a leaf of any tree keeps the root if and only if it is replaced by itself |
| HashTree.HashNode.constructor | src/crypto/hashtrees.h:130-147 | builds the node over a range of leaves with nothing cached |
| HashTree.HashNode.Hash | src/crypto/hashtrees.h:221-259 | returns the hash of the leaves up to the given length with and without cached child hashes, and keeps the caches true |
| HashTree.HashNode.Branch | src/crypto/hashtrees.h:262-292 | on a hashed tree returns exactly the siblings of the position, using the cached hashes |
| OrderedTree.LeafIgnoresPosition | src/crypto/hashtrees.h:718-727 | the hashed bytes of two positions are equal if and only if the positions agree in the bytes that the data do not overwrite, of which there are none for four bytes of data or more |
| OrderedTree.LeafHashIs | src/crypto/hashtrees.h:718-727 | the leaf hash of four bytes of data or more is the hash of the data followed by four zero bytes |
| OrderedTree.PositionBytesValue | src/crypto/hashtrees.h:718-727 | the four position bytes, lowest first, are the position modulo 2^32 |
| OrderedTree.OrderIndependent | src/crypto/hashtrees.h:784-813 | without hash collisions the order of leaves depends only on which data were added |
| OrderedTree.AssignPositions | src/crypto/hashtrees.h:784-813 | the elements end up in increasing order of the hashes of their data, at consecutive positions from the offset, with none lost |
| OrderedTree.RanksOf | src/crypto/hashtrees.h:797-802 | every element gets the place of the first sorted hash equal to its own; two get the same place, so that one is lost, exactly when their hashes collide |
| OrderedTree.SlotIsExact | src/crypto/hashtrees.h:825-831 | a position taken through 32 bits finds its own element exactly when it is below 2^32 |
| OrderedTree.OrderedHashTree.AddElement | src/crypto/hashtrees.h:760-774 | adds any element, unplaced, and keeps a tree already built |
| OrderedTree.OrderedHashTree.BuildTree | src/crypto/hashtrees.h:776-782 | sorts, places and builds a tree over all the elements |
| OrderedTree.OrderedHashTree.GetRoot | src/crypto/hashtrees.h:833-838 | the root of the tree in use, which is that of the sorted data unless the tree is stale |
| OrderedTree.OrderedHashTree.GetBranch | src/crypto/hashtrees.h:825-831 | the siblings of the position in the tree in use |
| OrderedTree.OrderedHashTree.GetPosition | src/crypto/hashtrees.h:815-823 | the place of the data or -1; makes a tree stale exactly when it was built before the last addition |
| CreditBatch.EvaluateBranchWithHash | src/crypto/hashtrees.h:841-848 | folds all but the last hash of the branch |
| CreditBatch.VerifyBranch | src/crypto/hashtrees.h:850-861 | accepts exactly the branches that fold to the root and end with it |
| CreditBatch.BranchBindsLeaf | src/crypto/hashtrees.h:850-861 | with a hash that tells pairs apart, a branch that proves one element proves another for the same root if and only if their leaf hashes are equal |
| CreditBatch.BranchBindsElement | src/crypto/hashtrees.h:850-861 | if the hash also tells byte strings apart, a branch refuses every element of four bytes or more but the one it proves |
| CreditBatch.RootIgnoresOrder | src/credits/CreditBatch.cpp:92-97 | the root depends on the previous hash and the set of credits, not on the order of insertion |
| CreditBatch.RootBindsPrevious | src/credits/CreditBatch.cpp:92-97 | with a hash that tells pairs apart, the root of the same credits changes with the previous credit hash |
| CreditBatch.CompleteBranchProves | src/credits/CreditBatch.cpp:114-128 | siblings, previous hash and root form a branch that verifies, for every leaf of every tree |
| CreditBatch.PositionIsNotBound | src/crypto/hashtrees.h:850-861 | a branch verifies at one position if and only if it verifies at another that agrees in the bytes the data do not overwrite; for four bytes of data or more, at every other |
| CreditBatch.CreditBatch.Add | src/credits/CreditBatch.cpp:65-77 | appends any credit to the credits always and to the tree exactly when new |
| CreditBatch.CreditBatch.GetRoot | src/credits/CreditBatch.cpp:92-97 | the batch root of the credits added, unless the tree is stale |
| CreditBatch.CreditBatch.Position | src/credits/CreditBatch.cpp:99-102 | the place of the credit in the sorted order plus the offset as a signed 32-bit number, or -1 |
| CreditBatch.CreditBatch.GetCredit | src/credits/CreditBatch.cpp:104-107 | the credit at a position |
| CreditBatch.CreditBatch.Branch | src/credits/CreditBatch.cpp:114-128 | as long as nothing was added behind a tree already built, the branch of every member verifies against the batch root |
| CreditBatch.PositionThenCredit | src/credits/CreditBatch.cpp:99-107 | for every batch without colliding hashes: positions are consecutive from the offset, and the slot found through the signed and unsigned 32-bit conversions of a position is its own, with its credit, exactly when the position is below 2^32 |
| CreditBatch.RootAfterLateAddition | src/credits/CreditBatch.cpp:65-102 | adding behind a built tree and then asking for a position leaves the root of before the addition, although the credit has been added |
| CreditBatch.LateAddition | src/credits/CreditBatch.cpp:65-102 | two credits, the second added late: both are in the batch and both roots are that of the first alone |
| Base58.EncodeBound | src/base/base58.cpp:64 | 256^n <= 58^(138n/100+1) for every n |
| Base58.DecodeBound | src/base/base58.cpp:22 | 58^n <= 256^(733n/1000+1) for every n |
| Base58.MultiplyAdd | src/base/base58.cpp:66-76 | the in-place carry loop multiplies and adds exactly: the carry left is the part of the product beyond the buffer |
| Base58.Absorb | src/base/base58.cpp:30-36 | the assertion that no carry is left holds in every round of both directions, and the buffer stands for the digits read |
| Base58.ConvertBack | src/base/base58.cpp:11-88 | changing base and back restores every digit string with its leading zeros |
| Base58.AlphabetIs | src/base/base58.cpp:9 | the alphabet is the digits and letters without 0, I, O and l, in the order of their codes |
| Base58.TextIs | src/base/base58.cpp:56-88 | text and bytes stand for the same number, and the text starts with as many ones as the bytes start with zeros |
| Base58.TrimIs | src/base/base58.cpp:11-45 | trimming takes off both ends exactly the characters with code 32 or 9 to 13 |
| Base58.EncodeBase58 | src/base/base58.cpp:56-88 | one 1 for every leading zero byte, then the number in base 58 |
| Base58.DecodeBase58 | src/base/base58.cpp:11-54 | accepts exactly the texts that are over the alphabet once surrounding white space is removed, up to a NUL, and returns the bytes of that word |
| Base58.DecodeOfEncode | src/base/base58.cpp:11-88 | the encoding of every byte string is accepted and decodes to that string |
| Base58.EncodeOfDecode | src/base/base58.cpp:11-88 | the bytes of any accepted word encode to that word |
| Limbs.ShiftLeftValue | src/crypto/uint256.h:132-147 | the limbs of the shift are the number times 2^shift modulo 2^BITS, for any limb count and any shift |
| Limbs.ShiftRightValue | src/crypto/uint256.h:149-164 | the limbs of the shift are the quotient by 2^shift, for any limb count and any shift |
| Limbs.CompareAt | src/crypto/uint256.h:295-305 | the highest limb that differs decides the comparison of the numbers |
| Uint256.BaseUint.AddAssign | src/crypto/uint256.h:166-176 | the sum modulo 2^BITS, also when both operands are the same object |
| Uint256.BaseUint.Increment | src/crypto/uint256.h:260-267 | one more modulo 2^BITS |
| Uint256.BaseUint.Negate | src/crypto/uint256.h:68-75 | the negative modulo 2^BITS |
| Uint256.BaseUint.SubAssign | src/crypto/uint256.h:237-241 | the difference modulo 2^BITS |
| Uint256.BaseUint.Assign64 | src/crypto/uint256.h:88-95 | the value is the 64-bit number |
| Uint256.BaseUint.ShiftLeft | src/crypto/uint256.h:132-147 | the number times 2^shift modulo 2^BITS |
| Uint256.BaseUint.ShiftRight | src/crypto/uint256.h:149-164 | the quotient by 2^shift |
| Uint256.BaseUint.AndAssign | src/crypto/uint256.h:104-109 | limb-wise conjunction, also with itself |
| Uint256.BaseUint.MulAssign | src/crypto/uint256.h:215-235 | shift-and-add gives the product modulo 2^BITS |
| Uint256.BaseUint.DivAssign | src/crypto/uint256.h:178-213 | zero divisor throws and changes nothing; otherwise the floor quotient |
| Uint256.DivRound | src/crypto/uint256.h:191-210 | one pass of the loop on limbs is one round of the number model, with no wrap-around |
| Uint256.Less | src/crypto/uint256.h:295-305 | compares the numbers |
| Uint256.Greater | src/crypto/uint256.h:319-329 | compares the numbers |
| Uint256.GreaterOrEqual | src/crypto/uint256.h:369-379 | compares the numbers |
| Uint256.Equals64 | src/crypto/uint256.h:390-402 | equality with a 64-bit number |
| Division.StuckExactly | src/crypto/uint256.h:193-209 | a round finds no shift exactly when the divisor is 1 and the top bit of the dividend is set |
| Division.TerminatesExactly | src/crypto/uint256.h:191-210 | the loop ends if and only if the divisor is not 1 or the top bit is clear |
| Division.TopBitByOne | src/crypto/uint256.h:191-210 | 2^255 divided by 1 at 256 bits never ends |
| Division.StopsAtQuotient | src/crypto/uint256.h:191-211 | wherever the loop stops, it stops at the floor quotient and remainder |
| ShortHash.MultiXor | src/crypto/shorthash.h:134-142 | the xor of the chosen hashes, each modified by its position |
| ShortHash.ShortIsLow | src/crypto/shorthash.h:26-29 | the short hash is the low 32 bits |
| ShortHash.ModifiedSteps | src/crypto/shorthash.h:36-39 | at the front a hash counts as it is, and every place further on adds the same multiple of it, modulo 2^160 |
| ShortHash.XorAllBit | src/crypto/shorthash.h:22-34 | a digit of the disambiguator is set if and only if an odd number of the modified hashes have it |
| ShortHash.ThereIsACorrectMatch | src/crypto/shorthash.h:144-177 | sound and complete: finds a full choice with the recorded xor if and only if one extends the hypothesis |
| ShortHash.NumberOfCombinations | src/crypto/shorthash.h:179-197 | 0 when a slot is empty, otherwise the exact product below 2^64 and 2^64-1 from there on; never divides by zero |
| ShortHash.ProductSplits | src/crypto/shorthash.h:179-197 | one slot has as many combinations as candidates, and slots after slots multiply |
| ShortHash.HashData.StoreHash | src/credits/creditutil.cpp:603-611 | every candidate stays filed under its own short hash and none is lost |
| ShortHash.ShortHashList.GenerateShortHashes | src/crypto/shorthash.h:22-34 | short hashes and disambiguator describe the full list |
| ShortHash.ShortHashList.PossibleMatches | src/crypto/shorthash.h:41-49 | the stored candidates of every short hash |
| ShortHash.ShortHashList.UseMatch | src/crypto/shorthash.h:82-87 | the full hashes are the chosen candidates |
| ShortHash.ShortHashList.RecoverFullHashes | src/crypto/shorthash.h:51-80 | refuses long lists and empty slots, uses a known solution past the combination limit, and otherwise succeeds exactly when some combination has the recorded xor; the recovered list generates the same short form |
| ShortHash.ShortHashList.TryKnownSolution | src/crypto/shorthash.h:89-97 | takes the stored solution of the list if there is one |
| ShortHash.OriginalMatches | src/crypto/shorthash.h:51-80 | if every original hash is stored, the original list is one of the combinations |
| ShortHash.SenderIsDescribed | src/crypto/shorthash.h:22-80 | within the combination limit, a receiver who has stored every hash of the sender is on the successful path of the recovery, and whatever combination is found has the short form of the sender's list |
| Signature.SignatureVerifies | src/crypto/signature.h:60-86 | every signature verifies under the public key of its private key, with either sign of key and remainder |
| Signature.VerifiesExactly | src/crypto/signature.h:79-87 | a signature is accepted under the public key of x if and only if its exhibit is the digest of the point of signature plus exhibit times x |
| Signature.SignatureIsUnique | src/crypto/signature.h:79-87 | if the digest tells points apart, another signature with the same exhibit is accepted if and only if it is congruent to an accepted one |
| Signature.SignatureIs | src/crypto/signature.h:60-77 | the nonce is the digest of the point of the hash with the magnitude of the key, the exhibit the digest of the nonce point, and the signature reduced and congruent to the nonce minus key times exhibit |
| Signature.GetTransactionVerificationKey | src/credits/creditsign.h:90-103 | the sum of the input points, each times its iterated hash |
| Signature.KeyIsWeightedSum | src/credits/creditsign.h:90-125 | the verification key is the public key of the equally weighted sum of the private keys |
| Signature.IteratedFromHash | src/credits/creditsign.h:90-103 | iterating once more is iterating from the hash of the hash |
| Signature.InputWeight | src/credits/creditsign.h:90-125 | each input counts its key times the hash iterated once more than its index, modulo the order |
| Signature.SignTx | src/credits/creditsign.h:105-125 | signs with a number congruent to the weighted sum of the stored keys and stores it so that every stored key still opens its point |
| Signature.SignTransaction | src/credits/creditsign.h:127-133 | the signed transaction carries the unsigned one and that signature |
| Signature.VerifyTransactionSignature | src/credits/creditsign.h:135-146 | accepts if and only if the exhibit is the digest of the point of signature plus exhibit times the weighted sum of the keys behind the inputs, whatever keys open them |
| Signature.TransactionVerifiesExactly | src/credits/creditsign.h:135-146 | the same for the verification of a hash under the verification key |
| Signature.SignedTransactionVerifies | src/credits/creditsign.h:90-146 | for any number of inputs whose stored keys open their public keys, a signature made with any number congruent to the weighted sum of the stored keys is accepted under the verification key |
| Serialize.GetSizeOfVarInt | src/base/serialize.h:267-277 | the length of the encoding |
| Serialize.WriteVarInt | src/base/serialize.h:280-294 | writes the encoding for every unsigned width; the temporary array of ceil(bits/7) bytes is never overrun |
| Serialize.ReadVarInt | src/base/serialize.h:297-309 | the loop of the reader over bytes, failing at the end of the stream |
| Serialize.ValueOfEncode | src/base/serialize.h:244-265 | every number is the value of its encoding |
| Serialize.EncodeOfValue | src/base/serialize.h:244-265 | every terminated byte string is the encoding of its value: one encoding for each number and no redundancy |
| Serialize.ValueIsSum | src/base/serialize.h:244-251 | the documented sum: a byte with k bytes after it counts one more than its low seven bits times 128 to the k, and the last byte as it is |
| Serialize.DocumentedEncodings | src/base/serialize.h:260-265 | the table of the documentation, with the encodings of 16511 and 65535 as they are and the numbers that the two strings shown for them stand for |
| Serialize.ReadTerminated | src/base/serialize.h:297-309 | any terminated string reads as its value modulo 2^bits, leaving the rest |
| Serialize.ReadOfWrite | src/base/serialize.h:280-309 | reading what was written gives every number back |
| Serialize.WriteOfRead | src/base/serialize.h:280-309 | a terminated string is re-encoded to itself if and only if its value fits the type |
| Serialize.ReadFailsExactly | src/base/serialize.h:297-309 | reading fails exactly when no byte ends the number |
| Serialize.WriteCompactSize | src/base/serialize.h:165-203 | the length is the announced size |
| Serialize.CompactSizeForms | src/base/serialize.h:165-203 | the bytes written at the limits of the four forms |
| Serialize.CompactSizeExactly | src/base/serialize.h:206-242 | reading accepts exactly the canonical encodings of sizes up to MAX_SIZE, each as the size it encodes, and consumes nothing more |
| BufferedFile.BufferedFile.Fill | src/base/serialize.h:1342-1358 | for any short read the new cursor is the one the answer gives, the ring keeps the last bytes of the source, no byte of the rewind window is overwritten, and success means progress |
| BufferedFile.FilledIs | src/base/serialize.h:1342-1358 | a fill brings as much as fits before the end of the ring and before the rewind window, as the file has and as the file system gives |
| BufferedFile.BufferedFile.ReadBytes | src/base/serialize.h:1380-1400 | a successful read returns exactly the source bytes at the position; the two limit errors happen exactly on their 64-bit conditions and change nothing; a failed fill leaves the position behind the bytes copied; the whole new cursor |
| BufferedFile.AfterReadIs | src/base/serialize.h:1380-1400 | which outcome a read has: past the limit by the 64-bit sum, else too large for the buffer, else read, or failed because a fill found the end of the file or was given nothing |
| BufferedFile.SumsCompare | src/base/serialize.h:1380-1384 | the 64-bit comparison of size plus rewind distance with the buffer size is the true one if and only if the sum does not wrap to something that fits |
| BufferedFile.BufferedFile.SetPos | src/base/serialize.h:1408-1419 | the position becomes the one asked for, clamped to the rewind distance behind and to what was read ahead; succeeds exactly when it was not clamped; the window is left exactly when the 64-bit sum escapes |
| BufferedFile.BufferedFile.SetLimit | src/base/serialize.h:1436-1441 | refuses exactly the limits already passed |
| BufferedFile.StaysInWindow | src/base/serialize.h:1408-1419 | the new position is inside the window if and only if the 64-bit sum does not wrap below the source position before the rewind distance has been read |
| BufferedFile.EscapeExample | src/base/serialize.h:1408-1419 | a file of at least 50 bytes is opened, read and moved next to 2^64: the reading position then lies behind everything read |
| BufferedFile.RewindExactly | src/base/serialize.h:1318-1320 | stepping back k bytes is honoured if and only if the target is within the rewind distance of what was read from the source, not of the reading position as documented |
| BufferedFile.RewindExample | src/base/serialize.h:1318-1320 | a file is opened, one byte taken of eight read ahead, and the way back refused with a rewind distance of two |
| BufferedFile.Run | src/base/serialize.h:1342-1419 | over every run of reads, repositionings and limits with any short reads: the log starts where the file stood, each entry starts where the one before left the cursor, each outcome and each new cursor is the one its event gives, and each successful read returns the bytes of the file at its position; the run ends early exactly at the first repositioning that leaves the window |
| PageLocks.TouchesExactly | src/base/allocators.h:46-53 | for a range inside the address space, the pages the loop visits are exactly the pages the range has a byte in |
| PageLocks.WrappedTouches | src/base/allocators.h:50-53 | for a range that runs past 2^64, the loop visits at most the page of the base, and that only if the end comes round to it |
| PageLocks.Counted | src/base/allocators.h:46-66 | a page is counted if and only if some outstanding range touches it |
| PageLocks.LockedPageManager.constructor | src/base/allocators.h:31-37 | no page is locked |
| PageLocks.LockedPageManager.LockRange | src/base/allocators.h:46-66 | every page count stays the number of outstanding non-empty ranges touching the page, and the locked pages are those with a count; size 0 does nothing |
| PageLocks.LockedPageManager.UnlockRange | src/base/allocators.h:69-89 | the same for a matching unlock; the page is always found |
| PageLocks.LockedPageManager.GetLockedPageCount | src/base/allocators.h:92-96 | the number of locked pages, 0 once every range is released |
| PageLocks.Run | src/base/allocators.h:46-89 | after every matched run a page is locked exactly when an outstanding range touches it, and nothing is counted once all are released |
| PageLocks.LoopEndsExactly | src/base/allocators.h:53 | for any two pages, the 64-bit page counter passes the end page if and only if that is not the last page of the address space |
| PageLocks.PassableExactly | src/base/allocators.h:50-53 | the precondition of locking and unlocking holds exactly for the ranges whose loop ends |

## Left out

Parts of the program that are not modelled:

- OpenSSL, SHA-256, RIPEMD-160 and the internals of points and big numbers; negative zero of big numbers.
- Network, RPC, LevelDB, logging, the user interface, currencies, trade, mining and relay selection.
- Scheduled tasks, successions and the broadcasting of complaints; only what a complaint decides is modelled.
- Transfers of deposits and the import of address histories, which store data without validating it.
- Refutations of withdrawals, whose check does not look at the public part.
- Withdrawals to a recipient key other than the authorized key: sender and receiver then use different keys.
- The order of parts: withdrawals address them in order of arrival, as in the original, and that this is the order of their positions is not claimed.
- Collisions of message hashes: a hash stands for one message.
- The byte format of credits; a credit is a byte string.
- Adding to and clearing in a hash tree node by node, and elements wider than one leaf.
- The Base58Check checksum, the hexadecimal form of integers and the Python copies of Base58.
- Wrap-around of 32-bit counters in the page histogram and of the list lengths in loops over vectors.

Contracts that say less than one might expect:

- DepositHandler.DepositHandler.HandlePart: points of a message lie on the curve, as decoding ensures; the signature check is an input, and a signed part has a position below SECRETS_PER_DEPOSIT; the withdraw-request mask and the complaint timer are not modelled.
- DepositHandler.DepositHandler.HandleDisclosure: the final-disclosure bookkeeping is not modelled; the original reads past a vector when the part has fewer public values or masks than the disclosure has relays, which is modelled as no change.
- DepositHandler.DepositHandler.HandleBackupWithdrawal: the original reads past a vector when a stored part that was never validated has fewer than four public values; such a part is not recovered here.
- DepositHandler.DepositHandler.Run: messages reach the handlers one at a time, as under the node's lock.
- SecretSharing.GenerateKeyWithSecretParts: the random coefficients are an input.
- OrderedTree.AssignPositions: assumes that no two data have the same hash, without which two elements share a place and another place stays empty (OrderedTree.RanksOf).
- OrderedTree.OrderedHashTree.BuildTree: assumes the same, as do GetRoot, GetBranch and GetPosition, which place the elements; adding is not restricted.
- CreditBatch.CreditBatch.GetRoot: assumes the same of the credits, as do Position and Branch.
- CreditBatch.CreditBatch.Branch: assumes positions below 2^32, which the 32-bit parameter needs (OrderedTree.SlotIsExact).
- CreditBatch.CreditBatch.GetCredit: the position lies in the batch; outside it the original reads past a vector.
- SpentChain.GetFork: the parent map is given a rank that decreases along it, which is what acyclic means.
- Uint256.BaseUint.DivAssign: its precondition is the exact condition for the loop to end (Division.TerminatesExactly).
- Uint256.BaseUint.AddAssign: at least two limbs, because a 64-bit value is stored into the first two.
- ShortHash.ThereIsACorrectMatch: slots have fewer than 2^32 candidates, since the choice counter has 32 bits; RecoverFullHashes only calls it with at most 10000000.
- Signature.SignatureVerifies: the exhibit is a digest below 2^252 given as a function of the point and the hash.
- BufferedFile.BufferedFile.ReadBytes: excludes exactly the sizes whose 64-bit sum with the rewind distance wraps and passes the check, which no destination can hold (BufferedFile.SumsCompare); buffers below 2^32 bytes, and files that end more than a buffer before 2^64.
- BufferedFile.BufferedFile.Fill: only called, as in the original, when everything read has been consumed.
- BufferedFile.Run: Seek is not part of a run.
- PageLocks.LockedPageManager.LockRange: its precondition excludes exactly the ranges for which the loop does not end (PageLocks.PassableExactly).
- PageLocks.LockedPageManager.UnlockRange: the range was locked before, which the original asserts.
- PageLocks.Run: the operations are atomic, as under the mutex of the original.
