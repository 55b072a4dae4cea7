/** Short hashes: a list of 160-bit hashes sent as their low 32 bits and one xor, and its
    recovery from the hashes already stored (src/crypto/shorthash.h). */
module ShortHash {
  import opened Bits
  import opened Quotients
  import Modular

  const MAX_HASH_ENTRIES: nat := 30000
  const MAX_HASH_COMBINATIONS: nat := 10000000
  const UINT64: nat := 0x1_0000_0000_0000_0000

  /** The first four bytes of a hash in memory. */
  function Short(hash: nat): nat { hash % 0x1_0000_0000 }

  /** Adds position information, in arithmetic modulo 2^160. */
  function Modified(hash: nat, position: nat): nat {
    var m := Pow2(160);
    (hash + (hash * 12345678910111213) % m * position) % m
  }

  /** The short hash is the low 32 bits. */
  lemma ShortIsLow(hash: nat, high: nat, low: nat)
    requires hash == high * 0x1_0000_0000 + low && low < 0x1_0000_0000
    ensures Short(hash) == low
  {
    UniqueQuotient(hash / 0x1_0000_0000, hash % 0x1_0000_0000, high, low, 0x1_0000_0000);
  }

  /** At the front a hash counts as it is, and every place further on adds the same multiple of it,
      modulo 2^160. */
  lemma ModifiedSteps(hash: nat, position: nat)
    ensures Modified(hash, 0) == hash % Pow2(160)
    ensures Modified(hash, position + 1) == (Modified(hash, position) + hash * 12345678910111213) % Pow2(160)
  {
    var m, step := Pow2(160), hash * 12345678910111213;
    hide Pow2;
    assert step % m * 0 == 0;
    assert step % m * (position + 1) == step % m * position + step % m;
    ReduceAnywhere(hash + step % m * position, step, m);
  }

  lemma ReduceAnywhere(x: nat, step: nat, m: nat)
    requires m >= 1
    ensures (x + step % m) % m == (x % m + step) % m
  {
    Modular.CongMod(x, m);
    Modular.CongMod(step, m);
    Modular.CongSym(x % m, x, m);
    Modular.CongAdd(x, x % m, step % m, step, m);
    Modular.CongIffMod(x + step % m, x % m + step, m);
  }

  // ----------------------------------------------------------- specification

  function Shorts(hashes: seq<nat>): (s: seq<nat>)
    ensures |s| == |hashes| && forall i :: 0 <= i < |s| ==> s[i] == Short(hashes[i])
  {
    seq(|hashes|, i requires 0 <= i < |hashes| => Short(hashes[i]))
  }

  function XorAll(hashes: seq<nat>): nat {
    if hashes == [] then 0 else
      var n := |hashes| - 1;
      Xor(XorAll(hashes[..n]), Modified(hashes[n], n))
  }

  /** The places whose modified hash has digit j. */
  function Having(hashes: seq<nat>, j: nat): (places: set<nat>)
    ensures forall i :: i in places <==> 0 <= i < |hashes| && Bit(Modified(hashes[i], i), j)
  {
    set i | 0 <= i < |hashes| && Bit(Modified(hashes[i], i), j)
  }

  /** A digit of the disambiguator is set exactly if an odd number of the modified hashes have it. */
  lemma {:induction false} XorAllBit(hashes: seq<nat>, j: nat)
    ensures Bit(XorAll(hashes), j) <==> |Having(hashes, j)| % 2 == 1
  {
    hide Bit, Modified, Xor, Having;
    if hashes == [] {
      ZeroBits(j);
      assert Having(hashes, j) == {};
    } else {
      var n := |hashes| - 1;
      XorAllBit(hashes[..n], j);
      XorBit(XorAll(hashes[..n]), Modified(hashes[n], n), j);
      var before := Having(hashes[..n], j);
      assert Having(hashes, j) == if Bit(Modified(hashes[n], n), j) then before + {n} else before;
    }
  }

  /** A choice of one candidate for each of the first |choices| slots. */
  predicate IsChoice(slots: seq<seq<nat>>, choices: seq<nat>) {
    |choices| <= |slots| && forall i :: 0 <= i < |choices| ==> choices[i] < |slots[i]|
  }

  function Chosen(slots: seq<seq<nat>>, choices: seq<nat>): (c: seq<nat>)
    requires IsChoice(slots, choices)
    ensures |c| == |choices| && forall i :: 0 <= i < |c| ==> c[i] == slots[i][choices[i]]
  {
    seq(|choices|, i requires 0 <= i < |choices| => slots[i][choices[i]])
  }

  /** A full choice with the recorded xor. */
  predicate Matches(slots: seq<seq<nat>>, choices: seq<nat>, disambiguator: nat) {
    IsChoice(slots, choices) && |choices| == |slots| && XorAll(Chosen(slots, choices)) == disambiguator
  }

  function Product(slots: seq<seq<nat>>): nat {
    if slots == [] then 1 else Product(slots[..|slots| - 1]) * |slots[|slots| - 1]|
  }

  /** One slot has as many combinations as candidates, and slots after slots multiply. */
  lemma {:induction false} ProductSplits(a: seq<seq<nat>>, b: seq<seq<nat>>)
    ensures Product(a + b) == Product(a) * Product(b)
    ensures |a| == 1 ==> Product(a) == |a[0]|
    decreases |b|
  {
    if |a| == 1 {
      assert a[..0] == [];
    }
    if b == [] {
      assert a + b == a;
    } else {
      var n := |b| - 1;
      ProductSplits(a, b[..n]);
      assert (a + b)[..|a + b| - 1] == a + b[..n];
      assert Product(a) * Product(b[..n]) * |b[n]| == Product(a) * (Product(b[..n]) * |b[n]|);
    }
  }

  // ------------------------------------------------------------ the operations

  method MultiXor(hashes: seq<seq<nat>>, choices: seq<nat>) returns (result: nat)
    requires |choices| == |hashes| && IsChoice(hashes, choices)
    ensures result == XorAll(Chosen(hashes, choices))
  {
    hide Xor, Modified;
    result := 0;
    var i := 0;
    ghost var chosen := Chosen(hashes, choices);
    while i < |hashes|
      invariant i <= |hashes| && result == XorAll(chosen[..i])
    {
      assert chosen[..i + 1][..i] == chosen[..i];
      result := Xor(result, Modified(hashes[i][choices[i]], i));
      i := i + 1;
    }
    assert chosen[..i] == chosen;
  }

  /** Depth-first search over the choices that extend a hypothesis. */
  method ThereIsACorrectMatch(slots: seq<seq<nat>>, disambiguator: nat, hypothesis: seq<nat>)
      returns (found: bool, choices: seq<nat>)
    requires IsChoice(slots, hypothesis)
    requires forall i :: 0 <= i < |slots| ==> |slots[i]| < 0x1_0000_0000
    ensures found ==> hypothesis <= choices && Matches(slots, choices, disambiguator)
    ensures !found ==> forall c :: hypothesis <= c ==> !Matches(slots, c, disambiguator)
    decreases |slots| - |hypothesis|
  {
    hide XorAll;
    choices := [];
    if |hypothesis| == |slots| {
      var xor := MultiXor(slots, hypothesis);
      found := xor == disambiguator;
      if found {
        choices := hypothesis;
      } else {
        forall c | hypothesis <= c
          ensures !Matches(slots, c, disambiguator)
        {
          assert |c| == |slots| ==> c == hypothesis;
        }
      }
      return;
    }
    var k := |hypothesis|;
    var choice := 0;
    while choice < |slots[k]|
      invariant choice <= |slots[k]|
      invariant forall c :: hypothesis <= c && |c| > k && c[k] < choice ==> !Matches(slots, c, disambiguator)
    {
      found, choices := ThereIsACorrectMatch(slots, disambiguator, hypothesis + [choice]);
      if found {
        return;
      }
      forall c | hypothesis <= c && |c| > k && c[k] < choice + 1
        ensures !Matches(slots, c, disambiguator)
      {
        if c[k] == choice {
          assert hypothesis + [choice] <= c;
        }
      }
      choice := choice + 1;
    }
    found := false;
  }

  /** 64-bit arithmetic throughout; the division is only reached with a non-zero divisor. */
  method NumberOfCombinations(slots: seq<seq<nat>>) returns (n: nat)
    requires forall i :: 0 <= i < |slots| ==> |slots[i]| < UINT64
    ensures (exists i :: 0 <= i < |slots| && slots[i] == []) ==> n == 0
    ensures (forall i :: 0 <= i < |slots| ==> slots[i] != []) ==>
        n == if Product(slots) < UINT64 then Product(slots) else UINT64 - 1
  {
    n := 1;
    var overflow := false;
    var i := 0;
    while i < |slots|
      invariant i <= |slots| && n < UINT64
      invariant forall j :: 0 <= j < i ==> slots[j] != []
      invariant Product(slots[..i]) >= 1
      invariant !overflow ==> n == Product(slots[..i])
      invariant overflow ==> Product(slots[..i]) >= UINT64
    {
      var matches := |slots[i]|;
      if matches == 0 {
        return 0;
      }
      assert slots[..i + 1][..i] == slots[..i];
      var product := (n * matches) % UINT64;
      ProductStep(n, matches, Product(slots[..i]), product);
      if product == 0 || product / n != matches {
        overflow := true;
      }
      n := product;
      i := i + 1;
    }
    assert slots[..i] == slots;
    if overflow {
      return UINT64 - 1;
    }
  }

  /** The overflow test is exact as long as nothing has wrapped, and a total that has
      wrapped once stays too large. */
  lemma ProductStep(n: nat, matches: nat, total: nat, product: nat)
    requires matches >= 1 && total >= 1 && n < UINT64 && matches < UINT64
    requires product == (n * matches) % UINT64
    ensures n == 0 ==> product == 0
    ensures n == total ==> (total * matches < UINT64 <==> !(product == 0 || product / n != matches))
    ensures n == total && total * matches < UINT64 ==> product == total * matches
    ensures total * matches >= total
  {
    Modular.MulMonotone(1, matches, total);
    if n == 0 {
      assert n * matches == 0;
    } else if n == total {
      if n * matches < UINT64 {
        Small(n * matches);
        assert n * matches == matches * n + 0;
        UniqueQuotient(product / n, product % n, matches, 0, n);
      } else {
        Wrapped(n, matches, product, (n * matches) / UINT64);
      }
    }
  }

  lemma Small(x: nat)
    requires x < UINT64
    ensures x % UINT64 == x
  {
  }

  lemma Wrapped(n: nat, matches: nat, product: nat, k: nat)
    requires 1 <= n < UINT64 && n * matches == k * UINT64 + product && product < UINT64 && n * matches >= UINT64
    ensures product / n != matches
  {
    assert k >= 1;
    assert product == (product / n) * n + product % n;
  }

  // ------------------------------------------------------------- stored hashes

  /** The candidates stored under each short hash, and the known solutions of whole lists. */
  class HashData {
    var matches: map<nat, seq<nat>>
    var known: map<nat, seq<nat>>

    /** Every candidate is filed under its own short hash. */
    ghost predicate Valid()
      reads this
    {
      forall k, i :: k in matches && 0 <= i < |matches[k]| ==> Short(matches[k][i]) == k
    }

    function Lookup(k: nat): seq<nat>
      reads this
    {
      if k in matches then matches[k] else []
    }

    constructor ()
      ensures Valid() && matches == map[] && known == map[]
    {
      matches, known := map[], map[];
    }

    method StoreHash(hash: nat)
      requires Valid()
      modifies this`matches
      ensures Valid()
      ensures hash in Lookup(Short(hash))
      ensures forall h, k :: h in old(Lookup(k)) ==> h in Lookup(k)
      ensures forall h, k :: h in Lookup(k) ==> h == hash || h in old(Lookup(k))
    {
      var short := Short(hash);
      var entries := Lookup(short);
      if hash !in entries {
        entries := entries + [hash];
      }
      matches := matches[short := entries];
    }
  }

  ghost predicate AreCandidates(data: HashData, shorts: seq<nat>, slots: seq<seq<nat>>)
    reads data
  {
    |slots| == |shorts| && forall i :: 0 <= i < |slots| ==> slots[i] == data.Lookup(shorts[i])
  }

  // ----------------------------------------------------------------- the list

  class ShortHashList {
    var fullHashes: seq<nat>
    var shortHashes: seq<nat>
    var disambiguator: nat

    constructor (hashes: seq<nat>)
      ensures fullHashes == hashes
    {
      fullHashes, shortHashes, disambiguator := hashes, [], 0;
    }

    /** The short form says what the full hashes are up to collisions. */
    method GenerateShortHashes()
      modifies this`shortHashes, this`disambiguator
      ensures shortHashes == Shorts(fullHashes) && disambiguator == XorAll(fullHashes)
    {
      hide Xor, Modified;
      shortHashes := [];
      var accumulator := 0;
      var i := 0;
      while i < |fullHashes|
        invariant i <= |fullHashes| && shortHashes == Shorts(fullHashes[..i]) && accumulator == XorAll(fullHashes[..i])
      {
        assert fullHashes[..i + 1][..i] == fullHashes[..i];
        shortHashes := shortHashes + [Short(fullHashes[i])];
        accumulator := Xor(accumulator, Modified(fullHashes[i], i));
        i := i + 1;
      }
      assert fullHashes[..i] == fullHashes;
      disambiguator := accumulator;
    }

    method PossibleMatches(data: HashData) returns (slots: seq<seq<nat>>)
      ensures AreCandidates(data, shortHashes, slots)
    {
      slots := [];
      var i := 0;
      while i < |shortHashes|
        invariant i <= |shortHashes| && |slots| == i
        invariant forall j :: 0 <= j < i ==> slots[j] == data.Lookup(shortHashes[j])
      {
        slots := slots + [data.Lookup(shortHashes[i])];
        i := i + 1;
      }
    }

    method UseMatch(slots: seq<seq<nat>>, choices: seq<nat>)
      requires |slots| == |shortHashes| == |choices| && IsChoice(slots, choices)
      modifies this`fullHashes
      ensures fullHashes == Chosen(slots, choices)
    {
      fullHashes := [];
      var i := 0;
      while i < |shortHashes|
        invariant i <= |shortHashes| && fullHashes == Chosen(slots, choices)[..i]
      {
        fullHashes := fullHashes + [slots[i][choices[i]]];
        i := i + 1;
      }
    }

    /** Refuses lists that are too long or have a slot without candidates, falls back to a
        known solution when there are too many combinations, and otherwise succeeds exactly
        when some combination of candidates has the recorded xor; the list it then holds
        generates this very short form. */
    method RecoverFullHashes(data: HashData, listHash: (seq<nat>, nat) -> nat, ghost slots: seq<seq<nat>>)
        returns (ok: bool)
      requires data.Valid() && AreCandidates(data, shortHashes, slots)
      requires forall i :: 0 <= i < |slots| ==> |slots[i]| < UINT64
      modifies this`fullHashes
      ensures !ok ==> fullHashes == old(fullHashes)
      ensures |shortHashes| > MAX_HASH_ENTRIES || [] in slots ==> !ok
      ensures |shortHashes| <= MAX_HASH_ENTRIES && [] !in slots && Product(slots) > MAX_HASH_COMBINATIONS ==>
        var key := listHash(shortHashes, disambiguator);
            (ok <==> key in data.known) && (ok ==> fullHashes == data.known[key])
      ensures |shortHashes| <= MAX_HASH_ENTRIES && [] !in slots && Product(slots) <= MAX_HASH_COMBINATIONS ==>
        && (ok <==> exists c :: Matches(slots, c, disambiguator))
        && (ok ==> shortHashes == Shorts(fullHashes) && disambiguator == XorAll(fullHashes))
    {
      hide XorAll;
      if |shortHashes| > MAX_HASH_ENTRIES {
        return false;
      }
      var possible := PossibleMatches(data);
      assert possible == slots;
      var i := 0;
      while i < |shortHashes|
        invariant i <= |shortHashes| && forall j :: 0 <= j < i ==> possible[j] != []
      {
        if |possible[i]| == 0 {
          return false;
        }
        i := i + 1;
      }
      var n := NumberOfCombinations(possible);
      if n > MAX_HASH_COMBINATIONS {
        ok := TryKnownSolution(data, listHash);
        return;
      }
      SlotsAreSmall(possible);
      var choices;
      ok, choices := ThereIsACorrectMatch(possible, disambiguator, []);
      if ok {
        UseMatch(possible, choices);
        assert Matches(slots, choices, disambiguator);
        CandidatesHaveShorts(data, shortHashes, possible, choices);
      }
    }

    method TryKnownSolution(data: HashData, listHash: (seq<nat>, nat) -> nat) returns (ok: bool)
      modifies this`fullHashes
      ensures var key := listHash(shortHashes, disambiguator);
        (ok <==> key in data.known) && fullHashes == if ok then data.known[key] else old(fullHashes)
    {
      var key := listHash(shortHashes, disambiguator);
      ok := key in data.known;
      if ok {
        fullHashes := data.known[key];
      }
    }
  }

  lemma CandidatesHaveShorts(data: HashData, shorts: seq<nat>, slots: seq<seq<nat>>, choices: seq<nat>)
    requires data.Valid() && AreCandidates(data, shorts, slots)
    requires |choices| == |slots| && IsChoice(slots, choices)
    ensures Shorts(Chosen(slots, choices)) == shorts
  {
    forall i | 0 <= i < |shorts|
      ensures Short(Chosen(slots, choices)[i]) == shorts[i]
    {
      assert slots[i] == data.Lookup(shorts[i]);
    }
  }

  lemma {:induction false} SlotsAreSmall(slots: seq<seq<nat>>)
    requires forall i :: 0 <= i < |slots| ==> slots[i] != []
    ensures Product(slots) >= 1
    ensures forall i :: 0 <= i < |slots| ==> |slots[i]| <= Product(slots)
  {
    if slots != [] {
      var n := |slots| - 1;
      SlotsAreSmall(slots[..n]);
      var p, m := Product(slots[..n]), |slots[n]|;
      Modular.MulMonotone(1, m, p);
      Modular.MulMonotone(1, p, m);
      forall i | 0 <= i < |slots|
        ensures |slots[i]| <= Product(slots)
      {
        if i < n {
          assert slots[i] == slots[..n][i];
        }
      }
    }
  }

  // --------------------------------------------------------------- round trip

  /** If every original hash is stored, the original list is one of the combinations. */
  lemma OriginalMatches(data: HashData, hashes: seq<nat>, slots: seq<seq<nat>>) returns (choices: seq<nat>)
    requires AreCandidates(data, Shorts(hashes), slots)
    requires forall i :: 0 <= i < |hashes| ==> hashes[i] in data.Lookup(Short(hashes[i]))
    ensures Matches(slots, choices, XorAll(hashes))
  {
    hide XorAll;
    choices := [];
    while |choices| < |hashes|
      invariant |choices| <= |hashes| && IsChoice(slots, choices)
      invariant forall i :: 0 <= i < |choices| ==> slots[i][choices[i]] == hashes[i]
      decreases |hashes| - |choices|
    {
      var i := |choices|;
      assert hashes[i] in slots[i];
      var c :| 0 <= c < |slots[i]| && slots[i][c] == hashes[i];
      choices := choices + [c];
    }
    assert Chosen(slots, choices) == hashes;
  }

  /** A receiver who has stored every hash is on the successful path of `RecoverFullHashes` as
      soon as the combinations are within the limit: there is a combination to find, and
      whichever one is found has the short form of the sender's list. */
  lemma SenderIsDescribed(data: HashData, hashes: seq<nat>, slots: seq<seq<nat>>, found: seq<nat>)
    requires data.Valid() && AreCandidates(data, Shorts(hashes), slots)
    requires forall i :: 0 <= i < |hashes| ==> hashes[i] in data.Lookup(Short(hashes[i]))
    requires Product(slots) <= MAX_HASH_COMBINATIONS
    ensures [] !in slots && forall i :: 0 <= i < |slots| ==> |slots[i]| < UINT64
    ensures exists c :: Matches(slots, c, XorAll(hashes))
    ensures Matches(slots, found, XorAll(hashes)) ==> Shorts(Chosen(slots, found)) == Shorts(hashes)
  {
    hide XorAll;
    var original := OriginalMatches(data, hashes, slots);
    assert forall i :: 0 <= i < |slots| ==> slots[i] != [];
    SlotsAreSmall(slots);
    if Matches(slots, found, XorAll(hashes)) {
      CandidatesHaveShorts(data, Shorts(hashes), slots, found);
    }
    assert Matches(slots, original, XorAll(hashes));
  }
}
