/** Reorganisation of the spent set (src/credits/creditutil.cpp): finding a fork,
    collecting what the two branches spend, cancelling what both spend, and
    applying the rest to the bit chain. */
module SpentChain {
  import opened BitChain

  /** What is stored about a mined credit: its parent, the positions its batch
      spends, and the length of the spent chain after it. */
  datatype Block = Block(prev: nat, spends: seq<nat>, length: nat)

  type Blocks = map<nat, Block>

  const MAX_LOOK_BACK := 300

  /** `PreviousCreditHash`; an unknown hash reads as a default record. */
  function Prev(blocks: Blocks, hash: nat): nat {
    if hash in blocks then blocks[hash].prev else 0
  }

  /** `GetBitsSetInBatch`. */
  function Spends(blocks: Blocks, hash: nat): seq<nat> {
    if hash in blocks then blocks[hash].spends else []
  }

  /** `SpentChainLength`. */
  function Length(blocks: Blocks, hash: nat): nat {
    if hash in blocks then blocks[hash].length else 0
  }

  /** Following parents ends at the hash zero; `rank` is any measure that shows it. */
  ghost predicate Acyclic(blocks: Blocks, rank: nat -> nat) {
    0 !in blocks && forall h: nat :: h != 0 ==> rank(Prev(blocks, h)) < rank(h)
  }

  /** The hashes from `hash` back to genesis. */
  ghost function Chain(blocks: Blocks, hash: nat, rank: nat -> nat): (c: seq<nat>)
    requires Acyclic(blocks, rank)
    decreases rank(hash)
  {
    if hash == 0 then [] else [hash] + Chain(blocks, Prev(blocks, hash), rank)
  }

  /** The i-th ancestor, zero past the end. */
  function At(chain: seq<nat>, i: nat): nat {
    if i < |chain| then chain[i] else 0
  }

  lemma {:induction false} ChainFacts(blocks: Blocks, hash: nat, rank: nat -> nat)
    requires Acyclic(blocks, rank)
    ensures forall i :: 0 <= i < |Chain(blocks, hash, rank)| ==> Chain(blocks, hash, rank)[i] != 0
    ensures forall i :: 0 <= i < |Chain(blocks, hash, rank)| ==> rank(Chain(blocks, hash, rank)[i]) <= rank(hash) - i
    decreases rank(hash)
  {
    if hash != 0 {
      ChainFacts(blocks, Prev(blocks, hash), rank);
    }
  }

  /** The chain, read off the records: it starts at the tip, each hash is followed by the parent on
      its record, and it ends where there is no record or no parent. */
  lemma {:induction false} ChainFollowsParents(blocks: Blocks, tip: nat, rank: nat -> nat, i: nat)
    requires Acyclic(blocks, rank)
    ensures var c := Chain(blocks, tip, rank);
      && (tip == 0 <==> c == []) && (tip != 0 ==> c[0] == tip)
      && (i < |c| ==>
           if c[i] in blocks && blocks[c[i]].prev != 0 then i + 1 < |c| && c[i + 1] == blocks[c[i]].prev
           else |c| == i + 1)
    decreases rank(tip)
  {
    if tip != 0 && i > 0 {
      ChainFollowsParents(blocks, Prev(blocks, tip), rank, i - 1);
    }
  }

  lemma ChainHead(blocks: Blocks, hash: nat, rank: nat -> nat)
    requires Acyclic(blocks, rank)
    ensures At(Chain(blocks, hash, rank), 0) == hash
  {
  }

  /** The chain of an ancestor is a suffix of the chain. */
  lemma {:induction false} ChainSuffix(blocks: Blocks, hash: nat, rank: nat -> nat, i: nat)
    requires Acyclic(blocks, rank) && i <= |Chain(blocks, hash, rank)|
    ensures Chain(blocks, At(Chain(blocks, hash, rank), i), rank) == Chain(blocks, hash, rank)[i..]
    decreases i
  {
    if i > 0 {
      var c := Chain(blocks, hash, rank);
      assert hash != 0;
      var d := Chain(blocks, Prev(blocks, hash), rank);
      ChainSuffix(blocks, Prev(blocks, hash), rank, i - 1);
      assert c[i..] == d[i - 1..];
    }
  }

  lemma ChainStep(blocks: Blocks, hash: nat, rank: nat -> nat, i: nat)
    requires Acyclic(blocks, rank)
    ensures Prev(blocks, At(Chain(blocks, hash, rank), i)) == At(Chain(blocks, hash, rank), i + 1)
  {
    var c := Chain(blocks, hash, rank);
    if i < |c| {
      ChainFacts(blocks, hash, rank);
      ChainSuffix(blocks, hash, rank, i);
      var d := Chain(blocks, c[i], rank);
      assert d == [c[i]] + Chain(blocks, Prev(blocks, c[i]), rank);
      assert d[1..] == Chain(blocks, Prev(blocks, c[i]), rank);
      if i + 1 < |c| {
        assert d[1] == c[i + 1];
        assert Prev(blocks, c[i]) != 0;
      } else {
        assert |d| == 1;
      }
    }
  }

  /** No hash occurs twice on a chain. */
  lemma {:induction false} ChainDistinct(blocks: Blocks, hash: nat, rank: nat -> nat, i: nat, j: nat)
    requires Acyclic(blocks, rank) && i < j < |Chain(blocks, hash, rank)|
    ensures Chain(blocks, hash, rank)[i] != Chain(blocks, hash, rank)[j]
  {
    var c := Chain(blocks, hash, rank);
    ChainSuffix(blocks, hash, rank, i);
    ChainFacts(blocks, c[i], rank);
    assert c[i..][j - i] == c[j];
  }

  /** Two chains that meet run together from there on. */
  lemma ChainsMerge(blocks: Blocks, h1: nat, h2: nat, rank: nat -> nat, i: nat, j: nat)
    requires Acyclic(blocks, rank)
    requires i < |Chain(blocks, h1, rank)| && j < |Chain(blocks, h2, rank)|
    requires Chain(blocks, h1, rank)[i] == Chain(blocks, h2, rank)[j]
    ensures Chain(blocks, h1, rank)[i..] == Chain(blocks, h2, rank)[j..]
  {
    ChainSuffix(blocks, h1, rank, i);
    ChainSuffix(blocks, h2, rank, j);
  }

  // ------------------------------------------------------------------ the fork

  /** a[i] is the first hash of `a` on `b`, and b[j] the first of `b` on `a`. */
  predicate MeetsAt(a: seq<nat>, b: seq<nat>, i: nat, j: nat) {
    && i < |a| && j < |b| && a[i] == b[j]
    && forall k, l :: 0 <= k < |a| && 0 <= l < |b| && a[k] == b[l] ==> i <= k && j <= l
  }

  /** Whatever the two chains share, they share at equal distances from the tips. */
  predicate OnlyLevel(a: seq<nat>, b: seq<nat>) {
    forall k, l :: 0 <= k < |a| && 0 <= l < |b| && a[k] == b[l] ==> k == l
  }

  /** The result of the search: the nearest common ancestor when the tips are equal
      or at different distances from it, and zero otherwise. */
  ghost predicate IsFork(a: seq<nat>, b: seq<nat>, fork: nat) {
    || (fork == 0 && OnlyLevel(a, b) && (a == [] || b == [] || a[0] != b[0]))
    || (exists i: nat, j: nat :: MeetsAt(a, b, i, j) && fork == a[i] && (i != j || (i == 0 && j == 0)))
  }

  /** The fork of two chains; there is one (`GetFork`), and only one (`ForkUnique`). */
  ghost function ForkOf(a: seq<nat>, b: seq<nat>): nat {
    if exists f: nat :: IsFork(a, b, f) then var f: nat :| IsFork(a, b, f); f else 0
  }

  lemma ForkOfIs(a: seq<nat>, b: seq<nat>, fork: nat)
    requires IsFork(a, b, fork) && 0 !in a
    ensures ForkOf(a, b) == fork
  {
    ForkUnique(a, b, ForkOf(a, b), fork);
  }

  /** No hash of the first n of one chain and the first n of the other is shared
      at different distances. */
  ghost predicate LevelUpTo(a: seq<nat>, b: seq<nat>, n: nat) {
    forall k, l :: 0 <= k < |a| && 0 <= l < |b| && k <= n && l <= n && a[k] == b[l] ==> k == l
  }

  function Cut(a: seq<nat>, n: nat): (m: nat)
    ensures m <= |a|
  {
    if n < |a| then n else |a|
  }

  ghost predicate SeenUpTo(seen: set<nat>, a: seq<nat>, b: seq<nat>, n: nat) {
    forall h :: h in seen <==> h in a[..Cut(a, n)] || h in b[..Cut(b, n)]
  }

  /** When the first tip is the farther one, `steps` is its distance. */
  ghost predicate CountsSteps(a: seq<nat>, b: seq<nat>, steps: nat) {
    forall i: nat, j: nat :: MeetsAt(a, b, i, j) && j < i ==> steps == i
  }

  /** `GetFork` (src/credits/creditutil.cpp:154-189). */
  method GetFork(blocks: Blocks, tip1: nat, tip2: nat, ghost rank: nat -> nat) returns (fork: nat, stepsback: nat)
    requires Acyclic(blocks, rank)
    ensures IsFork(Chain(blocks, tip1, rank), Chain(blocks, tip2, rank), fork)
    ensures fork == ForkOf(Chain(blocks, tip1, rank), Chain(blocks, tip2, rank))
    ensures CountsSteps(Chain(blocks, tip1, rank), Chain(blocks, tip2, rank), stepsback)
  {
    fork, stepsback := SearchFork(blocks, tip1, tip2, rank);
    ChainFacts(blocks, tip1, rank);
    ForkOfIs(Chain(blocks, tip1, rank), Chain(blocks, tip2, rank), fork);
  }

  /** The two walks back, one step at a time. */
  method SearchFork(blocks: Blocks, tip1: nat, tip2: nat, ghost rank: nat -> nat) returns (fork: nat, stepsback: nat)
    requires Acyclic(blocks, rank)
    ensures IsFork(Chain(blocks, tip1, rank), Chain(blocks, tip2, rank), fork)
    ensures CountsSteps(Chain(blocks, tip1, rank), Chain(blocks, tip2, rank), stepsback)
  {
    hide Chain, IsFork, CountsSteps, LevelUpTo;
    stepsback := 0;
    LevelAtStart(Chain(blocks, tip1, rank), Chain(blocks, tip2, rank));
    ghost var a, b := Chain(blocks, tip1, rank), Chain(blocks, tip2, rank);
    if tip1 == tip2 {
      SameTips(blocks, tip1, rank);
      return tip1, 0;
    }
    ChainHead(blocks, tip1, rank); ChainHead(blocks, tip2, rank);
    var hash1, hash2 := tip1, tip2;
    var seen: set<nat> := {};
    ghost var t := 0;
    ChainFacts(blocks, tip1, rank); ChainFacts(blocks, tip2, rank);
    while true
      invariant hash1 == At(a, t) && hash2 == At(b, t)
      invariant SeenUpTo(seen, a, b, t) && LevelUpTo(a, b, t)
      invariant t == 0 || t < |a| || t < |b|
      invariant stepsback == if |a| == 0 then 0 else if t < |a| then t else |a| - 1
      decreases |a| + |b| - t
    {
      if hash1 > 0 { seen := seen + {hash1}; }
      if hash2 > 0 { seen := seen + {hash2}; }
      SeenStep(seen, a, b, t);
      ChainStep(blocks, tip1, rank, t); ChainStep(blocks, tip2, rank, t);
      var prev1, prev2 := Prev(blocks, hash1), Prev(blocks, hash2);
      if prev1 == 0 && prev2 == 0 {
        NothingFound(a, b, t, stepsback);
        break;
      }
      if prev1 != 0 {
        stepsback := stepsback + 1;
      }
      if prev1 != 0 && prev1 in seen {
        FoundByFirst(blocks, tip1, tip2, rank, t);
        return prev1, stepsback;
      }
      if prev2 != 0 && prev2 in seen {
        FoundBySecond(blocks, tip1, tip2, rank, t, stepsback);
        return prev2, stepsback;
      }
      LevelStep(seen, a, b, t);
      hash1, hash2 := prev1, prev2;
      t := t + 1;
    }
    fork := 0;
  }

  lemma SameTips(blocks: Blocks, tip: nat, rank: nat -> nat)
    requires Acyclic(blocks, rank)
    ensures IsFork(Chain(blocks, tip, rank), Chain(blocks, tip, rank), tip)
    ensures CountsSteps(Chain(blocks, tip, rank), Chain(blocks, tip, rank), 0)
  {
    var a := Chain(blocks, tip, rank);
    if tip != 0 {
      assert MeetsAt(a, a, 0, 0);
    }
  }

  lemma NothingFound(a: seq<nat>, b: seq<nat>, t: nat, steps: nat)
    requires LevelUpTo(a, b, t) && |a| <= t + 1 && |b| <= t + 1
    requires At(a, 0) != At(b, 0)
    ensures IsFork(a, b, 0) && CountsSteps(a, b, steps)
  {
  }

  lemma FoundByFirst(blocks: Blocks, tip1: nat, tip2: nat, rank: nat -> nat, t: nat)
    requires Acyclic(blocks, rank)
    requires t + 1 < |Chain(blocks, tip1, rank)|
    requires LevelUpTo(Chain(blocks, tip1, rank), Chain(blocks, tip2, rank), t)
    requires var a, b := Chain(blocks, tip1, rank), Chain(blocks, tip2, rank);
        a[t + 1] in a[..t + 1] || a[t + 1] in b[..Cut(b, t + 1)]
    ensures var a, b := Chain(blocks, tip1, rank), Chain(blocks, tip2, rank);
        IsFork(a, b, a[t + 1]) && CountsSteps(a, b, t + 1)
  {
    hide Chain;
    var j := FoundFirst(blocks, tip1, tip2, rank, t);
  }

  lemma FoundBySecond(blocks: Blocks, tip1: nat, tip2: nat, rank: nat -> nat, t: nat, steps: nat)
    requires Acyclic(blocks, rank)
    requires t + 1 < |Chain(blocks, tip2, rank)|
    requires LevelUpTo(Chain(blocks, tip1, rank), Chain(blocks, tip2, rank), t)
    requires var a, b := Chain(blocks, tip1, rank), Chain(blocks, tip2, rank);
        b[t + 1] in b[..t + 1] || b[t + 1] in a[..Cut(a, t + 1)]
    ensures var a, b := Chain(blocks, tip1, rank), Chain(blocks, tip2, rank);
        IsFork(a, b, b[t + 1]) && CountsSteps(a, b, steps)
  {
    hide Chain;
    var a, b := Chain(blocks, tip1, rank), Chain(blocks, tip2, rank);
    var i := FoundFirst(blocks, tip2, tip1, rank, t);
    FlipMeeting(b, a, t + 1, i);
  }

  lemma LevelAtStart(a: seq<nat>, b: seq<nat>)
    ensures LevelUpTo(a, b, 0)
  {
  }

  lemma LevelStep(seen: set<nat>, a: seq<nat>, b: seq<nat>, t: nat)
    requires SeenUpTo(seen, a, b, t + 1) && LevelUpTo(a, b, t)
    requires t + 1 < |a| ==> a[t + 1] !in seen
    requires t + 1 < |b| ==> b[t + 1] !in seen
    ensures LevelUpTo(a, b, t + 1)
  {
    assert forall k :: 0 <= k < Cut(a, t + 1) ==> a[k] in a[..Cut(a, t + 1)];
    assert forall k :: 0 <= k < Cut(b, t + 1) ==> b[k] in b[..Cut(b, t + 1)];
  }

  lemma SeenStep(seen: set<nat>, a: seq<nat>, b: seq<nat>, t: nat)
    requires forall h :: h in seen <==>
        || h in a[..Cut(a, t)] || h in b[..Cut(b, t)]
        || (h != 0 && (h == At(a, t) || h == At(b, t)))
    requires 0 !in a && 0 !in b
    ensures SeenUpTo(seen, a, b, t + 1)
  {
    assert t < |a| ==> a[..t + 1] == a[..t] + [a[t]];
    assert t < |b| ==> b[..t + 1] == b[..t] + [b[t]];
  }

  /** Meeting points are equally far from genesis on both chains. */
  lemma MergeLengths(blocks: Blocks, h1: nat, h2: nat, rank: nat -> nat, i: nat, j: nat)
    requires Acyclic(blocks, rank)
    requires i < |Chain(blocks, h1, rank)| && j < |Chain(blocks, h2, rank)|
    requires Chain(blocks, h1, rank)[i] == Chain(blocks, h2, rank)[j]
    ensures |Chain(blocks, h1, rank)| - i == |Chain(blocks, h2, rank)| - j
  {
    ChainsMerge(blocks, h1, h2, rank, i, j);
    var a, b := Chain(blocks, h1, rank), Chain(blocks, h2, rank);
    assert |a[i..]| == |b[j..]|;
  }

  /** The first hash of one chain found among the hashes seen of the other is the
      nearest common ancestor. */
  lemma FoundFirst(blocks: Blocks, tip1: nat, tip2: nat, rank: nat -> nat, t: nat) returns (j: nat)
    requires Acyclic(blocks, rank)
    requires t + 1 < |Chain(blocks, tip1, rank)|
    requires LevelUpTo(Chain(blocks, tip1, rank), Chain(blocks, tip2, rank), t)
    requires var a, b := Chain(blocks, tip1, rank), Chain(blocks, tip2, rank);
        a[t + 1] in a[..t + 1] || a[t + 1] in b[..Cut(b, t + 1)]
    ensures j <= t && MeetsAt(Chain(blocks, tip1, rank), Chain(blocks, tip2, rank), t + 1, j)
  {
    var a, b := Chain(blocks, tip1, rank), Chain(blocks, tip2, rank);
    if a[t + 1] in a[..t + 1] {
      var k :| 0 <= k < t + 1 && a[k] == a[t + 1];
      ChainDistinct(blocks, tip1, rank, k, t + 1);
    }
    j :| 0 <= j < Cut(b, t + 1) && b[j] == a[t + 1];
    MergeLengths(blocks, tip1, tip2, rank, t + 1, j);
    forall k, l | 0 <= k < |a| && 0 <= l < |b| && a[k] == b[l]
      ensures t + 1 <= k && j <= l
    {
      MergeLengths(blocks, tip1, tip2, rank, k, l);
    }
  }

  lemma FlipMeeting(a: seq<nat>, b: seq<nat>, i: nat, j: nat)
    requires MeetsAt(a, b, i, j)
    ensures MeetsAt(b, a, j, i)
  {
  }

  /** The result is determined by the two chains. */
  lemma ForkUnique(a: seq<nat>, b: seq<nat>, f: nat, g: nat)
    requires IsFork(a, b, f) && IsFork(a, b, g) && 0 !in a
    ensures f == g
  {
    if f != 0 {
      var i: nat, j: nat :| MeetsAt(a, b, i, j) && f == a[i] && (i != j || (i == 0 && j == 0));
      if g != 0 {
        var k: nat, l: nat :| MeetsAt(a, b, k, l) && g == a[k] && (k != l || (k == 0 && l == 0));
      }
    }
  }

  /** Two chains with a block in common have a nearest one. */
  lemma FirstMeeting(blocks: Blocks, tip1: nat, tip2: nat, rank: nat -> nat, i: nat, j: nat) returns (k: nat, l: nat)
    requires Acyclic(blocks, rank)
    requires i < |Chain(blocks, tip1, rank)| && j < |Chain(blocks, tip2, rank)|
    requires Chain(blocks, tip1, rank)[i] == Chain(blocks, tip2, rank)[j]
    ensures MeetsAt(Chain(blocks, tip1, rank), Chain(blocks, tip2, rank), k, l)
    ensures |Chain(blocks, tip1, rank)| - k == |Chain(blocks, tip2, rank)| - l
    decreases i
  {
    hide Chain;
    var a, b := Chain(blocks, tip1, rank), Chain(blocks, tip2, rank);
    if m: nat, n: nat :| m < i && n < |b| && a[m] == b[n] {
      k, l := FirstMeeting(blocks, tip1, tip2, rank, m, n);
    } else {
      MergeLengths(blocks, tip1, tip2, rank, i, j);
      forall m, n | 0 <= m < |a| && 0 <= n < |b| && a[m] == b[n]
        ensures i <= m && j <= n
      {
        MergeLengths(blocks, tip1, tip2, rank, m, n);
      }
      k, l := i, j;
    }
  }

  /** Of two tips with a common ancestor the search finds the nearest one, unless the tips are
      different and equally high: then it reports that there is none. */
  lemma ForkMissedExactly(blocks: Blocks, tip1: nat, tip2: nat, rank: nat -> nat, ancestor: nat)
    requires Acyclic(blocks, rank)
    requires ancestor in Chain(blocks, tip1, rank) && ancestor in Chain(blocks, tip2, rank)
    ensures var a, b := Chain(blocks, tip1, rank), Chain(blocks, tip2, rank);
      && (ForkOf(a, b) == 0 <==> tip1 != tip2 && |a| == |b|)
      && (ForkOf(a, b) != 0 ==> exists i: nat, j: nat :: MeetsAt(a, b, i, j) && ForkOf(a, b) == a[i])
  {
    var a, b := Chain(blocks, tip1, rank), Chain(blocks, tip2, rank);
    ChainHead(blocks, tip1, rank); ChainHead(blocks, tip2, rank);
    ChainFacts(blocks, tip1, rank);
    hide Chain, ForkOf;
    var i :| 0 <= i < |a| && a[i] == ancestor;
    var j :| 0 <= j < |b| && b[j] == ancestor;
    var k, l := FirstMeeting(blocks, tip1, tip2, rank, i, j);
    if |a| == |b| && tip1 != tip2 {
      EqualHeights(blocks, tip1, tip2, rank);
      ForkOfIs(a, b, 0);
    } else {
      ForkOfIs(a, b, a[k]);
    }
  }

  lemma EqualHeights(blocks: Blocks, tip1: nat, tip2: nat, rank: nat -> nat)
    requires Acyclic(blocks, rank) && tip1 != tip2
    requires |Chain(blocks, tip1, rank)| == |Chain(blocks, tip2, rank)|
    ensures IsFork(Chain(blocks, tip1, rank), Chain(blocks, tip2, rank), 0)
  {
    var a, b := Chain(blocks, tip1, rank), Chain(blocks, tip2, rank);
    ChainHead(blocks, tip1, rank); ChainHead(blocks, tip2, rank);
    hide Chain;
    forall k, l | 0 <= k < |a| && 0 <= l < |b| && a[k] == b[l]
      ensures k == l
    {
      MergeLengths(blocks, tip1, tip2, rank, k, l);
    }
  }

  /** Two blocks on the same parent, at any height, are told to have no common ancestor. */
  lemma SiblingsMissed(blocks: Blocks, tip1: nat, tip2: nat, rank: nat -> nat)
    requires Acyclic(blocks, rank) && tip1 != 0 && tip2 != 0 && tip1 != tip2
    requires Prev(blocks, tip1) == Prev(blocks, tip2)
    ensures ForkOf(Chain(blocks, tip1, rank), Chain(blocks, tip2, rank)) == 0
  {
    ChainFacts(blocks, tip1, rank);
    EqualHeights(blocks, tip1, tip2, rank);
    ForkOfIs(Chain(blocks, tip1, rank), Chain(blocks, tip2, rank), 0);
  }

  lemma ForkOnBoth(a: seq<nat>, b: seq<nat>, fork: nat)
    requires IsFork(a, b, fork)
    ensures fork == 0 || (fork in a && fork in b)
  {
  }

  // ----------------------------------------------------------- the differences

  /** The number of steps from the head of the chain back to `fork`. */
  function Distance(chain: seq<nat>, fork: nat): (d: nat)
    ensures d <= |chain|
    ensures d < |chain| ==> chain[d] == fork
    ensures forall i :: 0 <= i < d ==> chain[i] != fork
  {
    if chain == [] || chain[0] == fork then 0 else 1 + Distance(chain[1..], fork)
  }

  /** Everything the blocks spend, in order. */
  function Collected(blocks: Blocks, hashes: seq<nat>): seq<nat> {
    if hashes == [] then []
    else Collected(blocks, hashes[..|hashes| - 1]) + Spends(blocks, hashes[|hashes| - 1])
  }

  lemma CollectedAppend(blocks: Blocks, hashes: seq<nat>, hash: nat)
    ensures Collected(blocks, hashes + [hash]) == Collected(blocks, hashes) + Spends(blocks, hash)
  {
    assert (hashes + [hash])[..|hashes|] == hashes;
  }

  /** What is collected, read off the records. */
  lemma {:induction false} CollectedIs(blocks: Blocks, hashes: seq<nat>, i: nat)
    ensures i in Collected(blocks, hashes) <==> exists h :: h in hashes && h in blocks && i in blocks[h].spends
    ensures |hashes| == 1 ==>
      Collected(blocks, hashes) == if hashes[0] in blocks then blocks[hashes[0]].spends else []
  {
    if hashes != [] {
      var n := |hashes| - 1;
      CollectedIs(blocks, hashes[..n], i);
      assert hashes == hashes[..n] + [hashes[n]];
      assert forall h :: h in hashes <==> h in hashes[..n] || h == hashes[n];
    }
  }

  lemma {:induction false} CollectedSplit(blocks: Blocks, a: seq<nat>, b: seq<nat>)
    ensures Collected(blocks, a + b) == Collected(blocks, a) + Collected(blocks, b)
  {
    hide Collected, Spends;
    if b == [] {
      CollectedNone(blocks);
      assert a + b == a;
    } else {
      var n := |b| - 1;
      CollectedSplit(blocks, a, b[..n]);
      CollectedAppend(blocks, a + b[..n], b[n]);
      CollectedAppend(blocks, b[..n], b[n]);
      Associate(a, b[..n], [b[n]]);
      Associate(Collected(blocks, a), Collected(blocks, b[..n]), Spends(blocks, b[n]));
      assert b == b[..n] + [b[n]];
    }
  }

  lemma Associate(x: seq<nat>, y: seq<nat>, z: seq<nat>)
    ensures (x + y) + z == x + (y + z)
  {
  }

  /** One of the two walks of `GetSpentChainDifferences`; the look-back counter is
      shared between them. */
  method WalkBack(blocks: Blocks, tip: nat, fork: nat, lookBack0: nat, ghost rank: nat -> nat)
    returns (ok: bool, spent: seq<nat>, lookBack: nat)
    requires Acyclic(blocks, rank) && lookBack0 <= MAX_LOOK_BACK
    requires fork == 0 || fork in Chain(blocks, tip, rank)
    ensures var c := Chain(blocks, tip, rank);
        var d := Distance(c, fork);
        && (ok <==> lookBack0 + d <= MAX_LOOK_BACK)
        && (ok ==> spent == Collected(blocks, c[..d]) && lookBack == lookBack0 + d)
  {
    hide Chain, Collected, Distance;
    ghost var c := Chain(blocks, tip, rank);
    ghost var d := Distance(c, fork);
    ghost var n := 0;
    ChainFacts(blocks, tip, rank);
    ChainHead(blocks, tip, rank);
    CollectedNone(blocks);
    var hash := tip;
    spent, lookBack := [], lookBack0;
    while hash != fork
      invariant 0 <= n <= d && hash == At(c, n)
      invariant spent == Collected(blocks, c[..n])
      invariant lookBack == lookBack0 + n <= MAX_LOOK_BACK
      decreases d - n
    {
      ChainStep(blocks, tip, rank, n);
      CollectedAppend(blocks, c[..n], hash);
      assert c[..n + 1] == c[..n] + [hash];
      spent := spent + Spends(blocks, hash);
      hash := Prev(blocks, hash);
      lookBack := lookBack + 1;
      n := n + 1;
      if lookBack > MAX_LOOK_BACK {
        return false, [], lookBack;
      }
    }
    ok := true;
  }

  lemma CollectedNone(blocks: Blocks)
    ensures Collected(blocks, []) == []
  {
  }

  function Without<T>(s: seq<T>, i: nat): (r: seq<T>)
    requires i < |s|
    ensures multiset(r) + multiset{s[i]} == multiset(s)
  {
    assert s == s[..i] + [s[i]] + s[i + 1..];
    s[..i] + s[i + 1..]
  }

  /** The cancelling loop: one occurrence on each side for every match. */
  method CancelCommon(toSet0: seq<nat>, toClear0: seq<nat>) returns (toSet: seq<nat>, toClear: seq<nat>)
    ensures multiset(toSet) == multiset(toSet0) - multiset(toClear0)
    ensures multiset(toClear) == multiset(toClear0) - multiset(toSet0)
  {
    toSet, toClear := toSet0, toClear0;
    ghost var cancelled: multiset<nat> := multiset{};
    var i := 0;
    while i < |toSet|
      invariant 0 <= i <= |toSet|
      invariant multiset(toSet) + cancelled == multiset(toSet0)
      invariant multiset(toClear) + cancelled == multiset(toClear0)
      invariant forall k :: 0 <= k < i ==> toSet[k] !in toClear
      decreases |toSet| - i
    {
      var j := 0;
      while j < |toClear| && toSet[i] != toClear[j]
        invariant 0 <= j <= |toClear|
        invariant toSet[i] !in toClear[..j]
      {
        j := j + 1;
      }
      if j < |toClear| {
        cancelled := cancelled + multiset{toSet[i]};
        assert forall x :: x in Without(toClear, j) ==> x in toClear;
        toSet, toClear := Without(toSet, i), Without(toClear, j);
      } else {
        i := i + 1;
      }
    }
    DisjointRest(toSet, toClear, cancelled, multiset(toSet0), multiset(toClear0));
  }

  lemma DisjointRest(a: seq<nat>, b: seq<nat>, x: multiset<nat>, a0: multiset<nat>, b0: multiset<nat>)
    requires multiset(a) + x == a0 && multiset(b) + x == b0
    requires forall k :: 0 <= k < |a| ==> a[k] !in b
    ensures multiset(a) == a0 - b0 && multiset(b) == b0 - a0
  {
    forall y ensures multiset(a)[y] == (a0 - b0)[y] && multiset(b)[y] == (b0 - a0)[y] {
      if y in multiset(a) {
        assert y in a;
        assert y !in b;
        assert multiset(b)[y] == 0;
      }
    }
  }

  /** `GetSpentChainDifferences` (src/credits/creditutil.cpp:191-257). */
  method GetSpentChainDifferences(blocks: Blocks, start: nat, target: nat, ghost rank: nat -> nat)
    returns (ok: bool, toSet: seq<nat>, toClear: seq<nat>)
    requires Acyclic(blocks, rank)
    ensures var s, t := Chain(blocks, start, rank), Chain(blocks, target, rank); IsFork(s, t, ForkOf(s, t))
    ensures ok <==> WithinReach(Chain(blocks, start, rank), Chain(blocks, target, rank))
    ensures ok ==> AreDifferences(blocks, Chain(blocks, start, rank), Chain(blocks, target, rank), toSet, toClear)
  {
    hide Chain, Collected, Distance, IsFork, ForkOf;
    ghost var s, t := Chain(blocks, start, rank), Chain(blocks, target, rank);
    var n, f, lookBack;
    f, n := GetFork(blocks, start, target, rank);
    ForkOnBoth(s, t, f);
    ChainFacts(blocks, start, rank);
    ForkOfIs(s, t, f);
    toClear := [];
    ok, toSet, lookBack := WalkBack(blocks, target, f, 0, rank);
    if !ok {
      return;
    }
    ok, toClear, lookBack := WalkBack(blocks, start, f, lookBack, rank);
    if !ok {
      return;
    }
    toSet, toClear := CancelCommon(toSet, toClear);
  }

  /** Both tips are within the look-back limit of the fork, together. */
  ghost predicate WithinReach(s: seq<nat>, t: seq<nat>) {
    Distance(s, ForkOf(s, t)) + Distance(t, ForkOf(s, t)) <= MAX_LOOK_BACK
  }

  /** What only the target branch spends, and what only the start branch spends. */
  ghost predicate AreDifferences(blocks: Blocks, s: seq<nat>, t: seq<nat>, toSet: seq<nat>, toClear: seq<nat>) {
    var before := multiset(Collected(blocks, Branch(s, ForkOf(s, t))));
    var after := multiset(Collected(blocks, Branch(t, ForkOf(s, t))));
    multiset(toSet) == after - before && multiset(toClear) == before - after
  }

  /** The part of a chain before the fork. */
  function Branch(chain: seq<nat>, fork: nat): seq<nat> {
    chain[..Distance(chain, fork)]
  }

  /** Behind the fork the two chains are the same. */
  lemma CommonTrunk(blocks: Blocks, start: nat, target: nat, rank: nat -> nat, fork: nat)
    requires Acyclic(blocks, rank)
    requires IsFork(Chain(blocks, start, rank), Chain(blocks, target, rank), fork)
    ensures var s, t := Chain(blocks, start, rank), Chain(blocks, target, rank);
        s[Distance(s, fork)..] == t[Distance(t, fork)..]
  {
    var s, t := Chain(blocks, start, rank), Chain(blocks, target, rank);
    ChainFacts(blocks, start, rank);
    ChainFacts(blocks, target, rank);
    ForkOnBoth(s, t, fork);
    var d, e := Distance(s, fork), Distance(t, fork);
    if fork == 0 {
      assert d == |s| && e == |t|;
    } else {
      ChainsMerge(blocks, start, target, rank, d, e);
    }
  }

  // ------------------------------------------------------------- the bit chain

  /** The vector with all the positions assigned. */
  function AllAssigned(bits: seq<bool>, positions: seq<nat>, value: bool): (r: seq<bool>)
    ensures |r| == |bits|
  {
    if positions == [] then bits
    else Assigned(AllAssigned(bits, positions[..|positions| - 1], value), positions[|positions| - 1], value)
  }

  lemma {:induction false} AllAssignedBit(bits: seq<bool>, positions: seq<nat>, value: bool, i: nat)
    requires i < |bits|
    ensures AllAssigned(bits, positions, value)[i] == if i in positions then value else bits[i]
  {
    if positions != [] {
      var n := |positions| - 1;
      AllAssignedBit(bits, positions[..n], value, i);
      assert positions == positions[..n] + [positions[n]];
    }
  }

  /** The bit chain of a tip: genesis to tip, each block setting the length and
      then the positions it spends. */
  ghost function Replay(blocks: Blocks, tip: nat, rank: nat -> nat): seq<bool>
    requires Acyclic(blocks, rank)
    decreases rank(tip)
  {
    if tip == 0 then []
    else AllAssigned(Resized(Replay(blocks, Prev(blocks, tip), rank), Length(blocks, tip)), Spends(blocks, tip), true)
  }

  /** No position is spent twice on the chain, and all lie below its length. */
  ghost predicate GoodChain(blocks: Blocks, tip: nat, rank: nat -> nat)
    requires Acyclic(blocks, rank)
  {
    var spent := Collected(blocks, Chain(blocks, tip, rank));
    && (forall i, j :: 0 <= i < j < |spent| ==> spent[i] != spent[j])
    && (forall i :: 0 <= i < |spent| ==> spent[i] < Length(blocks, tip))
  }

  ghost predicate GoodTree(blocks: Blocks, rank: nat -> nat)
    requires Acyclic(blocks, rank)
  {
    forall tip: nat :: GoodChain(blocks, tip, rank)
  }

  /** How such trees come about: a new hash on a known parent or on none, whose record spends distinct
      positions below its length that no record of its chain spends, and does not shorten it. */
  lemma GoodTreeGrows(blocks: Blocks, hash: nat, block: Block, rank: nat -> nat)
    requires Acyclic(blocks, rank) && GoodTree(blocks, rank)
    requires hash != 0 && hash !in blocks && block.prev != hash && rank(block.prev) < rank(hash)
    requires forall h :: h in blocks ==> blocks[h].prev != hash
    requires forall k, l :: 0 <= k < l < |block.spends| ==> block.spends[k] != block.spends[l]
    requires forall k :: 0 <= k < |block.spends| ==> block.spends[k] < block.length
    requires forall k, h :: 0 <= k < |block.spends| && h in Chain(blocks, block.prev, rank) && h in blocks ==>
      block.spends[k] !in blocks[h].spends
    requires block.prev in blocks ==> blocks[block.prev].length <= block.length
    ensures Acyclic(blocks[hash := block], rank) && GoodTree(blocks[hash := block], rank)
  {
    var grown := blocks[hash := block];
    forall h: nat | h != 0
      ensures rank(Prev(grown, h)) < rank(h)
    {
      assert rank(Prev(blocks, h)) < rank(h);
    }
    forall tip: nat
      ensures GoodChain(grown, tip, rank)
    {
      assert GoodChain(blocks, tip, rank);
      if tip == hash {
        assert GoodChain(blocks, block.prev, rank);
        NewTip(blocks, hash, block, rank);
      } else {
        SameChain(blocks, hash, block, tip, rank);
      }
    }
  }

  /** Other chains do not notice the new hash. */
  lemma {:induction false} SameChain(blocks: Blocks, hash: nat, block: Block, tip: nat, rank: nat -> nat)
    requires Acyclic(blocks, rank) && Acyclic(blocks[hash := block], rank)
    requires tip != hash && hash !in blocks && hash != 0 && forall h :: h in blocks ==> blocks[h].prev != hash
    ensures Chain(blocks[hash := block], tip, rank) == Chain(blocks, tip, rank) && hash !in Chain(blocks, tip, rank)
    ensures Collected(blocks[hash := block], Chain(blocks, tip, rank)) == Collected(blocks, Chain(blocks, tip, rank))
    decreases rank(tip)
  {
    if tip != 0 {
      var grown, prev := blocks[hash := block], Prev(blocks, tip);
      var rest := Chain(blocks, prev, rank);
      SameChain(blocks, hash, block, prev, rank);
      CollectedSplit(blocks, [tip], rest);
      CollectedSplit(grown, [tip], rest);
      CollectedIs(blocks, [tip], 0);
      CollectedIs(grown, [tip], 0);
    }
  }

  lemma NewTip(blocks: Blocks, hash: nat, block: Block, rank: nat -> nat)
    requires Acyclic(blocks, rank) && Acyclic(blocks[hash := block], rank) && GoodChain(blocks, block.prev, rank)
    requires hash != 0 && hash !in blocks && block.prev != hash && forall h :: h in blocks ==> blocks[h].prev != hash
    requires forall k, l :: 0 <= k < l < |block.spends| ==> block.spends[k] != block.spends[l]
    requires forall k :: 0 <= k < |block.spends| ==> block.spends[k] < block.length
    requires forall k, h :: 0 <= k < |block.spends| && h in Chain(blocks, block.prev, rank) && h in blocks ==>
      block.spends[k] !in blocks[h].spends
    requires block.prev in blocks ==> blocks[block.prev].length <= block.length
    ensures GoodChain(blocks[hash := block], hash, rank)
  {
    var grown, rest := blocks[hash := block], Chain(blocks, block.prev, rank);
    var earlier := Collected(blocks, rest);
    ChainOfNew(blocks, hash, block, rank);
    FreshSpends(blocks, rest, block.spends);
    ShorterBefore(blocks, block.prev, block.length, rank);
    hide Collected, Chain, Acyclic;
    DistinctTogether(block.spends, earlier);
    assert Collected(grown, Chain(grown, hash, rank)) == block.spends + earlier;
  }

  lemma ChainOfNew(blocks: Blocks, hash: nat, block: Block, rank: nat -> nat)
    requires Acyclic(blocks, rank) && Acyclic(blocks[hash := block], rank)
    requires hash != 0 && hash !in blocks && block.prev != hash && forall h :: h in blocks ==> blocks[h].prev != hash
    ensures Collected(blocks[hash := block], Chain(blocks[hash := block], hash, rank))
      == block.spends + Collected(blocks, Chain(blocks, block.prev, rank))
  {
    var grown, rest := blocks[hash := block], Chain(blocks, block.prev, rank);
    SameChain(blocks, hash, block, block.prev, rank);
    assert Chain(grown, hash, rank) == [hash] + rest;
    hide Collected, Chain, Acyclic;
    CollectedSplit(grown, [hash], rest);
    CollectedIs(grown, [hash], 0);
  }

  lemma FreshSpends(blocks: Blocks, hashes: seq<nat>, spends: seq<nat>)
    requires forall k, h :: 0 <= k < |spends| && h in hashes && h in blocks ==> spends[k] !in blocks[h].spends
    ensures forall k :: 0 <= k < |spends| ==> spends[k] !in Collected(blocks, hashes)
  {
    hide Collected;
    forall k | 0 <= k < |spends|
      ensures spends[k] !in Collected(blocks, hashes)
    {
      CollectedIs(blocks, hashes, spends[k]);
    }
  }

  lemma ShorterBefore(blocks: Blocks, prev: nat, length: nat, rank: nat -> nat)
    requires Acyclic(blocks, rank) && GoodChain(blocks, prev, rank)
    requires prev in blocks ==> blocks[prev].length <= length
    ensures var earlier := Collected(blocks, Chain(blocks, prev, rank));
      forall k :: 0 <= k < |earlier| ==> earlier[k] < length
  {
  }

  lemma DistinctTogether(a: seq<nat>, b: seq<nat>)
    requires forall k, l :: 0 <= k < l < |a| ==> a[k] != a[l]
    requires forall k, l :: 0 <= k < l < |b| ==> b[k] != b[l]
    requires forall k :: 0 <= k < |a| ==> a[k] !in b
    ensures forall k, l :: 0 <= k < l < |a + b| ==> (a + b)[k] != (a + b)[l]
  {
  }

  /** Replaying gives the length on the record of the tip, and sets exactly the positions that the
      record of some hash of the chain spends. */
  lemma ReplayMeaning(blocks: Blocks, tip: nat, rank: nat -> nat)
    requires Acyclic(blocks, rank) && GoodTree(blocks, rank)
    ensures |Replay(blocks, tip, rank)| == if tip in blocks then blocks[tip].length else 0
    ensures forall i :: 0 <= i < |Replay(blocks, tip, rank)| ==>
      (Replay(blocks, tip, rank)[i] <==>
        exists h :: h in Chain(blocks, tip, rank) && h in blocks && i in blocks[h].spends)
  {
    hide Replay, Chain, Collected, GoodTree;
    ReplayCollected(blocks, tip, rank);
    forall i | 0 <= i < |Replay(blocks, tip, rank)|
      ensures Replay(blocks, tip, rank)[i] <==>
        exists h :: h in Chain(blocks, tip, rank) && h in blocks && i in blocks[h].spends
    {
      CollectedIs(blocks, Chain(blocks, tip, rank), i);
    }
  }

  lemma {:induction false} ReplayCollected(blocks: Blocks, tip: nat, rank: nat -> nat)
    requires Acyclic(blocks, rank) && GoodTree(blocks, rank)
    ensures |Replay(blocks, tip, rank)| == if tip == 0 then 0 else Length(blocks, tip)
    ensures forall i :: 0 <= i < |Replay(blocks, tip, rank)| ==>
        (Replay(blocks, tip, rank)[i] <==> i in Collected(blocks, Chain(blocks, tip, rank)))
    decreases rank(tip)
  {
    if tip != 0 {
      var prev := Prev(blocks, tip);
      ReplayCollected(blocks, prev, rank);
      var earlier := Collected(blocks, Chain(blocks, prev, rank));
      assert GoodChain(blocks, prev, rank);
      assert prev == 0 ==> earlier == [] by { CollectedNone(blocks); }
      CollectedSplit(blocks, [tip], Chain(blocks, prev, rank));
      assert Collected(blocks, [tip]) == Spends(blocks, tip) by { assert [tip][..0] == []; }
      hide Collected, AllAssigned, Resized, GoodTree, GoodChain;
      BitsAfterBlock(Replay(blocks, prev, rank), Length(blocks, tip), Spends(blocks, tip), earlier);
    }
  }

  /** Resizing and setting what a block spends adds exactly that to what was spent before. */
  lemma BitsAfterBlock(before: seq<bool>, length: nat, spends: seq<nat>, earlier: seq<nat>)
    requires forall i :: 0 <= i < |before| ==> (before[i] <==> i in earlier)
    requires forall i :: 0 <= i < |earlier| ==> earlier[i] < |before|
    ensures var after := AllAssigned(Resized(before, length), spends, true);
      |after| == length && forall i :: 0 <= i < length ==> (after[i] <==> i in spends + earlier)
  {
    forall i | 0 <= i < length
      ensures AllAssigned(Resized(before, length), spends, true)[i] <==> i in spends + earlier
    {
      AllAssignedBit(Resized(before, length), spends, true, i);
    }
  }

  /** `ChangeSpentChain` (src/credits/creditutil.cpp:352-376): on a tree without double
      spends, the chain of the start tip becomes the chain that a replay of the
      target from genesis would give. */
  method ChangeSpentChain(chain: BitChain, blocks: Blocks, start: nat, target: nat, ghost rank: nat -> nat)
    returns (ok: bool)
    requires Acyclic(blocks, rank) && GoodTree(blocks, rank)
    requires chain.Valid() && chain.Contents() == Replay(blocks, start, rank)
    modifies chain
    ensures chain.Valid()
    ensures ok <==> WithinReach(Chain(blocks, start, rank), Chain(blocks, target, rank)) && Length(blocks, target) != 0
    ensures ok ==> chain.Contents() == Replay(blocks, target, rank)
    ensures ok ==> target in blocks && |chain.Contents()| == blocks[target].length != 0
    ensures ok ==> forall i :: 0 <= i < |chain.Contents()| ==>
      (chain.Contents()[i] <==>
        exists h :: h in Chain(blocks, target, rank) && h in blocks && i in blocks[h].spends)
    ensures !ok ==> chain.Contents() == old(chain.Contents())
  {
    ReplayMeaning(blocks, target, rank);
    hide WithinReach, AreDifferences, Chain, IsFork, ForkOf, Replay, GoodTree;
    var toSet, toClear;
    ok, toSet, toClear := GetSpentChainDifferences(blocks, start, target, rank);
    if !ok {
      return;
    }
    var length := Length(blocks, target);
    if length == 0 {
      return false;
    }
    chain.SetLength(length);
    SetAll(chain, toSet);
    ClearAll(chain, toClear);
    Reorganised(blocks, start, target, rank, toSet, toClear);
  }

  method SetAll(chain: BitChain, positions: seq<nat>)
    requires chain.Valid()
    modifies chain
    ensures chain.Valid() && chain.Contents() == AllAssigned(old(chain.Contents()), positions, true)
  {
    var i := 0;
    while i < |positions|
      invariant 0 <= i <= |positions| && chain.Valid()
      invariant chain.Contents() == AllAssigned(old(chain.Contents()), positions[..i], true)
    {
      chain.Set(positions[i]);
      assert positions[..i + 1][..i] == positions[..i];
      i := i + 1;
    }
    assert positions[..i] == positions;
  }

  method ClearAll(chain: BitChain, positions: seq<nat>)
    requires chain.Valid()
    modifies chain
    ensures chain.Valid() && chain.Contents() == AllAssigned(old(chain.Contents()), positions, false)
  {
    var i := 0;
    while i < |positions|
      invariant 0 <= i <= |positions| && chain.Valid()
      invariant chain.Contents() == AllAssigned(old(chain.Contents()), positions[..i], false)
    {
      chain.Clear(positions[i]);
      assert positions[..i + 1][..i] == positions[..i];
      i := i + 1;
    }
    assert positions[..i] == positions;
  }

  /** Setting and clearing the differences turns one replay into the other. */
  lemma Reorganised(blocks: Blocks, start: nat, target: nat, rank: nat -> nat, toSet: seq<nat>, toClear: seq<nat>)
    requires Acyclic(blocks, rank) && GoodTree(blocks, rank) && Length(blocks, target) != 0
    requires var s, t := Chain(blocks, start, rank), Chain(blocks, target, rank);
        IsFork(s, t, ForkOf(s, t)) && AreDifferences(blocks, s, t, toSet, toClear)
    ensures AllAssigned(AllAssigned(Resized(Replay(blocks, start, rank), Length(blocks, target)),
        toSet, true), toClear, false)
         == Replay(blocks, target, rank)
  {
    hide Chain, Collected, Replay, AllAssigned, Branch, IsFork, Distance, GoodChain, GoodTree, ForkOf;
    var fork := ForkOf(Chain(blocks, start, rank), Chain(blocks, target, rank));
    var s := Collected(blocks, Branch(Chain(blocks, start, rank), fork));
    var t := Collected(blocks, Branch(Chain(blocks, target, rank), fork));
    var trunk := SplitAtFork(blocks, start, target, rank, fork);
    ReplayCollected(blocks, start, rank);
    ReplayCollected(blocks, target, rank);
    var before, after := Replay(blocks, start, rank), Replay(blocks, target, rank);
    var resized := Resized(before, Length(blocks, target));
    var set1 := AllAssigned(resized, toSet, true);
    var result := AllAssigned(set1, toClear, false);
    forall i | 0 <= i < |result|
      ensures result[i] == after[i]
    {
      AllAssignedBit(resized, toSet, true, i);
      AllAssignedBit(set1, toClear, false, i);
      BranchBit(s, t, trunk, toSet, toClear, i);
    }
  }

  /** What a chain spends is what its branch spends and what the trunk spends, each
      position once and below the length. */
  lemma SplitAtFork(blocks: Blocks, start: nat, target: nat, rank: nat -> nat, fork: nat) returns (trunk: seq<nat>)
    requires Acyclic(blocks, rank) && GoodTree(blocks, rank) && Length(blocks, target) != 0
    requires IsFork(Chain(blocks, start, rank), Chain(blocks, target, rank), fork)
    ensures var s := Collected(blocks, Branch(Chain(blocks, start, rank), fork));
        var t := Collected(blocks, Branch(Chain(blocks, target, rank), fork));
        && Collected(blocks, Chain(blocks, start, rank)) == s + trunk
        && Collected(blocks, Chain(blocks, target, rank)) == t + trunk
        && (forall k, l :: 0 <= k < l < |s + trunk| ==> (s + trunk)[k] != (s + trunk)[l])
        && (forall k, l :: 0 <= k < l < |t + trunk| ==> (t + trunk)[k] != (t + trunk)[l])
        && (forall i :: i in s + trunk ==> i < Length(blocks, start))
    ensures target != 0 && (start == 0 ==> Collected(blocks, Chain(blocks, start, rank)) == [])
  {
    hide Collected, IsFork, Distance;
    var cs, ct := Chain(blocks, start, rank), Chain(blocks, target, rank);
    var d, e := Distance(cs, fork), Distance(ct, fork);
    trunk := Collected(blocks, cs[d..]);
    CommonTrunk(blocks, start, target, rank, fork);
    CollectedSplit(blocks, cs[..d], cs[d..]);
    CollectedSplit(blocks, ct[..e], ct[e..]);
    assert cs == cs[..d] + cs[d..];
    assert ct == ct[..e] + ct[e..];
    assert GoodChain(blocks, start, rank) && GoodChain(blocks, target, rank);
    CollectedNone(blocks);
  }

  /** What is set and cleared, read off the records: what the target chain spends and the start chain
      does not, and the reverse. */
  lemma DifferencesMean(blocks: Blocks, start: nat, target: nat, rank: nat -> nat, toSet: seq<nat>, toClear: seq<nat>,
      i: nat)
    requires Acyclic(blocks, rank) && GoodTree(blocks, rank) && target in blocks && blocks[target].length != 0
    requires var s, t := Chain(blocks, start, rank), Chain(blocks, target, rank);
      IsFork(s, t, ForkOf(s, t)) && AreDifferences(blocks, s, t, toSet, toClear)
    ensures var before := exists h :: h in Chain(blocks, start, rank) && h in blocks && i in blocks[h].spends;
      var after := exists h :: h in Chain(blocks, target, rank) && h in blocks && i in blocks[h].spends;
      (i in toSet <==> after && !before) && (i in toClear <==> before && !after)
  {
    hide Chain, Collected, Branch, IsFork, Distance, GoodTree, ForkOf;
    var cs, ct := Chain(blocks, start, rank), Chain(blocks, target, rank);
    var s, t := Collected(blocks, Branch(cs, ForkOf(cs, ct))), Collected(blocks, Branch(ct, ForkOf(cs, ct)));
    var trunk := SplitAtFork(blocks, start, target, rank, ForkOf(cs, ct));
    CollectedIs(blocks, cs, i);
    CollectedIs(blocks, ct, i);
    OneSided(s, t, trunk, toSet, i);
    OneSided(t, s, trunk, toClear, i);
  }

  lemma OneSided(s: seq<nat>, t: seq<nat>, trunk: seq<nat>, more: seq<nat>, i: nat)
    requires forall k, l :: 0 <= k < l < |s + trunk| ==> (s + trunk)[k] != (s + trunk)[l]
    requires forall k, l :: 0 <= k < l < |t + trunk| ==> (t + trunk)[k] != (t + trunk)[l]
    requires multiset(more) == multiset(t) - multiset(s)
    ensures i in more <==> i in t + trunk && i !in s + trunk
  {
    InMultiset(more, i); InMultiset(s, i); InMultiset(t, i); InMultiset(trunk, i);
    InMultiset(s + trunk, i); InMultiset(t + trunk, i);
    CountDistinct(s + trunk, i); CountDistinct(t + trunk, i);
    assert multiset(s + trunk)[i] == multiset(s)[i] + multiset(trunk)[i];
    assert multiset(t + trunk)[i] == multiset(t)[i] + multiset(trunk)[i];
  }

  /** One position: spent on the target chain if and only if it was spent on the
      start chain or is to be set, and is not to be cleared. */
  lemma BranchBit(s: seq<nat>, t: seq<nat>, trunk: seq<nat>, toSet: seq<nat>, toClear: seq<nat>, i: nat)
    requires forall k, l :: 0 <= k < l < |s + trunk| ==> (s + trunk)[k] != (s + trunk)[l]
    requires forall k, l :: 0 <= k < l < |t + trunk| ==> (t + trunk)[k] != (t + trunk)[l]
    requires multiset(toSet) == multiset(t) - multiset(s)
    requires multiset(toClear) == multiset(s) - multiset(t)
    ensures (i in s + trunk || i in toSet) && i !in toClear <==> i in t + trunk
  {
    CountDistinct(s + trunk, i);
    CountDistinct(t + trunk, i);
    assert multiset(s + trunk) == multiset(s) + multiset(trunk);
    assert multiset(t + trunk) == multiset(t) + multiset(trunk);
    InMultiset(s, i); InMultiset(t, i); InMultiset(trunk, i); InMultiset(toSet, i); InMultiset(toClear, i);
  }

  lemma InMultiset(s: seq<nat>, i: nat)
    ensures i in s <==> multiset(s)[i] > 0
  {
  }

  lemma {:induction false} CountDistinct(s: seq<nat>, i: nat)
    requires forall k, l :: 0 <= k < l < |s| ==> s[k] != s[l]
    ensures multiset(s)[i] <= 1
  {
    if s != [] {
      var n := |s| - 1;
      CountDistinct(s[..n], i);
      assert s == s[..n] + [s[n]];
      if s[n] == i {
        assert i !in s[..n];
        assert i !in multiset(s[..n]);
      }
    }
  }
}
