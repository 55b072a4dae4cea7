/** Hash trees with cached node hashes (src/crypto/hashtrees.h:25-363), for elements of
    size one combined symmetrically, as the ordered trees use them. */
module HashTree {
  import opened Bits

  /** The hash function on 20-byte values, on pairs of them and on byte strings. */
  datatype Hasher = Hasher(of20: nat -> nat, of40: (nat, nat) -> nat, ofBytes: seq<nat> -> nat)

  /** `SymmetricCombine` (src/crypto/hashtrees.h:45-58). */
  function SymmetricCombine(hasher: Hasher, a: nat, b: nat): nat {
    hasher.of40(Xor(a, b), Or(hasher.of20(a), hasher.of20(b)))
  }

  lemma CombineIsSymmetric(hasher: Hasher, a: nat, b: nat)
    ensures SymmetricCombine(hasher, a, b) == SymmetricCombine(hasher, b, a)
  {
    XorCommutes(a, b);
    OrCommutes(hasher.of20(a), hasher.of20(b));
  }

  /** No two pairs have the same hash. */
  ghost predicate PairsTold(hasher: Hasher) {
    forall a, b, c, d :: hasher.of40(a, b) == hasher.of40(c, d) ==> a == c && b == d
  }

  /** Two pairs of hashes combine alike exactly when they differ in the same digits, and their own
      hashes have the same digits between them. */
  lemma CombineExactly(hasher: Hasher, a: nat, b: nat, c: nat, d: nat)
    requires PairsTold(hasher)
    ensures SymmetricCombine(hasher, a, b) == SymmetricCombine(hasher, c, d) <==>
      && DifferAlike(a, b, c, d)
      && HaveAlike(hasher.of20(a), hasher.of20(b), hasher.of20(c), hasher.of20(d))
  {
    hide Xor, Or, DifferAlike, HaveAlike;
    XorEqual(a, b, c, d);
    OrEqual(hasher.of20(a), hasher.of20(b), hasher.of20(c), hasher.of20(d));
  }

  /** With one of its arguments fixed, combining tells every value of the other apart. */
  lemma CombineTellsApart(hasher: Hasher, a: nat, c: nat, h: nat)
    requires PairsTold(hasher)
    ensures SymmetricCombine(hasher, a, h) == SymmetricCombine(hasher, c, h) <==> a == c
  {
    hide Bit;
    if SymmetricCombine(hasher, a, h) == SymmetricCombine(hasher, c, h) {
      CombineExactly(hasher, a, h, c, h);
      SameBits(a, c);
    }
  }

  // ------------------------------------------------------- reference functions

  /** The root of the leaves start..end, split in the middle as long as there are
      more than two. */
  function Root(hasher: Hasher, leaves: seq<nat>, start: nat, end: nat): nat
    requires start < end <= |leaves|
    decreases end - start
  {
    if end > start + 2 then
      var middle := (start + end) / 2;
      SymmetricCombine(hasher, Root(hasher, leaves, start, middle), Root(hasher, leaves, middle, end))
    else if end == start + 1 then leaves[start]
    else SymmetricCombine(hasher, leaves[start], leaves[end - 1])
  }

  /** What a node computes for a given total length of the tree. */
  function HashAt(hasher: Hasher, leaves: seq<nat>, start: nat, end: nat, length: nat): nat
    requires start < end <= |leaves|
    decreases end - start
  {
    if length == 0 then 0
    else if end > start + 2 then
      var middle := (start + end) / 2;
      if length >= middle then
        SymmetricCombine(hasher, HashAt(hasher, leaves, start, middle, length),
            HashAt(hasher, leaves, middle, end, length))
      else HashAt(hasher, leaves, start, middle, length)
    else if end == start + 1 || length < start + 1 then leaves[start]
    else SymmetricCombine(hasher, leaves[start], leaves[end - 1])
  }

  /** With the full length, the nodes compute the root. */
  lemma {:induction false} FullLength(hasher: Hasher, leaves: seq<nat>, start: nat, end: nat, length: nat)
    requires start < end <= |leaves| && length >= end
    ensures HashAt(hasher, leaves, start, end, length) == Root(hasher, leaves, start, end)
    decreases end - start
  {
    if end > start + 2 {
      var middle := (start + end) / 2;
      FullLength(hasher, leaves, start, middle, length);
      FullLength(hasher, leaves, middle, end, length);
    }
  }

  /** For a shorter length the leaves behind it do not matter. */
  lemma {:induction false} HashIgnoresBeyond(hasher: Hasher, leaves: seq<nat>, start: nat, end: nat, length: nat,
      j: nat, x: nat)
    requires start < end <= |leaves| && start <= length < j < |leaves|
    ensures HashAt(hasher, leaves[j := x], start, end, length) == HashAt(hasher, leaves, start, end, length)
    decreases end - start
  {
    hide SymmetricCombine;
    if length > 0 && end > start + 2 {
      var middle := (start + end) / 2;
      HashIgnoresBeyond(hasher, leaves, start, middle, length, j, x);
      if length >= middle {
        HashIgnoresBeyond(hasher, leaves, middle, end, length, j, x);
      }
    }
  }

  /** The siblings of the leaf at `position`, from the bottom up. A position past
      the end counts as the last one. */
  function Siblings(hasher: Hasher, leaves: seq<nat>, start: nat, end: nat, position: nat): seq<nat>
    requires start < end <= |leaves|
    decreases end - start
  {
    if end > start + 2 then
      var middle := (start + end) / 2;
      if position >= middle then
        Siblings(hasher, leaves, middle, end, position) + [Root(hasher, leaves, start, middle)]
      else
        Siblings(hasher, leaves, start, middle, position) + [Root(hasher, leaves, middle, end)]
    else if end == start + 1 then []
    else if position != start then [leaves[start]]
    else [leaves[end - 1]]
  }

  /** A hash combined with the hashes of a branch, in order. */
  function Fold(hasher: Hasher, hash: nat, branch: seq<nat>): nat {
    if branch == [] then hash
    else SymmetricCombine(hasher, Fold(hasher, hash, branch[..|branch| - 1]), branch[|branch| - 1])
  }

  lemma FoldAppend(hasher: Hasher, hash: nat, branch: seq<nat>, h: nat)
    ensures Fold(hasher, hash, branch + [h]) == SymmetricCombine(hasher, Fold(hasher, hash, branch), h)
  {
    assert (branch + [h])[..|branch|] == branch;
  }

  /** A branch takes different leaves to different roots. */
  lemma {:induction false} FoldTellsApart(hasher: Hasher, a: nat, b: nat, branch: seq<nat>)
    requires PairsTold(hasher)
    ensures Fold(hasher, a, branch) == Fold(hasher, b, branch) <==> a == b
  {
    if branch != [] {
      var n := |branch| - 1;
      FoldTellsApart(hasher, a, b, branch[..n]);
      CombineTellsApart(hasher, Fold(hasher, a, branch[..n]), Fold(hasher, b, branch[..n]), branch[n]);
    }
  }

  /** The tree over a list of leaves, without indices: a leaf is its own root, and the root of more
      combines the root of the first half, rounded down, with the root of the rest. */
  function Tree(hasher: Hasher, leaves: seq<nat>): nat
    requires leaves != []
  {
    if |leaves| == 1 then leaves[0]
    else
      var m := |leaves| / 2;
      SymmetricCombine(hasher, Tree(hasher, leaves[..m]), Tree(hasher, leaves[m..]))
  }

  /** The root of a range of leaves is the tree over them. */
  lemma {:induction false} RootIsTree(hasher: Hasher, leaves: seq<nat>, start: nat, end: nat)
    requires start < end <= |leaves|
    ensures Root(hasher, leaves, start, end) == Tree(hasher, leaves[start..end])
    decreases end - start
  {
    hide SymmetricCombine;
    var range, middle := leaves[start..end], (start + end) / 2;
    if end > start + 2 {
      RootIsTree(hasher, leaves, start, middle);
      RootIsTree(hasher, leaves, middle, end);
      Halves(leaves, start, middle, end);
    } else if end == start + 2 {
      assert range[..1] == [leaves[start]] && range[1..] == [leaves[end - 1]];
    }
  }

  lemma Halves(s: seq<nat>, start: nat, middle: nat, end: nat)
    requires start <= middle <= end <= |s| && middle == (start + end) / 2
    ensures middle - start == |s[start..end]| / 2
    ensures s[start..end][..middle - start] == s[start..middle] && s[start..end][middle - start..] == s[middle..end]
  {
  }

  /** The siblings of a leaf do not depend on the leaf. */
  lemma {:induction false} SiblingsIgnoreLeaf(hasher: Hasher, leaves: seq<nat>, start: nat, end: nat, i: nat, x: nat)
    requires start <= i < end <= |leaves|
    ensures Siblings(hasher, leaves[i := x], start, end, i) == Siblings(hasher, leaves, start, end, i)
    decreases end - start
  {
    hide SymmetricCombine;
    var changed := leaves[i := x];
    if end > start + 2 {
      var middle := (start + end) / 2;
      if i >= middle {
        SiblingsIgnoreLeaf(hasher, leaves, middle, end, i, x);
        assert changed[start..middle] == leaves[start..middle];
        RootIsTree(hasher, changed, start, middle);
        RootIsTree(hasher, leaves, start, middle);
      } else {
        SiblingsIgnoreLeaf(hasher, leaves, start, middle, i, x);
        assert changed[middle..end] == leaves[middle..end];
        RootIsTree(hasher, changed, middle, end);
        RootIsTree(hasher, leaves, middle, end);
      }
    }
  }

  /** Changing a leaf changes the root. */
  lemma RootBindsLeaf(hasher: Hasher, leaves: seq<nat>, i: nat, x: nat)
    requires PairsTold(hasher) && i < |leaves|
    ensures Root(hasher, leaves[i := x], 0, |leaves|) == Root(hasher, leaves, 0, |leaves|) <==> x == leaves[i]
  {
    var changed := leaves[i := x];
    BranchReachesRoot(hasher, leaves, 0, |leaves|, i);
    BranchReachesRoot(hasher, changed, 0, |leaves|, i);
    SiblingsIgnoreLeaf(hasher, leaves, 0, |leaves|, i, x);
    FoldTellsApart(hasher, x, leaves[i], Siblings(hasher, leaves, 0, |leaves|, i));
    if x == leaves[i] {
      assert changed == leaves;
    }
  }

  /** Merkle completeness: every leaf folds with its siblings to the root. */
  lemma {:induction false} BranchReachesRoot(hasher: Hasher, leaves: seq<nat>, start: nat, end: nat, position: nat)
    requires start <= position < end <= |leaves|
    ensures Fold(hasher, leaves[position], Siblings(hasher, leaves, start, end, position))
         == Root(hasher, leaves, start, end)
    decreases end - start
  {
    if end > start + 2 {
      var middle := (start + end) / 2;
      var left, right := Root(hasher, leaves, start, middle), Root(hasher, leaves, middle, end);
      CombineIsSymmetric(hasher, left, right);
      if position >= middle {
        BranchReachesRoot(hasher, leaves, middle, end, position);
        FoldAppend(hasher, leaves[position], Siblings(hasher, leaves, middle, end, position), left);
      } else {
        BranchReachesRoot(hasher, leaves, start, middle, position);
        FoldAppend(hasher, leaves[position], Siblings(hasher, leaves, start, middle, position), right);
      }
    } else if end == start + 2 {
      CombineIsSymmetric(hasher, leaves[start], leaves[end - 1]);
      FoldAppend(hasher, leaves[position], [], if position != start then leaves[start] else leaves[end - 1]);
    }
  }

  // ------------------------------------------------------------------- nodes

  /** `HashNode`: its place in the tree never changes, its cache does. */
  class HashNode {
    const hasher: Hasher
    const leaves: seq<nat>
    const start: nat
    const middle: nat
    const end: nat
    const child1: HashNode?
    const child2: HashNode?
    ghost const Repr: set<HashNode>
    var totalLength: nat
    var hash: nat
    var upToDate: bool

    ghost predicate Shape()
      decreases end - start
    {
      && start < end <= |leaves|
      && this in Repr
      && if end > start + 2 then
           && middle == (start + end) / 2
           && child1 != null && child2 != null
           && child1.hasher == child2.hasher == hasher && child1.leaves == child2.leaves == leaves
           && child1.start == start && child1.end == middle && child2.start == middle && child2.end == end
           && this !in child1.Repr && this !in child2.Repr && child1.Repr !! child2.Repr
           && Repr == {this} + child1.Repr + child2.Repr
           && child1.Shape() && child2.Shape()
         else middle == 0
    }

    /** Cached hashes are right, and below a node that is up to date for a length
        that reaches its second half, so are the children. */
    ghost predicate Cached()
      requires Shape()
      reads Repr
      decreases end - start
    {
      && (upToDate ==> totalLength > 0 && hash == HashAt(hasher, leaves, start, end, totalLength))
      && (middle != 0 ==> child1.Cached() && child2.Cached())
      && (middle != 0 && upToDate && totalLength >= middle ==>
            && child1.upToDate && child1.totalLength == totalLength
            && child2.upToDate && child2.totalLength == totalLength)
    }

    constructor (hasher: Hasher, leaves: seq<nat>, start: nat, end: nat)
      requires start < end <= |leaves|
      ensures this.hasher == hasher && this.leaves == leaves && this.start == start && this.end == end
      ensures Shape() && fresh(Repr) && Cached() && totalLength == 0 && !upToDate
      decreases end - start
    {
      this.hasher, this.leaves, this.start, this.end := hasher, leaves, start, end;
      totalLength, hash, upToDate := 0, 0, false;
      if end > start + 2 {
        var m := (end + start) / 2;
        var c1 := new HashNode(hasher, leaves, start, m);
        var c2 := new HashNode(hasher, leaves, m, end);
        this.middle, child1, child2 := m, c1, c2;
        Repr := {this} + c1.Repr + c2.Repr;
      } else {
        this.middle, child1, child2 := 0, null, null;
        Repr := {this};
      }
    }

    /** `HashNode::Hash` (src/crypto/hashtrees.h:221-259). */
    method Hash(length: nat) returns (h: nat)
      requires Shape() && Cached()
      modifies Repr
      ensures Cached()
      ensures h == HashAt(hasher, leaves, start, end, length)
      ensures length > 0 ==> upToDate && totalLength == length
      ensures length == 0 ==> upToDate == old(upToDate) && totalLength == old(totalLength)
      decreases end - start, 1
    {
      hide SymmetricCombine;
      if length == 0 {
        return 0;
      }
      if upToDate && length == totalLength {
        return hash;
      }
      totalLength := length;
      if middle != 0 {
        hash := HashOfChildren(length);
      } else {
        if end == start + 1 || length < start + 1 {
          hash := leaves[start];
        } else {
          hash := SymmetricCombine(hasher, leaves[start], leaves[end - 1]);
        }
      }
      upToDate := true;
      h := hash;
    }

    /** The branch of `Hash` for a node with children. */
    method HashOfChildren(length: nat) returns (h: nat)
      requires Shape() && middle != 0 && length > 0
      requires child1.Cached() && child2.Cached()
      modifies child1.Repr, child2.Repr
      ensures child1.Cached() && child2.Cached()
      ensures h == HashAt(hasher, leaves, start, end, length)
      ensures length >= middle ==>
          && child1.upToDate && child1.totalLength == length
          && child2.upToDate && child2.totalLength == length
      decreases end - start, 0
    {
      hide SymmetricCombine;
      if length >= middle {
        var hash1 := child1.Hash(length);
        var hash2 := child2.Hash(length);
        h := SymmetricCombine(hasher, hash1, hash2);
      } else {
        h := child1.Hash(length);
      }
    }

    /** `HashNode::Branch` (src/crypto/hashtrees.h:262-292), on a node hashed for the
        whole length. */
    method Branch(position: nat) returns (branch: seq<nat>)
      requires Shape() && Cached() && upToDate && totalLength >= end
      modifies Repr
      ensures Cached() && upToDate && totalLength == old(totalLength)
      ensures branch == Siblings(hasher, leaves, start, end, position)
      decreases end - start
    {
      branch := [];
      if middle != 0 {
        var h;
        if position >= middle {
          branch := child2.Branch(position);
          h := child1.Hash(totalLength);
          FullLength(hasher, leaves, start, middle, totalLength);
        } else {
          branch := child1.Branch(position);
          h := child2.Hash(totalLength);
          FullLength(hasher, leaves, middle, end, totalLength);
        }
        branch := branch + [h];
      } else {
        if end == start + 1 {
          return;
        }
        if position != start {
          branch := branch + [leaves[start]];
        } else {
          branch := branch + [leaves[end - 1]];
        }
      }
    }
  }
}
