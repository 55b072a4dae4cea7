/** Batches of credits (src/credits/CreditBatch.cpp) and the verification of the
    branches they hand out (src/crypto/hashtrees.h:841-861). Credits are the byte
    strings they serialize to. */
module CreditBatch {
  import opened HashTree
  import opened OrderedTree

  /** `EvaluateBranchWithHash` (src/crypto/hashtrees.h:841-848): all but the last hash of
      the branch are combined in. */
  method EvaluateBranchWithHash(hasher: Hasher, branch: seq<nat>, hash0: nat, startPosition: nat) returns (hash: nat)
    ensures hash == if startPosition + 1 < |branch|
        then Fold(hasher, hash0, branch[startPosition..|branch| - 1]) else hash0
  {
    hash := hash0;
    var k := startPosition;
    while k + 1 < |branch|
      invariant startPosition <= k
      invariant k < |branch| ==> hash == Fold(hasher, hash0, branch[startPosition..k])
      invariant k >= |branch| ==> k == startPosition && hash == hash0
    {
      assert branch[startPosition..k + 1] == branch[startPosition..k] + [branch[k]];
      FoldAppend(hasher, hash0, branch[startPosition..k], branch[k]);
      hash := SymmetricCombine(hasher, hash, branch[k]);
      k := k + 1;
    }
  }

  /** A branch proves that the element is committed to by the root. */
  predicate Proves(hasher: Hasher, position: nat, element: Data, branch: seq<nat>, root: nat) {
    && branch != [] && branch[|branch| - 1] == root
    && Fold(hasher, LeafHash(hasher, position, element), branch[..|branch| - 1]) == root
  }

  /** `VerifyBranchFromOrderedHashTree` (src/crypto/hashtrees.h:850-861). */
  method VerifyBranch(hasher: Hasher, position: nat, element: Data, branch: seq<nat>, root: nat) returns (ok: bool)
    ensures ok <==> Proves(hasher, position, element, branch, root)
  {
    if |branch| == 0 || root != branch[|branch| - 1] {
      return false;
    }
    var hash := LeafHash(hasher, position, element);
    var result := EvaluateBranchWithHash(hasher, branch, hash, 0);
    if |branch| == 1 {
      assert branch[..0] == [];
    }
    ok := result == root;
  }

  /** The root of a batch: the previous credit hash and the set of credits. */
  function BatchRoot(hasher: Hasher, previous: nat, credits: seq<Data>, offset: nat): nat {
    SymmetricCombine(hasher, previous, RootOf(hasher, credits, offset))
  }

  /** The root does not depend on the order in which the credits were added. */
  lemma RootIgnoresOrder(hasher: Hasher, previous: nat, a: seq<Data>, b: seq<Data>, offset: nat)
    requires multiset(a) == multiset(b) && NoCollisions(hasher, a)
    ensures BatchRoot(hasher, previous, a, offset) == BatchRoot(hasher, previous, b, offset)
  {
    OrderIndependent(hasher, a, b);
  }

  /** Siblings, previous hash and root make a branch that verifies. */
  lemma CompleteBranchProves(hasher: Hasher, leaves: seq<nat>, i: nat, previous: nat, position: nat, data: Data)
    requires i < |leaves| && leaves[i] == LeafHash(hasher, position, data)
    ensures var root := SymmetricCombine(hasher, previous, Root(hasher, leaves, 0, |leaves|));
        Proves(hasher, position, data, Siblings(hasher, leaves, 0, |leaves|, i) + [previous, root], root)
  {
    var siblings := Siblings(hasher, leaves, 0, |leaves|, i);
    var treeRoot := Root(hasher, leaves, 0, |leaves|);
    var root := SymmetricCombine(hasher, previous, treeRoot);
    var branch := siblings + [previous, root];
    BranchReachesRoot(hasher, leaves, 0, |leaves|, i);
    FoldAppend(hasher, leaves[i], siblings, previous);
    CombineIsSymmetric(hasher, previous, treeRoot);
    assert branch[..|branch| - 1] == siblings + [previous];
  }

  /** A branch that verifies at one position verifies at every other one that differs only in
      bytes the data overwrite: of data of four bytes or more, the proof does not bind the position. */
  lemma PositionIsNotBound(hasher: Hasher, p: nat, q: nat, data: Data, branch: seq<nat>, root: nat)
    requires PositionLeft(p, |data|) == PositionLeft(q, |data|)
    ensures Proves(hasher, p, data, branch, root) <==> Proves(hasher, q, data, branch, root)
  {
    LeafIgnoresPosition(p, q, data);
  }

  /** A branch proves at most one leaf for a root. */
  lemma BranchBindsLeaf(hasher: Hasher, p: nat, a: Data, q: nat, b: Data, branch: seq<nat>, root: nat)
    requires PairsTold(hasher) && Proves(hasher, p, a, branch, root)
    ensures Proves(hasher, q, b, branch, root) <==> LeafHash(hasher, p, a) == LeafHash(hasher, q, b)
  {
    FoldTellsApart(hasher, LeafHash(hasher, p, a), LeafHash(hasher, q, b), branch[..|branch| - 1]);
  }

  /** And so, with hashes that tell byte strings apart, at most one element of four bytes or more:
      every other one is refused. */
  lemma BranchBindsElement(hasher: Hasher, p: nat, a: Data, q: nat, b: Data, branch: seq<nat>, root: nat)
    requires PairsTold(hasher) && forall x, y :: hasher.ofBytes(x) == hasher.ofBytes(y) ==> x == y
    requires Proves(hasher, p, a, branch, root) && |a| >= 4 && |b| >= 4
    ensures Proves(hasher, q, b, branch, root) <==> a == b
  {
    BranchBindsLeaf(hasher, p, a, q, b, branch, root);
    LeafHashIs(hasher, p, a);
    LeafHashIs(hasher, q, b);
    if a + [0, 0, 0, 0] == b + [0, 0, 0, 0] {
      assert a == (a + [0, 0, 0, 0])[..|a|] == (b + [0, 0, 0, 0])[..|b|] == b;
    }
  }

  /** The root of a batch binds the previous credit hash. */
  lemma RootBindsPrevious(hasher: Hasher, previous: nat, other: nat, credits: seq<Data>, offset: nat)
    requires PairsTold(hasher)
    ensures BatchRoot(hasher, previous, credits, offset) == BatchRoot(hasher, other, credits, offset)
      <==> previous == other
  {
    CombineTellsApart(hasher, previous, other, RootOf(hasher, credits, offset));
  }

  class CreditBatch {
    const hasher: Hasher
    const previousCreditHash: nat
    const tree: OrderedHashTree
    var credits: seq<Data>
    var serialized: seq<Data>

    ghost predicate Valid()
      reads this, tree, tree.Repr
    {
      && tree.Valid() && this !in tree.Repr && tree.hasher == hasher
      && multiset(serialized) == multiset(Datas(tree.elements)) && |serialized| == |tree.elements|
    }

    /** The tree, if there is one, covers all the credits added so far. */
    ghost predicate Current()
      reads this, tree
    {
      !tree.Stale() && (tree.built ==> tree.positionsAssigned)
    }

    constructor (hasher: Hasher, previousCreditHash: nat, offset: nat)
      ensures Valid() && Current() && fresh(tree) && fresh(tree.Repr)
      ensures serialized == [] && credits == [] && tree.offset == offset && !tree.built && !tree.positionsAssigned
      ensures this.previousCreditHash == previousCreditHash && this.hasher == hasher
    {
      this.hasher, this.previousCreditHash := hasher, previousCreditHash;
      credits, serialized := [], [];
      tree := new OrderedHashTree(hasher, offset);
    }

    /** `CreditBatch::Add` (src/credits/CreditBatch.cpp:65-77). */
    method Add(credit: Data) returns (added: bool)
      requires Valid()
      modifies this, tree
      ensures Valid() && tree.Repr == old(tree.Repr)
      ensures credits == old(credits) + [credit]
      ensures added <==> credit !in old(serialized)
      ensures serialized == if added then old(serialized) + [credit] else old(serialized)
      ensures !added ==> Current() == old(Current()) && tree.built == old(tree.built)
      ensures added ==> tree.built == old(tree.built) && !tree.positionsAssigned
      ensures tree.root == old(tree.root)
    {
      credits := credits + [credit];
      if credit in serialized {
        return false;
      }
      serialized := serialized + [credit];
      tree.AddElement(credit);
      assert Datas(tree.elements) == old(Datas(tree.elements)) + [credit];
      added := true;
    }

    /** `CreditBatch::Root` (src/credits/CreditBatch.cpp:92-97). */
    method GetRoot() returns (root: nat)
      requires Valid() && NoCollisions(hasher, serialized)
      requires tree.built && tree.positionsAssigned && tree.root == null ==> tree.elements == []
      modifies tree.Repr
      ensures Valid() && fresh(tree.Repr - old(tree.Repr))
      ensures tree.built && tree.positionsAssigned && (tree.root == null ==> tree.elements == [])
      ensures tree.Stale() == old(tree.Stale())
      ensures !old(tree.Stale()) ==> root == BatchRoot(hasher, previousCreditHash, serialized, tree.offset)
      ensures root == SymmetricCombine(hasher, previousCreditHash, TreeRoot(hasher, tree.BuiltLeaves()))
      ensures old(tree.built && tree.positionsAssigned) ==>
          tree.root == old(tree.root) && tree.elements == old(tree.elements)
    {
      hide NoCollisions, DataHash, SortData;
      CollisionsIgnoreOrder(hasher, serialized, Datas(tree.elements));
      OrderIndependent(hasher, serialized, Datas(tree.elements));
      PlacedFacts(hasher, tree.elements, tree.offset);
      var treeRoot := tree.GetRoot();
      root := SymmetricCombine(hasher, previousCreditHash, treeRoot);
    }

    /** `CreditBatch::Position` (src/credits/CreditBatch.cpp:99-102). */
    method Position(credit: Data) returns (position: int, ghost i: nat)
      requires Valid() && NoCollisions(hasher, serialized)
      modifies tree
      ensures Valid() && tree.Repr == old(tree.Repr) && tree.positionsAssigned
      ensures credit !in serialized ==> position == -1
      ensures credit in serialized ==>
          i < |tree.elements| && tree.elements[i].data == credit && position == ToInt32(tree.offset + i)
      ensures Current() <==> old(Current())
      ensures tree.built == old(tree.built) && |tree.elements| == |old(tree.elements)|
      ensures tree.root == old(tree.root)
    {
      hide NoCollisions, DataHash, SortData, ToInt32, Leaves;
      CollisionsIgnoreOrder(hasher, serialized, Datas(tree.elements));
      PlacedFacts(hasher, tree.elements, tree.offset);
      position, i := tree.GetPosition(credit);
      SameMember(serialized, Datas(tree.elements), credit);
    }

    /** `CreditBatch::GetCredit` (src/credits/CreditBatch.cpp:104-107). */
    method GetCredit(position: nat) returns (credit: Data)
      requires Valid() && Slot(position, tree.offset) < |tree.elements|
      ensures credit == tree.elements[Slot(position, tree.offset)].data
    {
      credit := tree.GetData(position);
    }

    /** `CreditBatch::Branch` (src/credits/CreditBatch.cpp:114-128). As long as nothing
        was added behind a tree already built, the branch of every credit
        verifies against the root. */
    method Branch(credit: Data) returns (branch: seq<nat>, ghost position: nat)
      requires Valid() && Current() && credit in serialized && NoCollisions(hasher, serialized)
      requires tree.offset + |tree.elements| <= TWO_32
      modifies tree, tree.Repr
      ensures Valid() && Current() && fresh(tree.Repr - old(tree.Repr))
      ensures tree.offset <= position < tree.offset + |tree.elements|
      ensures tree.elements[position - tree.offset].data == credit
      ensures Proves(hasher, position, credit, branch, BatchRoot(hasher, previousCreditHash, serialized, tree.offset))
    {
      hide NoCollisions, DataHash, SortData, LeafHash, Root, Siblings, SymmetricCombine, Proves, RootOf;
      hide Datas, Leaves;
      branch, position := TreeBranch(credit);
      ghost var leaves := tree.BuiltLeaves();
      var root := GetRoot();
      CompleteBranchProves(hasher, leaves, position - tree.offset, previousCreditHash, position, credit);
      branch := branch + [previousCreditHash, root];
    }

    /** The siblings of a credit in an up-to-date tree. */
    method TreeBranch(credit: Data) returns (branch: seq<nat>, ghost position: nat)
      requires Valid() && Current() && credit in serialized && NoCollisions(hasher, serialized)
      requires tree.offset + |tree.elements| <= TWO_32
      modifies tree, tree.Repr
      ensures Valid() && Current() && fresh(tree.Repr - old(tree.Repr))
      ensures tree.built && tree.positionsAssigned && tree.root != null
      ensures tree.offset <= position < tree.offset + |tree.elements|
      ensures tree.elements[position - tree.offset].data == credit
      ensures |tree.BuiltLeaves()| == |tree.elements| == |old(tree.elements)|
      ensures tree.BuiltLeaves()[position - tree.offset] == LeafHash(hasher, position, credit)
      ensures branch == Siblings(hasher, tree.BuiltLeaves(), 0, |tree.BuiltLeaves()|, position - tree.offset)
    {
      hide NoCollisions, DataHash, SortData, LeafHash, Siblings, ToInt32, ToUint32, Slot, Datas;
      var p, i := Position(credit);
      position := tree.offset + i;
      CollisionsIgnoreOrder(hasher, serialized, Datas(tree.elements));
      PlacedFacts(hasher, tree.elements, tree.offset);
      branch := tree.GetBranch(ToUint32(p));
      SlotOfPosition(position, tree.offset);
    }
  }

  lemma SameMember(a: seq<Data>, b: seq<Data>, d: Data)
    requires multiset(a) == multiset(b)
    ensures d in a <==> d in b
  {
    assert d in multiset(a) <==> d in multiset(b);
  }

  /** A position below 2^32 survives its conversions. */
  lemma SlotOfPosition(position: nat, offset: nat)
    requires offset <= position < TWO_32
    ensures Slot(ToUint32(ToInt32(position)), offset) == position - offset
  {
    RoundTrip32(position);
    SlotIsExact(position, offset);
  }

  /** Assigned positions are consecutive from the offset, and looking a credit up by the position
      handed out for it gives the credit back exactly when the position is below 2^32. */
  lemma PositionThenCredit(hasher: Hasher, ds: seq<Data>, offset: nat, i: nat)
    requires NoCollisions(hasher, ds) && i < |ds| && offset + |ds| <= TWO_64
    ensures var placed := Placed(SortData(hasher, ds), offset);
      && |placed| == |ds| && multiset(Datas(placed)) == multiset(ds) && placed[i].position == offset + i
      && var slot := Slot(ToUint32(ToInt32(placed[i].position)), offset);
         && (slot == i <==> placed[i].position < TWO_32)
         && (placed[i].position < TWO_32 ==> placed[slot].data == placed[i].data)
  {
    hide SortData, NoCollisions, DataHash;
    SortDataPermutes(hasher, ds);
    var placed := Placed(SortData(hasher, ds), offset);
    assert Datas(placed) == SortData(hasher, ds);
    SlotIsExact(offset + i, offset);
    RoundTrip32(offset + i);
  }

  /** The exception to `Branch` and `GetRoot`: asking for a position after a late
      addition makes the batch keep the root it had before the addition. */
  method LateAddition(hasher: Hasher, previous: nat, offset: nat, first: Data, second: Data)
    returns (batch: CreditBatch, early: nat, late: nat)
    requires DataHash(hasher, first) != DataHash(hasher, second)
    ensures fresh(batch) && batch.Valid() && batch.serialized == [first, second]
    ensures early == late == SymmetricCombine(hasher, previous, LeafHash(hasher, offset, first))
  {
    OneAndTwo(hasher, first, second);
    hide SymmetricCombine, LeafHash, DataHash, SortData, RootOf, ToInt32, NoCollisions;
    batch := new CreditBatch(hasher, previous, offset);
    var added := batch.Add(first);
    early := batch.GetRoot();
    SingleRoot(hasher, first, offset);
    assert batch.serialized == [first];
    late := RootAfterLateAddition(batch, second);
  }

  lemma OneAndTwo(hasher: Hasher, first: Data, second: Data)
    requires DataHash(hasher, first) != DataHash(hasher, second)
    ensures NoCollisions(hasher, [first]) && NoCollisions(hasher, [first] + [second]) && first != second
  {
  }

  /** Adding a credit behind a tree already built and then asking for its position leaves
      the root the batch had before. */
  method RootAfterLateAddition(batch: CreditBatch, credit: Data) returns (late: nat)
    requires batch.Valid() && credit !in batch.serialized
    requires NoCollisions(batch.hasher, batch.serialized + [credit])
    requires batch.tree.built && batch.tree.root != null
    modifies batch, batch.tree, batch.tree.Repr
    ensures batch.Valid() && batch.serialized == old(batch.serialized) + [credit]
    ensures late == SymmetricCombine(batch.hasher, batch.previousCreditHash,
        old(TreeRoot(batch.hasher, batch.tree.BuiltLeaves())))
  {
    hide SymmetricCombine, LeafHash, DataHash, SortData, RootOf, ToInt32, TreeRoot, NoCollisions;
    var added := batch.Add(credit);
    var p, i := batch.Position(credit);
    late := batch.GetRoot();
  }

  lemma SingleRoot(hasher: Hasher, data: Data, offset: nat)
    ensures RootOf(hasher, [data], offset) == LeafHash(hasher, offset, data)
  {
    assert [data][1..] == [];
    assert SortData(hasher, [data]) == [data];
  }
}
