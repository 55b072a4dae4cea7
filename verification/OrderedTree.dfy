/** Hash trees over data in the order of their hashes (src/crypto/hashtrees.h:686-861). */
module OrderedTree {
  import opened HashTree
  import opened Modular
  import opened Quotients

  type Data = seq<nat>

  datatype Element = Element(position: nat, data: Data)

  const TWO_32 := 0x1_0000_0000
  const TWO_64 := 0x1_0000_0000_0000_0000

  // --------------------------------------------------------------- leaf hashes

  function ZeroBytes(n: nat): (z: Data)
    ensures |z| == n && forall i :: 0 <= i < n ==> z[i] == 0
  {
    seq(n, i => 0)
  }

  /** The low four bytes of a position. */
  function PositionBytes(position: nat): (b: Data)
    ensures |b| == 4
  {
    [position % 0x100, position / 0x100 % 0x100, position / 0x1_0000 % 0x100, position / 0x100_0000 % 0x100]
  }

  /** The lowest byte comes first, and together they are the position modulo 2^32. */
  lemma PositionBytesValue(position: nat)
    ensures var b := PositionBytes(position);
      && (forall i :: 0 <= i < 4 ==> 0 <= b[i] < 0x100)
      && b[0] + 0x100 * b[1] + 0x1_0000 * b[2] + 0x100_0000 * b[3] == position % 0x1_0000_0000
  {
    NextByte(position, 1, 0x100);
    NextByte(position, 0x100, 0x1_0000);
    NextByte(position, 0x1_0000, 0x100_0000);
    NextByte(position, 0x100_0000, 0x1_0000_0000);
  }

  /** Dividing by one more byte. */
  lemma NextByte(x: nat, unit: nat, next: nat)
    requires unit >= 1 && next == 0x100 * unit
    ensures x / unit == 0x100 * (x / next) + x / unit % 0x100
  {
    var q, r := x / unit, x % unit;
    var k, b := q / 0x100, q % 0x100;
    assert x == q * unit + r == (k * 0x100 + b) * unit + r;
    assert (k * 0x100 + b) * unit == k * next + b * unit;
    MulMonotone(b, 0xFF, unit);
    assert b * unit + r < next;
    UniqueQuotient(x / next, x % next, k, b * unit + r, next);
  }

  /** `memcpy` to the front of a buffer. */
  function CopyTo(buffer: Data, bytes: Data): (r: Data)
    requires |bytes| <= |buffer|
    ensures |r| == |buffer|
  {
    bytes + buffer[|bytes|..]
  }

  /** What is hashed for a leaf: the position is copied to the front, and then the data are copied
      there too. */
  function LeafBytes(position: nat, data: Data): Data {
    CopyTo(CopyTo(ZeroBytes(4 + |data|), PositionBytes(position)), data)
  }

  /** `OrderedDataElement::Hash` (src/crypto/hashtrees.h:718-727). */
  function LeafHash(hasher: Hasher, position: nat, data: Data): nat {
    hasher.ofBytes(LeafBytes(position, data))
  }

  /** The bytes of the position that data of some length do not overwrite. */
  function PositionLeft(position: nat, length: nat): Data {
    if length >= 4 then [] else PositionBytes(position)[length..]
  }

  /** A leaf tells two positions apart exactly when they differ in the bytes that the data do not
      overwrite; data of four bytes or more overwrite them all. */
  lemma LeafIgnoresPosition(p: nat, q: nat, data: Data)
    ensures LeafBytes(p, data) == LeafBytes(q, data) <==> PositionLeft(p, |data|) == PositionLeft(q, |data|)
    ensures |data| >= 4 ==> LeafBytes(p, data) == data + [0, 0, 0, 0]
  {
    assert ZeroBytes(4) == [0, 0, 0, 0];
    LeafLayout(p, data);
    LeafLayout(q, data);
    hide LeafBytes, PositionLeft;
    SameEnds(data, PositionLeft(p, |data|), PositionLeft(q, |data|), ZeroBytes(if |data| < 4 then |data| else 4));
  }

  /** So the hash of such a leaf is the hash of the data followed by four zero bytes. */
  lemma LeafHashIs(hasher: Hasher, position: nat, data: Data)
    requires |data| >= 4
    ensures LeafHash(hasher, position, data) == hasher.ofBytes(data + [0, 0, 0, 0])
  {
    LeafIgnoresPosition(position, position, data);
  }

  lemma LeafLayout(position: nat, data: Data)
    ensures |PositionLeft(position, |data|)| == if |data| < 4 then 4 - |data| else 0
    ensures LeafBytes(position, data)
      == data + PositionLeft(position, |data|) + ZeroBytes(if |data| < 4 then |data| else 4)
  {
    var n := |data|;
    var first, zeros := PositionBytes(position), ZeroBytes(4 + n);
    hide PositionBytes;
    var buffer := CopyTo(zeros, first);
    if n < 4 {
      assert zeros[4..] == ZeroBytes(n);
      assert buffer[n..] == first[n..] + ZeroBytes(n);
      assert data + first[n..] + ZeroBytes(n) == data + (first[n..] + ZeroBytes(n));
    } else {
      assert buffer[n..] == ZeroBytes(4);
      assert data + [] + ZeroBytes(4) == data + ZeroBytes(4);
    }
  }

  lemma SameEnds(front: Data, a: Data, b: Data, back: Data)
    requires |a| == |b|
    ensures front + a + back == front + b + back <==> a == b
  {
    if front + a + back == front + b + back {
      forall i | 0 <= i < |a|
        ensures a[i] == b[i]
      {
        assert (front + a + back)[|front| + i] == a[i] && (front + b + back)[|front| + i] == b[i];
      }
    }
  }

  function DataHash(hasher: Hasher, data: Data): nat {
    hasher.ofBytes(data)
  }

  // ------------------------------------------------------------------- sorting

  function InsertHash(h: nat, hs: seq<nat>): seq<nat> {
    if hs == [] || h <= hs[0] then [h] + hs else [hs[0]] + InsertHash(h, hs[1..])
  }

  function SortHashes(hs: seq<nat>): seq<nat> {
    if hs == [] then [] else InsertHash(hs[0], SortHashes(hs[1..]))
  }

  function InsertData(hasher: Hasher, d: Data, ds: seq<Data>): seq<Data> {
    if ds == [] || DataHash(hasher, d) <= DataHash(hasher, ds[0]) then [d] + ds
    else [ds[0]] + InsertData(hasher, d, ds[1..])
  }

  /** The data in the order of their hashes. */
  function SortData(hasher: Hasher, ds: seq<Data>): seq<Data> {
    if ds == [] then [] else InsertData(hasher, ds[0], SortData(hasher, ds[1..]))
  }

  function Hashes(hasher: Hasher, ds: seq<Data>): (hs: seq<nat>)
    ensures |hs| == |ds| && forall i :: 0 <= i < |ds| ==> hs[i] == DataHash(hasher, ds[i])
  {
    seq(|ds|, i requires 0 <= i < |ds| => DataHash(hasher, ds[i]))
  }

  ghost predicate NoCollisions(hasher: Hasher, ds: seq<Data>) {
    forall i, j :: 0 <= i < j < |ds| ==> DataHash(hasher, ds[i]) != DataHash(hasher, ds[j])
  }

  /** Taking out an element that stands first in one list and somewhere in another. */
  lemma TakeOut(a: seq<Data>, b: seq<Data>) returns (k: nat, rest: seq<Data>)
    requires a != [] && multiset(a) == multiset(b)
    ensures k < |b| && b[k] == a[0] && rest == b[..k] + b[k + 1..] && multiset(rest) == multiset(a[1..])
  {
    assert a == [a[0]] + a[1..];
    assert a[0] in multiset(b);
    k :| 0 <= k < |b| && b[k] == a[0];
    rest := b[..k] + b[k + 1..];
    assert b == b[..k] + [b[k]] + b[k + 1..];
    assert multiset(b) == multiset(rest) + multiset{a[0]};
    assert multiset(rest) == multiset(b) - multiset{a[0]};
    assert multiset(a) == multiset{a[0]} + multiset(a[1..]);
    assert multiset(a[1..]) == multiset(a) - multiset{a[0]};
  }

  /** Whether hashes collide does not depend on the order. */
  lemma {:induction false} CollisionsIgnoreOrder(hasher: Hasher, a: seq<Data>, b: seq<Data>)
    requires multiset(a) == multiset(b) && NoCollisions(hasher, a)
    ensures NoCollisions(hasher, b)
    decreases |a|
  {
    if a == [] {
      assert |b| == |multiset(b)|;
    } else {
      hide DataHash;
      var k, rest := TakeOut(a, b);
      CollisionsIgnoreOrder(hasher, a[1..], rest);
      forall j | 0 <= j < |rest|
        ensures DataHash(hasher, rest[j]) != DataHash(hasher, a[0])
      {
        assert rest[j] in multiset(a[1..]);
      }
      PutBack(hasher, b, k, rest);
    }
  }

  lemma PutBack(hasher: Hasher, b: seq<Data>, k: nat, rest: seq<Data>)
    requires k < |b| && rest == b[..k] + b[k + 1..] && NoCollisions(hasher, rest)
    requires forall j :: 0 <= j < |rest| ==> DataHash(hasher, rest[j]) != DataHash(hasher, b[k])
    ensures NoCollisions(hasher, b)
  {
    hide DataHash;
    forall i, j | 0 <= i < j < |b|
      ensures DataHash(hasher, b[i]) != DataHash(hasher, b[j])
    {
      var i', j' := if i < k then i else i - 1, if j < k then j else j - 1;
      assert i != k ==> b[i] == rest[i'];
      assert j != k ==> b[j] == rest[j'];
    }
  }

  predicate Increasing(hs: seq<nat>) {
    forall i, j :: 0 <= i < j < |hs| ==> hs[i] < hs[j]
  }

  lemma {:induction false} InsertDataHashes(hasher: Hasher, d: Data, ds: seq<Data>)
    ensures Hashes(hasher, InsertData(hasher, d, ds)) == InsertHash(DataHash(hasher, d), Hashes(hasher, ds))
  {
    if ds != [] && DataHash(hasher, d) > DataHash(hasher, ds[0]) {
      InsertDataHashes(hasher, d, ds[1..]);
      assert Hashes(hasher, ds)[1..] == Hashes(hasher, ds[1..]);
    }
  }

  /** Sorting the hashes and sorting the data by hash agree. */
  lemma {:induction false} SortDataHashes(hasher: Hasher, ds: seq<Data>)
    ensures Hashes(hasher, SortData(hasher, ds)) == SortHashes(Hashes(hasher, ds))
  {
    if ds != [] {
      SortDataHashes(hasher, ds[1..]);
      InsertDataHashes(hasher, ds[0], SortData(hasher, ds[1..]));
      assert Hashes(hasher, ds)[1..] == Hashes(hasher, ds[1..]);
    }
  }

  lemma {:induction false} InsertDataPermutes(hasher: Hasher, d: Data, ds: seq<Data>)
    ensures multiset(InsertData(hasher, d, ds)) == multiset(ds) + multiset{d}
  {
    if ds != [] && DataHash(hasher, d) > DataHash(hasher, ds[0]) {
      InsertDataPermutes(hasher, d, ds[1..]);
      assert ds == [ds[0]] + ds[1..];
    }
  }

  lemma {:induction false} SortDataPermutes(hasher: Hasher, ds: seq<Data>)
    ensures multiset(SortData(hasher, ds)) == multiset(ds) && |SortData(hasher, ds)| == |ds|
  {
    if ds != [] {
      SortDataPermutes(hasher, ds[1..]);
      InsertDataPermutes(hasher, ds[0], SortData(hasher, ds[1..]));
      assert ds == [ds[0]] + ds[1..];
    }
    assert |multiset(SortData(hasher, ds))| == |SortData(hasher, ds)|;
  }

  lemma {:induction false} InsertIncreasing(h: nat, hs: seq<nat>)
    requires Increasing(hs) && h !in hs
    ensures Increasing(InsertHash(h, hs))
    ensures forall x :: x in InsertHash(h, hs) <==> x == h || x in hs
  {
    if hs == [] || h <= hs[0] {
      assert forall i :: 0 <= i < |hs| ==> hs[i] in hs && h <= hs[0] <= hs[i];
      ConsIncreasing(h, hs);
    } else {
      InsertIncreasing(h, hs[1..]);
      var r := InsertHash(h, hs[1..]);
      assert hs == [hs[0]] + hs[1..];
      hide InsertHash;
      forall i | 0 <= i < |r|
        ensures hs[0] < r[i]
      {
        assert r[i] in r;
      }
      ConsIncreasing(hs[0], r);
    }
  }

  lemma ConsIncreasing(x: nat, hs: seq<nat>)
    requires Increasing(hs) && forall i :: 0 <= i < |hs| ==> x < hs[i]
    ensures Increasing([x] + hs)
  {
  }

  /** Without collisions, the sorted hashes increase strictly. */
  lemma {:induction false} SortIncreasing(hs: seq<nat>)
    requires forall i, j :: 0 <= i < j < |hs| ==> hs[i] != hs[j]
    ensures Increasing(SortHashes(hs))
    ensures forall x :: x in SortHashes(hs) <==> x in hs
    ensures |SortHashes(hs)| == |hs|
  {
    if hs != [] {
      SortIncreasing(hs[1..]);
      assert hs[0] !in hs[1..];
      InsertIncreasing(hs[0], SortHashes(hs[1..]));
      InsertLength(hs[0], SortHashes(hs[1..]));
    }
  }

  lemma {:induction false} InsertLength(h: nat, hs: seq<nat>)
    ensures |InsertHash(h, hs)| == |hs| + 1
  {
    if hs != [] && h > hs[0] {
      InsertLength(h, hs[1..]);
    }
  }

  lemma {:induction false} SortSortedFacts(hasher: Hasher, ds: seq<Data>)
    requires NoCollisions(hasher, ds)
    ensures Increasing(Hashes(hasher, SortData(hasher, ds)))
    ensures NoCollisions(hasher, SortData(hasher, ds))
  {
    SortDataHashes(hasher, ds);
    SortIncreasing(Hashes(hasher, ds));
  }

  /** Sequences in increasing order of hash with the same members are equal. */
  lemma {:induction false} SortedUnique(hasher: Hasher, a: seq<Data>, b: seq<Data>)
    requires Increasing(Hashes(hasher, a)) && Increasing(Hashes(hasher, b))
    requires multiset(a) == multiset(b)
    ensures a == b
    decreases |a|
  {
    if a == [] {
      assert |multiset(b)| == 0;
    } else {
      assert a[0] in multiset(b);
      SameFirst(hasher, a, b);
      assert Hashes(hasher, a[1..]) == Hashes(hasher, a)[1..];
      assert Hashes(hasher, b[1..]) == Hashes(hasher, b)[1..];
      SameTails(a, b);
      SortedUnique(hasher, a[1..], b[1..]);
    }
  }

  lemma SameFirst(hasher: Hasher, a: seq<Data>, b: seq<Data>)
    requires Increasing(Hashes(hasher, a)) && Increasing(Hashes(hasher, b))
    requires a != [] && b != [] && multiset(a) == multiset(b)
    ensures a[0] == b[0]
  {
    assert a[0] in multiset(b) && b[0] in multiset(a);
    var i :| 0 <= i < |b| && b[i] == a[0];
    var j :| 0 <= j < |a| && a[j] == b[0];
    assert Hashes(hasher, a)[0] == Hashes(hasher, b)[i];
    assert Hashes(hasher, b)[0] == Hashes(hasher, a)[j];
  }

  lemma SameTails(a: seq<Data>, b: seq<Data>)
    requires a != [] && b != [] && a[0] == b[0] && multiset(a) == multiset(b)
    ensures multiset(a[1..]) == multiset(b[1..])
  {
    assert a == [a[0]] + a[1..] && b == [b[0]] + b[1..];
    assert multiset(a[1..]) == multiset(a) - multiset{a[0]};
  }

  /** The sorted order does not depend on the order of insertion. */
  lemma OrderIndependent(hasher: Hasher, a: seq<Data>, b: seq<Data>)
    requires multiset(a) == multiset(b) && NoCollisions(hasher, a)
    ensures SortData(hasher, a) == SortData(hasher, b)
  {
    CollisionsIgnoreOrder(hasher, a, b);
    SortSortedFacts(hasher, a);
    SortSortedFacts(hasher, b);
    SortDataPermutes(hasher, a);
    SortDataPermutes(hasher, b);
    SortedUnique(hasher, SortData(hasher, a), SortData(hasher, b));
  }

  // ------------------------------------------------------- assigning positions

  function Datas(es: seq<Element>): (ds: seq<Data>)
    ensures |ds| == |es| && forall i :: 0 <= i < |es| ==> ds[i] == es[i].data
  {
    seq(|es|, i requires 0 <= i < |es| => es[i].data)
  }

  /** The elements in their order, with consecutive positions. */
  function Placed(ds: seq<Data>, offset: nat): (es: seq<Element>)
    ensures |es| == |ds| && forall i :: 0 <= i < |ds| ==> es[i] == Element(offset + i, ds[i])
  {
    seq(|ds|, i requires 0 <= i < |ds| => Element(offset + i, ds[i]))
  }

  /** The k-th is the first of the hashes equal to h. */
  predicate IsFirst(hs: seq<nat>, k: nat, h: nat) {
    k < |hs| && hs[k] == h && h !in hs[..k]
  }

  method FindHash(hs: seq<nat>, h: nat) returns (k: nat)
    requires h in hs
    ensures IsFirst(hs, k, h)
  {
    k := 0;
    while hs[k] != h
      invariant 0 <= k < |hs| && h !in hs[..k]
      decreases |hs| - k
    {
      k := k + 1;
    }
  }

  /** `AssignPositions` (src/crypto/hashtrees.h:784-813). */
  method AssignPositions(elements: seq<Element>, offset: nat, hasher: Hasher) returns (result: seq<Element>)
    requires NoCollisions(hasher, Datas(elements))
    ensures result == Placed(SortData(hasher, Datas(elements)), offset)
    ensures multiset(Datas(result)) == multiset(Datas(elements))
    ensures forall i :: 0 <= i < |result| ==> result[i].position == offset + i
    ensures forall i, j :: 0 <= i < j < |result| ==> hasher.ofBytes(result[i].data) < hasher.ofBytes(result[j].data)
  {
    SortedPlaces(hasher, Datas(elements), offset);
    var hashes := HashesOf(elements, hasher);
    var sorted := SortHashes(hashes);
    SortIncreasing(hashes);
    var positions := RanksOf(hashes, sorted, offset);
    result := seq(|elements|, j => Element(0, []));
    var i := 0;
    while i < |elements|
      invariant 0 <= i <= |elements| == |result|
      invariant forall j :: 0 <= j < i ==> result[positions[j] - offset] == Element(positions[j], elements[j].data)
    {
      result := result[positions[i] - offset := Element(positions[i], elements[i].data)];
      i := i + 1;
    }
    AllPlaced(hasher, elements, offset, hashes, sorted, positions, result);
  }

  /** The placed data are the data, in increasing order of their hashes. */
  lemma SortedPlaces(hasher: Hasher, ds: seq<Data>, offset: nat)
    requires NoCollisions(hasher, ds)
    ensures var placed := Placed(SortData(hasher, ds), offset);
      && multiset(Datas(placed)) == multiset(ds)
      && (forall i, j :: 0 <= i < j < |placed| ==> hasher.ofBytes(placed[i].data) < hasher.ofBytes(placed[j].data))
  {
    var sorted := SortData(hasher, ds);
    var placed := Placed(sorted, offset);
    assert Datas(placed) == sorted;
    SortDataPermutes(hasher, ds);
    SortSortedFacts(hasher, ds);
    hide SortData, NoCollisions;
    forall i, j | 0 <= i < j < |placed|
      ensures hasher.ofBytes(placed[i].data) < hasher.ofBytes(placed[j].data)
    {
      assert Hashes(hasher, sorted)[i] < Hashes(hasher, sorted)[j];
    }
  }

  method HashesOf(elements: seq<Element>, hasher: Hasher) returns (hashes: seq<nat>)
    ensures hashes == Hashes(hasher, Datas(elements))
  {
    hashes := [];
    var i := 0;
    while i < |elements|
      invariant 0 <= i <= |elements| && |hashes| == i
      invariant forall j :: 0 <= j < i ==> hashes[j] == DataHash(hasher, elements[j].data)
    {
      hashes := hashes + [DataHash(hasher, elements[i].data)];
      i := i + 1;
    }
  }

  /** The place of every hash among the sorted ones. Two elements get the same place, and one of
      them is lost, exactly when their hashes collide. */
  method RanksOf(hashes: seq<nat>, sorted: seq<nat>, offset: nat) returns (positions: seq<nat>)
    requires forall x :: x in hashes ==> x in sorted
    ensures |positions| == |hashes|
    ensures forall j :: 0 <= j < |hashes| ==>
        offset <= positions[j] < offset + |sorted| && sorted[positions[j] - offset] == hashes[j]
    ensures forall i, j :: 0 <= i < j < |hashes| ==> (positions[i] == positions[j] <==> hashes[i] == hashes[j])
  {
    positions := [];
    var i := 0;
    while i < |hashes|
      invariant 0 <= i <= |hashes| && |positions| == i
      invariant forall j :: 0 <= j < i ==> offset <= positions[j] && IsFirst(sorted, positions[j] - offset, hashes[j])
    {
      var k := FindHash(sorted, hashes[i]);
      positions := positions + [offset + k];
      i := i + 1;
    }
    forall i, j | 0 <= i < j < |hashes|
      ensures positions[i] == positions[j] <==> hashes[i] == hashes[j]
    {
      FirstIsOne(sorted, positions[i] - offset, positions[j] - offset, hashes[i], hashes[j]);
    }
  }

  lemma FirstIsOne(hs: seq<nat>, k: nat, l: nat, g: nat, h: nat)
    requires IsFirst(hs, k, g) && IsFirst(hs, l, h)
    ensures k == l <==> g == h
  {
    if k < l {
      assert hs[k] in hs[..l];
    } else if l < k {
      assert hs[l] in hs[..k];
    }
  }

  /** Every slot is filled, by the element whose hash belongs there. */
  lemma AllPlaced(hasher: Hasher, elements: seq<Element>, offset: nat, hashes: seq<nat>, sorted: seq<nat>,
                  positions: seq<nat>, result: seq<Element>)
    requires NoCollisions(hasher, Datas(elements))
    requires hashes == Hashes(hasher, Datas(elements)) && sorted == SortHashes(hashes)
    requires |positions| == |elements| == |result| == |sorted|
    requires forall j :: 0 <= j < |elements| ==>
        offset <= positions[j] < offset + |elements| && sorted[positions[j] - offset] == hashes[j]
    requires forall j :: 0 <= j < |elements| ==>
        result[positions[j] - offset] == Element(positions[j], elements[j].data)
    ensures result == Placed(SortData(hasher, Datas(elements)), offset)
  {
    hide SortData, SortHashes, DataHash;
    var ds := Datas(elements);
    var target := SortData(hasher, ds);
    SortDataHashes(hasher, ds);
    SortDataPermutes(hasher, ds);
    SortIncreasing(hashes);
    forall k | 0 <= k < |elements|
      ensures result[k] == Element(offset + k, target[k])
    {
      var l := Origin(target, ds, k);
      assert hashes[l] == sorted[k];
      SameRank(sorted, positions[l] - offset, k);
    }
  }

  /** Where a member of the sorted sequence came from. */
  lemma Origin(target: seq<Data>, ds: seq<Data>, k: nat) returns (l: nat)
    requires multiset(target) == multiset(ds) && k < |target|
    ensures l < |ds| && ds[l] == target[k]
  {
    assert target[k] in multiset(ds);
    l :| 0 <= l < |ds| && ds[l] == target[k];
  }

  lemma SameRank(sorted: seq<nat>, i: nat, j: nat)
    requires Increasing(sorted) && i < |sorted| && j < |sorted| && sorted[i] == sorted[j]
    ensures i == j
  {
  }

  function Leaves(hasher: Hasher, es: seq<Element>): (ls: seq<nat>)
    ensures |ls| == |es| && forall i :: 0 <= i < |es| ==> ls[i] == LeafHash(hasher, es[i].position, es[i].data)
  {
    seq(|es|, i requires 0 <= i < |es| => LeafHash(hasher, es[i].position, es[i].data))
  }

  /** The root that a set of data commits to: their leaves in sorted order. */
  function RootOf(hasher: Hasher, ds: seq<Data>, offset: nat): nat {
    var leaves := Leaves(hasher, Placed(SortData(hasher, ds), offset));
    if leaves == [] then 0 else Root(hasher, leaves, 0, |leaves|)
  }

  // ----------------------------------------------------------- 32-bit positions

  /** What remains of a position after the conversions to `int32_t` and `uint32_t`
      and the unsigned subtraction of the offset. */
  function SlotOf(position: nat, offset: nat): nat {
    (position % TWO_32 - offset) % TWO_64
  }

  /** The conversions are harmless exactly for positions below 2^32. */
  lemma SlotIsExact(position: nat, offset: nat)
    requires offset <= position < TWO_64
    ensures SlotOf(position, offset) == position - offset <==> position < TWO_32
  {
    var r := position % TWO_32;
    if position >= TWO_32 {
      assert r < position;
      if r >= offset {
        assert SlotOf(position, offset) == r - offset;
      } else {
        assert SlotOf(position, offset) == r - offset + TWO_64;
      }
    }
  }

  /** Conversion of an unsigned value to `int32_t`. */
  function ToInt32(x: nat): (r: int)
    ensures -0x8000_0000 <= r < 0x8000_0000
  {
    var m := x % TWO_32;
    if m < 0x8000_0000 then m else m - TWO_32
  }

  /** Conversion to `uint32_t`. */
  function ToUint32(x: int): (r: nat)
    ensures r < TWO_32
  {
    x % TWO_32
  }

  lemma RoundTrip32(x: nat)
    ensures ToUint32(ToInt32(x)) == x % TWO_32
  {
  }

  /** The slot that a 32-bit position denotes. */
  function Slot(position: nat, offset: nat): nat {
    (position - offset) % TWO_64
  }

  // ------------------------------------------------------------------ the tree

  /** The sorted data do not change when they are sorted again. */
  lemma SortTwice(hasher: Hasher, ds: seq<Data>)
    requires NoCollisions(hasher, ds)
    ensures SortData(hasher, SortData(hasher, ds)) == SortData(hasher, ds)
  {
    SortDataPermutes(hasher, ds);
    SortSortedFacts(hasher, ds);
    OrderIndependent(hasher, ds, SortData(hasher, ds));
  }

  /** The root over the given leaves, zero for none. */
  function TreeRoot(hasher: Hasher, leaves: seq<nat>): nat {
    if leaves == [] then 0 else Root(hasher, leaves, 0, |leaves|)
  }

  lemma PlacedFacts(hasher: Hasher, es: seq<Element>, offset: nat)
    requires NoCollisions(hasher, Datas(es))
    ensures var placed := Placed(SortData(hasher, Datas(es)), offset);
        && Datas(placed) == SortData(hasher, Datas(es))
        && |placed| == |es|
        && multiset(Datas(placed)) == multiset(Datas(es))
        && NoCollisions(hasher, Datas(placed))
        && placed == Placed(SortData(hasher, Datas(placed)), offset)
  {
    hide SortData, DataHash, NoCollisions;
    var ds := Datas(es);
    var placed := Placed(SortData(hasher, ds), offset);
    assert Datas(placed) == SortData(hasher, ds);
    SortDataPermutes(hasher, ds);
    SortSortedFacts(hasher, ds);
    SortTwice(hasher, ds);
  }

  class OrderedHashTree {
    const hasher: Hasher
    const offset: nat
    var elements: seq<Element>
    var built: bool                    // whether there is a tree at all
    var root: HashNode?                // its root, null over no elements
    var positionsAssigned: bool
    ghost var Repr: set<object>

    ghost predicate Valid()
      reads this, Repr
    {
      && this in Repr
      && (positionsAssigned ==> elements == Placed(SortData(hasher, Datas(elements)), offset))
      && (root != null ==>
            && built && root in Repr && root.Repr <= Repr
            && root.Shape() && root.Cached()
            && root.hasher == hasher && root.start == 0 && root.end == |root.leaves|
            && (root.totalLength != 0 ==> root.upToDate && root.totalLength >= root.end))
      && (built ==> |BuiltLeaves()| <= |elements|)
      && (built && !positionsAssigned ==> |BuiltLeaves()| < |elements|)
    }

    /** The leaves that the tree was built over. */
    function BuiltLeaves(): seq<nat>
      reads this
    {
      if root == null then [] else root.leaves
    }

    /** The tree will be used although it was built over other elements. */
    ghost predicate Stale()
      reads this
    {
      built && positionsAssigned && BuiltLeaves() != Leaves(hasher, elements)
    }

    constructor (hasher: Hasher, offset: nat)
      ensures Valid() && fresh(Repr) && elements == [] && !built && !positionsAssigned
      ensures this.hasher == hasher && this.offset == offset
    {
      this.hasher, this.offset := hasher, offset;
      elements, built, root, positionsAssigned := [], false, null, false;
      Repr := {this};
    }

    method AddElement(data: Data)
      requires Valid()
      modifies this
      ensures Valid() && !Stale() && Repr == old(Repr)
      ensures elements == old(elements) + [Element(0, data)] && !positionsAssigned
      ensures built == old(built) && root == old(root)
    {
      elements := elements + [Element(0, data)];
      positionsAssigned := false;
      assert Datas(elements) == old(Datas(elements)) + [data];
    }

    /** `BuildTree` (src/crypto/hashtrees.h:776-782). */
    method BuildTree()
      requires Valid() && NoCollisions(hasher, Datas(elements))
      modifies this
      ensures Valid() && built && positionsAssigned && fresh(Repr - old(Repr))
      ensures elements == Placed(SortData(hasher, old(Datas(elements))), offset) && |elements| == |old(elements)|
      ensures BuiltLeaves() == Leaves(hasher, elements)
      ensures root != null ==> fresh(root.Repr)
    {
      hide SortData, DataHash, LeafHash, NoCollisions, Datas;
      PlacedFacts(hasher, elements, offset);
      elements := AssignPositions(elements, offset, hasher);
      positionsAssigned := true;
      built := true;
      var leaves := Leaves(hasher, elements);
      if leaves == [] {
        root := null;
        Repr := {this};
      } else {
        root := new HashNode(hasher, leaves, 0, |leaves|);
        Repr := {this} + root.Repr;
      }
    }

    /** `OrderedHashTree::Root` (src/crypto/hashtrees.h:833-838). */
    method GetRoot() returns (r: nat)
      requires Valid() && NoCollisions(hasher, Datas(elements))
      requires built && positionsAssigned && root == null ==> elements == []
      modifies Repr
      ensures Valid() && built && positionsAssigned && fresh(Repr - old(Repr))
      ensures elements == if old(built && positionsAssigned) then old(elements)
                          else Placed(SortData(hasher, old(Datas(elements))), offset)
      ensures r == TreeRoot(hasher, BuiltLeaves()) && |elements| == |old(elements)|
      ensures Stale() == old(Stale())
      ensures old(built && positionsAssigned) ==> root == old(root)
      ensures !old(Stale()) ==> r == RootOf(hasher, old(Datas(elements)), offset)
      ensures root == null ==> elements == []
    {
      hide SortData, DataHash, LeafHash, NoCollisions;
      if !built || !positionsAssigned {
        BuildTree();
      }
      if root == null {
        r := 0;
      } else {
        FullLength(hasher, root.leaves, 0, |root.leaves|, |elements|);
        r := root.Hash(|elements|);
      }
    }

    /** `OrderedHashTree::Branch` (src/crypto/hashtrees.h:825-831), for a 32-bit position. */
    method GetBranch(position: nat) returns (branch: seq<nat>)
      requires Valid() && NoCollisions(hasher, Datas(elements)) && elements != []
      requires built && positionsAssigned ==> root != null
      modifies Repr
      ensures Valid() && built && positionsAssigned && root != null && fresh(Repr - old(Repr))
      ensures elements == if old(built && positionsAssigned) then old(elements)
                          else Placed(SortData(hasher, old(Datas(elements))), offset)
      ensures |elements| == |old(elements)|
      ensures branch == Siblings(hasher, BuiltLeaves(), 0, |BuiltLeaves()|, Slot(position, offset))
      ensures Stale() == old(Stale())
    {
      hide SortData, DataHash, LeafHash, NoCollisions, Siblings;
      if !built || !positionsAssigned {
        BuildTree();
      }
      if root.totalLength == 0 {
        var h := root.Hash(|root.leaves|);
      }
      branch := root.Branch(Slot(position, offset));
    }

    /** `OrderedHashTree::Position` (src/crypto/hashtrees.h:815-823). It leaves a stale
        tree behind exactly when it assigns positions next to a tree already built. */
    method GetPosition(data: Data) returns (r: int, ghost i: nat)
      requires Valid() && NoCollisions(hasher, Datas(elements))
      modifies this
      ensures Valid() && positionsAssigned && Repr == old(Repr)
      ensures built == old(built) && root == old(root)
      ensures elements == if old(positionsAssigned) then old(elements)
                          else Placed(SortData(hasher, old(Datas(elements))), offset)
      ensures data !in Datas(elements) ==> r == -1
      ensures data in Datas(elements) ==> i < |elements| && elements[i].data == data && r == ToInt32(offset + i)
      ensures |elements| == |old(elements)|
      ensures Stale() <==> old(Stale()) || old(built && !positionsAssigned)
    {
      hide SortData, DataHash, LeafHash, NoCollisions, ToInt32;
      if !positionsAssigned {
        PlacedFacts(hasher, elements, offset);
        elements := AssignPositions(elements, offset, hasher);
        positionsAssigned := true;
      }
      var k := 0;
      while k < |elements|
        invariant 0 <= k <= |elements|
        invariant forall j :: 0 <= j < k ==> elements[j].data != data
      {
        if data == elements[k].data {
          return ToInt32(elements[k].position), k;
        }
        k := k + 1;
      }
      r, i := -1, 0;
    }

    /** `OrderedHashTree::GetData` (src/crypto/hashtrees.h:765-768). */
    method GetData(position: nat) returns (data: Data)
      requires Valid() && Slot(position, offset) < |elements|
      ensures data == elements[Slot(position, offset)].data
    {
      data := elements[Slot(position, offset)].data;
    }
  }
}
