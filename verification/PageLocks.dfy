/** Lock counting for memory pages (LockedPageManagerBase in src/base/allocators.h): one
    count for every page that some locked range touches. */
module PageLocks {
  import opened Bits
  import opened Quotients
  import Modular

  const ADDRESSES: nat := 0x1_0000_0000_0000_0000

  /** `size_t`. */
  type Word = n: nat | n < ADDRESSES

  datatype Range = Range(base: Word, size: Word)

  /** The page of an address: masking away the offset. */
  function PageOf(address: nat, pageSize: nat): (p: nat)
    requires pageSize >= 1
    ensures p <= address < p + pageSize
  {
    address - address % pageSize
  }

  function StartPage(r: Range, pageSize: nat): nat
    requires pageSize >= 1
  {
    PageOf(r.base, pageSize)
  }

  /** The page of the last address; the sum wraps at 2^64. */
  function EndPage(r: Range, pageSize: nat): nat
    requires pageSize >= 1 && r.size >= 1
  {
    PageOf((r.base + r.size - 1) % ADDRESSES, pageSize)
  }

  predicate IsPage(page: nat, pageSize: nat)
    requires pageSize >= 1
  {
    page % pageSize == 0
  }

  /** The pages the loops visit. */
  predicate Touches(r: Range, page: nat, pageSize: nat)
    requires pageSize >= 1
  {
    r.size >= 1 && IsPage(page, pageSize) && StartPage(r, pageSize) <= page <= EndPage(r, pageSize)
  }

  /** A range of the address space touches the pages it has a byte in. */
  lemma TouchesExactly(r: Range, page: nat, pageSize: nat)
    requires pageSize >= 1 && IsPage(page, pageSize) && r.base + r.size <= ADDRESSES
    ensures Touches(r, page, pageSize) <==>
      exists a: nat :: r.base <= a < r.base + r.size && PageOf(a, pageSize) == page
  {
    hide PageOf, IsPage;
    if r.size >= 1 {
      SmallMod(r.base + r.size - 1, ADDRESSES);
    }
    if Touches(r, page, pageSize) {
      var a := if page <= r.base then r.base else page;
      if page <= r.base {
        var k := PageFacts(r.base, pageSize);
        PagesApart(page, StartPage(r, pageSize), pageSize);
      } else {
        PageOfPage(page, pageSize);
      }
      assert PageOf(a, pageSize) == page;
    }
    if a: nat :| r.base <= a < r.base + r.size && PageOf(a, pageSize) == page {
      PageMonotone(r.base, a, pageSize);
      PageMonotone(a, r.base + r.size - 1, pageSize);
    }
  }

  /** A range that runs past the end of the address space touches at most the page of its base,
      and that one only if it comes round to it. */
  lemma WrappedTouches(r: Range, page: nat, pageSize: nat)
    requires pageSize >= 1 && r.base + r.size > ADDRESSES
    ensures Touches(r, page, pageSize) <==> page == StartPage(r, pageSize) == EndPage(r, pageSize)
  {
    var last := r.base + r.size - 1 - ADDRESSES;
    assert (r.base + r.size - 1) % ADDRESSES == last by {
      UniqueQuotient((r.base + r.size - 1) / ADDRESSES, (r.base + r.size - 1) % ADDRESSES, 1, last, ADDRESSES);
    }
    hide PageOf, IsPage;
    PageMonotone(last, r.base, pageSize);
    var k := PageFacts(r.base, pageSize);
  }

  lemma PageOfPage(page: nat, pageSize: nat)
    requires pageSize >= 1 && IsPage(page, pageSize)
    ensures PageOf(page, pageSize) == page
  {
  }

  lemma PageFacts(a: nat, pageSize: nat) returns (k: nat)
    requires pageSize >= 1
    ensures PageOf(a, pageSize) == k * pageSize && IsPage(PageOf(a, pageSize), pageSize)
  {
    k := a / pageSize;
    assert a == k * pageSize + a % pageSize;
    UniqueQuotient((k * pageSize) / pageSize, (k * pageSize) % pageSize, k, 0, pageSize);
  }

  lemma PageNumber(page: nat, pageSize: nat) returns (k: nat)
    requires pageSize >= 1 && IsPage(page, pageSize)
    ensures page == k * pageSize
  {
    k := page / pageSize;
  }

  /** Two pages less than a page apart are the same. */
  lemma PagesApart(p: nat, q: nat, pageSize: nat)
    requires pageSize >= 1 && IsPage(p, pageSize) && IsPage(q, pageSize)
    requires q <= p < q + pageSize
    ensures p == q
  {
    var k := PageNumber(q, pageSize);
    var j := PageNumber(p, pageSize);
    assert (j - k) * pageSize == p - q;
    Modular.MultipleBetween(j - k, pageSize);
  }

  lemma PageMonotone(a: nat, b: nat, pageSize: nat)
    requires pageSize >= 1 && a <= b
    ensures PageOf(a, pageSize) <= PageOf(b, pageSize)
  {
    hide PageOf, IsPage;
    var j := PageFacts(a, pageSize);
    var k := PageFacts(b, pageSize);
    if j > k {
      PageAbove(j, k, pageSize);
    }
  }

  lemma PageAbove(j: nat, k: nat, pageSize: nat)
    requires j > k
    ensures j * pageSize >= k * pageSize + pageSize
  {
    Modular.MulMonotone(k + 1, j, pageSize);
    assert (k + 1) * pageSize == k * pageSize + pageSize;
  }

  lemma NextPage(page: nat, pageSize: nat, q: nat)
    requires pageSize >= 1 && IsPage(page, pageSize)
    ensures IsPage(page + pageSize, pageSize)
    ensures IsPage(q, pageSize) && q < page + pageSize ==> q <= page
  {
    var k := PageNumber(page, pageSize);
    assert (k + 1) * pageSize == page + pageSize;
    UniqueQuotient((page + pageSize) / pageSize, (page + pageSize) % pageSize, k + 1, 0, pageSize);
    if IsPage(q, pageSize) && page < q < page + pageSize {
      var j := PageNumber(q, pageSize);
      assert (j - k) * pageSize == q - page;
      Modular.MultipleBetween(j - k, pageSize);
    }
  }

  // ------------------------------------------------------- counting the ranges

  /** How many of the ranges touch a page. */
  function Count(ranges: seq<Range>, page: nat, pageSize: nat): nat
    requires pageSize >= 1
  {
    if ranges == [] then 0 else
      Count(ranges[1..], page, pageSize) + (if Touches(ranges[0], page, pageSize) then 1 else 0)
  }

  /** A page is counted exactly when some of the ranges touches it. */
  lemma {:induction false} Counted(ranges: seq<Range>, page: nat, pageSize: nat)
    requires pageSize >= 1
    ensures Count(ranges, page, pageSize) > 0 <==> exists r :: r in ranges && Touches(r, page, pageSize)
  {
    hide Touches;
    if ranges != [] {
      Counted(ranges[1..], page, pageSize);
      assert forall r :: r in ranges <==> r == ranges[0] || r in ranges[1..];
    }
  }

  function Without(ranges: seq<Range>, r: Range): (rest: seq<Range>) {
    if ranges == [] then [] else if ranges[0] == r then ranges[1..] else [ranges[0]] + Without(ranges[1..], r)
  }

  lemma {:induction false} CountWithout(ranges: seq<Range>, r: Range, page: nat, pageSize: nat)
    requires pageSize >= 1 && r in ranges
    ensures Count(ranges, page, pageSize) ==
        Count(Without(ranges, r), page, pageSize) + (if Touches(r, page, pageSize) then 1 else 0)
  {
    hide Touches;
    if ranges[0] != r {
      CountWithout(ranges[1..], r, page, pageSize);
      assert ([ranges[0]] + Without(ranges[1..], r))[1..] == Without(ranges[1..], r);
    }
  }

  lemma CountWith(ranges: seq<Range>, r: Range, page: nat, pageSize: nat)
    requires pageSize >= 1
    ensures Count([r] + ranges, page, pageSize) ==
        Count(ranges, page, pageSize) + (if Touches(r, page, pageSize) then 1 else 0)
  {
    assert ([r] + ranges)[1..] == ranges;
  }

  // ------------------------------------------------------------- the manager

  /** The end page is not the last page of the address space. This is exactly when the page
      counter, which wraps at 2^64, gets past it (PassableExactly). */
  predicate Passable(r: Range, pageSize: nat) {
    r.size >= 1 && pageSize >= 1 ==> EndPage(r, pageSize) + pageSize < ADDRESSES
  }

  class LockedPageManager {
    const pageSize: nat
    var histogram: map<nat, nat>
    /** The pages the locker holds. */
    var locked: set<nat>
    /** The non-empty ranges locked and not yet unlocked. */
    ghost var ranges: seq<Range>

    ghost function Hist(page: nat): nat
      reads this
    {
      if page in histogram then histogram[page] else 0
    }

    ghost predicate Kept()
      reads this
    {
      && pageSize >= 1
      && locked == histogram.Keys
      && forall q: nat :: q in histogram ==> histogram[q] >= 1
    }

    /** Each page's count is the number of outstanding ranges that touch it, and the pages
        with a count are the ones locked. */
    ghost predicate Valid()
      reads this
    {
      Kept() && forall q: nat :: Hist(q) == Count(ranges, q, pageSize)
    }

    constructor (size: nat, ghost exponent: nat)
      requires size == Pow2(exponent)
      ensures Valid() && pageSize == size && ranges == [] && locked == {}
    {
      pageSize, histogram, locked, ranges := size, map[], {}, [];
    }

    method LockRange(r: Range)
      requires Valid() && Passable(r, pageSize)
      modifies this
      ensures Valid()
      ensures ranges == if r.size == 0 then old(ranges) else [r] + old(ranges)
    {
      if r.size == 0 {
        return;
      }
      hide Count, Touches, StartPage, EndPage, IsPage, Passable;
      var start := StartPage(r, pageSize);
      var end := EndPage(r, pageSize);
      var page := start;
      PagesOfRange(r, pageSize);
      while page <= end
        invariant Kept() && IsPage(page, pageSize) && start <= page && ranges == old(ranges)
        invariant forall q: nat ::
            Hist(q) == Count(ranges, q, pageSize) + (if Touches(r, q, pageSize) && q < page then 1 else 0)
        decreases end + pageSize - page
      {
        if page !in histogram {
          locked := locked + {page};
          histogram := histogram[page := 1];
        } else {
          histogram := histogram[page := histogram[page] + 1];
        }
        NextPages(r, page, pageSize);
        page := (page + pageSize) % ADDRESSES;
      }
      ranges := [r] + ranges;
      CountsWith(r, old(ranges), pageSize);
    }

    /** The page is always found: the assertion of the original cannot fire. */
    method UnlockRange(r: Range)
      requires Valid() && Passable(r, pageSize)
      requires r.size > 0 ==> r in ranges
      modifies this
      ensures Valid()
      ensures ranges == if r.size == 0 then old(ranges) else Without(old(ranges), r)
    {
      if r.size == 0 {
        return;
      }
      hide Count, Touches, StartPage, EndPage, Without, IsPage, Passable;
      ghost var rest := Without(ranges, r);
      var start := StartPage(r, pageSize);
      var end := EndPage(r, pageSize);
      var page := start;
      PagesOfRange(r, pageSize);
      CountsWithout(ranges, r, pageSize);
      while page <= end
        invariant Kept() && IsPage(page, pageSize) && start <= page && ranges == old(ranges)
        invariant forall q: nat ::
            Hist(q) == Count(rest, q, pageSize) + (if Touches(r, q, pageSize) && q >= page then 1 else 0)
        decreases end + pageSize - page
      {
        NextPages(r, page, pageSize);
        assert Hist(page) >= 1;
        assert page in histogram;
        histogram := histogram[page := histogram[page] - 1];
        if histogram[page] == 0 {
          locked := locked - {page};
          histogram := histogram - {page};
        }
        page := (page + pageSize) % ADDRESSES;
      }
      ranges := rest;
    }

    method GetLockedPageCount() returns (n: nat)
      requires Valid()
      ensures n == |histogram| && n == |locked|
      ensures ranges == [] ==> n == 0
    {
      n := |histogram|;
      assert |histogram| == |histogram.Keys|;
      if ranges == [] {
        NothingLocked();
      }
    }

    /** The locked pages are those of the outstanding ranges. */
    lemma LockedExactly()
      requires Valid()
      ensures forall q: nat :: q in locked <==> Count(ranges, q, pageSize) > 0
    {
      hide Count;
      forall q: nat
        ensures q in locked <==> Count(ranges, q, pageSize) > 0
      {
        assert Hist(q) == Count(ranges, q, pageSize);
      }
    }

    /** With every range released no page is locked. */
    lemma NothingLocked()
      requires Valid() && ranges == []
      ensures histogram == map[] && locked == {}
    {
      forall q: nat
        ensures q !in histogram
      {
        assert Hist(q) == Count([], q, pageSize);
      }
      assert histogram.Keys == {};
    }
  }

  lemma CountsWithout(ranges: seq<Range>, r: Range, pageSize: nat)
    requires pageSize >= 1 && r in ranges
    ensures forall q: nat ::
      Count(ranges, q, pageSize) == Count(Without(ranges, r), q, pageSize) + (if Touches(r, q, pageSize) then 1 else 0)
  {
    forall q: nat
      ensures Count(ranges, q, pageSize) ==
          Count(Without(ranges, r), q, pageSize) + (if Touches(r, q, pageSize) then 1 else 0)
    {
      CountWithout(ranges, r, q, pageSize);
    }
  }

  lemma PagesOfRange(r: Range, pageSize: nat)
    requires pageSize >= 1 && r.size >= 1
    ensures IsPage(StartPage(r, pageSize), pageSize)
    ensures forall q: nat :: Touches(r, q, pageSize) ==> StartPage(r, pageSize) <= q <= EndPage(r, pageSize)
  {
    var k := PageFacts(r.base, pageSize);
  }

  lemma NextPages(r: Range, page: nat, pageSize: nat)
    requires pageSize >= 1 && r.size >= 1 && IsPage(page, pageSize)
    requires StartPage(r, pageSize) <= page <= EndPage(r, pageSize) && Passable(r, pageSize)
    ensures (page + pageSize) % ADDRESSES == page + pageSize
    ensures IsPage(page + pageSize, pageSize) && Touches(r, page, pageSize)
    ensures forall q: nat :: Touches(r, q, pageSize) ==> (q < page + pageSize <==> q < page || q == page)
  {
    SmallMod(page + pageSize, ADDRESSES);
    hide IsPage, PageOf;
    NextPage(page, pageSize, page);
    forall q: nat | Touches(r, q, pageSize)
      ensures q < page + pageSize <==> q < page || q == page
    {
      NextPage(page, pageSize, q);
    }
  }

  lemma CountsWith(r: Range, ranges: seq<Range>, pageSize: nat)
    requires pageSize >= 1
    ensures forall q: nat ::
      Count([r] + ranges, q, pageSize) == Count(ranges, q, pageSize) + (if Touches(r, q, pageSize) then 1 else 0)
  {
    forall q: nat
      ensures Count([r] + ranges, q, pageSize) ==
          Count(ranges, q, pageSize) + (if Touches(r, q, pageSize) then 1 else 0)
    {
      CountWith(ranges, r, q, pageSize);
    }
  }

  // --------------------------------------------------------------- whole runs

  datatype Event = Lock(range: Range) | Unlock(range: Range)

  /** The ranges outstanding after the first n events. */
  function Outstanding(events: seq<Event>, n: nat): seq<Range>
    requires n <= |events|
  {
    if n == 0 then [] else
      var before := Outstanding(events, n - 1);
      var r := events[n - 1].range;
      if r.size == 0 then before else if events[n - 1].Lock? then [r] + before else Without(before, r)
  }

  lemma OutstandingStep(events: seq<Event>, i: nat)
    requires i < |events|
    ensures var before, r := Outstanding(events, i), events[i].range;
      Outstanding(events, i + 1) ==
        if r.size == 0 then before else if events[i].Lock? then [r] + before else Without(before, r)
  {
  }

  /** Every unlock matches a lock still outstanding. */
  ghost predicate Matched(events: seq<Event>, pageSize: nat) {
    forall i :: 0 <= i < |events| ==>
      && Passable(events[i].range, pageSize)
      && (events[i].Unlock? && events[i].range.size > 0 ==> events[i].range in Outstanding(events, i))
  }

  /** After every matched run the counts are those of the outstanding ranges, and nothing is
      locked once all are released. */
  method Run(exponent: nat, events: seq<Event>) returns (m: LockedPageManager)
    requires Matched(events, Pow2(exponent))
    ensures fresh(m) && m.Valid() && m.pageSize == Pow2(exponent) && m.ranges == Outstanding(events, |events|)
    ensures forall q: nat :: q in m.locked <==>
      exists r :: r in Outstanding(events, |events|) && Touches(r, q, m.pageSize)
    ensures Outstanding(events, |events|) == [] ==> m.locked == {} && m.histogram == map[]
  {
    hide Pow2, Count, Without, Passable;
    m := new LockedPageManager(Pow2(exponent), exponent);
    var i := 0;
    assert Outstanding(events, 0) == [];
    hide Outstanding;
    while i < |events|
      invariant i <= |events| && fresh(m) && m.Valid() &&
          m.pageSize == Pow2(exponent) && m.ranges == Outstanding(events, i)
    {
      OutstandingStep(events, i);
      match events[i] {
        case Lock(r) => m.LockRange(r);
        case Unlock(r) => m.UnlockRange(r);
      }
      i := i + 1;
    }
    m.LockedExactly();
    hide Touches;
    forall q: nat
      ensures q in m.locked <==> exists r :: r in Outstanding(events, |events|) && Touches(r, q, m.pageSize)
    {
      Counted(m.ranges, q, m.pageSize);
    }
    if m.ranges == [] {
      m.NothingLocked();
    }
  }

  // ------------------------------------------------- the 64-bit page counter

  function Steps(n: nat, page: nat, pageSize: nat): nat {
    if n == 0 then page else (Steps(n - 1, page, pageSize) + pageSize) % ADDRESSES
  }

  /** The loop condition fails after some number of rounds. */
  ghost predicate LoopEnds(start: nat, end: nat, pageSize: nat) {
    exists n: nat :: Steps(n, start, pageSize) > end
  }

  lemma {:induction false} StepsAhead(n: nat, start: nat, pageSize: nat)
    requires start + n * pageSize < ADDRESSES
    ensures Steps(n, start, pageSize) == start + n * pageSize
  {
    if n > 0 {
      assert n * pageSize == (n - 1) * pageSize + pageSize;
      StepsAhead(n - 1, start, pageSize);
      SmallMod(start + n * pageSize, ADDRESSES);
    } else {
      assert n * pageSize == 0;
    }
  }

  lemma {:induction false} StepsArePages(n: nat, start: nat, pageSize: nat, k: nat)
    requires pageSize >= 1 && start < ADDRESSES == k * pageSize && IsPage(start, pageSize)
    ensures Steps(n, start, pageSize) < ADDRESSES && IsPage(Steps(n, start, pageSize), pageSize)
  {
    hide IsPage;
    if n > 0 {
      StepsArePages(n - 1, start, pageSize, k);
      WrappedPage(Steps(n - 1, start, pageSize), pageSize, k);
    }
  }

  lemma WrappedPage(page: nat, pageSize: nat, k: nat)
    requires pageSize >= 1 && page < ADDRESSES == k * pageSize && IsPage(page, pageSize)
    ensures IsPage((page + pageSize) % ADDRESSES, pageSize)
  {
    hide IsPage;
    var j := PageNumber(page, pageSize);
    if j + 1 < k {
      PageAbove(k, j + 1, pageSize);
      assert (j + 1) * pageSize == page + pageSize;
      NextPage(page, pageSize, page);
    } else {
      Modular.MulMonotone(k, j + 1, pageSize);
      assert (j + 1) * pageSize == page + pageSize;
      ZeroIsPage(pageSize);
      PagesEnd(j, k, pageSize);
    }
  }

  lemma ZeroIsPage(pageSize: nat)
    requires pageSize >= 1
    ensures IsPage(0, pageSize)
  {
  }

  lemma PagesEnd(j: nat, k: nat, pageSize: nat)
    requires pageSize >= 1 && j * pageSize < k * pageSize && k <= j + 1
    ensures k == j + 1
  {
    if k <= j {
      Modular.MulMonotone(k, j, pageSize);
    }
  }

  /** The page counter passes the end page exactly when that is not the last page of the
      address space; otherwise the loop never ends. */
  lemma LoopEndsExactly(start: nat, end: nat, exponent: nat)
    requires exponent < 64 && IsPage(start, Pow2(exponent)) && IsPage(end, Pow2(exponent))
    requires start < ADDRESSES && end < ADDRESSES
    ensures LoopEnds(start, end, Pow2(exponent)) <==> end + Pow2(exponent) < ADDRESSES
  {
    var pageSize := Pow2(exponent);
    Pow2Add(64 - exponent, exponent);
    AddressPower();
    hide Pow2, IsPage;
    var k := Pow2(64 - exponent);
    if start > end {
      assert Steps(0, start, pageSize) > end;
      if end + pageSize >= ADDRESSES {
        NextPage(end, pageSize, start);
      }
    } else if end + pageSize < ADDRESSES {
      var i := PageNumber(start, pageSize);
      var j := PageNumber(end, pageSize);
      CountUp(i, j, start, end, pageSize);
    } else {
      forall n: nat
        ensures Steps(n, start, pageSize) <= end
      {
        StepsArePages(n, start, pageSize, k);
        NextPage(end, pageSize, Steps(n, start, pageSize));
      }
    }
  }

  /** `Passable` leaves out exactly the ranges for which neither loop ends. */
  lemma PassableExactly(r: Range, exponent: nat)
    requires exponent < 64 && r.size >= 1
    ensures var pageSize := Pow2(exponent);
      Passable(r, pageSize) <==> LoopEnds(StartPage(r, pageSize), EndPage(r, pageSize), pageSize)
  {
    var pageSize := Pow2(exponent);
    hide Pow2, IsPage, LoopEnds;
    var i := PageFacts(r.base, pageSize);
    var j := PageFacts((r.base + r.size - 1) % ADDRESSES, pageSize);
    LoopEndsExactly(StartPage(r, pageSize), EndPage(r, pageSize), exponent);
  }

  lemma CountUp(i: nat, j: nat, start: nat, end: nat, pageSize: nat)
    requires start == i * pageSize && end == j * pageSize && start <= end && end + pageSize < ADDRESSES && pageSize >= 1
    ensures LoopEnds(start, end, pageSize)
  {
    if i > j {
      PageAbove(i, j, pageSize);
    }
    var n := j + 1 - i;
    assert n * pageSize == end - start + pageSize;
    StepsAhead(n, start, pageSize);
    assert Steps(n, start, pageSize) > end;
  }

  lemma AddressPower()
    ensures Pow2(64) == ADDRESSES
  {
    hide Pow2;
    BytePower();
    Pow2Add(8, 8);
    Pow2Add(16, 16);
    Pow2Add(32, 32);
  }
}
