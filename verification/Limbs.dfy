/** Numbers held as 32-bit limbs, least significant first, and what the limb
    formulas of the two shifts stand for (src/crypto/uint256.h:132-164). */
module Limbs {
  import opened Bits
  import opened Quotients
  import Modular

  const BASE: nat := 0x1_0000_0000

  // -------------------------------------------------------- values of limbs

  function Number(s: seq<nat>): nat {
    if s == [] then 0 else s[0] + BASE * Number(s[1..])
  }

  predicate AreLimbs(s: seq<nat>) {
    forall i :: 0 <= i < |s| ==> s[i] < BASE
  }

  /** 2^BITS for n limbs. */
  function Capacity(n: nat): (r: nat)
    ensures r >= 1
  {
    if n == 0 then 1 else BASE * Capacity(n - 1)
  }

  lemma LimbPower()
    ensures Pow2(32) == BASE
  {
    hide Pow2;
    BytePower();
    Pow2Add(8, 8);
    Pow2Add(16, 16);
  }

  lemma {:induction false} CapacityIsPower(n: nat)
    ensures Capacity(n) == Pow2(32 * n)
  {
    if n > 0 {
      CapacityIsPower(n - 1);
      LimbPower();
      Pow2Add(32, 32 * (n - 1));
    }
  }

  lemma {:induction false} CapacityAdd(m: nat, n: nat)
    ensures Capacity(m + n) == Capacity(m) * Capacity(n)
  {
    if m > 0 {
      CapacityAdd(m - 1, n);
      Associate(BASE, Capacity(m - 1), Capacity(n));
    }
  }

  lemma Associate(a: int, b: int, c: int)
    ensures a * (b * c) == (a * b) * c
  {
  }

  lemma {:induction false} NumberBound(s: seq<nat>)
    requires AreLimbs(s)
    ensures Number(s) < Capacity(|s|)
  {
    if s != [] {
      NumberBound(s[1..]);
    }
  }

  lemma {:induction false} NumberConcat(s: seq<nat>, t: seq<nat>)
    ensures Number(s + t) == Number(s) + Capacity(|s|) * Number(t)
  {
    if s == [] {
      assert s + t == t;
    } else {
      NumberConcat(s[1..], t);
      assert (s + t)[1..] == s[1..] + t;
      Associate(BASE, Capacity(|s| - 1), Number(t));
    }
  }

  lemma NumberSnoc(s: seq<nat>, x: nat)
    ensures Number(s + [x]) == Number(s) + Capacity(|s|) * x
  {
    assert Number([x]) == x by { assert [x][1..] == []; }
    NumberConcat(s, [x]);
  }

  lemma {:induction false} NumberZero(s: seq<nat>)
    requires forall i :: 0 <= i < |s| ==> s[i] == 0
    ensures Number(s) == 0
  {
    if s != [] {
      NumberZero(s[1..]);
    }
  }

  /** Equal numbers have equal limbs. */
  lemma {:induction false} NumberInjective(s: seq<nat>, t: seq<nat>)
    requires |s| == |t| && AreLimbs(s) && AreLimbs(t) && Number(s) == Number(t)
    ensures s == t
  {
    if s != [] {
      NumberInjective(s[1..], t[1..]);
      assert s == [s[0]] + s[1..] && t == [t[0]] + t[1..];
    }
  }

  lemma ModIs(x: int, m: nat, v: nat, k: int)
    requires v < m && x == v + k * m
    ensures x % m == v
  {
    UniqueQuotient(x / m, x % m, k, v, m);
  }

  // ------------------------------------------------- shifts inside one limb

  /** A limb shifted left: what stays in the limb and what leaves it. */
  function Lo(x: nat, s: nat): nat { DivRem(x * Pow2(s), BASE).1 }

  function Hi(x: nat, s: nat): nat
    requires s <= 32
  {
    DivRem(x, Pow2(32 - s)).0
  }

  lemma LimbSplit(x: nat, s: nat)
    requires x < BASE && s <= 32
    ensures Lo(x, s) + BASE * Hi(x, s) == x * Pow2(s)
    ensures Hi(x, s) < Pow2(s)
    ensures Lo(x, s) == DivRem(x, Pow2(32 - s)).1 * Pow2(s) < BASE
  {
    hide Pow2, DivRem;
    LimbPower();
    Pow2Add(s, 32 - s);
    var (h, r) := DivRem(x, Pow2(32 - s));
    var (h', l') := DivRem(x * Pow2(s), BASE);
    SplitAlgebra(x, Pow2(s), Pow2(32 - s), h, r, h', l');
  }

  lemma SplitAlgebra(x: nat, p: nat, q: nat, h: nat, r: nat, h': nat, l': nat)
    requires p * q == BASE && x == h * q + r && r < q && x < BASE && p >= 1
    requires x * p == h' * BASE + l' && l' < BASE
    ensures h == h' && l' == r * p && h < p && l' + BASE * h == x * p
  {
    assert x * p == r * p + h * BASE by {
      assert (h * q) * p == h * (p * q);
      assert (h * q + r) * p == (h * q) * p + r * p;
    }
    assert r * p < BASE by {
      assert (q - r - 1) * p >= 0;
      assert (q - r - 1) * p == q * p - r * p - p;
    }
    Below(h, p, q, x);
    UniqueQuotient(h, r * p, h', l', BASE);
  }

  lemma Below(h: nat, p: nat, q: nat, x: nat)
    requires h * q <= x < p * q
    ensures h < p
  {
    if h >= p {
      Modular.MulMonotone(p, h, q);
    }
  }

  lemma {:induction false} OrZero(x: nat)
    ensures Or(0, x) == x
  {
    if x > 0 {
      OrZero(x / 2);
    }
  }

  /** Or-ing a number below 2^s with a multiple of 2^s adds them. */
  lemma {:induction false} OrDisjoint(h: nat, r: nat, s: nat)
    requires h < Pow2(s)
    ensures Or(h, r * Pow2(s)) == h + r * Pow2(s)
  {
    if s == 0 {
      OrZero(r);
    } else {
      var y := r * Pow2(s - 1);
      assert r * Pow2(s) == 2 * y;
      OrDisjoint(h / 2, r, s - 1);
    }
  }

  // --------------------------------------------------------------- shift left

  /** Limb j of a shifted left by k limbs and s bits. */
  function LeftLimb(a: seq<nat>, k: nat, s: nat, j: nat): nat
    requires s < 32
  {
    (if k <= j < k + |a| then Lo(a[j - k], s) else 0) + (if k < j <= k + |a| then Hi(a[j - k - 1], s) else 0)
  }

  /** The limbs of a shifted left by s bits, with c coming in from below. */
  function Spread(a: seq<nat>, s: nat, c: nat): (t: seq<nat>)
    requires s < 32
    ensures |t| == |a|
  {
    if a == [] then [] else [Lo(a[0], s) + c] + Spread(a[1..], s, Hi(a[0], s))
  }

  function CarryOut(a: seq<nat>, s: nat, c: nat): nat
    requires s < 32
  {
    if a == [] then c else CarryOut(a[1..], s, Hi(a[0], s))
  }

  lemma {:induction false} SpreadAt(a: seq<nat>, s: nat, c: nat, j: nat)
    requires s < 32 && j < |a|
    ensures Spread(a, s, c)[j] == LeftLimb(a, 0, s, j) + (if j == 0 then c else 0)
  {
    hide Lo, Hi;
    if j > 0 {
      SpreadAt(a[1..], s, Hi(a[0], s), j - 1);
    }
  }

  lemma {:induction false} SpreadValue(a: seq<nat>, s: nat, c: nat)
    requires s < 32 && AreLimbs(a)
    ensures Number(Spread(a, s, c)) + Capacity(|a|) * CarryOut(a, s, c) == Number(a) * Pow2(s) + c
  {
    hide Lo, Hi, Pow2;
    if a != [] {
      var h := Hi(a[0], s);
      SpreadValue(a[1..], s, h);
      LimbSplit(a[0], s);
      SpreadAlgebra(a[0], Lo(a[0], s), h, c, Number(a[1..]), Number(Spread(a[1..], s, h)),
          Capacity(|a| - 1), CarryOut(a[1..], s, h), Pow2(s));
    }
  }

  lemma SpreadAlgebra(x: nat, lo: nat, h: nat, c: nat, n: nat, t: nat, cap: nat, out: nat, p: nat)
    requires lo + BASE * h == x * p && t + cap * out == n * p + h
    ensures (lo + c + BASE * t) + (BASE * cap) * out == (x + BASE * n) * p + c
  {
    assert (BASE * cap) * out == BASE * (cap * out);
    assert (BASE * n) * p == BASE * (n * p);
  }

  /** The limbs of a left shift stand for multiplication by 2^(32k+s), cut off at the width. */
  lemma ShiftLeftValue(a: seq<nat>, k: nat, s: nat, r: seq<nat>)
    requires s < 32 && AreLimbs(a) && |r| == |a| && AreLimbs(r)
    requires forall j :: 0 <= j < |r| ==> r[j] == LeftLimb(a, k, s, j)
    ensures Number(r) == (Number(a) * Pow2(32 * k + s)) % Capacity(|a|)
  {
    hide Lo, Hi, Pow2, LeftLimb, Number, Capacity;
    ShiftPower(k, s);
    NumberBound(r);
    if k <= |a| {
      var more := NearLeft(a, k, s, r);
      ModIs(Number(a) * (Capacity(k) * Pow2(s)), Capacity(|a|), Number(r), more);
    } else {
      FarLeft(a, k, s, r);
      NumberZero(r);
      CapacityAdd(|a|, k - |a|);
      FarAlgebra(Number(a), Capacity(|a|), Capacity(k - |a|), Capacity(k), Pow2(s));
      ModIs(Number(a) * (Capacity(k) * Pow2(s)), Capacity(|a|), 0, Number(a) * (Capacity(k - |a|) * Pow2(s)));
    }
  }

  lemma ShiftPower(k: nat, s: nat)
    ensures Pow2(32 * k + s) == Capacity(k) * Pow2(s)
  {
    hide Pow2, Capacity;
    Pow2Add(32 * k, s);
    CapacityIsPower(k);
  }

  lemma NearLeft(a: seq<nat>, k: nat, s: nat, r: seq<nat>) returns (more: nat)
    requires s < 32 && AreLimbs(a) && |r| == |a| && k <= |a|
    requires forall j :: 0 <= j < |r| ==> r[j] == LeftLimb(a, k, s, j)
    ensures Number(a) * (Capacity(k) * Pow2(s)) == Number(r) + more * Capacity(|a|)
  {
    hide Lo, Hi, Pow2, LeftLimb, Number, Capacity, Spread, CarryOut;
    var w := |a|;
    var t := Spread(a, s, 0);
    ShiftedLimbs(a, k, s, r);
    SpreadValue(a, s, 0);
    NumberConcat(Zeros(k), t[..w - k]);
    NumberZero(Zeros(k));
    NumberConcat(t[..w - k], t[w - k..]);
    assert t[..w - k] + t[w - k..] == t;
    CapacityAdd(k, w - k);
    more := LeftAlgebra(Number(a), Pow2(s), Capacity(k), Capacity(w - k), Capacity(w),
        Number(t), Number(t[..w - k]), Number(t[w - k..]), CarryOut(a, s, 0));
  }

  lemma ShiftedLimbs(a: seq<nat>, k: nat, s: nat, r: seq<nat>)
    requires s < 32 && |r| == |a| && k <= |a|
    requires forall j :: 0 <= j < |r| ==> r[j] == LeftLimb(a, k, s, j)
    ensures r == Zeros(k) + Spread(a, s, 0)[..|a| - k]
  {
    hide Lo, Hi, Spread;
    forall j | 0 <= j < |r|
      ensures r[j] == (Zeros(k) + Spread(a, s, 0)[..|a| - k])[j]
    {
      if j >= k {
        SpreadAt(a, s, 0, j - k);
      }
    }
  }

  lemma FarLeft(a: seq<nat>, k: nat, s: nat, r: seq<nat>)
    requires s < 32 && |r| == |a| < k
    requires forall j :: 0 <= j < |r| ==> r[j] == LeftLimb(a, k, s, j)
    ensures forall j :: 0 <= j < |r| ==> r[j] == 0
  {
  }

  lemma LeftAlgebra(n: nat, p: nat, ck: nat, cr: nat, cw: nat, t: nat, low: nat, high: nat, out: nat)
      returns (more: nat)
    requires t + cw * out == n * p && t == low + cr * high && cw == ck * cr
    ensures n * (ck * p) == ck * low + more * cw
  {
    more := high + ck * out;
    assert n * (ck * p) == ck * (n * p);
    assert ck * (low + cr * high + cw * out) == ck * low + ck * (cr * high) + ck * (cw * out);
    assert ck * (cr * high) == (ck * cr) * high;
    assert ck * (cw * out) == (ck * out) * cw;
    assert more * cw == high * cw + (ck * out) * cw;
  }

  lemma FarAlgebra(n: nat, cw: nat, cr: nat, ck: nat, p: nat)
    requires ck == cw * cr
    ensures n * (ck * p) == (n * (cr * p)) * cw
  {
    assert (cw * cr) * p == cw * (cr * p);
    assert n * (cw * (cr * p)) == (n * (cr * p)) * cw;
  }

  // -------------------------------------------------------------- shift right

  /** The bits of a limb that a right shift by s hands to the limb below. */
  function Low(x: nat, s: nat): nat
    requires s < 32
  {
    if s == 0 then 0 else Lo(x, 32 - s)
  }

  function Down(x: nat, s: nat): nat { DivRem(x, Pow2(s)).0 }

  function RightLimb(a: seq<nat>, k: nat, s: nat, j: nat): nat
    requires s < 32
  {
    (if j + k < |a| then Down(a[j + k], s) else 0) + (if j + k + 1 < |a| then Low(a[j + k + 1], s) else 0)
  }

  lemma LimbDown(x: nat, s: nat)
    requires x < BASE && s < 32
    ensures Low(x, s) * Pow2(s) == BASE * DivRem(x, Pow2(s)).1
    ensures Low(x, s) == DivRem(x, Pow2(s)).1 * Pow2(32 - s)
    ensures Down(x, s) < Pow2(32 - s)
    ensures Low(x, s) < BASE
  {
    if s == 0 {
      NoShift(x);
    }
    hide Pow2, DivRem;
    var (q, r) := DivRem(x, Pow2(s));
    LimbPower();
    Pow2Add(s, 32 - s);
    if s > 0 {
      LimbSplit(x, 32 - s);
      Reassociate(r, Pow2(32 - s), Pow2(s));
    }
    Below(q, Pow2(32 - s), Pow2(s), x);
  }

  lemma NoShift(x: nat)
    ensures Pow2(0) == 1 && DivRem(x, 1) == (x, 0)
  {
  }

  lemma Reassociate(r: nat, q: nat, p: nat)
    requires p * q == BASE
    ensures (r * q) * p == BASE * r
  {
    assert (r * q) * p == r * (p * q);
  }

  function Shrink(a: seq<nat>, s: nat): (t: seq<nat>)
    requires s < 32
    ensures |t| == |a|
  {
    if a == [] then [] else
      [Down(a[0], s) + (if |a| > 1 then Low(a[1], s) else 0)] + Shrink(a[1..], s)
  }

  lemma {:induction false} ShrinkAt(a: seq<nat>, s: nat, j: nat)
    requires s < 32 && j < |a|
    ensures Shrink(a, s)[j] == RightLimb(a, 0, s, j)
  {
    hide Low, Down;
    if j > 0 {
      ShrinkAt(a[1..], s, j - 1);
    }
  }

  /** What the lowest limb loses. */
  function Lost(a: seq<nat>, s: nat): (r: nat)
    ensures r < Pow2(s)
  {
    if a == [] then 0 else DivRem(a[0], Pow2(s)).1
  }

  lemma {:induction false} ShrinkValue(a: seq<nat>, s: nat)
    requires s < 32 && AreLimbs(a)
    ensures Number(Shrink(a, s)) * Pow2(s) + Lost(a, s) == Number(a)
  {
    hide Pow2, DivRem, Low;
    if a == [] {
      assert Number([]) * Pow2(s) == 0;
    } else {
      ShrinkValue(a[1..], s);
      var low := if |a| > 1 then Low(a[1], s) else 0;
      if |a| > 1 {
        LimbDown(a[1], s);
      }
      ShrinkAlgebra(a[0], Down(a[0], s), Lost(a, s), low, Lost(a[1..], s), Number(Shrink(a[1..], s)),
          Number(a[1..]), Pow2(s));
    }
  }

  lemma ShrinkAlgebra(x: nat, d: nat, r: nat, low: nat, lost: nat, t: nat, n: nat, p: nat)
    requires d * p + r == x && low * p == BASE * lost && t * p + lost == n
    ensures (d + low + BASE * t) * p + r == x + BASE * n
  {
    assert (BASE * t) * p == BASE * (t * p);
    assert (d + low + BASE * t) * p == d * p + low * p + (BASE * t) * p;
  }

  /** The limbs of a right shift stand for the quotient by 2^(32k+s). */
  lemma ShiftRightValue(a: seq<nat>, k: nat, s: nat, r: seq<nat>)
    requires s < 32 && AreLimbs(a) && |r| == |a|
    requires forall j :: 0 <= j < |r| ==> r[j] == RightLimb(a, k, s, j)
    ensures Number(r) == Number(a) / Pow2(32 * k + s)
  {
    hide Low, Down, Pow2, DivRem, Lost, RightLimb, Number, Capacity;
    ShiftPower(k, s);
    if k <= |a| {
      NearRight(a, k, s, r);
    } else {
      FarRight(a, k, s, r);
      NumberZero(r);
      NumberBound(a);
      CapacityAdd(|a|, k - |a|);
      TooSmall(Number(a), Capacity(|a|), Capacity(k - |a|), Capacity(k), Pow2(s));
    }
  }

  lemma NearRight(a: seq<nat>, k: nat, s: nat, r: seq<nat>)
    requires s < 32 && AreLimbs(a) && |r| == |a| && k <= |a|
    requires forall j :: 0 <= j < |r| ==> r[j] == RightLimb(a, k, s, j)
    ensures Number(a) / (Capacity(k) * Pow2(s)) == Number(r)
  {
    hide Low, Down, Pow2, DivRem, Lost, RightLimb, Number, Capacity, Shrink;
    var t := Shrink(a[k..], s);
    LoweredLimbs(a, k, s, r);
    ShrinkValue(a[k..], s);
    NumberConcat(t, Zeros(k));
    NumberZero(Zeros(k));
    NumberConcat(a[..k], a[k..]);
    assert a[..k] + a[k..] == a;
    NumberBound(a[..k]);
    RightAlgebra(Number(a), Number(a[..k]), Capacity(k), Number(t), Pow2(s), Lost(a[k..], s), Number(a[k..]));
  }

  lemma LoweredLimbs(a: seq<nat>, k: nat, s: nat, r: seq<nat>)
    requires s < 32 && |r| == |a| && k <= |a|
    requires forall j :: 0 <= j < |r| ==> r[j] == RightLimb(a, k, s, j)
    ensures r == Shrink(a[k..], s) + Zeros(k)
  {
    hide Low, Down, Shrink;
    forall j | 0 <= j < |r|
      ensures r[j] == (Shrink(a[k..], s) + Zeros(k))[j]
    {
      if j + k < |a| {
        ShrinkAt(a[k..], s, j);
      }
    }
  }

  lemma FarRight(a: seq<nat>, k: nat, s: nat, r: seq<nat>)
    requires s < 32 && |r| == |a| < k
    requires forall j :: 0 <= j < |r| ==> r[j] == RightLimb(a, k, s, j)
    ensures forall j :: 0 <= j < |r| ==> r[j] == 0
  {
  }

  lemma RightAlgebra(n: nat, low: nat, ck: nat, t: nat, p: nat, lost: nat, high: nat)
    requires n == low + ck * high && t * p + lost == high && low < ck && lost < p
    ensures n / (ck * p) == t
  {
    RightQuotient(n, low, ck, t, p, lost, high);
    RightRemainder(low, ck, p, lost);
    DivIs(n, ck * p, t, low + ck * lost);
  }

  lemma RightQuotient(n: nat, low: nat, ck: nat, t: nat, p: nat, lost: nat, high: nat)
    requires n == low + ck * high && t * p + lost == high
    ensures n == t * (ck * p) + (low + ck * lost)
  {
    assert ck * (t * p) == t * (ck * p);
    assert ck * (t * p + lost) == ck * (t * p) + ck * lost;
  }

  lemma RightRemainder(low: nat, ck: nat, p: nat, lost: nat)
    requires low < ck && lost < p
    ensures low + ck * lost < ck * p
  {
    assert ck * (p - 1 - lost) >= 0;
    assert ck * (p - 1 - lost) == ck * p - ck - ck * lost;
  }

  lemma DivIs(x: nat, m: nat, q: nat, r: nat)
    requires r < m && x == q * m + r
    ensures x / m == q
  {
    UniqueQuotient(x / m, x % m, q, r, m);
  }

  lemma TooSmall(n: nat, cw: nat, cr: nat, ck: nat, p: nat)
    requires n < cw && ck == cw * cr && cr >= 1 && p >= 1
    ensures n / (ck * p) == 0
  {
    Modular.MulMonotone(1, cr, cw);
    Modular.MulMonotone(1, p, ck);
    DivIs(n, ck * p, 0, n);
  }

  // ------------------------------------------------------ updates and compares

  lemma {:induction false} NumberUpdate(s: seq<nat>, i: nat, x: nat)
    requires i < |s|
    ensures Number(s[i := x]) == Number(s) + Capacity(i) * (x - s[i])
  {
    if i == 0 {
      assert s[0 := x][1..] == s[1..];
    } else {
      NumberUpdate(s[1..], i - 1, x);
      assert s[i := x][1..] == s[1..][i - 1 := x];
      Associate(BASE, Capacity(i - 1), x - s[i]);
    }
  }

  /** The highest limb that differs decides. */
  lemma {:induction false} CompareAt(s: seq<nat>, t: seq<nat>, i: nat)
    requires |s| == |t| && i < |s| && AreLimbs(s) && AreLimbs(t)
    requires s[i] < t[i] && forall j :: i < j < |s| ==> s[j] == t[j]
    ensures Number(s) < Number(t)
  {
    if i == 0 {
      assert s[1..] == t[1..];
    } else {
      CompareAt(s[1..], t[1..], i - 1);
    }
  }

  function Complement(s: seq<nat>): (t: seq<nat>)
    requires AreLimbs(s)
    ensures |t| == |s| && AreLimbs(t)
    ensures forall i :: 0 <= i < |s| ==> t[i] == BASE - 1 - s[i]
  {
    seq(|s|, i requires 0 <= i < |s| => BASE - 1 - s[i])
  }

  lemma {:induction false} ComplementValue(s: seq<nat>)
    requires AreLimbs(s)
    ensures Number(Complement(s)) == Capacity(|s|) - 1 - Number(s)
  {
    if s != [] {
      ComplementValue(s[1..]);
      assert Complement(s)[1..] == Complement(s[1..]);
    }
  }
}
