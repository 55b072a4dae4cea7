/** Fixed-width unsigned integers (src/crypto/uint256.h): every operator agrees with
    arithmetic modulo 2^BITS, for any number of limbs. */
module Uint256 {
  import opened Bits
  import opened Limbs
  import opened Quotients
  import opened Division
  import Modular

  /** The limbs are the whole object, so they are a field the operators reassign. Two limbs
      at least, since a 64-bit value is stored into the first two. */
  class BaseUint {
    var pn: seq<nat>

    ghost predicate Valid()
      reads this
    {
      |pn| >= 2 && AreLimbs(pn)
    }

    ghost predicate Fits(b: BaseUint)
      reads this, b
    {
      Valid() && b.Valid() && |b.pn| == |pn|
    }

    constructor Copy(limbs: seq<nat>)
      ensures pn == limbs
    {
      pn := limbs;
    }

    method AddAssign(b: BaseUint)
      requires Fits(b)
      modifies this
      ensures Valid() && |pn| == |old(pn)|
      ensures Number(pn) == (Number(old(pn)) + Number(old(b.pn))) % Capacity(|pn|)
    {
      hide Number, Capacity;
      ghost var a, c := pn, b.pn;
      var carry: nat := 0;
      var i := 0;
      EmptyNumber(c);
      while i < |pn|
        invariant i <= |pn| == |a| == |c| == |b.pn| && carry <= 1
        invariant AreLimbs(pn) && AreLimbs(a) && AreLimbs(c)
        invariant pn[i..] == a[i..] && b.pn[i..] == c[i..]
        invariant Number(pn) + Capacity(i) * carry == Number(a) + Number(c[..i])
      {
        var n := carry + pn[i] + b.pn[i];
        assert pn[i] == a[i..][0] && b.pn[i] == c[i..][0];
        AddStep(pn, c, i, carry, Number(a));
        pn := pn[i := n % BASE];
        carry := n / BASE;
        i := i + 1;
      }
      assert c[..i] == c;
      NumberBound(pn);
      ModIs(Number(a) + Number(c), Capacity(|pn|), Number(pn), carry);
    }

    method Increment()
      requires Valid()
      modifies this
      ensures Valid() && |pn| == |old(pn)|
      ensures Number(pn) == (Number(old(pn)) + 1) % Capacity(|pn|)
    {
      hide Number, Capacity;
      ghost var a := pn;
      var i := 0;
      IncrementStep(pn, 0, Number(a));
      pn := pn[0 := (pn[0] + 1) % BASE];
      while pn[i] == 0 && i < |pn| - 1
        invariant i < |pn| == |a| && AreLimbs(pn)
        invariant Number(pn) + Pending(pn, i) == Number(a) + 1
        decreases |pn| - i
      {
        i := i + 1;
        IncrementStep(pn, i, Number(a));
        pn := pn[i := (pn[i] + 1) % BASE];
      }
      NumberBound(pn);
      ModIs(Number(a) + 1, Capacity(|pn|), Number(pn), if pn[i] == 0 then 1 else 0);
    }

    method Negate() returns (ret: BaseUint)
      requires Valid()
      ensures fresh(ret) && ret.Valid() && |ret.pn| == |pn|
      ensures Number(ret.pn) == (0 - Number(pn)) % Capacity(|pn|)
    {
      hide Number, Capacity;
      ret := new BaseUint.Copy(Complement(pn));
      ComplementValue(pn);
      ret.Increment();
      NegateAlgebra(Number(pn), Capacity(|pn|));
    }

    method SubAssign(b: BaseUint)
      requires Fits(b)
      modifies this
      ensures Valid() && |pn| == |old(pn)|
      ensures Number(pn) == (Number(old(pn)) - Number(old(b.pn))) % Capacity(|pn|)
    {
      hide Number, Capacity;
      var m := b.Negate();
      SubAlgebra(Number(pn), Number(b.pn), Capacity(|pn|));
      AddAssign(m);
    }

    method Assign64(b: nat)
      requires Valid() && b < BASE * BASE
      modifies this
      ensures Valid() && |pn| == |old(pn)| && Number(pn) == b
    {
      SmallNumber(b % BASE, b / BASE, |pn|);
      pn := [b % BASE, b / BASE] + Zeros(|pn| - 2);
    }

    method ShiftLeft(shift: nat)
      requires Valid()
      modifies this
      ensures Valid() && |pn| == |old(pn)|
      ensures Number(pn) == (Number(old(pn)) * Pow2(shift)) % Capacity(|pn|)
    {
      hide Number, Capacity, Pow2, Lo, Hi, Or, LeftLimb;
      var a := pn;
      pn := Zeros(|a|);
      var k, s := shift / 32, shift % 32;
      var i := 0;
      NothingPlaced(a, k, s);
      while i < |a|
        invariant i <= |a| == |pn|
        invariant forall j :: 0 <= j < |pn| ==> pn[j] == LeftLimb(a[..i], k, s, j)
      {
        LeftPlaced(a, k, s, i, pn);
        if i + k + 1 < |a| && s != 0 {
          pn := pn[i + k + 1 := Or(pn[i + k + 1], Hi(a[i], s))];
        }
        if i + k < |a| {
          pn := pn[i + k := Or(pn[i + k], Lo(a[i], s))];
        }
        i := i + 1;
      }
      assert a[..i] == a;
      LeftLimbs(a, k, s, pn);
      ShiftLeftValue(a, k, s, pn);
      assert shift == 32 * k + s;
    }

    method ShiftRight(shift: nat)
      requires Valid()
      modifies this
      ensures Valid() && |pn| == |old(pn)|
      ensures Number(pn) == Number(old(pn)) / Pow2(shift)
    {
      hide Number, Capacity, Pow2, Low, Down, Or;
      var a := pn;
      pn := Zeros(|a|);
      var k, s := shift / 32, shift % 32;
      var i := 0;
      while i < |a|
        invariant i <= |a| == |pn|
        invariant forall j :: 0 <= j < |pn| ==> pn[j] == RightLimb(a[..i], k, s, j)
      {
        RightStep(a, k, s, i);
        assert a[..i + 1] == a[..i] + [a[i]];
        if i - k - 1 >= 0 && s != 0 {
          pn := pn[i - k - 1 := Or(pn[i - k - 1], Low(a[i], s))];
        }
        if i - k >= 0 {
          pn := pn[i - k := Or(pn[i - k], Down(a[i], s))];
        }
        i := i + 1;
      }
      assert a[..i] == a;
      RightLimbs(a, k, s, pn);
      ShiftRightValue(a, k, s, pn);
      assert shift == 32 * k + s;
    }

    method AndAssign(b: BaseUint)
      requires Fits(b)
      modifies this
      ensures |pn| == |old(pn)|
      ensures forall j :: 0 <= j < |pn| ==> pn[j] == And(old(pn)[j], old(b.pn)[j])
    {
      hide And;
      var i := 0;
      while i < |pn|
        invariant i <= |pn| == |old(pn)| == |b.pn|
        invariant forall j :: 0 <= j < i ==> pn[j] == And(old(pn)[j], old(b.pn)[j])
        invariant pn[i..] == old(pn)[i..] && b.pn[i..] == old(b.pn)[i..]
      {
        assert pn[i] == pn[i..][0] && b.pn[i] == b.pn[i..][0];
        pn := pn[i := And(pn[i], b.pn[i])];
        i := i + 1;
      }
    }

    method MulAssign(b: BaseUint)
      requires Fits(b)
      modifies this
      ensures Valid() && |pn| == |old(pn)|
      ensures Number(pn) == (Number(old(pn)) * Number(old(b.pn))) % Capacity(|pn|)
    {
      hide Number, Capacity, Owed;
      FirstProduct(Number(pn), Number(b.pn), Capacity(|pn|));
      var sum := Product(pn, b.pn);
      pn := sum.pn;
    }

    /** Division by zero throws and changes nothing. The precondition is exactly the
        condition under which the loop ends (Division.TerminatesExactly). */
    method DivAssign(b: BaseUint) returns (ok: bool)
      requires Fits(b)
      requires !(Number(b.pn) == 1 && Number(pn) >= Pow2(32 * |pn| - 1))
      modifies this
      ensures Valid() && |pn| == |old(pn)|
      ensures ok <==> Number(old(b.pn)) != 0
      ensures !ok ==> pn == old(pn)
      ensures ok ==> Number(pn) == Number(old(pn)) / Number(old(b.pn))
    {
      hide Number, Capacity, Pow2, AreLimbs;
      var zero := Equals64(b, 0);
      if zero {
        return false;
      }
      var ratio := Quotient(pn, b);
      pn := ratio.pn;
      ok := true;
    }
  }

  /** Shift and add: the loop of the multiplication on copies of both factors. */
  method Product(a: seq<nat>, b: seq<nat>) returns (sum: BaseUint)
    requires |a| == |b| >= 2 && AreLimbs(a) && AreLimbs(b)
    ensures fresh(sum) && sum.Valid() && |sum.pn| == |a|
    ensures Number(sum.pn) == Owed(0, Number(a), Number(b), Capacity(|a|))
  {
    hide Number, Capacity, Owed, AreLimbs;
    var c := new BaseUint.Copy(b);
    var d := new BaseUint.Copy(a);
    var power := new BaseUint.Copy(a);
    var one := new BaseUint.Copy(a);
    one.Assign64(1);
    sum := new BaseUint.Copy(a);
    sum.Assign64(0);
    var zero := new BaseUint.Copy(sum.pn);
    MulLoop(c, d, power, one, sum, zero);
  }

  method MulLoop(c: BaseUint, d: BaseUint, power: BaseUint, one: BaseUint, sum: BaseUint, zero: BaseUint)
    requires Apart(c, d, power, one, sum, zero) && Wide(c, power, one, sum, zero, |c.pn|)
    modifies c, d, power, sum
    ensures sum.Valid() && |sum.pn| == old(|c.pn|)
    ensures Number(sum.pn) == Owed(Number(old(sum.pn)), Number(old(power.pn)), Number(old(c.pn)), Capacity(|sum.pn|))
  {
    hide Number, Capacity, Owed, AreLimbs, Apart;
    ghost var w := |c.pn|;
    ghost var product := Owed(Number(sum.pn), Number(power.pn), Number(c.pn), Capacity(w));
    var more := Greater(c, zero);
    while more
      invariant Wide(c, power, one, sum, zero, w)
      invariant more == (Number(c.pn) > 0)
      invariant Owed(Number(sum.pn), Number(power.pn), Number(c.pn), Capacity(w)) == product
      decreases Number(c.pn)
    {
      MulRound(c, d, power, one, sum, zero);
      more := Greater(c, zero);
    }
    NumberBound(sum.pn);
    LastProduct(Number(sum.pn), Number(power.pn), Capacity(w));
  }

  /** The division loop on copies: b is only read, so it may be the dividend itself. */
  method Quotient(dividend: seq<nat>, b: BaseUint) returns (ratio: BaseUint)
    requires b.Valid() && |dividend| == |b.pn| && AreLimbs(dividend) && Number(b.pn) >= 1
    requires !(Number(b.pn) == 1 && Number(dividend) >= Pow2(32 * |dividend| - 1))
    ensures fresh(ratio) && ratio.Valid() && |ratio.pn| == |dividend|
    ensures Number(ratio.pn) == Number(dividend) / Number(b.pn)
  {
    hide Number, Capacity, Pow2, AreLimbs;
    ratio := new BaseUint.Copy(dividend);
    ratio.Assign64(0);
    var power := new BaseUint.Copy(dividend);
    var term := new BaseUint.Copy(dividend);
    var shifted := new BaseUint.Copy(dividend);
    var a := new BaseUint.Copy(dividend);
    DivLoop(a, ratio, b, shifted, power, term);
  }

  ghost predicate Disjoint(a: BaseUint, ratio: BaseUint, b: BaseUint, shifted: BaseUint,
      power: BaseUint, term: BaseUint) {
    && a !in {ratio, b, shifted, power, term}
    && ratio !in {b, shifted, power, term}
    && b !in {shifted, power, term}
    && shifted !in {power, term}
    && power != term
  }

  ghost predicate AllWide(a: BaseUint, ratio: BaseUint, b: BaseUint, shifted: BaseUint, power: BaseUint, term: BaseUint)
    reads a, ratio, b, shifted, power, term
  {
    a.Fits(ratio) && a.Fits(b) && a.Fits(shifted) && a.Fits(power) && a.Fits(term)
  }

  method DivLoop(a: BaseUint, ratio: BaseUint, b: BaseUint, shifted: BaseUint, power: BaseUint, term: BaseUint)
    requires Disjoint(a, ratio, b, shifted, power, term) && AllWide(a, ratio, b, shifted, power, term)
    requires Number(b.pn) >= 1 && Number(ratio.pn) == 0
    requires !(Number(b.pn) == 1 && Number(a.pn) >= Pow2(32 * |a.pn| - 1))
    modifies a, ratio, shifted, power, term
    ensures ratio.Valid() && |ratio.pn| == |b.pn|
    ensures Number(ratio.pn) == Number(old(a.pn)) / Number(b.pn)
  {
    hide Number, Capacity, Pow2, AreLimbs, Round, Stuck;
    ghost var w, divisor, total := |a.pn|, Number(b.pn), Number(a.pn);
    NumberBound(a.pn);
    CapacityIsPower(w);
    assert 0 * divisor == 0;
    var more := GreaterOrEqual(a, b);
    while more
      invariant AllWide(a, ratio, b, shifted, power, term) && |a.pn| == w
      invariant more == (Number(a.pn) >= divisor) && Number(a.pn) <= total
      invariant Number(ratio.pn) * divisor + Number(a.pn) == total
      decreases Number(a.pn)
    {
      StuckExactly(Number(a.pn), divisor, 32 * w);
      RoundProgress(State(Number(a.pn), Number(ratio.pn)), divisor, 32 * w);
      DivRound(a, ratio, b, shifted, power, term);
      more := GreaterOrEqual(a, b);
    }
    QuotientReached(total, Number(ratio.pn), Number(a.pn), divisor);
  }

  /** One pass of the outer loop is the round of the number model. */
  method DivRound(a: BaseUint, ratio: BaseUint, b: BaseUint, shifted: BaseUint, power: BaseUint, term: BaseUint)
    requires Disjoint(a, ratio, b, shifted, power, term) && AllWide(a, ratio, b, shifted, power, term)
    requires Number(a.pn) >= Number(b.pn) >= 1
    requires Number(ratio.pn) * Number(b.pn) + Number(a.pn) < Capacity(|a.pn|)
    modifies a, ratio, shifted, power, term
    ensures AllWide(a, ratio, b, shifted, power, term) && |a.pn| == |old(a.pn)|
    ensures State(Number(a.pn), Number(ratio.pn)) ==
        Round(State(Number(old(a.pn)), Number(old(ratio.pn))), Number(b.pn), 32 * |a.pn|)
  {
    hide Number, Capacity, Pow2, AreLimbs;
    ghost var first := FirstBelow(Number(a.pn), Number(b.pn), 0, 32 * |a.pn|);
    ghost var before, divisor := State(Number(a.pn), Number(ratio.pn)), Number(b.pn);
    FoundLater(before.a, divisor, 32 * |a.pn|);
    var i := 0;
    while i < 32 * |a.pn|
      invariant i <= first && |shifted.pn| == |a.pn| && shifted.Valid()
      invariant a.pn == old(a.pn) && ratio.pn == old(ratio.pn) && power.pn == old(power.pn) && term.pn == old(term.pn)
    {
      shifted.pn := a.pn;
      shifted.ShiftRight(i);
      var less := Less(shifted, b);
      if less {
        assert i == first;
        ShiftAtLeast(before.a, divisor, i - 1);
        TakeMultiple(a, ratio, b, power, term, i - 1);
        return;
      }
      i := i + 1;
    }
  }

  /** ratio += 2^k; a -= b * 2^k; without wrapping. */
  method TakeMultiple(a: BaseUint, ratio: BaseUint, b: BaseUint, power: BaseUint, term: BaseUint, k: nat)
    requires a !in {ratio, b, power, term} && ratio !in {b, power, term} && b !in {power, term} && power != term
    requires a.Fits(ratio) && a.Fits(b) && a.Fits(power) && a.Fits(term)
    requires Number(a.pn) >= Number(b.pn) * Pow2(k) && Number(b.pn) >= 1
    requires Number(ratio.pn) * Number(b.pn) + Number(a.pn) < Capacity(|a.pn|)
    modifies a, ratio, power, term
    ensures a.Fits(ratio) && a.Fits(b) && a.Fits(power) && a.Fits(term) && |a.pn| == |old(a.pn)|
    ensures Number(a.pn) == Number(old(a.pn)) - Number(b.pn) * Pow2(k)
    ensures Number(ratio.pn) == Number(old(ratio.pn)) + Pow2(k)
  {
    hide Number, Capacity, Pow2, AreLimbs;
    NoWrap(Number(a.pn), Number(ratio.pn), Number(b.pn), Pow2(k), Capacity(|a.pn|));
    power.Assign64(1);
    power.ShiftLeft(k);
    assert 1 * Pow2(k) == Pow2(k);
    ratio.AddAssign(power);
    term.pn := b.pn;
    term.ShiftLeft(k);
    a.SubAssign(term);
  }

  lemma NoWrap(a: nat, ratio: nat, b: nat, p: nat, m: nat)
    requires a >= b * p && b >= 1 && p >= 1 && ratio * b + a < m
    ensures p % m == p && (b * p) % m == b * p
    ensures (ratio + p) % m == ratio + p && (a - b * p) % m == a - b * p
  {
    Modular.MulMonotone(1, b, p);
    Modular.MulMonotone(1, b, ratio);
    assert b * ratio == ratio * b;
    ModIs(p, m, p, 0);
    ModIs(b * p, m, b * p, 0);
    ModIs(ratio + p, m, ratio + p, 0);
    ModIs(a - b * p, m, a - b * p, 0);
  }

  ghost predicate Apart(c: BaseUint, d: BaseUint, power: BaseUint, one: BaseUint, sum: BaseUint, zero: BaseUint) {
    && c !in {d, power, one, sum, zero}
    && d !in {power, one, sum, zero}
    && power !in {one, sum, zero}
    && one !in {sum, zero}
    && sum != zero
  }

  ghost predicate Wide(c: BaseUint, power: BaseUint, one: BaseUint, sum: BaseUint, zero: BaseUint, w: nat)
    reads c, power, one, sum, zero
  {
    && c.Fits(power) && c.Fits(one) && c.Fits(sum) && c.Fits(zero) && |c.pn| == w
    && Number(one.pn) == 1 && Number(zero.pn) == 0
  }

  /** One round of the multiplication: the lowest bit of c decides whether the current
      power is added. */
  method MulRound(c: BaseUint, d: BaseUint, power: BaseUint, one: BaseUint, sum: BaseUint, zero: BaseUint)
    requires Apart(c, d, power, one, sum, zero)
    requires Wide(c, power, one, sum, zero, |c.pn|)
    modifies c, d, power, sum
    ensures Wide(c, power, one, sum, zero, old(|c.pn|))
    ensures Number(c.pn) == Number(old(c.pn)) / 2
    ensures var m := Capacity(|c.pn|);
      Owed(Number(sum.pn), Number(power.pn), Number(c.pn), m) ==
          Owed(Number(old(sum.pn)), Number(old(power.pn)), Number(old(c.pn)), m)
  {
    hide Number, Capacity, And, Pow2, Owed;
    ghost var s0, p0, c0 := Number(sum.pn), Number(power.pn), Number(c.pn);
    d.pn := c.pn;
    d.AndAssign(one);
    LowestBit(c.pn, one.pn, d.pn);
    var odd := Greater(d, zero);
    if odd {
      sum.AddAssign(power);
    }
    power.ShiftLeft(1);
    c.ShiftRight(1);
    TwoIsPower();
    MulStep(s0, p0, c0, Number(sum.pn), Number(power.pn), Number(c.pn), Capacity(|c.pn|));
  }

  // -------------------------------------------------------------- comparisons

  method Equals64(a: BaseUint, b: nat) returns (result: bool)
    requires a.Valid() && b < BASE * BASE
    ensures result <==> Number(a.pn) == b
  {
    hide Number;
    ghost var z := [b % BASE, b / BASE] + Zeros(|a.pn| - 2);
    SmallNumber(b % BASE, b / BASE, |a.pn|);
    result := true;
    if a.pn[0] != b % BASE {
      result := false;
    }
    if a.pn[1] != b / BASE {
      result := false;
    }
    var i := 2;
    while i < |a.pn|
      invariant 2 <= i <= |a.pn|
      invariant result <==> forall j :: 0 <= j < i ==> a.pn[j] == z[j]
    {
      if a.pn[i] != 0 {
        result := false;
      }
      i := i + 1;
    }
    if result {
      assert a.pn == z;
    } else if Number(a.pn) == Number(z) {
      NumberInjective(a.pn, z);
    }
  }

  method Less(a: BaseUint, b: BaseUint) returns (r: bool)
    requires a.Fits(b)
    ensures r <==> Number(a.pn) < Number(b.pn)
  {
    hide Number;
    var i := |a.pn| - 1;
    while i >= 0
      invariant -1 <= i < |a.pn| && forall j :: i < j < |a.pn| ==> a.pn[j] == b.pn[j]
    {
      if a.pn[i] < b.pn[i] {
        CompareAt(a.pn, b.pn, i);
        return true;
      } else if a.pn[i] > b.pn[i] {
        CompareAt(b.pn, a.pn, i);
        return false;
      }
      i := i - 1;
    }
    assert a.pn == b.pn;
    r := false;
  }

  method GreaterOrEqual(a: BaseUint, b: BaseUint) returns (r: bool)
    requires a.Fits(b)
    ensures r <==> Number(a.pn) >= Number(b.pn)
  {
    hide Number;
    var i := |a.pn| - 1;
    while i >= 0
      invariant -1 <= i < |a.pn| && forall j :: i < j < |a.pn| ==> a.pn[j] == b.pn[j]
    {
      if a.pn[i] > b.pn[i] {
        CompareAt(b.pn, a.pn, i);
        return true;
      } else if a.pn[i] < b.pn[i] {
        CompareAt(a.pn, b.pn, i);
        return false;
      }
      i := i - 1;
    }
    assert a.pn == b.pn;
    r := true;
  }

  method Greater(a: BaseUint, b: BaseUint) returns (r: bool)
    requires a.Fits(b)
    ensures r <==> Number(a.pn) > Number(b.pn)
  {
    hide Number;
    var i := |a.pn| - 1;
    while i >= 0
      invariant -1 <= i < |a.pn| && forall j :: i < j < |a.pn| ==> a.pn[j] == b.pn[j]
    {
      if a.pn[i] > b.pn[i] {
        CompareAt(b.pn, a.pn, i);
        return true;
      } else if a.pn[i] < b.pn[i] {
        CompareAt(a.pn, b.pn, i);
        return false;
      }
      i := i - 1;
    }
    assert a.pn == b.pn;
    r := false;
  }

  // ------------------------------------------------------------- loop steps

  lemma EmptyNumber(c: seq<nat>)
    ensures Number(c[..0]) == 0 && Capacity(0) == 1
  {
  }

  lemma AddStep(pn: seq<nat>, c: seq<nat>, i: nat, carry: nat, total: nat)
    requires i < |pn| == |c|
    requires Number(pn) + Capacity(i) * carry == total + Number(c[..i])
    ensures var n := carry + pn[i] + c[i];
      Number(pn[i := n % BASE]) + Capacity(i + 1) * (n / BASE) == total + Number(c[..i + 1])
  {
    var n := carry + pn[i] + c[i];
    NumberUpdate(pn, i, n % BASE);
    NumberSnoc(c[..i], c[i]);
    assert c[..i + 1] == c[..i] + [c[i]];
    assert Capacity(i + 1) == BASE * Capacity(i);
    hide Number, Capacity;
    AddAlgebra(Capacity(i), n, n % BASE, n / BASE, pn[i], c[i], carry);
  }

  lemma AddAlgebra(cap: nat, n: nat, r: nat, q: nat, x: nat, y: nat, carry: nat)
    requires n == carry + x + y == r + BASE * q
    ensures cap * (r - x) + (BASE * cap) * q == cap * carry + cap * y
  {
    assert cap * (r - x + BASE * q) == cap * (carry + y);
    assert (BASE * cap) * q == cap * (BASE * q);
  }

  /** The carry still to be added when limb i has just wrapped to zero. */
  ghost function Pending(pn: seq<nat>, i: nat): nat
    requires i < |pn|
  {
    if pn[i] == 0 then Capacity(i + 1) else 0
  }

  lemma IncrementStep(pn: seq<nat>, i: nat, total: nat)
    requires i < |pn| && AreLimbs(pn)
    requires Number(pn) + (if i == 0 then 1 else Capacity(i)) == total + 1
    ensures var next := pn[i := (pn[i] + 1) % BASE];
      AreLimbs(next) && Number(next) + Pending(next, i) == total + 1
  {
    assert Capacity(0) == 1 && Capacity(i + 1) == BASE * Capacity(i);
    hide Number, Capacity;
    NumberUpdate(pn, i, (pn[i] + 1) % BASE);
    IncrementAlgebra(Capacity(i), pn[i], (pn[i] + 1) % BASE);
  }

  lemma IncrementAlgebra(cap: nat, x: nat, y: nat)
    requires x < BASE && y == if x == BASE - 1 then 0 else x + 1
    ensures cap * (y - x) + (if y == 0 then BASE * cap else 0) == cap
  {
    if y == 0 {
      assert y - x == 1 - BASE;
    } else {
      assert y - x == 1;
    }
  }

  lemma NegateAlgebra(n: nat, m: nat)
    requires n < m
    ensures (m - 1 - n + 1) % m == (0 - n) % m
  {
    ModIs(m - n, m, if n == 0 then 0 else m - n, if n == 0 then 1 else 0);
    ModIs(0 - n, m, if n == 0 then 0 else m - n, if n == 0 then 0 else -1);
  }

  lemma SubAlgebra(a: nat, b: nat, m: nat)
    requires m > 0
    ensures (a + (0 - b) % m) % m == (a - b) % m
  {
    Modular.CongMod(0 - b, m);
    Modular.CongRefl(a, m);
    Modular.CongAdd(a, a, (0 - b) % m, 0 - b, m);
    Modular.CongIffMod(a + (0 - b) % m, a - b, m);
  }

  lemma SmallNumber(lo: nat, hi: nat, w: nat)
    requires w >= 2
    ensures Number([lo, hi] + Zeros(w - 2)) == lo + BASE * hi
  {
    NumberZero(Zeros(w - 2));
    NumberConcat([lo, hi], Zeros(w - 2));
    assert [lo, hi][1..] == [hi] && [hi][1..] == [];
  }

  /** What or-ing limb i of a into its two places makes of them. */
  lemma LeftStep(a: seq<nat>, k: nat, s: nat, i: nat)
    requires i < |a| && s < 32 && AreLimbs(a)
    ensures Or(0, Hi(a[i], s)) == Hi(a[i], s)
    ensures s == 0 ==> Hi(a[i], s) == 0
    ensures Or(LeftLimb(a[..i], k, s, i + k), Lo(a[i], s)) == LeftLimb(a[..i], k, s, i + k) + Lo(a[i], s)
  {
    OrZero(Hi(a[i], s));
    assert Pow2(0) == 1;
    hide Or, Lo, Hi, Pow2, DivRem;
    LimbSplit(a[i], s);
    var before := LeftLimb(a[..i], k, s, i + k);
    if i > 0 {
      LimbSplit(a[i - 1], s);
      assert before == Hi(a[i - 1], s);
    }
    OrDisjoint(before, DivRem(a[i], Pow2(32 - s)).1, s);
  }

  lemma NothingPlaced(a: seq<nat>, k: nat, s: nat)
    requires s < 32
    ensures forall j :: 0 <= j < |a| ==> LeftLimb(a[..0], k, s, j) == 0
  {
  }

  /** One round of the left shift brings limb i of a to its two places. */
  lemma LeftPlaced(a: seq<nat>, k: nat, s: nat, i: nat, pn: seq<nat>)
    requires i < |a| == |pn| && s < 32 && AreLimbs(a)
    requires forall j :: 0 <= j < |pn| ==> pn[j] == LeftLimb(a[..i], k, s, j)
    ensures
      var upper := if i + k + 1 < |a| && s != 0 then pn[i + k + 1 := Or(pn[i + k + 1], Hi(a[i], s))] else pn;
      var both := if i + k < |a| then upper[i + k := Or(upper[i + k], Lo(a[i], s))] else upper;
      forall j :: 0 <= j < |pn| ==> both[j] == LeftLimb(a[..i + 1], k, s, j)
  {
    hide Lo, Hi, Or, Pow2;
    LeftStep(a, k, s, i);
    assert a[..i + 1] == a[..i] + [a[i]];
  }

  lemma SumFits(r: nat, h: nat, p: nat, q: nat)
    requires r < q && h < p && p * q == BASE
    ensures r * p + h < BASE
  {
    assert (q - r - 1) * p >= 0;
    assert (q - r - 1) * p == p * q - r * p - p;
  }

  lemma LeftLimbs(a: seq<nat>, k: nat, s: nat, r: seq<nat>)
    requires s < 32 && AreLimbs(a) && |r| == |a|
    requires forall j :: 0 <= j < |r| ==> r[j] == LeftLimb(a, k, s, j)
    ensures AreLimbs(r)
  {
    hide Lo, Hi, Pow2, DivRem;
    LimbPower();
    Pow2Add(s, 32 - s);
    forall j | 0 <= j < |r|
      ensures r[j] < BASE
    {
      if k <= j < k + |a| {
        LimbSplit(a[j - k], s);
      }
      if k < j <= k + |a| {
        LimbSplit(a[j - k - 1], s);
      }
      var rem := if k <= j < k + |a| then DivRem(a[j - k], Pow2(32 - s)).1 else 0;
      var h := if k < j <= k + |a| then Hi(a[j - k - 1], s) else 0;
      SumFits(rem, h, Pow2(s), Pow2(32 - s));
      assert r[j] == rem * Pow2(s) + h;
    }
  }

  lemma RightStep(a: seq<nat>, k: nat, s: nat, i: nat)
    requires i < |a| && s < 32 && AreLimbs(a)
    ensures Or(0, Down(a[i], s)) == Down(a[i], s)
    ensures s == 0 ==> Low(a[i], s) == 0
    ensures i - k - 1 >= 0 ==>
      Or(RightLimb(a[..i], k, s, i - k - 1), Low(a[i], s)) == RightLimb(a[..i], k, s, i - k - 1) + Low(a[i], s)
  {
    OrZero(Down(a[i], s));
    assert s == 0 ==> Low(a[i], s) == 0;
    hide Or, Low, Down, Pow2, DivRem;
    if i - k - 1 >= 0 {
      LimbDown(a[i], s);
      LimbDown(a[i - 1], s);
      assert RightLimb(a[..i], k, s, i - k - 1) == Down(a[i - 1], s);
      OrDisjoint(Down(a[i - 1], s), DivRem(a[i], Pow2(s)).1, 32 - s);
    }
  }

  lemma RightLimbs(a: seq<nat>, k: nat, s: nat, r: seq<nat>)
    requires s < 32 && AreLimbs(a) && |r| == |a|
    requires forall j :: 0 <= j < |r| ==> r[j] == RightLimb(a, k, s, j)
    ensures AreLimbs(r)
  {
    hide Low, Down, Pow2, DivRem;
    LimbPower();
    Pow2Add(s, 32 - s);
    forall j | 0 <= j < |r|
      ensures r[j] < BASE
    {
      if j + k < |a| {
        LimbDown(a[j + k], s);
      }
      if j + k + 1 < |a| {
        LimbDown(a[j + k + 1], s);
      }
      var h := if j + k < |a| then Down(a[j + k], s) else 0;
      var rem := if j + k + 1 < |a| then DivRem(a[j + k + 1], Pow2(s)).1 else 0;
      SumFits(rem, h, Pow2(32 - s), Pow2(s));
      assert r[j] == rem * Pow2(32 - s) + h;
    }
  }

  // ------------------------------------------------------------ multiplication

  lemma TwoIsPower()
    ensures Pow2(1) == 2
  {
  }

  lemma AndOne(x: nat)
    ensures And(x, 0) == 0 && And(x, 1) == x % 2
  {
  }

  lemma OneLimbs(one: seq<nat>)
    requires |one| >= 2 && AreLimbs(one) && Number(one) == 1
    ensures one == [1] + Zeros(|one| - 1)
  {
    var z := [1] + Zeros(|one| - 1);
    NumberZero(Zeros(|one| - 1));
    assert z[1..] == Zeros(|one| - 1);
    NumberInjective(one, z);
  }

  /** Masking with one leaves the parity. */
  lemma LowestBit(c: seq<nat>, one: seq<nat>, d: seq<nat>)
    requires |c| == |one| == |d| >= 2 && AreLimbs(c) && AreLimbs(one) && Number(one) == 1
    requires forall j :: 0 <= j < |d| ==> d[j] == And(c[j], one[j])
    ensures AreLimbs(d) && Number(d) == Number(c) % 2
  {
    hide And;
    OneLimbs(one);
    forall j | 0 <= j < |d|
      ensures d[j] == if j == 0 then c[0] % 2 else 0
    {
      AndOne(c[j]);
    }
    NumberZero(d[1..]);
    Parity(c[0], Number(c[1..]));
  }

  lemma Parity(x: nat, n: nat)
    ensures (x + BASE * n) % 2 == x % 2
  {
    assert BASE * n == 2 * (0x8000_0000 * n);
  }

  /** What the multiplication still comes to: the sum so far and the power times what is
      left of the multiplier. */
  ghost function Owed(sum: nat, power: nat, c: nat, m: nat): nat
    requires m > 0
  {
    (sum + power * c) % m
  }

  lemma MulStep(s: nat, p: nat, c: nat, s': nat, p': nat, c': nat, m: nat)
    requires m > 0 && c' == c / 2 && p' == (p * 2) % m
    requires s' == if c % 2 == 1 then (s + p) % m else s
    ensures Owed(s', p', c', m) == Owed(s, p, c, m)
  {
    var t := if c % 2 == 1 then s + p else s;
    if c % 2 == 1 {
      Modular.CongMod(s + p, m);
    } else {
      Modular.CongRefl(s, m);
    }
    Modular.CongMod(p * 2, m);
    Modular.CongRefl(c', m);
    Modular.CongMul(p', p * 2, c', c', m);
    Modular.CongAdd(s', t, p' * c', (p * 2) * c', m);
    HalfAlgebra(s, p, c, c', t);
    Modular.CongIffMod(s' + p' * c', s + p * c, m);
  }

  lemma HalfAlgebra(s: nat, p: nat, c: nat, c': nat, t: nat)
    requires c' == c / 2 && t == if c % 2 == 1 then s + p else s
    ensures t + (p * 2) * c' == s + p * c
  {
    assert (p * 2) * c' == p * (2 * c');
    if c % 2 == 1 {
      assert c == 2 * c' + 1;
      assert p * (2 * c' + 1) == p * (2 * c') + p;
    } else {
      assert c == 2 * c';
    }
  }

  lemma LastProduct(s: nat, p: nat, m: nat)
    requires s < m
    ensures Owed(s, p, 0, m) == s
  {
    assert p * 0 == 0;
    ModIs(s, m, s, 0);
  }

  lemma FirstProduct(x: nat, y: nat, m: nat)
    requires m > 0
    ensures Owed(0, x, y, m) == (x * y) % m
  {
  }
}
