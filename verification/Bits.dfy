/** Binary digits of naturals, and the exclusive-or of arbitrary-precision
    integers that masks every share (src/crypto/bignum.h:701-720). */
module Bits {

  function Pow2(n: nat): (r: nat)
    ensures r >= 1
  {
    if n == 0 then 1 else 2 * Pow2(n - 1)
  }

  lemma {:induction false} Pow2Add(m: nat, n: nat)
    ensures Pow2(m + n) == Pow2(m) * Pow2(n)
  {
    if m > 0 {
      Pow2Add(m - 1, n);
      Double(Pow2(m - 1), Pow2(n));
    }
  }

  lemma Double(a: int, b: int)
    ensures 2 * (a * b) == (2 * a) * b
  {
  }

  lemma {:induction false} Pow2Monotone(m: nat, n: nat)
    requires m <= n
    ensures Pow2(m) <= Pow2(n)
  {
    if m < n {
      Pow2Monotone(m, n - 1);
    }
  }

  lemma BytePower()
    ensures Pow2(8) == 0x100
  {
  }

  /** n is below the n-th power of two. */
  lemma {:induction false} Pow2Grows(n: nat)
    ensures n < Pow2(n)
  {
    if n > 0 {
      Pow2Grows(n - 1);
    }
  }

  /** Binary digit i of x. */
  predicate Bit(x: nat, i: nat) {
    if i == 0 then x % 2 == 1 else Bit(x / 2, i - 1)
  }

  function Xor(x: nat, y: nat): (r: nat) {
    if x == 0 && y == 0 then 0 else 2 * Xor(x / 2, y / 2) + (x % 2 + y % 2) % 2
  }

  function Or(x: nat, y: nat): (r: nat) {
    if x == 0 && y == 0 then 0 else 2 * Or(x / 2, y / 2) + (if x % 2 == 1 || y % 2 == 1 then 1 else 0)
  }

  function And(x: nat, y: nat): (r: nat) {
    if x == 0 || y == 0 then 0 else 2 * And(x / 2, y / 2) + (if x % 2 == 1 && y % 2 == 1 then 1 else 0)
  }

  lemma {:induction false} OrCommutes(x: nat, y: nat)
    ensures Or(x, y) == Or(y, x)
    decreases x + y
  {
    if x + y > 0 {
      OrCommutes(x / 2, y / 2);
    }
  }

  lemma {:induction false} XorBit(x: nat, y: nat, i: nat)
    ensures Bit(Xor(x, y), i) <==> Bit(x, i) != Bit(y, i)
    decreases i
  {
    if i > 0 {
      XorBit(x / 2, y / 2, i - 1);
      assert Xor(x, y) / 2 == Xor(x / 2, y / 2);
    }
  }

  lemma {:induction false} OrBit(x: nat, y: nat, i: nat)
    ensures Bit(Or(x, y), i) <==> Bit(x, i) || Bit(y, i)
    decreases i
  {
    OrHalves(x, y);
    hide Or;
    if i > 0 {
      OrBit(x / 2, y / 2, i - 1);
    }
  }

  lemma OrHalves(x: nat, y: nat)
    ensures Or(x, y) / 2 == Or(x / 2, y / 2) && (Or(x, y) % 2 == 1 <==> x % 2 == 1 || y % 2 == 1)
  {
  }

  lemma {:induction false} AndBit(x: nat, y: nat, i: nat)
    ensures Bit(And(x, y), i) <==> Bit(x, i) && Bit(y, i)
    decreases i
  {
    AndHalves(x, y);
    hide And;
    if i > 0 {
      AndBit(x / 2, y / 2, i - 1);
    }
  }

  lemma AndHalves(x: nat, y: nat)
    ensures And(x, y) / 2 == And(x / 2, y / 2) && (And(x, y) % 2 == 1 <==> x % 2 == 1 && y % 2 == 1)
  {
  }

  lemma {:induction false} ZeroBits(i: nat)
    ensures !Bit(0, i)
  {
    if i > 0 {
      ZeroBits(i - 1);
    }
  }

  /** Numbers with the same digits are equal. */
  lemma {:induction false} SameBits(x: nat, y: nat)
    requires forall i: nat :: Bit(x, i) <==> Bit(y, i)
    ensures x == y
    decreases x + y
  {
    if x + y > 0 {
      assert Bit(x, 0) <==> Bit(y, 0);
      forall i: nat
        ensures Bit(x / 2, i) <==> Bit(y / 2, i)
      {
        assert Bit(x, i + 1) <==> Bit(y, i + 1);
      }
      SameBits(x / 2, y / 2);
    }
  }

  /** The digits in which a and b differ are those in which c and d differ. */
  ghost predicate DifferAlike(a: nat, b: nat, c: nat, d: nat) {
    forall i: nat :: (Bit(a, i) != Bit(b, i)) <==> (Bit(c, i) != Bit(d, i))
  }

  lemma XorEqual(a: nat, b: nat, c: nat, d: nat)
    ensures Xor(a, b) == Xor(c, d) <==> DifferAlike(a, b, c, d)
  {
    hide Bit, Xor;
    forall i: nat
      ensures (Bit(Xor(a, b), i) <==> Bit(Xor(c, d), i)) <==>
        ((Bit(a, i) != Bit(b, i)) <==> (Bit(c, i) != Bit(d, i)))
    {
      XorBit(a, b, i);
      XorBit(c, d, i);
    }
    if DifferAlike(a, b, c, d) {
      SameBits(Xor(a, b), Xor(c, d));
    }
  }

  /** The digits that a and b have between them are those that c and d have. */
  ghost predicate HaveAlike(a: nat, b: nat, c: nat, d: nat) {
    forall i: nat :: (Bit(a, i) || Bit(b, i)) <==> (Bit(c, i) || Bit(d, i))
  }

  lemma OrEqual(a: nat, b: nat, c: nat, d: nat)
    ensures Or(a, b) == Or(c, d) <==> HaveAlike(a, b, c, d)
  {
    hide Bit, Or;
    forall i: nat
      ensures (Bit(Or(a, b), i) <==> Bit(Or(c, d), i)) <==> ((Bit(a, i) || Bit(b, i)) <==> (Bit(c, i) || Bit(d, i)))
    {
      OrBit(a, b, i);
      OrBit(c, d, i);
    }
    if HaveAlike(a, b, c, d) {
      SameBits(Or(a, b), Or(c, d));
    }
  }

  /** Masking twice with the same number gives the number back. */
  lemma XorUndo(x: nat, y: nat)
    ensures Xor(y, Xor(x, y)) == x
    ensures Xor(y, Xor(y, x)) == x
  {
    forall i: nat
      ensures Bit(Xor(y, Xor(x, y)), i) <==> Bit(x, i)
      ensures Bit(Xor(y, Xor(y, x)), i) <==> Bit(x, i)
    {
      XorBit(x, y, i);
      XorBit(y, x, i);
      XorBit(y, Xor(x, y), i);
      XorBit(y, Xor(y, x), i);
    }
    SameBits(Xor(y, Xor(x, y)), x);
    SameBits(Xor(y, Xor(y, x)), x);
  }

  lemma {:induction false} XorCommutes(x: nat, y: nat)
    ensures Xor(x, y) == Xor(y, x)
    decreases x + y
  {
    if x + y > 0 {
      XorCommutes(x / 2, y / 2);
    }
  }

  /** A number below the n-th power of two has no digits at and above n. */
  lemma {:induction false} HighBits(x: nat, n: nat, i: nat)
    requires x < Pow2(n) && n <= i
    ensures !Bit(x, i)
    decreases i
  {
    if n == 0 {
      ZeroBits(i);
    } else {
      HighBits(x / 2, n - 1, i - 1);
    }
  }

  /** The number with digit i inverted. */
  function Flip(x: nat, i: nat): (r: nat) {
    if i == 0 then (if x % 2 == 1 then x - 1 else x + 1) else 2 * Flip(x / 2, i - 1) + x % 2
  }

  lemma {:induction false} FlipBit(x: nat, i: nat, j: nat)
    ensures Bit(Flip(x, i), j) <==> (if i == j then !Bit(x, j) else Bit(x, j))
  {
    if i > 0 && j > 0 {
      FlipBit(x / 2, i - 1, j - 1);
      assert Flip(x, i) / 2 == Flip(x / 2, i - 1);
    } else if i > 0 {
      assert Flip(x, i) % 2 == x % 2;
    } else if j > 0 {
      assert Flip(x, 0) / 2 == x / 2;
    }
  }

  /** Clearing a digit that is set subtracts its power; setting one that is not adds it. */
  lemma {:induction false} FlipValue(x: nat, i: nat)
    ensures Flip(x, i) == if Bit(x, i) then x - Pow2(i) else x + Pow2(i)
  {
    if i > 0 {
      FlipValue(x / 2, i - 1);
    }
  }

  /** The number with digit i set. */
  function SetBit(x: nat, i: nat): (r: nat) {
    if Bit(x, i) then x else Flip(x, i)
  }

  lemma SetBitBits(x: nat, i: nat, j: nat)
    ensures Bit(SetBit(x, i), j) <==> i == j || Bit(x, j)
  {
    FlipBit(x, i, j);
  }

  /** The number with digit i cleared. */
  function ClearBit(x: nat, i: nat): (r: nat) {
    if Bit(x, i) then Flip(x, i) else x
  }

  lemma ClearBitBits(x: nat, i: nat, j: nat)
    ensures Bit(ClearBit(x, i), j) <==> i != j && Bit(x, j)
  {
    FlipBit(x, i, j);
  }

  /** The low n digits of x: what masking with 2^n - 1 leaves. */
  function LowBits(x: nat, n: nat): (r: nat) {
    if n == 0 then 0 else 2 * LowBits(x / 2, n - 1) + x % 2
  }

  lemma {:induction false} LowBitsBits(x: nat, n: nat, j: nat)
    ensures Bit(LowBits(x, n), j) <==> j < n && Bit(x, j)
  {
    if n == 0 {
      ZeroBits(j);
    } else if j > 0 {
      LowBitsBits(x / 2, n - 1, j - 1);
      assert LowBits(x, n) / 2 == LowBits(x / 2, n - 1);
    }
  }

  /** A number without digits at and above n is below the n-th power of two. */
  lemma {:induction false} NoHighBits(x: nat, n: nat)
    requires forall i: nat :: i >= n ==> !Bit(x, i)
    ensures x < Pow2(n)
    decreases x, n
  {
    if n == 0 {
      forall i: nat ensures Bit(x, i) <==> Bit(0, i) { ZeroBits(i); }
      SameBits(x, 0);
    } else {
      forall i: nat | i >= n - 1 ensures !Bit(x / 2, i) { assert !Bit(x, i + 1); }
      if x > 0 { NoHighBits(x / 2, n - 1); }
    }
  }

  function Magnitude(x: int): nat {
    if x < 0 then -x else x
  }

  function WithSignOf(a: int, m: nat): int {
    if a < 0 then 0 - m else m
  }

  /** What the bit-flipping operator computes: it keeps the sign of its first
      operand, and it ignores a negative second operand altogether. */
  function BigXor(a: int, b: int): int {
    if b <= 0 then a else WithSignOf(a, Xor(Magnitude(a), b))
  }

  /** `operator^` (src/crypto/bignum.h:701-720). */
  method XorBigNum(a: int, b: int) returns (result: int)
    ensures result == BigXor(a, b)
  {
    var m: nat := Magnitude(a);
    var s, shift := 1, 0;
    while s <= 2 * b
      invariant s == Pow2(shift)
      invariant forall j: nat :: Bit(m, j) <==> (Bit(Magnitude(a), j) != (j < shift && b > 0 && Bit(b, j)))
      invariant b <= 0 ==> m == Magnitude(a)
      decreases 2 * b - s
    {
      if Bit(b, shift) {
        FlipValue(m, shift);
        forall j: nat
          ensures Bit(Flip(m, shift), j) <==> (if shift == j then !Bit(m, j) else Bit(m, j))
        {
          FlipBit(m, shift, j);
        }
        if Bit(m, shift) {
          m := m - Pow2(shift);
        } else {
          m := m + Pow2(shift);
        }
      }
      shift := shift + 1;
      s := Pow2(shift);
    }
    if b > 0 {
      forall j: nat
        ensures Bit(m, j) <==> Bit(Xor(Magnitude(a), b), j)
      {
        XorBit(Magnitude(a), b, j);
        if j >= shift { HighBits(b, shift, j); }
      }
      SameBits(m, Xor(Magnitude(a), b));
    }
    result := WithSignOf(a, m);
  }

  /** On non-negative numbers the mask comes off again, whichever side it is on. */
  lemma BigXorUndo(a: int, b: int)
    requires a >= 0 && b >= 0
    ensures BigXor(b, BigXor(a, b)) == a
    ensures BigXor(b, BigXor(b, a)) == a
    ensures BigXor(a, b) == BigXor(b, a) >= 0
  {
    XorUndo(a, b);
    XorCommutes(a, b);
    XorZero(a);
    XorZero(b);
  }

  lemma {:induction false} XorZero(x: nat)
    ensures Xor(x, 0) == x == Xor(0, x)
    ensures Xor(x, x) == 0
  {
    if x > 0 {
      XorZero(x / 2);
    }
  }
}
