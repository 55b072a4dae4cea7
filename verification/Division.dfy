/** The division loop of fixed-width integers on the numbers it works with
    (src/crypto/uint256.h:178-213): what one round does, which inputs it makes no
    progress on, and that it ends with the quotient on all others. */
module Division {
  import opened Bits
  import opened Quotients
  import Modular

  lemma ShiftAtLeast(a: nat, b: nat, j: nat)
    ensures a / Pow2(j) >= b <==> a >= b * Pow2(j)
  {
    hide Pow2;
    QuotientAtLeast(a, b, Pow2(j));
  }

  lemma QuotientAtLeast(a: nat, b: nat, p: nat)
    requires p >= 1
    ensures a / p >= b <==> a >= b * p
  {
    var q, r := a / p, a % p;
    assert a == q * p + r;
    if q >= b {
      Modular.MulMonotone(b, q, p);
    } else {
      Modular.MulMonotone(q + 1, b, p);
      assert (q + 1) * p == q * p + p;
    }
  }

  /** The first shift from i on that brings a below b, or bits when none does. */
  function FirstBelow(a: nat, b: nat, i: nat, bits: nat): (r: nat)
    requires i <= bits
    ensures i <= r <= bits
    ensures r < bits ==> a / Pow2(r) < b
    ensures forall j :: i <= j < r ==> a / Pow2(j) >= b
    decreases bits - i
  {
    if i == bits || a / Pow2(i) < b then i else FirstBelow(a, b, i + 1, bits)
  }

  datatype State = State(a: nat, ratio: nat)

  /** One pass of the outer loop: subtract the largest multiple of b by a power of two, if
      one is found below the width. */
  function Round(s: State, b: nat, bits: nat): State
    requires s.a >= b
  {
    var i := FirstBelow(s.a, b, 0, bits);
    if i == bits || i == 0 then s else
      ShiftAtLeast(s.a, b, i - 1);
      State(s.a - b * Pow2(i - 1), s.ratio + Pow2(i - 1))
  }

  /** The shift that is found is not the zero shift. */
  lemma FoundLater(a: nat, b: nat, bits: nat)
    requires a >= b && bits >= 1
    ensures FirstBelow(a, b, 0, bits) >= 1
  {
    ShiftAtLeast(a, b, 0);
  }

  predicate Stuck(a: nat, b: nat, bits: nat) {
    FirstBelow(a, b, 0, bits) == bits
  }

  /** No shift is found exactly for the divisor one and a dividend with its top bit set. */
  lemma StuckExactly(a: nat, b: nat, bits: nat)
    requires bits >= 1 && b >= 1 && a < Pow2(bits)
    ensures Stuck(a, b, bits) <==> b == 1 && a >= Pow2(bits - 1)
  {
    assert Pow2(bits) == 2 * Pow2(bits - 1);
    hide Pow2;
    var i := FirstBelow(a, b, 0, bits);
    StuckAlgebra(a, b, Pow2(bits - 1));
    ShiftAtLeast(a, b, bits - 1);
    if i < bits {
      ShiftAtLeast(a, b, i);
      Pow2Monotone(i, bits - 1);
      Modular.MulMonotone(Pow2(i), Pow2(bits - 1), b);
    }
  }

  lemma StuckAlgebra(a: nat, b: nat, p: nat)
    requires a < 2 * p && b >= 1
    ensures a >= b * p <==> b == 1 && a >= p
  {
    if b >= 2 {
      Modular.MulMonotone(2, b, p);
    }
  }

  /** A round that finds a shift makes progress and keeps the balance. */
  lemma RoundProgress(s: State, b: nat, bits: nat)
    requires bits >= 1 && s.a >= b >= 1 && !Stuck(s.a, b, bits)
    ensures var t := Round(s, b, bits); t.a < s.a && t.ratio * b + t.a == s.ratio * b + s.a
  {
    FoundLater(s.a, b, bits);
    var i := FirstBelow(s.a, b, 0, bits);
    ShiftAtLeast(s.a, b, i - 1);
    hide Pow2, FirstBelow;
    RoundAlgebra(s.ratio, Pow2(i - 1), b);
  }

  lemma RoundAlgebra(ratio: nat, p: nat, b: nat)
    requires p >= 1 && b >= 1
    ensures (ratio + p) * b == ratio * b + b * p && b * p >= 1
  {
    Modular.MulMonotone(1, b, p);
  }

  /** A round of a stuck state changes nothing. */
  lemma RoundStuck(s: State, b: nat, bits: nat)
    requires s.a >= b && Stuck(s.a, b, bits)
    ensures Round(s, b, bits) == s
  {
  }

  lemma QuotientReached(total: nat, ratio: nat, rest: nat, b: nat)
    requires ratio * b + rest == total && rest < b
    ensures ratio == total / b && rest == total % b
  {
    UniqueQuotient(total / b, total % b, ratio, rest, b);
  }

  // ---------------------------------------------------------- whole runs

  /** The state after n tests of the loop condition. */
  function Rounds(n: nat, s: State, b: nat, bits: nat): State {
    if n == 0 || s.a < b then s else Rounds(n - 1, Round(s, b, bits), b, bits)
  }

  ghost predicate Terminates(a: nat, b: nat, bits: nat) {
    exists n: nat :: Rounds(n, State(a, 0), b, bits).a < b
  }

  lemma {:induction false} StuckForever(n: nat, s: State, b: nat, bits: nat)
    requires s.a >= b && Stuck(s.a, b, bits)
    ensures Rounds(n, s, b, bits) == s
  {
    if n > 0 {
      RoundStuck(s, b, bits);
      StuckForever(n - 1, s, b, bits);
    }
  }

  lemma {:induction false} RunsDown(s: State, b: nat, bits: nat) returns (n: nat)
    requires bits >= 1 && b >= 1 && s.a < Pow2(bits) && (b != 1 || s.a < Pow2(bits - 1))
    ensures var t := Rounds(n, s, b, bits); t.a < b && t.ratio * b + t.a == s.ratio * b + s.a
    decreases s.a
  {
    hide Pow2, Stuck, Round;
    if s.a < b {
      n := 0;
    } else {
      StuckExactly(s.a, b, bits);
      RoundProgress(s, b, bits);
      var t := Round(s, b, bits);
      var m := RunsDown(t, b, bits);
      n := m + 1;
      assert Rounds(n, s, b, bits) == Rounds(m, t, b, bits);
    }
  }

  /** The loop ends exactly when the divisor is not one or the top bit is clear. */
  lemma TerminatesExactly(a: nat, b: nat, bits: nat)
    requires bits >= 1 && b >= 1 && a < Pow2(bits)
    ensures Terminates(a, b, bits) <==> !(b == 1 && a >= Pow2(bits - 1))
  {
    hide Stuck;
    if b == 1 && a >= Pow2(bits - 1) {
      StuckExactly(a, b, bits);
      forall n: nat
        ensures Rounds(n, State(a, 0), b, bits).a >= b
      {
        StuckForever(n, State(a, 0), b, bits);
      }
    } else {
      var n := RunsDown(State(a, 0), b, bits);
      assert Rounds(n, State(a, 0), b, bits).a < b;
    }
  }

  /** 2^255 divided by one never ends at 256 bits. */
  lemma TopBitByOne()
    ensures !Terminates(Pow2(255), 1, 256)
  {
    assert Pow2(256) == 2 * Pow2(255);
    hide Terminates;
    TerminatesExactly(Pow2(255), 1, 256);
  }

  /** Wherever the loop stops, it stops with the quotient. */
  lemma StopsAtQuotient(n: nat, a: nat, b: nat, bits: nat)
    requires bits >= 1 && b >= 1 && Rounds(n, State(a, 0), b, bits).a < b
    ensures Rounds(n, State(a, 0), b, bits) == State(a % b, a / b)
  {
    hide Rounds;
    Balance(n, State(a, 0), b, bits);
    var t := Rounds(n, State(a, 0), b, bits);
    QuotientReached(a, t.ratio, t.a, b);
  }

  lemma {:induction false} Balance(n: nat, s: State, b: nat, bits: nat)
    requires bits >= 1 && b >= 1
    ensures var t := Rounds(n, s, b, bits); t.ratio * b + t.a == s.ratio * b + s.a
  {
    hide Round, Stuck;
    if n > 0 && s.a >= b {
      if Stuck(s.a, b, bits) {
        RoundStuck(s, b, bits);
      } else {
        RoundProgress(s, b, bits);
      }
      Balance(n - 1, Round(s, b, bits), b, bits);
    }
  }
}
