/** Base58 (src/base/base58.cpp): long multiplication in buffers whose sizes are
    rational approximations of logarithms. */
module Base58 {
  import opened Quotients

  // -------------------------------------------------------------------- powers

  function Power(b: nat, e: nat): (r: nat)
    ensures b >= 1 ==> r >= 1
  {
    if e == 0 then 1 else b * Power(b, e - 1)
  }

  lemma {:induction false} PowerAdd(b: nat, e: nat, f: nat)
    ensures Power(b, e + f) == Power(b, e) * Power(b, f)
  {
    if e > 0 {
      PowerAdd(b, e - 1, f);
      assert Power(b, e + f) == b * Power(b, e + f - 1);
      Associate(b, Power(b, e - 1), Power(b, f));
    }
  }

  lemma Associate(a: int, b: int, c: int)
    ensures a * (b * c) == (a * b) * c
  {
  }

  lemma {:induction false} PowerTwice(b: nat, e: nat, f: nat)
    ensures Power(Power(b, e), f) == Power(b, e * f)
  {
    if f > 0 {
      PowerTwice(b, e, f - 1);
      PowerAdd(b, e, e * (f - 1));
      assert e + e * (f - 1) == e * f;
    } else {
      assert e * 0 == 0;
    }
  }

  lemma Swapped(b: nat, e: nat, f: nat)
    ensures Power(Power(b, e), f) == Power(Power(b, f), e)
  {
    PowerTwice(b, e, f);
    PowerTwice(b, f, e);
    assert e * f == f * e;
  }

  lemma {:induction false} PowerMonotone(a: nat, b: nat, e: nat)
    requires a <= b
    ensures Power(a, e) <= Power(b, e)
  {
    if e > 0 {
      PowerMonotone(a, b, e - 1);
      MulBoth(a, b, Power(a, e - 1), Power(b, e - 1));
    }
  }

  lemma MulBoth(a: nat, b: nat, c: nat, d: nat)
    requires a <= b && c <= d
    ensures a * c <= b * d
  {
    assert a * c <= a * d;
    assert a * d <= b * d;
  }

  lemma PowerStrict(a: nat, b: nat, e: nat)
    requires a < b && e > 0
    ensures Power(a, e) < Power(b, e)
  {
    PowerMonotone(a, b, e - 1);
    MulStrict(a, b, Power(a, e - 1), Power(b, e - 1));
  }

  lemma MulStrict(a: nat, b: nat, c: nat, d: nat)
    requires a < b && c <= d && d >= 1
    ensures a * c < b * d
  {
    assert a * c <= a * d;
    assert (b - a) * d >= 1;
    assert b * d == a * d + (b - a) * d;
  }

  lemma PowerExponent(b: nat, e: nat, f: nat)
    requires b >= 1 && e <= f
    ensures Power(b, e) <= Power(b, f)
  {
    hide Power;
    PowerAdd(b, e, f - e);
    MulBoth(Power(b, e), Power(b, e), 1, Power(b, f - e));
  }

  lemma RootMonotone(x: nat, y: nat, k: nat)
    requires k > 0 && Power(x, k) <= Power(y, k)
    ensures x <= y
  {
    hide Power;
    if y < x {
      PowerStrict(y, x, k);
    }
  }

  /** If b^k <= c^m and m*n <= k*s, then b^n <= c^s: the exponents may be compared
      after raising to the k-th power. */
  lemma CompareByPower(b: nat, c: nat, k: nat, m: nat, n: nat, s: nat, low: nat, high: nat)
    requires c >= 1 && k > 0 && Power(b, k) <= Power(c, m)
    requires low == m * n && high == k * s && low <= high
    ensures Power(b, n) <= Power(c, s)
  {
    hide Power;
    var u, v := Power(b, n), Power(c, s);
    assert Power(u, k) <= Power(c, low) by {
      Swapped(b, n, k);
      PowerMonotone(Power(b, k), Power(c, m), n);
      PowerTwice(c, m, n);
    }
    assert Power(v, k) == Power(c, high) by {
      PowerTwice(c, s, k);
    }
    PowerExponent(c, low, high);
    RootMonotone(u, v, k);
  }

  lemma PowerOfSum(b: nat, e: nat, f: nat, x: nat, y: nat)
    requires Power(b, e) == x && Power(b, f) == y
    ensures Power(b, e + f) == x * y
  {
    hide Power;
    PowerAdd(b, e, f);
  }

  lemma SmallPowers()
    ensures Power(58, 7) == 2207984167552 && Power(58, 8) == 128063081718016
    ensures Power(256, 8) == 18446744073709551616 && Power(58, 11) == 24986644000165537792
    ensures Power(256, 13) == 20282409603651670423947251286016
  {
  }

  /** The two inequalities the buffer sizes rest on, by repeated squaring. */
  lemma TightPowers()
    ensures Power(256, 8) <= Power(58, 11)
    ensures Power(58, 71) <= Power(256, 52)
  {
    SmallPowers();
    hide Power;
    PowerOfSum(58, 8, 8, 128063081718016, 128063081718016);
    PowerOfSum(58, 16, 16, 16400152899115243850138976256, 16400152899115243850138976256);
    PowerOfSum(58, 32, 32, 268965015114358137726910587140455987105619365599731777536,
        268965015114358137726910587140455987105619365599731777536);
    PowerOfSum(58, 64, 7,
      72342179355466901471258927612150153907721848234316445933056526044582001260898145151856420451025374266490194231296,
      2207984167552);
    PowerOfSum(256, 13, 13, 20282409603651670423947251286016, 20282409603651670423947251286016);
    PowerOfSum(256, 26, 26, 411376139330301510538742295639337626245683966408394965837152256,
        411376139330301510538742295639337626245683966408394965837152256);
  }

  /** The base-58 buffer is large enough for every byte string. */
  lemma EncodeBound(n: nat)
    ensures Power(256, n) <= Power(58, n * 138 / 100 + 1)
  {
    var s := n * 138 / 100 + 1;
    TightPowers();
    hide Power;
    CompareByPower(256, 58, 8, 11, n, s, 11 * n, 8 * s);
  }

  /** The base-256 buffer is large enough for every string. */
  lemma DecodeBound(n: nat)
    ensures Power(58, n) <= Power(256, n * 733 / 1000 + 1)
  {
    var s := n * 733 / 1000 + 1;
    TightPowers();
    hide Power;
    CompareByPower(58, 256, 71, 52, n, s, 52 * n, 71 * s);
  }

  // -------------------------------------------------------------------- digits

  /** The number with the given digits, most significant first. */
  function Value(s: seq<nat>, base: nat): nat {
    if s == [] then 0 else Value(s[..|s| - 1], base) * base + s[|s| - 1]
  }

  lemma QuotientSmaller(n: nat, base: nat, q: nat, r: nat)
    requires q * base + r == n > 0 && base >= 2
    ensures q < n
  {
    MulBoth(2, base, q, q);
  }

  /** The digits of n without leading zeros. */
  function Digits(n: nat, base: nat): (s: seq<nat>)
    requires base >= 2
  {
    if n == 0 then [] else
      var (q, r) := DivRem(n, base);
      QuotientSmaller(n, base, q, r);
      Digits(q, base) + [r]
  }

  predicate AreDigits(s: seq<nat>, base: nat) {
    forall i :: 0 <= i < |s| ==> s[i] < base
  }

  function Strip(s: seq<nat>): (r: seq<nat>)
    ensures |r| <= |s|
    ensures r == [] || r[0] != 0
  {
    if s != [] && s[0] == 0 then Strip(s[1..]) else s
  }

  lemma {:induction false} StripAppend(s: seq<nat>, d: nat)
    ensures Strip(s + [d]) == if Strip(s) == [] && d == 0 then [] else Strip(s) + [d]
  {
    if s != [] && s[0] == 0 {
      StripAppend(s[1..], d);
      assert (s + [d])[1..] == s[1..] + [d];
    } else if s == [] {
      assert s + [d] == [d] && [d][1..] == [];
    }
  }

  /** Stripped digits are the digits of their value. */
  lemma {:induction false} DigitsOfValue(s: seq<nat>, base: nat)
    requires base >= 2 && AreDigits(s, base)
    ensures Digits(Value(s, base), base) == Strip(s)
  {
    if s != [] {
      var t, d := s[..|s| - 1], s[|s| - 1];
      DigitsOfValue(t, base);
      assert s == t + [d];
      DigitAppended(t, d, base);
    }
  }

  lemma DigitAppended(t: seq<nat>, d: nat, base: nat)
    requires base >= 2 && d < base && Digits(Value(t, base), base) == Strip(t)
    ensures Digits(Value(t + [d], base), base) == Strip(t + [d])
  {
    var v := Value(t, base);
    assert (t + [d])[..|t|] == t;
    assert Value(t + [d], base) == v * base + d;
    hide Value, Strip, DivRem;
    StripAppend(t, d);
    DigitsMore(v, d, base);
  }

  lemma DigitsMore(v: nat, d: nat, base: nat)
    requires base >= 2 && d < base
    ensures v == 0 <==> Digits(v, base) == []
    ensures v * base + d == 0 <==> v == 0 && d == 0
    ensures Digits(v * base + d, base) == if v == 0 && d == 0 then [] else Digits(v, base) + [d]
  {
    hide DivRem;
    DivMod(v, base, d);
    if v > 0 {
      MulBoth(1, v, base, base);
    }
  }

  lemma {:induction false} ValueOfDigits(n: nat, base: nat)
    requires base >= 2
    ensures Value(Digits(n, base), base) == n && AreDigits(Digits(n, base), base)
    ensures Strip(Digits(n, base)) == Digits(n, base)
  {
    if n > 0 {
      hide DivRem, Value, Strip;
      var (q, r) := DivRem(n, base);
      QuotientSmaller(n, base, q, r);
      ValueOfDigits(q, base);
      DigitsAppended(Digits(q, base), q, r, base, n);
    }
  }

  lemma DigitsAppended(t: seq<nat>, q: nat, r: nat, base: nat, n: nat)
    requires n > 0 && r < base && n == q * base + r
    requires Value(t, base) == q && AreDigits(t, base) && Strip(t) == t
    ensures Value(t + [r], base) == n && AreDigits(t + [r], base)
    ensures Strip(t + [r]) == t + [r]
  {
    assert (t + [r])[..|t|] == t;
    StripAppend(t, r);
  }

  lemma {:induction false} ValueBound(s: seq<nat>, base: nat)
    requires base >= 1 && AreDigits(s, base)
    ensures Value(s, base) < Power(base, |s|)
  {
    if s != [] {
      var t := s[..|s| - 1];
      ValueBound(t, base);
      BoundStep(Value(t, base), Power(base, |t|), base, s[|s| - 1]);
    }
  }

  lemma BoundStep(v: nat, p: nat, base: nat, d: nat)
    requires v < p && d < base
    ensures v * base + d < base * p
  {
    MulBoth(v + 1, p, base, base);
    assert (v + 1) * base == v * base + base;
  }

  lemma {:induction false} ValueCons(d: nat, s: seq<nat>, base: nat)
    ensures Value([d] + s, base) == d * Power(base, |s|) + Value(s, base)
  {
    if s == [] {
      assert [d][..0] == [];
    } else {
      var t, e := s[..|s| - 1], s[|s| - 1];
      ValueCons(d, t, base);
      assert ([d] + s)[..|s|] == [d] + t;
      ConsAlgebra(d, Power(base, |t|), Value(t, base), base, Power(base, |s|));
    }
  }

  lemma ConsAlgebra(d: nat, p: nat, v: nat, base: nat, q: nat)
    requires q == base * p
    ensures (d * p + v) * base == d * q + v * base
  {
    assert (d * p) * base == d * (base * p);
  }

  // --------------------------------------------------- the two in-place loops

  /** The digits `tail` and the carry above them hold mult * rest + digit. */
  predicate Balanced(tail: seq<nat>, carry: nat, rest: seq<nat>, mult: nat, base: nat, digit: nat) {
    Value(tail, base) + carry * Power(base, |tail|) == mult * Value(rest, base) + digit
  }

  /** buffer := buffer * mult + digit, from the least significant end. Nothing is lost:
      the carry left over is the part of the product beyond the buffer. */
  method MultiplyAdd(buffer: array<nat>, mult: nat, base: nat, digit: nat) returns (carry: nat)
    requires 1 <= mult && 2 <= base && digit < mult && AreDigits(buffer[..], base)
    modifies buffer
    ensures AreDigits(buffer[..], base)
    ensures carry < mult
    ensures Balanced(buffer[..], carry, old(buffer[..]), mult, base, digit)
  {
    hide Power, Value, Balanced, DivRem;
    carry := digit;
    var i := buffer.Length;
    ghost var was, now := buffer[..], buffer[..];
    assert now[i..] == [];
    EmptyBalance(base, mult, digit);
    while i > 0
      invariant 0 <= i <= buffer.Length == |was| == |now| && now == buffer[..]
      invariant carry < mult && AreDigits(now, base)
      invariant forall k :: 0 <= k < i ==> now[k] == was[k]
      invariant Balanced(now[i..], carry, was[i..], mult, base, digit)
    {
      i := i - 1;
      var (q, r) := DivRem(carry + mult * buffer[i], base);
      MultiplyStep(was[i], was[i + 1..], now[i + 1..], carry, mult, base, digit, q, r);
      CarryBound(carry, mult, buffer[i], base, q, r);
      buffer[i] := r;
      SliceCons(was, i, was[i]);
      SliceCons(now, i, r);
      now := now[i := r];
      carry := q;
    }
    assert now[0..] == now && was[0..] == was;
  }

  lemma SliceCons(s: seq<nat>, i: nat, x: nat)
    requires i < |s|
    ensures s[i := x][i..] == [x] + s[i + 1..]
    ensures x == s[i] ==> s[i..] == [x] + s[i + 1..]
  {
  }

  lemma EmptyBalance(base: nat, mult: nat, digit: nat)
    ensures Balanced([], digit, [], mult, base, digit)
  {
  }

  lemma CarryBound(carry: nat, mult: nat, d: nat, base: nat, q: nat, r: nat)
    requires carry < mult && d < base && carry + mult * d == q * base + r
    ensures q < mult
  {
    MulBoth(d + 1, base, mult, mult);
    assert (d + 1) * mult == mult * d + mult;
    if q >= mult {
      MulBoth(mult, q, base, base);
    }
  }

  lemma MultiplyStep(d: nat, rest: seq<nat>, tail: seq<nat>, carry: nat,
      mult: nat, base: nat, digit: nat, q: nat, r: nat)
    requires |rest| == |tail| && carry + mult * d == q * base + r
    requires Balanced(tail, carry, rest, mult, base, digit)
    ensures Balanced([r] + tail, q, [d] + rest, mult, base, digit)
  {
    assert Power(base, |tail| + 1) == base * Power(base, |tail|);
    hide Value, Power;
    ValueCons(d, rest, base);
    ValueCons(r, tail, base);
    StepAlgebra(q, r, d, carry, mult, base, digit, Power(base, |tail|), Value(tail, base), Value(rest, base));
  }

  lemma StepAlgebra(q: nat, r: nat, d: nat, carry: nat, mult: nat, base: nat, digit: nat, p: nat, v: nat, w: nat)
    requires carry + mult * d == q * base + r && v + carry * p == mult * w + digit
    ensures r * p + v + q * (base * p) == mult * (d * p + w) + digit
  {
    assert q * (base * p) == (q * base) * p;
    assert r * p + (q * base) * p == (r + q * base) * p;
    assert (carry + mult * d) * p == carry * p + (mult * d) * p;
    assert mult * (d * p + w) == (mult * d) * p + mult * w;
  }

  /** A product that fits the buffer leaves no carry. */
  lemma NoCarry(v: nat, carry: nat, bound: nat, total: nat)
    requires v + carry * bound == total < bound
    ensures carry == 0 && v == total
  {
    if carry >= 1 {
      MulBoth(1, carry, bound, bound);
    }
  }

  method SkipZeros(buffer: array<nat>) returns (it: nat)
    ensures it <= buffer.Length && buffer[it..] == Strip(buffer[..])
  {
    it := 0;
    assert buffer[0..] == buffer[..];
    while it < buffer.Length && buffer[it] == 0
      invariant it <= buffer.Length && Strip(buffer[it..]) == Strip(buffer[..])
    {
      assert buffer[it..][1..] == buffer[it + 1..];
      it := it + 1;
    }
  }

  // ---------------------------------------------------------- base conversion

  /** Leading zeros are kept one for one; the rest is a change of base. */
  function Convert(s: seq<nat>, from: nat, to: nat): seq<nat>
    requires to >= 2
  {
    Zeros(|s| - |Strip(s)|) + Digits(Value(Strip(s), from), to)
  }

  lemma {:induction false} StripLength(s: seq<nat>)
    ensures s == Zeros(|s| - |Strip(s)|) + Strip(s)
  {
    if s != [] && s[0] == 0 {
      StripLength(s[1..]);
      assert Strip(s) == Strip(s[1..]);
      hide Strip, Zeros;
      var core := Strip(s);
      ZerosCons(|s| - 1 - |core|);
      assert s == [0] + s[1..];
    } else {
      assert Zeros(0) == [];
    }
  }

  lemma ZerosCons(n: nat)
    ensures Zeros(n + 1) == [0] + Zeros(n)
  {
  }

  lemma {:induction false} StripZeros(n: nat, s: seq<nat>)
    requires Strip(s) == s
    ensures Strip(Zeros(n) + s) == s
  {
    if n == 0 {
      assert Zeros(0) + s == s;
    } else {
      StripZeros(n - 1, s);
      assert (Zeros(n) + s)[1..] == Zeros(n - 1) + s;
    }
  }

  /** Converting back restores every digit string, leading zeros included. */
  lemma ConvertBack(s: seq<nat>, from: nat, to: nat)
    requires from >= 2 && to >= 2 && AreDigits(s, from)
    ensures AreDigits(Convert(s, from, to), to)
    ensures Convert(Convert(s, from, to), to, from) == s
  {
    var core := Strip(s);
    var z := |s| - |core|;
    StripLength(s);
    assert AreDigits(core, from) by {
      assert forall i :: 0 <= i < |core| ==> core[i] == s[z + i];
    }
    var v := Value(core, from);
    ValueOfDigits(v, to);
    StripZeros(z, Digits(v, to));
    DigitsOfValue(core, from);
    assert Strip(core) == core;
  }

  /** One round of either loop: the carry assertion holds, and the buffer then stands for
      the digits read so far and the new one. */
  method Absorb(buffer: array<nat>, mult: nat, base: nat, digit: nat, ghost read: seq<nat>, ghost n: nat)
    requires 2 <= mult && 2 <= base && digit < mult
    requires AreDigits(buffer[..], base) && AreDigits(read, mult)
    requires Value(buffer[..], base) == Value(read, mult)
    requires |read| < n && Power(mult, n) <= Power(base, buffer.Length)
    modifies buffer
    ensures AreDigits(buffer[..], base)
    ensures Value(buffer[..], base) == Value(read + [digit], mult)
  {
    var carry := MultiplyAdd(buffer, mult, base, digit);
    ghost var all := read + [digit];
    assert all[..|read|] == read;
    assert Value(all, mult) == Value(read, mult) * mult + digit;
    ValueBound(all, mult);
    PowerExponent(mult, |all|, n);
    hide Power, Value;
    NoCarry(Value(buffer[..], base), carry, Power(base, buffer.Length), Value(all, mult));
    assert carry == 0;
  }

  // ----------------------------------------------------------------- alphabet

  /** All alphanumeric characters but 0, I, O and l. */
  const ALPHABET := "123456789" + "ABCDEFGH" + "JKLMN" + "PQRSTUVWXYZ" + "abcdefghijk" + "mnopqrstuvwxyz"

  function Symbol(d: nat): char
    requires d < 58
  {
    if d < 9 then '1' + d as char
    else if d < 17 then 'A' + (d - 9) as char
    else if d < 22 then 'J' + (d - 17) as char
    else if d < 33 then 'P' + (d - 22) as char
    else if d < 44 then 'a' + (d - 33) as char
    else 'm' + (d - 44) as char
  }

  lemma SymbolsInOrder(d: nat)
    requires d < 58
    ensures ALPHABET[d] == Symbol(d)
  {
    if d < 9 {
      assert ALPHABET[d] == "123456789"[d];
    } else if d < 17 {
      assert ALPHABET[d] == "ABCDEFGH"[d - 9];
    } else if d < 22 {
      assert ALPHABET[d] == "JKLMN"[d - 17];
    } else if d < 33 {
      assert ALPHABET[d] == "PQRSTUVWXYZ"[d - 22];
    } else if d < 44 {
      assert ALPHABET[d] == "abcdefghijk"[d - 33];
    } else {
      assert ALPHABET[d] == "mnopqrstuvwxyz"[d - 44];
    }
  }

  /** The first position of c in s from i on, or the length of s. */
  function Find(s: string, c: char, i: nat): (r: nat)
    requires i <= |s|
    ensures i <= r <= |s|
    ensures r < |s| ==> s[r] == c
    ensures forall j :: i <= j < r ==> s[j] != c
    decreases |s| - i
  {
    if i == |s| || s[i] == c then i else Find(s, c, i + 1)
  }

  function DigitOf(c: char): (d: nat)
    ensures d <= 58 == |ALPHABET|
    ensures d < 58 ==> ALPHABET[d] == c
  {
    Find(ALPHABET, c, 0)
  }

  predicate InAlphabet(c: char) {
    DigitOf(c) < 58
  }

  /** The alphabet is the digits and letters without 0, I, O and l, in the order of their codes. */
  lemma AlphabetIs(c: char, d: nat, e: nat)
    ensures |ALPHABET| == 58 && (d < e < 58 ==> ALPHABET[d] < ALPHABET[e])
    ensures InAlphabet(c) <==>
      || '1' <= c <= '9'
      || ('A' <= c <= 'Z' && c != 'I' && c != 'O')
      || ('a' <= c <= 'z' && c != 'l')
  {
    hide DigitOf;
    if InAlphabet(c) {
      SymbolsInOrder(DigitOf(c));
    }
    if d < e < 58 {
      SymbolsInOrder(d);
      SymbolsInOrder(e);
    }
    if '1' <= c <= '9' {
      InPlace(c, (c as int) - ('1' as int));
    } else if 'A' <= c <= 'H' {
      InPlace(c, (c as int) - ('A' as int) + 9);
    } else if 'J' <= c <= 'N' {
      InPlace(c, (c as int) - ('J' as int) + 17);
    } else if 'P' <= c <= 'Z' {
      InPlace(c, (c as int) - ('P' as int) + 22);
    } else if 'a' <= c <= 'k' {
      InPlace(c, (c as int) - ('a' as int) + 33);
    } else if 'm' <= c <= 'z' {
      InPlace(c, (c as int) - ('m' as int) + 44);
    }
  }

  lemma InPlace(c: char, d: nat)
    requires d < 58 && Symbol(d) == c
    ensures InAlphabet(c)
  {
    SymbolsInOrder(d);
    DigitOfSymbol(d);
  }

  lemma DigitOfSymbol(d: nat)
    requires d < 58 == |ALPHABET|
    ensures DigitOf(ALPHABET[d]) == d
  {
    var r := DigitOf(ALPHABET[d]);
    SymbolsInOrder(d);
    if r < 58 {
      SymbolsInOrder(r);
    }
    SymbolsDiffer(r, d);
  }

  lemma SymbolsDiffer(r: nat, d: nat)
    requires r <= 58 && d < 58
    ensures r < d ==> Symbol(r) != Symbol(d)
    ensures d < r < 58 ==> Symbol(r) != Symbol(d)
  {
  }

  predicate AllInAlphabet(s: string) {
    forall i :: 0 <= i < |s| ==> InAlphabet(s[i])
  }

  function DigitsOf(s: string): (ds: seq<nat>)
    requires AllInAlphabet(s)
    ensures |ds| == |s| && AreDigits(ds, 58)
    ensures forall i :: 0 <= i < |s| ==> ds[i] == DigitOf(s[i])
  {
    seq(|s|, i requires 0 <= i < |s| => DigitOf(s[i]))
  }

  function Symbols(ds: seq<nat>): (s: string)
    requires AreDigits(ds, 58)
    ensures |s| == |ds|
    ensures forall i :: 0 <= i < |ds| ==> ds[i] < 58 == |ALPHABET| && s[i] == ALPHABET[ds[i]]
  {
    seq(|ds|, i requires 0 <= i < |ds| => ALPHABET[ds[i]])
  }

  lemma SymbolsAreDigits(ds: seq<nat>)
    requires AreDigits(ds, 58)
    ensures AllInAlphabet(Symbols(ds)) && DigitsOf(Symbols(ds)) == ds
  {
    hide DigitOf, DigitsOf, Symbols;
    var s := Symbols(ds);
    forall i | 0 <= i < |ds|
      ensures InAlphabet(s[i]) && DigitOf(s[i]) == ds[i]
    {
      DigitOfSymbol(ds[i]);
    }
  }

  lemma DigitsAreSymbols(s: string)
    requires AllInAlphabet(s)
    ensures Symbols(DigitsOf(s)) == s
  {
    hide DigitOf, DigitsOf, Symbols;
  }

  // ------------------------------------------------------------------- Encode

  predicate AreBytes(b: seq<nat>) {
    AreDigits(b, 256)
  }

  /** The text of a byte string: one '1' for every leading zero byte, then the number in
      base 58. */
  function TextOf(bytes: seq<nat>): (s: string)
    requires AreBytes(bytes)
  {
    ConvertBack(bytes, 256, 58);
    Symbols(Convert(bytes, 256, 58))
  }

  /** The bytes of a text over the alphabet. */
  function BytesOf(text: string): (b: seq<nat>)
    requires AllInAlphabet(text)
    ensures AreBytes(b)
  {
    ConvertBack(DigitsOf(text), 58, 256);
    Convert(DigitsOf(text), 58, 256)
  }

  lemma {:induction false} ZeroValue(s: seq<nat>, base: nat)
    requires forall i :: 0 <= i < |s| ==> s[i] == 0
    ensures Value(s, base) == 0
  {
    if s != [] {
      ZeroValue(s[..|s| - 1], base);
    }
  }

  /** A zeroed buffer stands for no digits at all. */
  method ZeroBuffer(n: nat, base: nat, ghost mult: nat) returns (buffer: array<nat>)
    requires base >= 1
    ensures fresh(buffer) && buffer.Length == n
    ensures AreDigits(buffer[..], base) && Value(buffer[..], base) == Value([], mult)
  {
    buffer := new nat[n](_ => 0);
    ZeroValue(buffer[..], base);
  }

  /** The last step of both directions: the leading zeros, then the buffer without its own. */
  lemma BufferIsConverted(buffer: seq<nat>, input: seq<nat>, zeroes: nat, from: nat, to: nat)
    requires from >= 2 && to >= 2 && AreDigits(buffer, to) && zeroes <= |input|
    requires input[zeroes..] == Strip(input)
    requires Value(buffer, to) == Value(input[zeroes..], from)
    ensures Zeros(zeroes) + Strip(buffer) == Convert(input, from, to)
  {
    hide Value, Digits;
    DigitsOfValue(buffer, to);
    assert |input| - |Strip(input)| == zeroes;
  }

  method EncodeBase58(bytes: seq<nat>) returns (str: string)
    requires AreBytes(bytes)
    ensures str == TextOf(bytes)
  {
    hide Value, Digits, Power;
    var zeroes := 0;
    assert bytes[0..] == bytes;
    while zeroes < |bytes| && bytes[zeroes] == 0
      invariant zeroes <= |bytes| && Strip(bytes[zeroes..]) == Strip(bytes)
    {
      assert bytes[zeroes..][1..] == bytes[zeroes + 1..];
      zeroes := zeroes + 1;
    }
    ghost var n := |bytes| - zeroes;
    var b58 := ZeroBuffer((|bytes| - zeroes) * 138 / 100 + 1, 58, 256);
    EncodeBound(n);
    var i := zeroes;
    assert bytes[zeroes..i] == [];
    while i < |bytes|
      invariant zeroes <= i <= |bytes| && AreDigits(b58[..], 58)
      invariant Value(b58[..], 58) == Value(bytes[zeroes..i], 256)
    {
      Absorb(b58, 256, 58, bytes[i], bytes[zeroes..i], n);
      assert bytes[zeroes..i] + [bytes[i]] == bytes[zeroes..i + 1];
      i := i + 1;
    }
    assert bytes[zeroes..i] == bytes[zeroes..];
    BufferIsConverted(b58[..], bytes, zeroes, 256, 58);
    var it := SkipZeros(b58);
    str := Translate(zeroes, b58, it, bytes);
  }

  method Translate(zeroes: nat, b58: array<nat>, start: nat, ghost bytes: seq<nat>) returns (str: string)
    requires AreBytes(bytes) && start <= b58.Length && AreDigits(b58[..], 58)
    requires Zeros(zeroes) + b58[start..] == Convert(bytes, 256, 58)
    ensures str == TextOf(bytes)
  {
    hide Convert;
    ConvertBack(bytes, 256, 58);
    str := seq(zeroes, _ => '1');
    var it := start;
    ghost var ds := Convert(bytes, 256, 58);
    SymbolsInOrder(0);
    while it < b58.Length
      invariant start <= it <= b58.Length && |str| == zeroes + it - start
      invariant forall k :: 0 <= k < |str| ==> ds[k] < 58 == |ALPHABET| && str[k] == ALPHABET[ds[k]]
    {
      assert b58[it] == b58[start..][it - start];
      str := str + [ALPHABET[b58[it]]];
      it := it + 1;
    }
    assert str == Symbols(ds);
  }

  // ------------------------------------------------------------------- Decode

  predicate IsSpace(c: char) {
    c == ' ' || '\t' <= c <= '\r'
  }

  /** The characters a C string function sees: those before the first NUL. */
  function CString(s: string): (t: string)
    ensures t <= s && '\0' !in t
    ensures |t| < |s| ==> s[|t|] == '\0'
  {
    if s == "" || s[0] == '\0' then "" else [s[0]] + CString(s[1..])
  }

  function SkipSpaces(s: string): (t: string)
    ensures t == "" || !IsSpace(t[0])
  {
    if s != "" && IsSpace(s[0]) then SkipSpaces(s[1..]) else s
  }

  function DropSpaces(s: string): (t: string)
    ensures t <= s
    ensures forall i :: |t| <= i < |s| ==> IsSpace(s[i])
    ensures t == "" || !IsSpace(t[|t| - 1])
  {
    if s != "" && IsSpace(s[|s| - 1]) then DropSpaces(s[..|s| - 1]) else s
  }

  function Trim(s: string): string {
    DropSpaces(SkipSpaces(s))
  }

  lemma SymbolIsNotSpace(c: char)
    requires InAlphabet(c)
    ensures !IsSpace(c)
  {
    hide DigitOf;
    SymbolsInOrder(DigitOf(c));
  }

  lemma DigitZero(c: char)
    ensures DigitOf(c) == 0 <==> c == '1'
  {
    SymbolsInOrder(0);
    DigitOfSymbol(0);
    hide DigitOf;
  }

  /** A word over the alphabet followed only by spaces is what trimming leaves. */
  lemma WordIsTrimmed(u: string, k: nat)
    requires k <= |u| && AllInAlphabet(u[..k])
    requires forall i :: k <= i < |u| ==> IsSpace(u[i])
    ensures DropSpaces(u) == u[..k]
  {
    hide DropSpaces, InAlphabet;
    var t := DropSpaces(u);
    if |t| < k {
      SymbolIsNotSpace(u[..k][|t|]);
    }
  }

  /** A character that is neither a space nor in the alphabet, or a space inside, is left
      by trimming. */
  lemma StrangeCharacterStays(u: string, k: nat, bad: nat)
    requires bad <= k < |u| && !IsSpace(u[k]) && !InAlphabet(u[bad])
    ensures !AllInAlphabet(DropSpaces(u))
  {
    var t := DropSpaces(u);
    assert k < |t|;
    assert t[bad] == u[bad];
  }

  lemma WordIsStripped(w: string, zeroes: nat)
    requires AllInAlphabet(w) && zeroes <= |w|
    requires forall i :: 0 <= i < zeroes ==> w[i] == '1'
    requires zeroes < |w| ==> w[zeroes] != '1'
    ensures Strip(DigitsOf(w)) == DigitsOf(w)[zeroes..]
  {
    hide DigitOf, DigitsOf;
    var ds := DigitsOf(w);
    var rest := ds[zeroes..];
    forall i | 0 <= i < |w|
      ensures ds[i] == 0 <==> w[i] == '1'
    {
      DigitZero(w[i]);
    }
    assert ds == Zeros(zeroes) + rest;
    assert Strip(rest) == rest;
    StripZeros(zeroes, rest);
  }

  method SkipLeading(t: string) returns (k: nat)
    ensures k <= |t| && t[k..] == SkipSpaces(t)
  {
    k := 0;
    assert t[0..] == t;
    while k < |t| && IsSpace(t[k])
      invariant k <= |t| && SkipSpaces(t[k..]) == SkipSpaces(t)
    {
      assert t[k..][1..] == t[k + 1..];
      k := k + 1;
    }
  }

  method DecodeBase58(s: string) returns (ok: bool, vch: seq<nat>)
    ensures ok <==> AllInAlphabet(Trim(CString(s)))
    ensures ok ==> vch == BytesOf(Trim(CString(s)))
  {
    var t := CString(s);
    var start := SkipLeading(t);
    ok, vch := DecodeWord(t[start..]);
  }

  /** The part after the leading spaces. */
  method DecodeWord(u: string) returns (ok: bool, vch: seq<nat>)
    requires u == "" || !IsSpace(u[0])
    ensures ok <==> AllInAlphabet(DropSpaces(u))
    ensures ok ==> vch == BytesOf(DropSpaces(u))
  {
    hide Value, Power, DropSpaces, DigitOf, BytesOf, InAlphabet, DigitsOf, Strip;
    ok, vch := false, [];
    var zeroes := 0;
    while zeroes < |u| && u[zeroes] == '1'
      invariant zeroes <= |u| && forall i :: 0 <= i < zeroes ==> u[i] == '1'
    {
      zeroes := zeroes + 1;
    }
    OnesAreZeros(u[..zeroes]);
    var b256 := ZeroBuffer((|u| - zeroes) * 733 / 1000 + 1, 256, 58);
    DecodeBound(|u| - zeroes);
    assert DigitsOf(u[..zeroes])[zeroes..] == [];
    var good, psz := ReadWord(u, zeroes, b256);
    if !good {
      StrangeCharacterStays(u, psz, psz);
      return;
    }
    var end := psz;
    while end < |u| && IsSpace(u[end])
      invariant psz <= end <= |u| && forall i :: psz <= i < end ==> IsSpace(u[i])
    {
      end := end + 1;
    }
    if end < |u| {
      SpaceIsStrange(u[psz]);
      StrangeCharacterStays(u, end, psz);
      return;
    }
    WordIsDecoded(u, zeroes, psz, b256[..]);
    var it := SkipZeros(b256);
    ok, vch := true, Zeros(zeroes) + b256[it..];
  }

  lemma WordIsDecoded(u: string, zeroes: nat, psz: nat, buffer: seq<nat>)
    requires zeroes <= psz <= |u| && AllInAlphabet(u[..psz]) && AreDigits(buffer, 256)
    requires forall i :: 0 <= i < zeroes ==> u[i] == '1'
    requires zeroes < psz ==> u[zeroes] != '1'
    requires forall i :: psz <= i < |u| ==> IsSpace(u[i])
    requires Value(buffer, 256) == Value(DigitsOf(u[..psz])[zeroes..], 58)
    ensures AllInAlphabet(DropSpaces(u)) && Zeros(zeroes) + Strip(buffer) == BytesOf(DropSpaces(u))
  {
    hide Value, DropSpaces, DigitOf, InAlphabet, DigitsOf, Convert, Strip;
    WordIsTrimmed(u, psz);
    WordIsStripped(u[..psz], zeroes);
    BufferIsConverted(buffer, DigitsOf(u[..psz]), zeroes, 58, 256);
  }

  /** The characters up to a space or the end, into the buffer; false at a character outside
      the alphabet. */
  method ReadWord(u: string, zeroes: nat, b256: array<nat>) returns (good: bool, psz: nat)
    requires zeroes <= |u| && AllInAlphabet(u[..zeroes])
    requires Power(58, |u| - zeroes) <= Power(256, b256.Length)
    requires AreDigits(b256[..], 256) && Value(b256[..], 256) == Value([], 58)
    modifies b256
    ensures zeroes <= psz <= |u| && AllInAlphabet(u[..psz]) && AreDigits(b256[..], 256)
    ensures Value(b256[..], 256) == Value(DigitsOf(u[..psz])[zeroes..], 58)
    ensures !good ==> psz < |u| && !IsSpace(u[psz]) && !InAlphabet(u[psz])
    ensures good ==> psz == |u| || IsSpace(u[psz])
  {
    hide Value, Power, DigitOf, DigitsOf;
    psz := zeroes;
    assert DigitsOf(u[..psz])[zeroes..] == [];
    while psz < |u| && !IsSpace(u[psz])
      invariant zeroes <= psz <= |u| && AllInAlphabet(u[..psz]) && AreDigits(b256[..], 256)
      invariant Value(b256[..], 256) == Value(DigitsOf(u[..psz])[zeroes..], 58)
    {
      var ch := DigitOf(u[psz]);
      if ch == 58 {
        good := false;
        return;
      }
      ghost var read := DigitsOf(u[..psz])[zeroes..];
      Absorb(b256, 58, 256, ch, read, |u| - zeroes);
      assert u[..psz + 1] == u[..psz] + [u[psz]];
      assert DigitsOf(u[..psz + 1])[zeroes..] == read + [ch];
      psz := psz + 1;
    }
    good := true;
  }

  lemma OnesAreZeros(w: string)
    requires forall i :: 0 <= i < |w| ==> w[i] == '1'
    ensures AllInAlphabet(w)
  {
    hide DigitOf;
    DigitZero('1');
  }

  lemma SpaceIsStrange(c: char)
    requires IsSpace(c)
    ensures !InAlphabet(c)
  {
    if InAlphabet(c) {
      SymbolIsNotSpace(c);
    }
  }

  // -------------------------------------------------------------- round trips

  /** The encoding of every byte string is accepted and decodes to the byte string. */
  lemma DecodeOfEncode(bytes: seq<nat>)
    requires AreBytes(bytes)
    ensures var word := Trim(CString(TextOf(bytes))); AllInAlphabet(word) && BytesOf(word) == bytes
  {
    hide Convert;
    ConvertBack(bytes, 256, 58);
    SymbolsAreDigits(Convert(bytes, 256, 58));
    WordIsItsTrim(TextOf(bytes));
  }

  /** The bytes of every accepted text encode to the text trimmed of surrounding white space. */
  lemma EncodeOfDecode(text: string)
    requires AllInAlphabet(text)
    ensures TextOf(BytesOf(text)) == text
  {
    hide Convert;
    ConvertBack(DigitsOf(text), 58, 256);
    DigitsAreSymbols(text);
  }

  /** What the encoding is: text and bytes stand for the same number, in base 58 and 256, and the text
      starts with as many ones as the bytes start with zeros. */
  lemma TextIs(bytes: seq<nat>, k: nat)
    requires AreBytes(bytes)
    ensures AllInAlphabet(TextOf(bytes)) && Value(DigitsOf(TextOf(bytes)), 58) == Value(bytes, 256)
    ensures (k <= |bytes| && forall i :: 0 <= i < k ==> bytes[i] == 0) <==>
      (k <= |TextOf(bytes)| && forall i :: 0 <= i < k ==> TextOf(bytes)[i] == '1')
  {
    hide DigitOf, Value, Digits;
    var zeroes, rest := |bytes| - |Strip(bytes)|, Strip(bytes);
    var digits := Digits(Value(rest, 256), 58);
    ConvertBack(bytes, 256, 58);
    SymbolsAreDigits(Convert(bytes, 256, 58));
    StripLength(bytes);
    ValueOfDigits(Value(rest, 256), 58);
    LeadingZeros(zeroes, rest, 256);
    LeadingZeros(zeroes, digits, 58);
    ZerosInFront(zeroes, rest, k);
    ZerosInFront(zeroes, digits, k);
    OnesInFront(Convert(bytes, 256, 58), k);
  }

  lemma ZerosInFront(n: nat, s: seq<nat>, k: nat)
    ensures Strip(s) == s ==>
      ((k <= |Zeros(n) + s| && forall i :: 0 <= i < k ==> (Zeros(n) + s)[i] == 0) <==> k <= n)
  {
    if Strip(s) == s && n < k <= |Zeros(n) + s| {
      assert (Zeros(n) + s)[n] == s[0];
    }
  }

  lemma OnesInFront(ds: seq<nat>, k: nat)
    requires AreDigits(ds, 58)
    ensures (k <= |ds| && forall i :: 0 <= i < k ==> ds[i] == 0) <==>
      (k <= |Symbols(ds)| && forall i :: 0 <= i < k ==> Symbols(ds)[i] == '1')
  {
    hide DigitOf;
    SymbolsAreDigits(ds);
    forall i | 0 <= i < |ds|
      ensures Symbols(ds)[i] == '1' <==> ds[i] == 0
    {
      assert DigitOf(Symbols(ds)[i]) == DigitsOf(Symbols(ds))[i];
      DigitZero(Symbols(ds)[i]);
    }
  }

  lemma {:induction false} LeadingZeros(n: nat, s: seq<nat>, base: nat)
    ensures Value(Zeros(n) + s, base) == Value(s, base)
  {
    if n == 0 {
      assert Zeros(0) + s == s;
    } else {
      ZerosCons(n - 1);
      assert Zeros(n) + s == [0] + (Zeros(n - 1) + s);
      ValueCons(0, Zeros(n - 1) + s, base);
      LeadingZeros(n - 1, s, base);
    }
  }

  /** White space is a blank or one of the codes 9 to 13, and trimming takes it off both ends. */
  lemma TrimIs(s: string) returns (i: nat, j: nat)
    ensures i <= j <= |s| && Trim(s) == s[i..j]
    ensures forall k :: 0 <= k < |s| && (k < i || j <= k) ==> (s[k] as int == 32 || 9 <= s[k] as int <= 13)
    ensures i < j ==> s[i] as int != 32 && !(9 <= s[i] as int <= 13)
    ensures i < j ==> s[j - 1] as int != 32 && !(9 <= s[j - 1] as int <= 13)
  {
    i := SkippedSpaces(s);
    var rest := SkipSpaces(s);
    j := i + |DropSpaces(rest)|;
    assert rest == s[i..];
    assert forall k :: j <= k < |s| ==> s[k] == rest[k - i];
    if i < j {
      assert s[i] == rest[0] && s[j - 1] == rest[j - 1 - i];
    }
  }

  lemma {:induction false} SkippedSpaces(s: string) returns (i: nat)
    ensures i <= |s| && SkipSpaces(s) == s[i..] && forall k :: 0 <= k < i ==> IsSpace(s[k])
  {
    if s != "" && IsSpace(s[0]) {
      var n := SkippedSpaces(s[1..]);
      i := n + 1;
    } else {
      i := 0;
    }
  }

  /** Text over the alphabet has nothing to trim and no NUL to stop at. */
  lemma WordIsItsTrim(text: string)
    requires AllInAlphabet(text)
    ensures Trim(CString(text)) == text
  {
    hide DigitOf;
    var t := CString(text);
    if |t| < |text| {
      SymbolIsNotNul(text[|t|]);
    }
    if text != "" {
      SymbolIsNotSpace(text[0]);
    }
    assert SkipSpaces(text) == text && text[..|text|] == text;
    WordIsTrimmed(text, |text|);
  }

  lemma SymbolIsNotNul(c: char)
    requires InAlphabet(c)
    ensures c != '\0'
  {
    hide DigitOf;
    SymbolsInOrder(DigitOf(c));
  }
}
