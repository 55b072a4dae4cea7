/** The two integer encodings of src/base/serialize.h: variable-length integers of any
    width, and compact sizes. Bytes are naturals below 256; masking a byte with 0x7F is its
    remainder modulo 128, and the top bit adds 128. */
module Serialize {
  import opened Bits
  import opened Quotients
  import Modular

  predicate AreBytes(s: seq<nat>) {
    forall i :: 0 <= i < |s| ==> s[i] < 256
  }

  /** What reading from a stream gives: a value and what is left, or a failure. */
  datatype Result = Ok(value: nat, rest: seq<nat>) | Failure

  // -------------------------------------------------------------- VarInt: meaning

  /** All bytes but the last carry the top bit. */
  predicate Continued(s: seq<nat>) {
    forall i :: 0 <= i < |s| ==> 128 <= s[i] < 256
  }

  predicate Terminated(s: seq<nat>) {
    |s| >= 1 && Continued(s[..|s| - 1]) && s[|s| - 1] < 128
  }

  /** The number a run of continued bytes has built up: every digit but the last counts one
      more than it says. */
  function High(s: seq<nat>): nat
    requires Continued(s)
  {
    if s == [] then 0 else High(s[..|s| - 1]) * 128 + (s[|s| - 1] - 128) + 1
  }

  function Value(s: seq<nat>): nat
    requires Terminated(s)
  {
    High(s[..|s| - 1]) * 128 + s[|s| - 1]
  }

  function Encode(n: nat, last: bool): (s: seq<nat>)
    ensures |s| >= 1
  {
    (if n <= 0x7F then [] else Encode(n / 128 - 1, false)) + [n % 128 + (if last then 0 else 128)]
  }

  lemma HighSnoc(t: seq<nat>, b: nat)
    requires Continued(t) && 128 <= b < 256
    ensures Continued(t + [b]) && High(t + [b]) == High(t) * 128 + (b - 128) + 1
  {
    assert (t + [b])[..|t|] == t;
  }

  lemma ValueSnoc(t: seq<nat>, b: nat)
    requires Continued(t) && b < 128
    ensures Terminated(t + [b]) && Value(t + [b]) == High(t) * 128 + b
  {
    assert (t + [b])[..|t|] == t;
  }

  /** The documented sum: a byte with k bytes after it counts one more than its low seven bits, times
      128 to the k, and the last byte counts as it is. */
  lemma {:induction false} ValueIsSum(b: nat, s: seq<nat>)
    requires 128 <= b < 256 && Terminated(s)
    ensures Terminated([b] + s) && Value([b] + s) == (b % 128 + 1) * Pow2(7 * |s|) + Value(s)
    ensures |s| == 1 ==> Value(s) == s[0]
  {
    var n := |s| - 1;
    var t := [b] + s;
    assert t[..|t| - 1] == [b] + s[..n];
    assert Continued([b] + s[..n]);
    assert Terminated(t) && Value(t) == High([b] + s[..n]) * 128 + s[n];
    if n == 0 {
      assert s[..0] == [];
    }
    hide High, Pow2, Continued, Terminated;
    NoBytes();
    HighCons(b, s[..n]);
    SevenMore(n);
    Shifted(b - 127, Pow2(7 * n), High(s[..n]), s[n]);
    LowSeven(b);
  }

  lemma LowSeven(b: nat)
    requires 128 <= b < 256
    ensures b % 128 + 1 == b - 127
  {
  }

  lemma {:induction false} HighCons(b: nat, s: seq<nat>)
    requires 128 <= b < 256 && Continued(s)
    ensures Continued([b] + s) && High([b] + s) == (b - 127) * Pow2(7 * |s|) + High(s)
  {
    hide High, Pow2;
    if s == [] {
      assert [b] + s == [] + [b];
      HighSnoc([], b);
      NoBytes();
      NoShift(b - 127);
    } else {
      var n := |s| - 1;
      HighCons(b, s[..n]);
      assert [b] + s == ([b] + s[..n]) + [s[n]] && s == s[..n] + [s[n]];
      HighSnoc([b] + s[..n], s[n]);
      HighSnoc(s[..n], s[n]);
      SevenMore(n);
      Shifted(b - 127, Pow2(7 * n), High(s[..n]), s[n] - 127);
    }
  }

  lemma NoShift(d: nat)
    ensures d * Pow2(7 * 0) == d
  {
  }

  lemma SevenMore(n: nat)
    ensures Pow2(7 * (n + 1)) == Pow2(7 * n) * 128
  {
    Pow2Add(7 * n, 7);
    SevenBits();
    assert 7 * n + 7 == 7 * (n + 1);
  }

  lemma Shifted(d: nat, power: nat, high: nat, low: nat)
    ensures (d * power + high) * 128 + low == d * (power * 128) + (high * 128 + low)
  {
    assert d * power * 128 == d * (power * 128);
  }

  /** The table of the documentation. For 16511 and 65535 it shows byte strings that stand for other
      numbers; the encodings are these. */
  lemma DocumentedEncodings()
    ensures Encode(0, true) == [0x00] && Encode(1, true) == [0x01] && Encode(127, true) == [0x7F]
    ensures Encode(128, true) == [0x80, 0x00] && Encode(255, true) == [0x80, 0x7F] && Encode(256, true) == [0x81, 0x00]
    ensures Encode(16383, true) == [0xFE, 0x7F] && Encode(16384, true) == [0xFF, 0x00]
    ensures Encode(0x1_0000_0000, true) == [0x8E, 0xFE, 0xFE, 0xFF, 0x00]
    ensures Encode(16511, true) == [0xFF, 0x7F] && Encode(32895, true) == [0x80, 0xFF, 0x7F]
    ensures Encode(65535, true) == [0x82, 0xFE, 0x7F] && Encode(65407, true) == [0x82, 0xFD, 0x7F]
  {
    hide Encode;
    EncodeOne(0, true); EncodeOne(1, true); EncodeOne(127, true);
    EncodeOne(0, false); EncodeOne(1, false); EncodeOne(2, false); EncodeOne(14, false);
    EncodeOne(126, false); EncodeOne(127, false);
    EncodeMore(128, 1, 0, true); EncodeMore(255, 1, 127, true); EncodeMore(256, 2, 0, true);
    EncodeMore(16383, 127, 127, true); EncodeMore(16384, 128, 0, true); EncodeMore(16511, 128, 127, true);
    EncodeMore(255, 1, 127, false); EncodeMore(32895, 256, 127, true);
    EncodeMore(510, 3, 126, false); EncodeMore(65535, 511, 127, true);
    EncodeMore(509, 3, 125, false); EncodeMore(65407, 510, 127, true);
    EncodeMore(2046, 15, 126, false); EncodeMore(262142, 2047, 126, false);
    EncodeMore(33554431, 262143, 127, false); EncodeMore(0x1_0000_0000, 33554432, 0, true);
  }

  lemma {:induction false} HighOfEncode(u: nat)
    ensures Continued(Encode(u, false)) && High(Encode(u, false)) == u + 1
  {
    hide Continued, High;
    if u <= 0x7F {
      NoBytes();
      HighSnoc([], u + 128);
    } else {
      HighOfEncode(u / 128 - 1);
      HighSnoc(Encode(u / 128 - 1, false), u % 128 + 128);
    }
  }

  lemma NoBytes()
    ensures Continued([]) && High([]) == 0
  {
  }

  /** Every number is the value of its encoding. */
  lemma ValueOfEncode(n: nat)
    ensures Terminated(Encode(n, true)) && Value(Encode(n, true)) == n
  {
    hide Continued, High, Terminated, Value;
    if n <= 0x7F {
      NoBytes();
      ValueSnoc([], n);
    } else {
      HighOfEncode(n / 128 - 1);
      ValueSnoc(Encode(n / 128 - 1, false), n % 128);
    }
  }

  lemma {:induction false} EncodeOfHigh(s: seq<nat>)
    requires Continued(s) && s != []
    ensures High(s) >= 1 && Encode(High(s) - 1, false) == s
  {
    var t, b := s[..|s| - 1], s[|s| - 1];
    assert s == t + [b] && Continued(t) && 128 <= b < 256;
    hide High, Encode, Continued;
    if t != [] {
      EncodeOfHigh(t);
    }
    EncodeAppended(t, b);
  }

  lemma EncodeAppended(t: seq<nat>, b: nat)
    requires Continued(t) && 128 <= b < 256
    requires t != [] ==> High(t) >= 1 && Encode(High(t) - 1, false) == t
    ensures Continued(t + [b]) && High(t + [b]) >= 1 && Encode(High(t + [b]) - 1, false) == t + [b]
  {
    hide High, Encode, Continued;
    HighSnoc(t, b);
    var n := High(t) * 128 + (b - 128);
    if t == [] {
      NoBytes();
      EncodeOne(n, false);
    } else {
      EncodeMore(n, High(t), b - 128, false);
    }
  }

  lemma EncodeOne(d: nat, last: bool)
    requires d < 128
    ensures Encode(d, last) == [d + (if last then 0 else 128)]
  {
  }

  lemma EncodeMore(n: nat, h: nat, d: nat, last: bool)
    requires h >= 1 && d < 128 && n == h * 128 + d
    ensures Encode(n, last) == Encode(h - 1, false) + [d + (if last then 0 else 128)]
  {
  }

  /** Every terminated byte string is the encoding of its value: there is no redundancy. */
  lemma EncodeOfValue(s: seq<nat>)
    requires Terminated(s)
    ensures Encode(Value(s), true) == s
  {
    var t, b := s[..|s| - 1], s[|s| - 1];
    assert s == t + [b] && Continued(t) && b < 128;
    assert Value(s) == High(t) * 128 + b;
    hide Encode, High, Value, Continued, Terminated;
    EncodeEnded(t, b);
  }

  lemma EncodeEnded(t: seq<nat>, b: nat)
    requires Continued(t) && b < 128
    ensures Encode(High(t) * 128 + b, true) == t + [b]
  {
    hide Encode, High, Continued;
    if t == [] {
      NoBytes();
      EncodeOne(b, true);
    } else {
      EncodeOfHigh(t);
      EncodeMore(High(t) * 128 + b, High(t), b, true);
    }
  }

  // ----------------------------------------------------------- VarInt: operations

  function Reverse(s: seq<nat>): (r: seq<nat>)
    ensures |r| == |s| && forall i :: 0 <= i < |s| ==> r[i] == s[|s| - 1 - i]
  {
    seq(|s|, i requires 0 <= i < |s| => s[|s| - 1 - i])
  }

  method GetSizeOfVarInt(n0: nat) returns (size: nat)
    ensures size == |Encode(n0, true)|
  {
    var n: nat := n0;
    size := 1;
    while n > 0x7F
      invariant size - 1 + |Encode(n, size == 1)| == |Encode(n0, true)|
    {
      n := n / 128 - 1;
      size := size + 1;
    }
  }

  /** For an unsigned type of the given number of bits. The temporary array is never
      overrun, and what is written is the encoding. */
  method WriteVarInt(n0: nat, bits: nat) returns (written: seq<nat>)
    requires bits >= 8 && n0 < Pow2(bits)
    ensures written == Encode(n0, true)
    ensures |written| <= (bits + 6) / 7
  {
    hide Encode, Reverse;
    var tmp := new nat[(bits + 6) / 7];
    var len := FillDigits(tmp, n0, bits);
    written := [tmp[len]];
    var k := len;
    while k > 0
      invariant 0 <= k <= len && |written| == len + 1 - k
      invariant forall i :: 0 <= i < |written| ==> written[i] == tmp[len - i]
    {
      k := k - 1;
      written := written + [tmp[k]];
    }
    assert written == Reverse(tmp[..len + 1]);
  }

  /** The digits, lowest first, and the index of the last one. */
  method FillDigits(tmp: array<nat>, n0: nat, bits: nat) returns (len: nat)
    requires bits >= 8 && n0 < Pow2(bits) && tmp.Length == (bits + 6) / 7
    modifies tmp
    ensures len < tmp.Length && Reverse(tmp[..len + 1]) == Encode(n0, true)
  {
    hide Pow2, Encode, Reverse;
    var n: nat := n0;
    len := 0;
    tmp[len] := n % 128;
    assert tmp[..0] == [] && Reverse(tmp[..0]) == [];
    while n > 0x7F
      invariant len < tmp.Length && 7 * len < bits && n < Pow2(bits - 7 * len)
      invariant tmp[len] == n % 128 + (if len == 0 then 0 else 128)
      invariant Encode(n, len == 0) + Reverse(tmp[..len]) == Encode(n0, true)
      decreases n
    {
      ghost var before := tmp[..len + 1];
      assert before == tmp[..len] + [tmp[len]];
      EncodeStep(n, len, tmp[..len], tmp[len]);
      RoomForMore(n, bits, len);
      n := n / 128 - 1;
      len := len + 1;
      tmp[len] := n % 128 + 128;
      assert tmp[..len] == before;
    }
    EncodeOne(n, len == 0);
    assert tmp[..len + 1] == tmp[..len] + [tmp[len]];
    assert Reverse(tmp[..len + 1]) == [tmp[len]] + Reverse(tmp[..len]);
  }

  lemma EncodeStep(n: nat, len: nat, before: seq<nat>, digit: nat)
    requires n > 0x7F && |before| == len && digit == n % 128 + (if len == 0 then 0 else 128)
    ensures Encode(n / 128 - 1, false) + Reverse(before + [digit]) == Encode(n, len == 0) + Reverse(before)
  {
    assert Reverse(before + [digit]) == [digit] + Reverse(before);
  }

  /** A number with another digit to come leaves a place for it. */
  lemma RoomForMore(n: nat, bits: nat, len: nat)
    requires 7 * len < bits && 0x7F < n < Pow2(bits - 7 * len)
    ensures 7 * (len + 1) < bits && n / 128 - 1 < Pow2(bits - 7 * (len + 1))
    ensures len + 1 < (bits + 6) / 7
  {
    var e := bits - 7 * len;
    SevenBits();
    if e <= 7 {
      Pow2Monotone(e, 7);
    } else {
      Pow2Add(7, e - 7);
    }
  }

  lemma SevenBits()
    ensures Pow2(7) == 128
  {
  }

  /** A number stored into the type. */
  function Wrap(x: nat, bits: nat): nat { x % Pow2(bits) }

  /** The reader's loop, from a number built up so far. */
  function Decode(s: seq<nat>, n: nat, bits: nat): Result {
    if s == [] then Failure else
      var next := Wrap(n * 128, bits) + s[0] % 128;
      if s[0] >= 128 then Decode(s[1..], Wrap(next + 1, bits), bits) else Ok(next, s[1..])
  }

  method ReadVarInt(s: seq<nat>, bits: nat) returns (r: Result)
    requires AreBytes(s)
    ensures r == Decode(s, 0, bits)
  {
    var n: nat, k := 0, 0;
    assert s[0..] == s;
    while k < |s|
      invariant k <= |s| && Decode(s[k..], n, bits) == Decode(s, 0, bits)
    {
      assert s[k..][1..] == s[k + 1..];
      var ch := s[k];
      n := Wrap(n * 128, bits) + ch % 128;
      k := k + 1;
      if ch >= 128 {
        n := Wrap(n + 1, bits);
      } else {
        return Ok(n, s[k..]);
      }
    }
    r := Failure;
  }

  /** Reading follows the unbounded meaning, reduced to the width. */
  lemma {:induction false} DecodeFrom(s: seq<nat>, i: nat, rest: seq<nat>, bits: nat)
    requires Terminated(s) && i < |s| && bits >= 8
    ensures Decode(s[i..] + rest, Wrap(High(s[..i]), bits), bits) == Ok(Wrap(Value(s), bits), rest)
    decreases |s| - i
  {
    hide Wrap, High;
    var h := High(s[..i]);
    WrapDigit(h, s[i] % 128, bits);
    assert (s[i..] + rest)[1..] == s[i + 1..] + rest;
    if i == |s| - 1 {
      assert s[i + 1..] + rest == rest;
    } else {
      assert s[i] == s[..|s| - 1][i];
      assert s[..i + 1] == s[..i] + [s[i]];
      HighSnoc(s[..i], s[i]);
      DecodeFrom(s, i + 1, rest, bits);
    }
  }

  /** One byte on a number already reduced is one byte on the number, reduced. */
  lemma WrapDigit(h: nat, d: nat, bits: nat)
    requires d < 128 && bits >= 8
    ensures Wrap(Wrap(h, bits) * 128, bits) + d == Wrap(h * 128 + d, bits)
    ensures Wrap(Wrap(h * 128 + d, bits) + 1, bits) == Wrap(h * 128 + d + 1, bits)
  {
    SevenBits();
    hide Pow2;
    Pow2Add(7, bits - 7);
    DigitStep(h, d, Pow2(bits), Pow2(bits - 7));
    PlusOne(h * 128 + d, Pow2(bits));
  }

  lemma DigitStep(h: nat, d: nat, m: nat, q: nat)
    requires d < 128 && m == 128 * q && q >= 1
    ensures ((h % m) * 128) % m + d == (h * 128 + d) % m
  {
    var (k, r) := DivRem(h, q);
    assert h * 128 + d == k * m + (r * 128 + d) by {
      assert (k * q) * 128 == k * (128 * q);
    }
    UniqueQuotient((h * 128 + d) / m, (h * 128 + d) % m, k, r * 128 + d, m);
    var x := h % m;
    var (k', r') := DivRem(x, q);
    assert x * 128 == k' * m + r' * 128 by {
      assert (k' * q) * 128 == k' * (128 * q);
    }
    UniqueQuotient((x * 128) / m, (x * 128) % m, k', r' * 128, m);
    assert h == (h / m) * m + x;
    assert (h / m) * (128 * q) == ((h / m) * 128) * q;
    UniqueQuotient(k, r, (h / m) * 128 + k', r', q);
  }

  lemma PlusOne(x: nat, m: nat)
    requires m >= 1
    ensures (x % m + 1) % m == (x + 1) % m
  {
    Modular.CongMod(x, m);
    Modular.CongRefl(1, m);
    Modular.CongAdd(x % m, x, 1, 1, m);
    Modular.CongIffMod(x % m + 1, x + 1, m);
  }

  /** Reading any terminated string gives its value modulo 2^bits and leaves the rest. */
  lemma ReadTerminated(s: seq<nat>, rest: seq<nat>, bits: nat)
    requires Terminated(s) && bits >= 8
    ensures Decode(s + rest, 0, bits) == Ok(Value(s) % Pow2(bits), rest)
  {
    hide Decode, Pow2, Value;
    assert s[..0] == [] && s[0..] == s;
    DecodeFrom(s, 0, rest, bits);
    Zero(Pow2(bits));
  }

  lemma Zero(m: nat)
    requires m >= 1
    ensures 0 % m == 0
  {
  }

  /** Reading what was written gives the number back. */
  lemma ReadOfWrite(n: nat, rest: seq<nat>, bits: nat)
    requires bits >= 8 && n < Pow2(bits)
    ensures Decode(Encode(n, true) + rest, 0, bits) == Ok(n, rest)
  {
    hide Pow2, Decode, Encode;
    ValueOfEncode(n);
    ReadTerminated(Encode(n, true), rest, bits);
    SmallMod(n, Pow2(bits));
  }

  /** A terminated string is written again exactly as it was read if and only if its value
      fits the type. */
  lemma WriteOfRead(s: seq<nat>, rest: seq<nat>, bits: nat)
    requires Terminated(s) && bits >= 8
    ensures Decode(s + rest, 0, bits).Ok?
    ensures Encode(Decode(s + rest, 0, bits).value, true) == s <==> Value(s) < Pow2(bits)
  {
    hide Pow2, Decode, Encode, Value;
    ReadTerminated(s, rest, bits);
    EncodeOfValue(s);
    var m, v := Pow2(bits), Value(s);
    if v < m {
      SmallMod(v, m);
    } else {
      ValueOfEncode(v % m);
      ValueOfEncode(v);
      Reduced(v, m);
    }
  }

  lemma Reduced(v: nat, m: nat)
    requires 1 <= m <= v
    ensures v % m != v
  {
  }

  /** Reading fails exactly when no byte ends the number. */
  lemma {:induction false} ReadFailsExactly(s: seq<nat>, n: nat, bits: nat)
    requires AreBytes(s)
    ensures Decode(s, n, bits) == Failure <==> Continued(s)
  {
    hide Wrap;
    if s != [] && s[0] >= 128 {
      ReadFailsExactly(s[1..], Wrap(Wrap(n * 128, bits) + s[0] % 128 + 1, bits), bits);
      assert s == [s[0]] + s[1..];
    }
  }

  // --------------------------------------------------------------- CompactSize

  const MAX_SIZE: nat := 0x02000000

  /** k bytes in memory order. */
  function Bytes(n: nat, k: nat): (s: seq<nat>)
    ensures |s| == k && AreBytes(s)
  {
    if k == 0 then [] else [n % 256] + Bytes(n / 256, k - 1)
  }

  function FromBytes(s: seq<nat>): nat {
    if s == [] then 0 else s[0] + 256 * FromBytes(s[1..])
  }

  function Range(k: nat): nat {
    if k == 0 then 1 else 256 * Range(k - 1)
  }

  lemma {:induction false} BytesRoundTrip(n: nat, k: nat)
    requires n < Range(k)
    ensures FromBytes(Bytes(n, k)) == n
  {
    if k > 0 {
      BytesRoundTrip(n / 256, k - 1);
    }
  }

  lemma BytesCons(b: nat, n: nat, k: nat)
    requires b < 256
    ensures Bytes(b + 256 * n, k + 1) == [b] + Bytes(n, k)
  {
    ByteSplit(b, n);
    var x := b + 256 * n;
    assert Bytes(x, k + 1) == [x % 256] + Bytes(x / 256, k);
  }

  lemma ByteSplit(b: nat, n: nat)
    requires b < 256
    ensures (b + 256 * n) % 256 == b && (b + 256 * n) / 256 == n
  {
  }

  lemma {:induction false} FromBytesRoundTrip(s: seq<nat>)
    requires AreBytes(s)
    ensures FromBytes(s) < Range(|s|) && Bytes(FromBytes(s), |s|) == s
  {
    if s != [] {
      FromBytesRoundTrip(s[1..]);
      assert s == [s[0]] + s[1..];
      assert FromBytes(s) == s[0] + 256 * FromBytes(s[1..]) && Range(|s|) == 256 * Range(|s| - 1);
      BytesCons(s[0], FromBytes(s[1..]), |s| - 1);
      hide Bytes, FromBytes, Range;
    }
  }

  function GetSizeOfCompactSize(n: nat): nat {
    if n < 253 then 1 else if n <= 0xFFFF then 3 else if n <= 0xFFFF_FFFF then 5 else 9
  }

  function WriteCompactSize(n: nat): (s: seq<nat>)
    requires n < 0x1_0000_0000_0000_0000
    ensures |s| == GetSizeOfCompactSize(n) && AreBytes(s)
  {
    if n < 253 then [n]
    else if n <= 0xFFFF then [253] + Bytes(n, 2)
    else if n <= 0xFFFF_FFFF then [254] + Bytes(n, 4)
    else [255] + Bytes(n, 8)
  }

  /** A size of k bytes after the marker, at least low. */
  /** The four forms at their limits. */
  lemma CompactSizeForms()
    ensures WriteCompactSize(0) == [0] && WriteCompactSize(252) == [252]
    ensures WriteCompactSize(253) == [253, 253, 0] && WriteCompactSize(0xFFFF) == [253, 255, 255]
    ensures WriteCompactSize(0x1_0000) == [254, 0, 0, 1, 0]
    ensures WriteCompactSize(0xFFFF_FFFF) == [254, 255, 255, 255, 255]
    ensures WriteCompactSize(0x1_0000_0000) == [255, 0, 0, 0, 0, 1, 0, 0, 0]
  {
    ByteForms();
    hide Bytes;
  }

  lemma ByteForms()
    ensures Bytes(253, 2) == [253, 0] && Bytes(0xFFFF, 2) == [255, 255]
    ensures Bytes(0x1_0000, 4) == [0, 0, 1, 0] && Bytes(0xFFFF_FFFF, 4) == [255, 255, 255, 255]
    ensures Bytes(0x1_0000_0000, 8) == [0, 0, 0, 0, 1, 0, 0, 0]
  {
    hide Bytes;
    ShortForms();
    assert Bytes(1, 2) == [1, 0] && Bytes(1, 4) == [1, 0, 0, 0];
    NextByte(0x100, 2); NextByte(0x1_0000, 3);
    NextByte(0xFF_FFFF, 2); NextByte(0xFFFF_FFFF, 3);
    NextByte(0x100, 4); NextByte(0x1_0000, 5); NextByte(0x100_0000, 6); NextByte(0x1_0000_0000, 7);
  }

  lemma ShortForms()
    ensures Bytes(1, 2) == [1, 0] && Bytes(1, 4) == [1, 0, 0, 0]
    ensures Bytes(253, 2) == [253, 0] && Bytes(0xFFFF, 2) == [255, 255]
  {
    assert Bytes(0, 0) == [];
    hide Bytes;
    NextByte(0, 0); NextByte(0, 1); NextByte(0, 2); NextByte(1, 1); NextByte(1, 3);
    NextByte(253, 1); NextByte(255, 0); NextByte(0xFFFF, 1);
  }

  lemma NextByte(n: nat, k: nat)
    ensures Bytes(n, k + 1) == [n % 256] + Bytes(n / 256, k)
  {
  }

  function ReadWide(s: seq<nat>, k: nat, low: nat): Result {
    if |s| < 1 + k then Failure else
      var n := FromBytes(s[1..1 + k]);
      if n < low || n > MAX_SIZE then Failure else Ok(n, s[1 + k..])
  }

  function ReadCompactSize(s: seq<nat>): Result {
    if s == [] then Failure
    else if s[0] < 253 then Ok(s[0], s[1..])
    else if s[0] == 253 then ReadWide(s, 2, 253)
    else if s[0] == 254 then ReadWide(s, 4, 0x1_0000)
    else ReadWide(s, 8, 0x1_0000_0000)
  }

  lemma Ranges()
    ensures Range(2) == 0x1_0000 && Range(4) == 0x1_0000_0000 && Range(8) == 0x1_0000_0000_0000_0000
  {
  }

  lemma WideExactly(s: seq<nat>, k: nat, low: nat, n: nat, rest: seq<nat>)
    requires AreBytes(s) && s != []
    ensures ReadWide(s, k, low) == Ok(n, rest) <==>
        n < Range(k) && low <= n <= MAX_SIZE && s == [s[0]] + Bytes(n, k) + rest
  {
    hide FromBytes, Bytes, Range;
    if |s| >= 1 + k {
      FromBytesRoundTrip(s[1..1 + k]);
      assert s == [s[0]] + s[1..1 + k] + s[1 + k..];
    }
    if n < Range(k) {
      BytesRoundTrip(n, k);
    }
    var t := [s[0]] + Bytes(n, k) + rest;
    assert t[1..1 + k] == Bytes(n, k) && t[1 + k..] == rest;
  }

  /** Exactly the canonical encodings of sizes up to MAX_SIZE are accepted, each as the size
      it encodes, with nothing after it consumed. */
  lemma CompactSizeExactly(s: seq<nat>, n: nat, rest: seq<nat>)
    requires AreBytes(s)
    ensures ReadCompactSize(s) == Ok(n, rest) <==> n <= MAX_SIZE && s == WriteCompactSize(n) + rest
  {
    Ranges();
    hide FromBytes, Bytes, Range, ReadWide;
    if s != [] {
      assert s == [s[0]] + s[1..];
      WideExactly(s, 2, 253, n, rest);
      WideExactly(s, 4, 0x1_0000, n, rest);
      WideExactly(s, 8, 0x1_0000_0000, n, rest);
    }
    if n < 253 {
      assert ([n] + rest)[1..] == rest;
    }
    if n <= MAX_SIZE {
      assert (WriteCompactSize(n) + rest)[0] == if n < 253 then n else if n <= 0xFFFF then 253 else 254;
    }
  }
}
