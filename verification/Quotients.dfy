/** Quotient and remainder of naturals, as one operation with its defining equation, and
    runs of zero digits. */
module Quotients {
  import Modular

  function DivRem(t: nat, base: nat): (r: (nat, nat))
    requires base >= 1
    ensures r.0 * base + r.1 == t && r.1 < base
  {
    (t / base, t % base)
  }

  lemma UniqueQuotient(q: int, r: int, q': int, r': int, base: nat)
    requires q * base + r == q' * base + r' && 0 <= r < base && 0 <= r' < base
    ensures q == q' && r == r'
  {
    assert (q - q') * base == r' - r;
    Modular.MultipleBetween(q - q', base);
  }

  lemma DivMod(q: nat, base: nat, d: nat)
    requires d < base
    ensures DivRem(q * base + d, base) == (q, d)
  {
    hide DivRem;
    var (q', d') := DivRem(q * base + d, base);
    UniqueQuotient(q', d', q, d, base);
  }

  lemma SmallMod(x: nat, m: nat)
    requires x < m
    ensures x % m == x
  {
  }

  function Zeros(n: nat): (z: seq<nat>)
    ensures |z| == n && forall i :: 0 <= i < n ==> z[i] == 0
  {
    seq(n, _ => 0)
  }
}
