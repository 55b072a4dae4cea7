/** The points of src/crypto/point.cpp: a cyclic group of prime order. A point is
    represented by the residue n of its multiple n of the generator, so that
    equality of points is equality of residues modulo the order. */
module Group {
  import opened Modular

  datatype Point = Point(residue: int)

  ghost predicate OnCurve(a: Point, p: int) {
    0 <= a.residue < p
  }

  const Infinity := Point(0)

  /** `Point(curve, n)`: n times the generator. */
  function Multiple(n: int, p: int): (a: Point)
    requires p > 0
    ensures OnCurve(a, p)
  {
    Point(n % p)
  }

  function Add(a: Point, b: Point, p: int): (c: Point)
    requires p > 0
    ensures OnCurve(c, p)
  {
    Point((a.residue + b.residue) % p)
  }

  function Scale(n: int, a: Point, p: int): (c: Point)
    requires p > 0
    ensures OnCurve(c, p)
  {
    Point((n * a.residue) % p)
  }

  lemma MultipleEqual(m: int, n: int, p: int)
    requires p > 0
    ensures Multiple(m, p) == Multiple(n, p) <==> Cong(m, n, p)
  {
    CongIffMod(m, n, p);
  }

  lemma ZeroOpensInfinity(p: int)
    requires p > 0
    ensures Multiple(0, p) == Infinity
  {
  }

  /** Two points of the curve with congruent residues are the same point. */
  lemma PointEqual(a: Point, b: Point, p: int)
    requires OnCurve(a, p) && OnCurve(b, p)
    ensures a == b <==> Cong(a.residue, b.residue, p)
  {
    CongIffMod(a.residue, b.residue, p);
    CongRefl(a.residue, p);
    if Cong(a.residue, b.residue, p) {
      CongCanonical(a.residue, b.residue, p);
    }
  }

  lemma MultipleResidue(n: int, p: int)
    requires p > 0
    ensures Cong(Multiple(n, p).residue, n, p)
  {
    CongMod(n, p);
  }

  lemma AddResidue(a: Point, b: Point, p: int)
    requires p > 0
    ensures Cong(Add(a, b, p).residue, a.residue + b.residue, p)
  {
    CongMod(a.residue + b.residue, p);
  }

  lemma ScaleResidue(n: int, a: Point, p: int)
    requires p > 0
    ensures Cong(Scale(n, a, p).residue, n * a.residue, p)
  {
    CongMod(n * a.residue, p);
  }

  /** Multiples of the generator add like their factors. */
  lemma MultipleSum(m: int, n: int, p: int)
    requires p > 0
    ensures Add(Multiple(m, p), Multiple(n, p), p) == Multiple(m + n, p)
  {
    CongMod(m, p); CongMod(n, p); CongMod(m + n, p);
    CongAdd(m % p, m, n % p, n, p);
    CongIffMod(m % p + n % p, m + n, p);
  }

  /** n times the m-fold multiple of the generator is its n*m-fold multiple. */
  lemma ScaleMultiple(n: int, m: int, p: int)
    requires p > 0
    ensures Scale(n, Multiple(m, p), p) == Multiple(n * m, p)
  {
    CongMod(m, p);
    CongScale(n, m % p, m, p);
    CongIffMod(n * (m % p), n * m, p);
  }

  /** Diffie-Hellman symmetry: both sides of an exchange reach the same point. */
  lemma SharedPoint(a: int, b: int, p: int)
    requires p > 0
    ensures Scale(a, Multiple(b, p), p) == Scale(b, Multiple(a, p), p)
  {
    ScaleMultiple(a, b, p);
    ScaleMultiple(b, a, p);
    assert a * b == b * a;
  }
}
