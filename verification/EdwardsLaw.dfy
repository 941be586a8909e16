/** The script's addition law: its two denominators never vanish on the curve, and the sum of
    two points of the curve is a point of the curve in normal form. */
module EdwardsLaw {
  import opened Modular
  import opened Fermat
  import opened Curve

  // ----- Completeness -----

  /** If d X1 y1 X2 y2 were a sign, d would be the square of a quotient (Bernstein and Lange). */
  lemma SignMakesSquare(d: int, x1: int, y1: int, x2: int, y2: int, sign: int, q: int)
    requires q > 0 && sign * sign == 1
    requires Cong(x1 * x1 + y1 * y1, 1 + d * ((x1 * y1) * (x1 * y1)), q)
    requires Cong(x2 * x2 + y2 * y2, 1 + d * ((x2 * y2) * (x2 * y2)), q)
    requires Cong(d * ((x1 * y1) * (x2 * y2)), sign, q)
    ensures Cong((x1 + sign * y1) * (x1 + sign * y1), d * ((x1 * y1 * (x2 + y2)) * (x1 * y1 * (x2 + y2))), q)
  {
    var a, b := x1 * y1, x2 * y2;
    var e := d * (a * b);
    CongScale(x2 * x2 + y2 * y2, 1 + d * (b * b), d * (a * a), q);
    Regroup(d, a, b, x2, y2);
    CongProduct(e, sign, e, sign, q);
    CongScale(e, sign, 2 * a, q);
    CongSum((x2 * x2 + y2 * y2) * (d * (a * a)), (1 + d * (b * b)) * (d * (a * a)), e * (2 * a), sign * (2 * a), q);
    CongSum(d * (a * a) + sign * (2 * a), d * (a * a) + sign * (2 * a), e * e, sign * sign, q);
    CongSum(x1 * x1 + y1 * y1, 1 + d * (a * a), sign * (2 * a), sign * (2 * a), q);
    SignedSquare(x1, y1, sign);
  }

  lemma Regroup(d: int, a: int, b: int, x: int, y: int)
    requires b == x * y
    ensures d * ((a * (x + y)) * (a * (x + y))) == (x * x + y * y) * (d * (a * a)) + (d * (a * b)) * (2 * a)
    ensures (1 + d * (b * b)) * (d * (a * a)) == d * (a * a) + (d * (a * b)) * (d * (a * b))
  {
    var s, k := x * x + y * y, a * a;
    Exchange(a, x + y, a, x + y);
    assert (x + y) * (x + y) == s + 2 * b;
    assert d * (k * (s + 2 * b)) == s * (d * k) + (d * k) * (2 * b) by { Distribute(d, k, s, 2 * b); }
    assert (d * k) * (2 * b) == (d * (a * b)) * (2 * a) by { Exchange(d * a, a, 2, b); Exchange(d * a, b, 2, a); }
    Exchange(d, b * b, d, k);
    Exchange(d, a * b, d, a * b);
    Exchange(b, b, a, a);
    assert a * b == b * a;
  }

  lemma Distribute(d: int, k: int, s: int, t: int)
    ensures d * (k * (s + t)) == s * (d * k) + (d * k) * t
  {
  }

  lemma SignedSquare(x: int, y: int, sign: int)
    requires sign * sign == 1
    ensures (x + sign * y) * (x + sign * y) == x * x + y * y + sign * (2 * (x * y))
  {
    assert (sign * y) * (sign * y) == (sign * sign) * (y * y);
  }

  /** -d is no square times a nonzero square either. */
  lemma OnlyZeroNegated(c: Params, s: int, t: int)
    requires WellFormed(c) && Cong(s * s, -c.d * (t * t), c.q)
    ensures Cong(t, 0, c.q)
  {
    var i := RootOfMinusOneIn(c);
    RootOfMinusOne(c.q);
    NegatedSquare(c.d, i, t, c.q);
    OnlyZero(c, s, i * t);
    PrimeDividesFactor(i, t, c.q);
    if Cong(i, 0, c.q) {
      CongProduct(i, 0, i, 0, c.q);
      DivisionIsUnique(-1, c.q, -1, c.q - 1);
    }
  }

  lemma NegatedSquare(d: int, i: int, t: int, q: int)
    requires q > 0 && Cong(i * i, -1, q)
    ensures Cong(-d * (t * t), d * ((i * t) * (i * t)), q)
  {
    Exchange(i, t, i, t);
    MoveFactor(d, i * i, t * t);
    CongScale(i * i, -1, d * (t * t), q);
    CongFlip((i * i) * (d * (t * t)), -1 * (d * (t * t)), q);
  }

  lemma MoveFactor(d: int, a: int, b: int)
    ensures d * (a * b) == a * (d * b) && -d * b == -1 * (d * b)
  {
  }

  /** The same curve with x replaced by i x, where the x^2 term has a plus sign. */
  lemma Untwisted(c: Params, x: int, y: int, i: int)
    requires c.q > 0 && OnCurve(c, x, y) && Cong(i * i, -1, c.q)
    ensures Cong((i * x) * (i * x) + y * y, 1 + -c.d * (((i * x) * y) * ((i * x) * y)), c.q)
  {
    Exchange(i, x, i, x);
    CongScale(i * i, -1, x * x, c.q);
    Exchange(i * x, y, i * x, y);
    CongScale((i * x) * (i * x), -(x * x), -c.d * (y * y), c.q);
    assert ((i * x) * (i * x)) * (-c.d * (y * y)) == -c.d * (((i * x) * (i * x)) * (y * y));
    assert -(x * x) * (-c.d * (y * y)) == c.d * (x * x) * (y * y);
    CongSum((i * x) * (i * x), -(x * x), y * y, y * y, c.q);
    CongSum(1, 1, -c.d * (((i * x) * y) * ((i * x) * y)), c.d * (x * x) * (y * y), c.q);
  }

  ghost predicate OnUntwisted(c: Params, u: int, y: int)
    requires c.q > 0
  {
    Cong(u * u + y * y, 1 + -c.d * ((u * y) * (u * y)), c.q)
  }

  /** Were -d u1 y1 u2 y2 a sign, a product of coordinates would vanish ... */
  lemma FactorVanishes(c: Params, u1: int, y1: int, u2: int, y2: int, sign: int)
    requires WellFormed(c) && OnUntwisted(c, u1, y1) && OnUntwisted(c, u2, y2) && sign * sign == 1
    requires Cong(-c.d * ((u1 * y1) * (u2 * y2)), sign, c.q)
    ensures Cong(u1 * y1 * (u2 + y2), 0, c.q)
  {
    SignMakesSquare(-c.d, u1, y1, u2, y2, sign, c.q);
    OnlyZeroNegated(c, u1 + sign * y1, u1 * y1 * (u2 + y2));
  }

  /** ... and so would its mirror image. */
  lemma MirrorVanishes(c: Params, u1: int, y1: int, u2: int, y2: int, sign: int)
    requires WellFormed(c) && OnUntwisted(c, u1, y1) && OnUntwisted(c, u2, y2) && sign * sign == 1
    requires Cong(-c.d * ((u1 * y1) * (u2 * y2)), sign, c.q)
    ensures Cong(u1 * y1 * (u2 + -y2), 0, c.q)
  {
    var w, e := -y2, -c.d * ((u1 * y1) * (u2 * y2));
    Mirrored(-c.d, u1 * y1, u2, y2);
    assert (-sign) * (-sign) == sign * sign;
    CongDiff(0, 0, e, sign, c.q);
    hide WellFormed, Cong;
    assert OnUntwisted(c, u2, w);
    FactorVanishes(c, u1, y1, u2, w, -sign);
  }

  /** d x1 y1 x2 y2 is neither 1 nor -1 modulo q. */
  lemma NeverASign(c: Params, x1: int, y1: int, x2: int, y2: int, sign: int)
    requires WellFormed(c) && OnCurve(c, x1, y1) && OnCurve(c, x2, y2) && sign * sign == 1
    ensures !Cong(c.d * ((x1 * y1) * (x2 * y2)), sign, c.q)
  {
    var i := RootOfMinusOneIn(c);
    RootOfMinusOne(c.q);
    var u1, u2 := i * x1, i * x2;
    Untwisted(c, x1, y1, i);
    Untwisted(c, x2, y2, i);
    UntwistedProduct(c.d, i, x1, y1, x2, y2, c.q);
    UntwistedNeverASign(c, u1, y1, u2, y2, sign);
    hide WellFormed, RootOfMinusOneIn;
  }

  lemma UntwistedNeverASign(c: Params, u1: int, y1: int, u2: int, y2: int, sign: int)
    requires WellFormed(c) && OnUntwisted(c, u1, y1) && OnUntwisted(c, u2, y2) && sign * sign == 1
    ensures !Cong(-c.d * ((u1 * y1) * (u2 * y2)), sign, c.q)
  {
    hide OnUntwisted;
    if Cong(-c.d * ((u1 * y1) * (u2 * y2)), sign, c.q) {
      FactorVanishes(c, u1, y1, u2, y2, sign);
      MirrorVanishes(c, u1, y1, u2, y2, sign);
      BothFactorsVanish(c, u1 * y1, u2, y2, sign);
    }
  }

  lemma Mirrored(d: int, a: int, u: int, y: int)
    ensures (u * -y) * (u * -y) == (u * y) * (u * y) && -y * -y == y * y
    ensures d * (a * (u * -y)) == -(d * (a * (u * y)))
  {
    assert u * -y == -(u * y);
    assert a * -(u * y) == -(a * (u * y));
  }

  lemma UntwistedProduct(d: int, i: int, x1: int, y1: int, x2: int, y2: int, q: int)
    requires q > 0 && Cong(i * i, -1, q)
    ensures Cong(-d * (((i * x1) * y1) * ((i * x2) * y2)), d * ((x1 * y1) * (x2 * y2)), q)
  {
    var k := d * ((x1 * y1) * (x2 * y2));
    CongScale(i * i, -1, -k, q);
    assert ((i * x1) * y1) * ((i * x2) * y2) == (i * i) * ((x1 * y1) * (x2 * y2));
    assert -d * ((i * i) * ((x1 * y1) * (x2 * y2))) == (i * i) * -k;
  }

  lemma BothFactorsVanish(c: Params, a: int, u: int, y: int, sign: int)
    requires WellFormed(c) && Cong(a * (u + y), 0, c.q) && Cong(a * (u + -y), 0, c.q) && sign * sign == 1
    ensures !Cong(-c.d * (a * (u * y)), sign, c.q)
  {
    CongDiff(a * (u + y), 0, a * (u + -y), 0, c.q);
    assert a * (u + y) - a * (u + -y) == 2 * (a * y);
    DivisionIsUnique(2, c.q, 0, 2);
    PrimeDividesFactor(2, a * y, c.q);
    CongScale(a * y, 0, -c.d * u, c.q);
    assert (a * y) * (-c.d * u) == -c.d * (a * (u * y));
    assert sign == 1 || sign == -1;
    DivisionIsUnique(1, c.q, 0, 1);
    DivisionIsUnique(-1, c.q, -1, c.q - 1);
  }

  // ----- Closure -----

  /** The curve equation for the sum, before the divisions, in terms of s = y^2 - x^2,
      p = x y, w = x^2 + y^2 of the two summands. */
  lemma SumIdentity(d: int, p1: int, p2: int, s1: int, s2: int, w1: int, w2: int, n1: int, n2: int)
    requires n2 * n2 - n1 * n1 == s1 * s2
    requires n1 * n1 + n2 * n2 == w1 * w2 + 4 * (p1 * p2)
    requires n1 * n2 == p1 * w2 + p2 * w1
    requires w1 * w1 == s1 * s1 + 4 * (p1 * p1) && w2 * w2 == s2 * s2 + 4 * (p2 * p2)
    ensures var e := d * (p1 * p2); var a1, a2 := d * (p1 * p1), d * (p2 * p2);
            var m1, m2 := 1 + e, 1 - e;
            (n2 * m1) * (n2 * m1) - (n1 * m2) * (n1 * m2) - (m1 * m2) * (m1 * m2) - d * ((n1 * n2) * (n1 * n2))
            == (s1 - a1 * s2) * (s2 - a2 * s1) - (1 - a1 * a2) * (1 - a1 * a2)
  {
    var e := d * (p1 * p2);
    var a1, a2 := d * (p1 * p1), d * (p2 * p2);
    Exchange(n2, 1 + e, n2, 1 + e);
    Exchange(n1, 1 - e, n1, 1 - e);
    LeftPart(e, n1 * n1, n2 * n2, s1 * s2, w1 * w2, p1 * p2);
    ProductPart(d, p1, p2, w1, w2);
    FourTimes(d, p1, p2);
    Distributes(a1, w2 * w2, s2 * s2, 4 * (p2 * p2));
    Distributes(a2, w1 * w1, s1 * s1, 4 * (p1 * p1));
    SignProduct(d, p1, p2);
    Factored(a1, a2, s1, s2);
  }

  lemma Distributes(a: int, sum: int, x: int, y: int)
    requires sum == x + y
    ensures a * sum == a * x + a * y
  {
  }

  lemma SignProduct(d: int, p1: int, p2: int)
    ensures var e := d * (p1 * p2); (1 + e) * (1 - e) == 1 - (d * (p1 * p1)) * (d * (p2 * p2))
    ensures var e := d * (p1 * p2); e * e == (d * (p1 * p1)) * (d * (p2 * p2))
  {
    Exchange(d, p1 * p1, d, p2 * p2);
    Exchange(d, p1 * p2, d, p1 * p2);
    Exchange(p1, p1, p2, p2);
  }

  lemma LeftPart(e: int, b1: int, b2: int, s: int, w: int, g: int)
    requires b2 - b1 == s && b1 + b2 == w + 4 * g
    ensures b2 * ((1 + e) * (1 + e)) - b1 * ((1 - e) * (1 - e)) == s + s * (e * e) + 2 * (e * w) + 8 * (e * g)
  {
    assert (1 + e) * (1 + e) == 1 + 2 * e + e * e && (1 - e) * (1 - e) == 1 - 2 * e + e * e;
    assert b2 * (1 + 2 * e + e * e) - b1 * (1 - 2 * e + e * e) == (b2 - b1) + (b2 - b1) * (e * e) + 2 * (e * (b1 + b2));
    assert e * (w + 4 * g) == e * w + 4 * (e * g);
  }

  lemma ProductPart(d: int, p1: int, p2: int, w1: int, w2: int)
    ensures d * ((p1 * w2 + p2 * w1) * (p1 * w2 + p2 * w1))
            == (d * (p1 * p1)) * (w2 * w2) + (d * (p2 * p2)) * (w1 * w1) + 2 * ((d * (p1 * p2)) * (w1 * w2))
  {
    Exchange(p1, w2, p1, w2);
    Exchange(p2, w1, p2, w1);
    Exchange(p1, w2, p2, w1);
    var x, y := p1 * w2, p2 * w1;
    assert (x + y) * (x + y) == x * x + y * y + 2 * (x * y);
    assert d * (x * x + y * y + 2 * (x * y)) == d * (x * x) + d * (y * y) + 2 * (d * (x * y));
  }

  lemma FourTimes(d: int, p1: int, p2: int)
    ensures (d * (p1 * p1)) * (4 * (p2 * p2)) == 4 * ((d * (p1 * p2)) * (p1 * p2))
    ensures (d * (p2 * p2)) * (4 * (p1 * p1)) == 4 * ((d * (p1 * p2)) * (p1 * p2))
  {
    Exchange(p1, p1, p2, p2);
    var g := p1 * p2;
    assert (d * (p1 * p1)) * (p2 * p2) == d * (g * g) == (d * g) * g;
    assert (d * (p2 * p2)) * (p1 * p1) == d * ((p2 * p2) * (p1 * p1)) == d * (g * g);
  }

  lemma Factored(a1: int, a2: int, s1: int, s2: int)
    ensures (s1 - a1 * s2) * (s2 - a2 * s1) == s1 * s2 + (s1 * s2) * (a1 * a2) - a1 * (s2 * s2) - a2 * (s1 * s1)
  {
    Exchange(a1, s2, a2, s1);
    assert s1 * (a2 * s1) == a2 * (s1 * s1) && (a1 * s2) * s2 == a1 * (s2 * s2);
    assert (s1 - a1 * s2) * (s2 - a2 * s1) == s1 * s2 - s1 * (a2 * s1) - (a1 * s2) * s2 + (a1 * s2) * (a2 * s1);
  }

  /** Dividing the identity by the denominators: m1 i1 = m2 i2 = 1 turns it into the curve equation. */
  lemma Divided(d: int, n1: int, n2: int, m1: int, m2: int, i1: int, i2: int, q: int)
    requires q > 0 && Cong(m1 * i1, 1, q) && Cong(m2 * i2, 1, q)
    requires Cong((n2 * m1) * (n2 * m1) - (n1 * m2) * (n1 * m2) - (m1 * m2) * (m1 * m2) - d * ((n1 * n2) * (n1 * n2)),
                  0, q)
    ensures var x, y := n1 * i1, n2 * i2; Cong(y * y - x * x, 1 + d * ((x * y) * (x * y)), q)
  {
    var x, y, u, v := n1 * i1, n2 * i2, m1 * i1, m2 * i2;
    var k := i1 * i2;
    Exchange(n2, m1, i2, i1);
    Exchange(n1, m2, i1, i2);
    Exchange(m1, m2, i1, i2);
    Exchange(n1, n2, i1, i2);
    ScaledIdentity(d, n2 * m1, n1 * m2, m1 * m2, n1 * n2, k);
    CongScale((n2 * m1) * (n2 * m1) - (n1 * m2) * (n1 * m2) - (m1 * m2) * (m1 * m2) - d * ((n1 * n2) * (n1 * n2)),
              0, k * k, q);
    UnitSquare(y, u, q);
    UnitSquare(x, v, q);
    CongProduct(u, 1, v, 1, q);
    UnitSquare(1, u * v, q);
    SumUp((y * u) * (y * u), y * y, (x * v) * (x * v), x * x, (u * v) * (u * v), d * ((x * y) * (x * y)), q);
  }

  lemma ScaledIdentity(d: int, a: int, b: int, c: int, e: int, k: int)
    ensures (a * a - b * b - c * c - d * (e * e)) * (k * k)
            == (a * k) * (a * k) - (b * k) * (b * k) - (c * k) * (c * k) - d * ((e * k) * (e * k))
  {
    Exchange(a, k, a, k);
    Exchange(b, k, b, k);
    Exchange(c, k, c, k);
    Exchange(e, k, e, k);
    var kk := k * k;
    assert d * ((e * e) * kk) == (d * (e * e)) * kk;
    assert (a * a - b * b - c * c - d * (e * e)) * kk
        == (a * a) * kk - (b * b) * kk - (c * c) * kk - (d * (e * e)) * kk;
  }

  lemma UnitSquare(y: int, u: int, q: int)
    requires q > 0 && Cong(u, 1, q)
    ensures Cong((y * u) * (y * u), y * y, q)
  {
    CongScale(u, 1, y, q);
    assert u * y == y * u;
    CongProduct(y * u, y, y * u, y, q);
  }

  lemma SumUp(a: int, a': int, b: int, b': int, c: int, e: int, q: int)
    requires q > 0 && Cong(a, a', q) && Cong(b, b', q) && Cong(c, 1, q) && Cong(a - b - c - e, 0, q)
    ensures Cong(a' - b', 1 + e, q)
  {
    CongDiff(a, a', b, b', q);
    CongSum(c, 1, e, e, q);
    CongSum(a - b - c - e, 0, c + e, c + e, q);
  }

  lemma SquareApart(d: int, x: int, y: int)
    ensures d * ((x * y) * (x * y)) == d * (x * x) * (y * y)
  {
    Exchange(x, y, x, y);
    assert d * ((x * x) * (y * y)) == d * (x * x) * (y * y);
  }

  /** Before the divisions, the sum of two points of the curve satisfies the curve equation. */
  lemma SumOnCurve(d: int, x1: int, y1: int, x2: int, y2: int, q: int)
    requires q > 0
    requires Cong(y1 * y1 - x1 * x1, 1 + d * (x1 * x1) * (y1 * y1), q)
    requires Cong(y2 * y2 - x2 * x2, 1 + d * (x2 * x2) * (y2 * y2), q)
    ensures var n1, n2 := x1 * y2 + x2 * y1, y1 * y2 + x1 * x2;
            var e := d * ((x1 * y1) * (x2 * y2)); var m1, m2 := 1 + e, 1 - e;
            Cong((n2 * m1) * (n2 * m1) - (n1 * m2) * (n1 * m2) - (m1 * m2) * (m1 * m2) - d * ((n1 * n2) * (n1 * n2)),
                 0, q)
  {
    var n1, n2 := x1 * y2 + x2 * y1, y1 * y2 + x1 * x2;
    var s1, s2 := y1 * y1 - x1 * x1, y2 * y2 - x2 * x2;
    var a1, a2 := d * ((x1 * y1) * (x1 * y1)), d * ((x2 * y2) * (x2 * y2));
    hide Cong;
    Brahmagupta(x1, y1, x2, y2);
    SquareOfSum(x1, y1);
    SquareOfSum(x2, y2);
    SumIdentity(d, x1 * y1, x2 * y2, s1, s2, x1 * x1 + y1 * y1, x2 * x2 + y2 * y2, n1, n2);
    SquareApart(d, x1, y1);
    SquareApart(d, x2, y2);
    FactorsAgree(s1, s2, a1, a2, q);
  }

  lemma Brahmagupta(x1: int, y1: int, x2: int, y2: int)
    ensures var n1, n2 := x1 * y2 + x2 * y1, y1 * y2 + x1 * x2;
            n2 * n2 - n1 * n1 == (y1 * y1 - x1 * x1) * (y2 * y2 - x2 * x2) &&
            n1 * n1 + n2 * n2 == (x1 * x1 + y1 * y1) * (x2 * x2 + y2 * y2) + 4 * ((x1 * y1) * (x2 * y2)) &&
            n1 * n2 == (x1 * y1) * (x2 * x2 + y2 * y2) + (x2 * y2) * (x1 * x1 + y1 * y1)
  {
    BinomialSquare(x1 * y2, x2 * y1);
    BinomialSquare(y1 * y2, x1 * x2);
    Exchange(x1, y2, x1, y2);
    Exchange(x2, y1, x2, y1);
    Exchange(y1, y2, y1, y2);
    Exchange(x1, x2, x1, x2);
    CrossTerms(x1, y1, x2, y2);
    FourProducts(x1 * x1, y1 * y1, x2 * x2, y2 * y2);
  }

  lemma BinomialSquare(a: int, b: int)
    ensures (a + b) * (a + b) == a * a + b * b + 2 * (a * b)
  {
  }

  lemma CrossTerms(x1: int, y1: int, x2: int, y2: int)
    ensures (x1 * y2) * (x2 * y1) == (x1 * y1) * (x2 * y2) && (y1 * y2) * (x1 * x2) == (x1 * y1) * (x2 * y2)
    ensures (x1 * y2 + x2 * y1) * (y1 * y2 + x1 * x2)
            == (x1 * y1) * (x2 * x2 + y2 * y2) + (x2 * y2) * (x1 * x1 + y1 * y1)
  {
    Exchange(x1, y2, y1, x2);
    Exchange(y1, y2, x1, x2);
    Exchange(x1, y2, y1, y2);
    Exchange(x1, y2, x1, x2);
    Exchange(x2, y1, y2, y1);
    Exchange(x2, y1, x2, x1);
    var a, b, c, d := x1 * y2, x2 * y1, y1 * y2, x1 * x2;
    assert (a + b) * (c + d) == a * c + a * d + b * c + b * d;
  }

  lemma FourProducts(a: int, b: int, c: int, d: int)
    ensures (b - a) * (d - c) == b * d - b * c - a * d + a * c
    ensures (a + b) * (c + d) == a * c + a * d + b * c + b * d
  {
  }

  lemma SquareOfSum(x: int, y: int)
    ensures (x * x + y * y) * (x * x + y * y) == (y * y - x * x) * (y * y - x * x) + 4 * ((x * y) * (x * y))
  {
    Exchange(x, y, x, y);
    var a, b := x * x, y * y;
    assert (a + b) * (a + b) == (b - a) * (b - a) + 4 * (a * b);
  }

  lemma FactorsAgree(s1: int, s2: int, a1: int, a2: int, q: int)
    requires q > 0 && Cong(s1, 1 + a1, q) && Cong(s2, 1 + a2, q)
    ensures Cong((s1 - a1 * s2) * (s2 - a2 * s1) - (1 - a1 * a2) * (1 - a1 * a2), 0, q)
  {
    var r := 1 - a1 * a2;
    FactorAgrees(s1, s2, a1, a2, q);
    FactorAgrees(s2, s1, a2, a1, q);
    CongProduct(s1 - a1 * s2, r, s2 - a2 * s1, r, q);
    CongDiff((s1 - a1 * s2) * (s2 - a2 * s1), r * r, r * r, r * r, q);
  }

  lemma FactorAgrees(s1: int, s2: int, a1: int, a2: int, q: int)
    requires q > 0 && Cong(s1, 1 + a1, q) && Cong(s2, 1 + a2, q)
    ensures Cong(s1 - a1 * s2, 1 - a1 * a2, q)
  {
    CongScale(s2, 1 + a2, a1, q);
    CongDiff(s1, 1 + a1, s2 * a1, (1 + a2) * a1, q);
    assert (1 + a1) - (1 + a2) * a1 == 1 - a1 * a2;
  }

  // ----- The laws of the script's addition -----

  /** The denominators the script inverts are units, so the two quotients are real quotients. */
  lemma DenominatorsInvertible(c: Params, p: Point, r: Point)
    requires WellFormed(c) && Canonical(c, p) && Canonical(c, r)
    ensures var e := c.d * ((p.x * p.y) * (r.x * r.y)); var f := c.d * p.t * r.t;
            Cong((1 + e) * Inv(c, 1 + f), 1, c.q) && Cong((1 - e) * Inv(c, 1 - f), 1, c.q)
  {
    var e, f := c.d * ((p.x * p.y) * (r.x * r.y)), c.d * p.t * r.t;
    ReducedProduct(c.d, p.x * p.y, r.x * r.y, c.q);
    NeverASign(c, p.x, p.y, r.x, r.y, -1);
    NeverASign(c, p.x, p.y, r.x, r.y, 1);
    UnitDenominator(c, e, f);
    NegatedNotMinusOne(e, f, c.q);
    UnitDenominator(c, -e, -f);
  }

  lemma ReducedProduct(d: int, a: int, b: int, q: int)
    requires q > 0
    ensures Cong(d * (a % q) * (b % q), d * (a * b), q)
  {
    CongMod(a, q);
    CongMod(b, q);
    var s, t := a % q, b % q;
    CongProduct(s, a, t, b, q);
    CongScale(s * t, a * b, d, q);
    ThreeFactors(s, t, d);
    ThreeFactors(a, b, d);
  }

  lemma ThreeFactors(s: int, t: int, d: int)
    ensures (s * t) * d == d * s * t == d * (s * t)
  {
  }

  lemma NegatedNotMinusOne(e: int, f: int, q: int)
    requires q > 0 && Cong(f, e, q) && !Cong(e, 1, q)
    ensures Cong(-f, -e, q) && !Cong(-e, -1, q)
  {
    CongDiff(0, 0, f, e, q);
    if Cong(-e, -1, q) {
      CongDiff(0, 0, -e, -1, q);
    }
  }

  lemma UnitDenominator(c: Params, e: int, f: int)
    requires WellFormed(c) && Cong(f, e, c.q) && !Cong(e, -1, c.q)
    ensures Cong((1 + e) * Inv(c, 1 + f), 1, c.q)
  {
    if Cong(1 + f, 0, c.q) {
      CongDiff(1 + f, 0, 1, 1, c.q);
    }
    InvIsInverse(c, 1 + f);
    CongSum(1, 1, f, e, c.q);
    CongScale(1 + f, 1 + e, Inv(c, 1 + f), c.q);
  }

  /** The sum of two points of the curve is a point of the curve, in normal form. */
  lemma AddClosed(c: Params, p: Point, r: Point)
    requires WellFormed(c) && Canonical(c, p) && Canonical(c, r)
    ensures Canonical(c, Add(c, p, r))
  {
    var e := c.d * ((p.x * p.y) * (r.x * r.y));
    var n1, n2 := p.x * r.y + r.x * p.y, p.y * r.y + p.x * r.x;
    var i1, i2 := Inv(c, 1 + c.d * p.t * r.t), Inv(c, 1 - c.d * p.t * r.t);
    DenominatorsInvertible(c, p, r);
    SumOnCurve(c.d, p.x, p.y, r.x, r.y, c.q);
    Divided(c.d, n1, n2, 1 + e, 1 - e, i1, i2, c.q);
    Reduced(c, n1 * i1, n2 * i2);
  }

  /** Reducing the coordinates keeps the curve equation and the product coordinate. */
  /** The sum is the one of RFC 8032 section 5.1.4: its coordinates, multiplied by the denominators, are the
      numerators. */
  lemma EdwardsSum(c: Params, p: Point, r: Point)
    requires WellFormed(c) && Canonical(c, p) && Canonical(c, r)
    ensures c.q > 2
    ensures var e, sum := c.d * ((p.x * p.y) * (r.x * r.y)), Add(c, p, r);
            && Cong(sum.x * (1 + e), p.x * r.y + r.x * p.y, c.q)
            && Cong(sum.y * (1 - e), p.y * r.y + p.x * r.x, c.q)
  {
    var e, f := c.d * ((p.x * p.y) * (r.x * r.y)), c.d * p.t * r.t;
    DenominatorsInvertible(c, p, r);
    hide WellFormed, Canonical, Inv, Cong;
    Quotient(p.x * r.y + r.x * p.y, 1 + e, Inv(c, 1 + f), c.q);
    Quotient(p.y * r.y + p.x * r.x, 1 - e, Inv(c, 1 - f), c.q);
  }

  lemma Quotient(n: int, m: int, i: int, q: int)
    requires q > 0 && Cong(m * i, 1, q)
    ensures Cong(((n * i) % q) * m, n, q)
  {
    CongMod(n * i, q);
    CongScale((n * i) % q, n * i, m, q);
    CongScale(m * i, 1, n, q);
    assert (n * i) * m == (m * i) * n;
  }

  lemma Reduced(c: Params, x: int, y: int)
    requires c.q > 0 && Cong(y * y - x * x, 1 + c.d * ((x * y) * (x * y)), c.q)
    ensures Canonical(c, Point(x % c.q, y % c.q, 1, (x * y) % c.q))
  {
    CongMod(x, c.q);
    CongMod(y, c.q);
    CongProduct(x % c.q, x, y % c.q, y, c.q);
    SameEquation(c.d, x % c.q, y % c.q, x, y, c.q);
  }

  lemma SameEquation(d: int, a: int, b: int, x: int, y: int, q: int)
    requires q > 0 && Cong(a, x, q) && Cong(b, y, q) && Cong(y * y - x * x, 1 + d * ((x * y) * (x * y)), q)
    ensures Cong(b * b - a * a, 1 + d * (a * a) * (b * b), q)
  {
    CongProduct(a, x, b, y, q);
    CongProduct(a, x, a, x, q);
    CongProduct(b, y, b, y, q);
    CongDiff(b * b, y * y, a * a, x * x, q);
    CongProduct(a * b, x * y, a * b, x * y, q);
    CongScale((a * b) * (a * b), (x * y) * (x * y), d, q);
    CongSum(1, 1, ((a * b) * (a * b)) * d, ((x * y) * (x * y)) * d, q);
    Exchange(a, b, a, b);
    Reassociate(d, a * a, b * b);
    assert ((x * y) * (x * y)) * d == d * ((x * y) * (x * y));
  }

  lemma Reassociate(d: int, a: int, b: int)
    ensures (a * b) * d == d * a * b
  {
  }

  lemma IdentityCanonical(c: Params)
    requires WellFormed(c)
    ensures Canonical(c, IDENT)
  {
    CongFrom(0, 0, 0, c.q);
    DivisionIsUnique(0, c.q, 0, 0);
  }

  lemma AddIdentity(c: Params, p: Point)
    requires WellFormed(c) && Canonical(c, p)
    ensures Add(c, IDENT, p) == p && Add(c, p, IDENT) == p
  {
    PowOne(c.q - 2);
    DivisionIsUnique(1, c.q, 0, 1);
    DivisionIsUnique(p.x, c.q, 0, p.x);
    DivisionIsUnique(p.y, c.q, 0, p.y);
    assert c.d * p.t * 0 == 0 && c.d * 0 * p.t == 0;
  }

  lemma AddCommutes(c: Params, p: Point, r: Point)
    requires c.q > 2
    ensures Add(c, p, r) == Add(c, r, p)
  {
    assert c.d * p.t * r.t == c.d * r.t * p.t;
    assert p.x * r.y == r.y * p.x && r.x * p.y == p.y * r.x && p.y * r.y == r.y * p.y && p.x * r.x == r.x * p.x;
  }
}
