/** The twisted Edwards curve -x^2 + y^2 = 1 + d x^2 y^2 of RFC 8032 section 5.1 over a prime field
    with q = 5 (mod 8): root recovery, and an addition that is complete and stays on the curve.
    Two facts about the field stay hypotheses (`WellFormed`): that q is prime and that d is no square. */
module Curve {
  import opened Modular
  import opened Fermat

  /** The field, the curve constant, the base point and its order. */
  datatype Params = Params(q: int, d: int, baseX: int, baseY: int, order: int)

  ghost predicate IsSquare(a: int, q: int)
    requires q > 0
  {
    exists r :: IsRoot(r, a, q)
  }

  ghost predicate IsRoot(r: int, a: int, q: int)
    requires q > 0
  {
    Cong(r * r, a, q)
  }

  ghost predicate WellFormed(c: Params) {
    Prime(c.q) && c.q % 8 == 5 && !IsSquare(c.d, c.q)
  }

  /** Extended coordinates, as the script's tuples. */
  datatype Point = Point(x: int, y: int, z: int, t: int)

  // ----- The script's functions -----

  function Inv(c: Params, x: int): int
    requires c.q > 2
  {
    ExpMod(x, c.q - 2, c.q)
  }

  function RootOfMinusOneIn(c: Params): int
    requires c.q > 2
  {
    ExpMod(2, (c.q - 1) / 4, c.q)
  }

  function XRecover(c: Params, y: int): int
    requires c.q > 2
  {
    var xx := (y * y - 1) * Inv(c, c.d * y * y + 1);
    var x0 := ExpMod(xx, (c.q + 3) / 8, c.q);
    var x1 := Corrected(x0, xx, RootOfMinusOneIn(c), c.q);
    if x1 % 2 != 0 then c.q - x1 else x1
  }

  /** The script's second step: a candidate that is no root of xx is multiplied by a root of -1. */
  function Corrected(x0: int, xx: int, i: int, q: int): int
    requires q > 0
  {
    if (x0 * x0 - xx) % q != 0 then (x0 * i) % q else x0
  }

  const IDENT := Point(0, 1, 1, 0)

  function Add(c: Params, p: Point, r: Point): Point
    requires c.q > 2
  {
    var x3 := (p.x * r.y + r.x * p.y) * Inv(c, 1 + c.d * p.t * r.t);
    var y3 := (p.y * r.y + p.x * r.x) * Inv(c, 1 - c.d * p.t * r.t);
    Point(x3 % c.q, y3 % c.q, 1, (x3 * y3) % c.q)
  }

  // ----- The curve -----

  ghost predicate OnCurve(c: Params, x: int, y: int)
    requires c.q > 0
  {
    Cong(y * y - x * x, 1 + c.d * (x * x) * (y * y), c.q)
  }

  /** A point of the curve in the script's normal form. */
  ghost predicate Canonical(c: Params, p: Point) {
    c.q > 0 && 0 <= p.x < c.q && 0 <= p.y < c.q && p.z == 1 && p.t == (p.x * p.y) % c.q && OnCurve(c, p.x, p.y)
  }

  // ----- Fermat inversion and squares -----

  lemma InvIsInverse(c: Params, x: int)
    requires WellFormed(c) && !Cong(x, 0, c.q)
    ensures Cong(x * Inv(c, x), 1, c.q)
  {
    LittleTheorem(x, c.q);
    CongMod(Pow(x, c.q - 2), c.q);
    CongProduct(x, x, Inv(c, x), Pow(x, c.q - 2), c.q);
  }

  /** d t^2 is a square only for t = 0. */
  lemma OnlyZero(c: Params, s: int, t: int)
    requires WellFormed(c) && Cong(s * s, c.d * (t * t), c.q)
    ensures Cong(t, 0, c.q)
  {
    if !Cong(t, 0, c.q) {
      var i := Inv(c, t);
      InvIsInverse(c, t);
      QuotientRoot(s, t, i, c.d, c.q);
    }
  }

  lemma QuotientRoot(s: int, t: int, i: int, d: int, q: int)
    requires q > 0 && Cong(s * s, d * (t * t), q) && Cong(t * i, 1, q)
    ensures IsRoot(s * i, d, q)
  {
    Exchange(s, s, i, i);
    CongScale(s * s, d * (t * t), i * i, q);
    Exchange(t, t, i, i);
    assert d * (t * t) * (i * i) == d * ((t * t) * (i * i)) == ((t * i) * (t * i)) * d;
    CongProduct(t * i, 1, t * i, 1, q);
    CongScale((t * i) * (t * i), 1, d, q);
  }

  /** Numbers with equal squares are equal up to sign. */
  lemma EqualSquares(r: int, x: int, q: int)
    requires Prime(q) && Cong(r * r, x * x, q)
    ensures Cong(r, x, q) || Cong(r, -x, q)
  {
    CongDiff(r * r, x * x, x * x, x * x, q);
    assert r * r - x * x == (r - x) * (r + x);
    PrimeDividesFactor(r - x, r + x, q);
    if Cong(r - x, 0, q) {
      CongSum(r - x, 0, x, x, q);
    } else {
      CongDiff(r + x, 0, x, x, q);
    }
  }

  /** 2 has no root: to the power (q - 1) / 2 it is -1, and a square would be 1. */
  lemma TwoHasNoRoot(r: int, q: int)
    requires Prime(q) && q % 8 == 5
    ensures !IsRoot(r, 2, q)
  {
    Opposites(q);
    TwoIsNotASquare(q);
    if Cong(r * r, 2, q) {
      SquareGivesOne(r, q);
    }
  }

  lemma SquareGivesOne(r: int, q: int)
    requires Prime(q) && q % 8 == 5 && Cong(r * r, 2, q)
    ensures Cong(Pow(2, (q - 1) / 2), 1, q)
  {
    hide Pow;
    var h := (q - 1) / 2;
    RootOfTwoNonzero(r, q);
    LittleTheorem(r, q);
    PowProduct(r, r, h);
    PowAdd(r, h, h);
    assert h + h == q - 1;
    PowCong(r * r, 2, h, q);
  }

  lemma RootOfTwoNonzero(r: int, q: int)
    requires q > 2 && Cong(r * r, 2, q)
    ensures !Cong(r, 0, q)
  {
    if Cong(r, 0, q) {
      CongProduct(r, 0, r, 0, q);
      DivisionIsUnique(2, q, 0, 2);
      DivisionIsUnique(0, q, 0, 0);
    }
  }

  lemma Opposites(q: int)
    requires q > 2
    ensures !Cong(1, -1, q)
  {
    CongFrom(-1, q - 1, -1, q);
    DivisionIsUnique(1, q, 0, 1);
    DivisionIsUnique(q - 1, q, 0, q - 1);
  }

  // ----- Root recovery -----

  /** The denominator d y^2 + 1 never vanishes. */
  lemma DenominatorNonzero(c: Params, y: int)
    requires WellFormed(c)
    ensures !Cong(c.d * y * y + 1, 0, c.q)
  {
    var i := RootOfMinusOneIn(c);
    RootOfMinusOne(c.q);
    if Cong(c.d * y * y + 1, 0, c.q) {
      CongDiff(c.d * y * y + 1, 0, 1, 1, c.q);
      assert c.d * y * y == c.d * (y * y);
      OnlyZero(c, i, y);
      CongProduct(y, 0, c.d * y, c.d * y, c.q);
      assert y * (c.d * y) == c.d * y * y;
      CongSum(c.d * y * y, 0, 1, 1, c.q);
      DivisionIsUnique(1, c.q, 0, 1);
    }
  }

  /** On the curve the script's quotient is the square of x. */
  lemma QuotientIsSquare(c: Params, x: int, y: int)
    requires WellFormed(c) && OnCurve(c, x, y)
    ensures Cong((y * y - 1) * Inv(c, c.d * y * y + 1), x * x, c.q)
  {
    var den := c.d * y * y + 1;
    var i := Inv(c, den);
    DenominatorNonzero(c, y);
    InvIsInverse(c, den);
    CurveRearranged(c.d, x, y);
    CongSum(y * y - x * x, 1 + c.d * (x * x) * (y * y), x * x - 1, x * x - 1, c.q);
    hide Inv, Cong, WellFormed, OnCurve;
    Divide(y * y - 1, x * x, den, i, c.q);
  }

  lemma Divide(a: int, b: int, den: int, i: int, q: int)
    requires q > 0 && Cong(a, b * den, q) && Cong(den * i, 1, q)
    ensures Cong(a * i, b, q)
  {
    CongScale(a, b * den, i, q);
    CongScale(den * i, 1, b, q);
    assert (b * den) * i == (den * i) * b;
  }

  lemma CurveRearranged(d: int, x: int, y: int)
    ensures 1 + d * (x * x) * (y * y) + (x * x - 1) == (x * x) * (d * y * y + 1)
  {
    assert (x * x) * (d * y * y) == d * (x * x) * (y * y);
  }

  /** x to the power (q - 1) / 2 is 1 or -1. */
  lemma EulerSign(x: int, q: int)
    requires Prime(q) && q % 8 == 5 && !Cong(x, 0, q)
    ensures Cong(Pow(x, (q - 1) / 2), 1, q) || Cong(Pow(x, (q - 1) / 2), -1, q)
  {
    var h := (q - 1) / 2;
    LittleTheorem(x, q);
    PowAdd(x, h, h);
    assert h + h == q - 1;
    EqualSquares(Pow(x, h), 1, q);
  }

  /** The candidate root of a square is a root of it or of its negative. */
  lemma CandidateRoot(xx: int, x: int, q: int)
    requires Prime(q) && q % 8 == 5 && Cong(xx, x * x, q)
    ensures var r := ExpMod(xx, (q + 3) / 8, q); Cong(r * r, xx, q) || Cong(r * r, -xx, q)
  {
    var n := (q + 3) / 8;
    SquareOfPower(xx, n, q);
    hide ExpMod;
    if Cong(x, 0, q) {
      CongProduct(x, 0, x, 0, q);
      PowCong(xx, 0, 2 * n, q);
      ZeroPower(2 * n);
    } else {
      QuarterPower(xx, x, n, q);
      EulerSign(x, q);
      SignTimes(Pow(xx, 2 * n), Pow(x, (q - 1) / 2), xx, q);
    }
  }

  lemma ZeroPower(e: nat)
    requires e > 0
    ensures Pow(0, e) == 0
  {
  }

  /** xx to the power (q + 3) / 4 is x to the power (q - 1) / 2, times xx. */
  lemma QuarterPower(xx: int, x: int, n: nat, q: int)
    requires q > 1 && q % 8 == 5 && n == (q + 3) / 8 && Cong(xx, x * x, q)
    ensures Cong(Pow(xx, 2 * n), Pow(x, (q - 1) / 2) * xx, q)
  {
    var h := (q - 1) / 2;
    SecondPower(x);
    hide Pow, Cong;
    assert h + 2 == 2 * n + 2 * n;
    PowCong(xx, x * x, 2 * n, q);
    PowProduct(x, x, 2 * n);
    PowAdd(x, 2 * n, 2 * n);
    PowAdd(x, h, 2);
    SameFor(xx, x, n, h, q);
    Exchanged(Pow(xx, 2 * n), Pow(x, h), xx, x * x, q);
  }

  lemma SameFor(xx: int, x: int, n: nat, h: nat, q: int)
    requires q > 0 && Cong(Pow(xx, 2 * n), Pow(x * x, 2 * n), q)
    requires Pow(x * x, 2 * n) == Pow(x, 2 * n) * Pow(x, 2 * n) == Pow(x, 2 * n + 2 * n)
    requires h + 2 == 2 * n + 2 * n && Pow(x, h + 2) == Pow(x, h) * Pow(x, 2) && Pow(x, 2) == x * x
    ensures Cong(Pow(xx, 2 * n), Pow(x, h) * (x * x), q)
  {
    hide Pow;
  }

  lemma Exchanged(a: int, s: int, xx: int, square: int, q: int)
    requires q > 0 && Cong(a, s * square, q) && Cong(xx, square, q)
    ensures Cong(a, s * xx, q)
  {
    CongScale(xx, square, s, q);
    assert xx * s == s * xx && square * s == s * square;
  }

  lemma SecondPower(x: int)
    ensures Pow(x, 2) == x * x
  {
    assert Pow(x, 2) == x * Pow(x, 1) && Pow(x, 1) == x * Pow(x, 0);
  }

  lemma SignTimes(a: int, s: int, xx: int, q: int)
    requires q > 0 && Cong(a, s * xx, q) && (Cong(s, 1, q) || Cong(s, -1, q))
    ensures Cong(a, xx, q) || Cong(a, -xx, q)
  {
    CongScale(s, if Cong(s, 1, q) then 1 else -1, xx, q);
  }

  /** Multiplying a root of -xx by a root of -1 gives a root of xx. */
  lemma CorrectedRoot(r: int, xx: int, i: int, q: int)
    requires q > 0 && Cong(r * r, -xx, q) && Cong(i * i, -1, q)
    ensures var s := (r * i) % q; Cong(s * s, xx, q)
  {
    CongMod(r * i, q);
    CongProduct((r * i) % q, r * i, (r * i) % q, r * i, q);
    Exchange(r, i, r, i);
    CongProduct(r * r, -xx, i * i, -1, q);
    assert -xx * -1 == xx;
  }

  /** `_xrecover`: from the y of a curve point it recovers the even one of x and q - x. */
  lemma XRecoverCorrect(c: Params, x: int, y: int)
    requires WellFormed(c) && OnCurve(c, x, y) && 0 <= x < c.q
    ensures XRecover(c, y) == if x % 2 == 0 then x else c.q - x
  {
    var xx := (y * y - 1) * Inv(c, c.d * y * y + 1);
    var x0 := ExpMod(xx, (c.q + 3) / 8, c.q);
    QuotientIsSquare(c, x, y);
    RootOfMinusOne(c.q);
    CandidateRoot(xx, x, c.q);
    CorrectRoot(x0, xx, RootOfMinusOneIn(c), x, c.q);
    assert c.q == 2 * (4 * (c.q / 8) + 2) + 1;
    EvenOne(Corrected(x0, xx, RootOfMinusOneIn(c), c.q), x, c.q);
  }

  lemma EvenOne(x1: int, x: int, q: int)
    requires q % 2 == 1 && (x1 == x || x1 == q - x)
    ensures (if x1 % 2 != 0 then q - x1 else x1) == if x % 2 == 0 then x else q - x
  {
    DivisionIsUnique(q - x, 2, q / 2 - x / 2, 1 - x % 2);
  }

  /** The script's correction of the candidate root ends at x or q - x. */
  lemma CorrectRoot(x0: int, xx: int, i: int, x: int, q: int)
    requires Prime(q) && 0 <= x0 < q && 0 <= x < q
    requires Cong(xx, x * x, q) && Cong(i * i, -1, q)
    requires Cong(x0 * x0, xx, q) || Cong(x0 * x0, -xx, q)
    ensures var x1 := Corrected(x0, xx, i, q); x1 == x || x1 == q - x
  {
    SameRemainder(x0 * x0, xx, q);
    if (x0 * x0 - xx) % q != 0 {
      CorrectedRoot(x0, xx, i, q);
      EqualSquares((x0 * i) % q, x, q);
      SignedRepresentatives((x0 * i) % q, x, q);
    } else {
      EqualSquares(x0, x, q);
      SignedRepresentatives(x0, x, q);
    }
  }

  lemma SameRemainder(a: int, b: int, m: int)
    requires m > 0
    ensures (a - b) % m == 0 <==> Cong(a, b, m)
  {
    if Cong(a, b, m) {
      CongDiff(a, b, b, b, m);
    }
    if (a - b) % m == 0 {
      CongSum(a - b, 0, b, b, m);
    }
  }

  lemma SignedRepresentatives(r: int, x: int, q: int)
    requires q > 0 && 0 <= r < q && 0 <= x < q && (Cong(r, x, q) || Cong(r, -x, q))
    ensures r == x || r == q - x
  {
    DivisionIsUnique(r, q, 0, r);
    DivisionIsUnique(x, q, 0, x);
    if x > 0 {
      DivisionIsUnique(-x, q, -1, q - x);
    }
  }
}
