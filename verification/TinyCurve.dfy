/** The hypotheses of the signature theorem can be met together: the smallest field they allow, with
    d = 2, has a curve of four points that form a cyclic group. */
module TinyCurve {
  import opened Modular
  import opened Curve
  import opened Scalar
  import opened PointCodec
  import opened Signature
  import opened Exactness

  const TINY := Params(5, 2, 2, 0, 4)

  type Index = k: nat | k < 4

  /** The multiples of the base point. */
  function P(k: Index): Point {
    match k
    case 0 => Point(0, 1, 1, 0)
    case 1 => Point(2, 0, 1, 0)
    case 2 => Point(0, 4, 1, 0)
    case 3 => Point(3, 0, 1, 0)
  }

  lemma FiveIsPrime()
    ensures Prime(5)
  {
  }

  lemma TwoIsNoSquare(r: int)
    ensures (r * r) % 5 != 2
  {
    var k, s := r / 5, r % 5;
    assert r * r == (5 * k * k + 2 * k * s) * 5 + s * s;
    assert s == 0 || s == 1 || s == 2 || s == 3 || s == 4;
    DivisionIsUnique(r * r, 5, 5 * k * k + 2 * k * s + s * s / 5, s * s % 5);
  }

  lemma TinyWellFormed()
    ensures WellFormed(TINY)
  {
    FiveIsPrime();
    forall r ensures !IsRoot(r, 2, 5) {
      TwoIsNoSquare(r);
    }
  }

  /** The curve has no other points. */
  lemma AllPoints(p: Point)
    requires Canonical(TINY, p)
    ensures exists k: Index :: p == P(k)
  {
    OnlyThese(p.x, p.y);
    assert p == P(0) || p == P(1) || p == P(2) || p == P(3);
  }

  lemma OnlyThese(x: int, y: int)
    requires 0 <= x < 5 && 0 <= y < 5 && (y * y - x * x) % 5 == (1 + 2 * (x * x) * (y * y)) % 5
    ensures (x == 0 && (y == 1 || y == 4)) || (y == 0 && (x == 2 || x == 3))
  {
    assert x == 0 || x == 1 || x == 2 || x == 3 || x == 4;
    assert y == 0 || y == 1 || y == 2 || y == 3 || y == 4;
  }

  lemma OneInverse()
    ensures Inv(TINY, 1) == 1
  {
    PowOne(3);
  }

  lemma FlatSum(p: Point, r: Point)
    requires p.t == 0 && r.t == 0
    ensures var x, y := p.x * r.y + r.x * p.y, p.y * r.y + p.x * r.x;
            Add(TINY, p, r) == Point(x % 5, y % 5, 1, (x * y) % 5)
  {
    OneInverse();
    hide Inv;
    assert 1 + TINY.d * p.t * r.t == 1 == 1 - TINY.d * p.t * r.t;
    var x, y := p.x * r.y + r.x * p.y, p.y * r.y + p.x * r.x;
    assert x * 1 == x && y * 1 == y;
  }

  lemma PointSum(i: Index, j: Index)
    ensures Add(TINY, P(i), P(j)) == P((i + j) % 4)
  {
    hide Add;
    FlatSum(P(i), P(j));
  }

  lemma IndexSums(i: Index, j: Index, k: Index)
    ensures Add(TINY, Add(TINY, P(i), P(j)), P(k)) == Add(TINY, P(i), Add(TINY, P(j), P(k)))
  {
    hide Add, P;
    PointSum(i, j);
    PointSum(j, k);
    PointSum((i + j) % 4, k);
    PointSum(i, (j + k) % 4);
  }

  lemma PointSums(p: Point, r: Point, s: Point)
    requires Canonical(TINY, p) && Canonical(TINY, r) && Canonical(TINY, s)
    ensures Add(TINY, Add(TINY, p, r), s) == Add(TINY, p, Add(TINY, r, s))
  {
    hide Add, P, Canonical;
    AllPoints(p);
    AllPoints(r);
    AllPoints(s);
    var i: Index :| p == P(i);
    var j: Index :| r == P(j);
    var k: Index :| s == P(k);
    IndexSums(i, j, k);
  }

  lemma TinyGroup()
    ensures Group(TINY)
  {
    hide Add, Canonical, WellFormed;
    TinyWellFormed();
    forall p, r, s | Canonical(TINY, p) && Canonical(TINY, r) && Canonical(TINY, s)
      ensures Add(TINY, Add(TINY, p, r), s) == Add(TINY, p, Add(TINY, r, s))
    {
      PointSums(p, r, s);
    }
  }

  lemma {:induction false} Multiples(k: nat)
    ensures Times(TINY, k, P(1)) == P(k % 4)
  {
    hide Add;
    if k > 0 {
      Multiples(k - 1);
      PointSum((k - 1) % 4, 1);
    }
  }

  /** Every hypothesis of `SignedIsAccepted` holds for this curve. */
  lemma HypothesesCanBeMet()
    ensures Suitable(TINY)
  {
    hide Group, Times, Pow, TwoTo255, Add, Canonical, Base;
    TinyGroup();
    Multiples(TINY.order);
    Large(255, 32);
    TinyBase();
    OnTheCurve();
  }

  /** And the base point has no smaller order. */
  lemma OrderIsLeast()
    ensures TINY.q > 2 && LeastOrder(TINY)
  {
    hide Times, Add;
    TinyBase();
    forall i | 0 < i < TINY.order ensures Times(TINY, i, Base(TINY)) != IDENT {
      Multiples(i);
    }
  }

  lemma TinyBase()
    ensures Base(TINY) == P(1) && P(0) == IDENT
  {
  }

  lemma OnTheCurve()
    ensures Canonical(TINY, P(1))
  {
  }

  lemma {:induction false} Large(m: nat, n: nat)
    requires m == 255 && n == 32
    ensures TwoTo255() >= 5 && Pow(256, n) >= 4
  {
    TwoTo255Is(m);
    PowAdd(2, m - 3, 3);
    PowPositive(2, m - 3);
    assert Pow(2, 3) == 8;
    PowPositive(256, n - 1);
  }
}
