/** Scalar multiplication: the script's double-and-add loop is repeated addition. Associativity of
    the addition on the points of the curve is a hypothesis. */
module Scalar {
  import opened Curve
  import opened EdwardsLaw

  ghost predicate Associative(c: Params)
    requires c.q > 2
  {
    forall p, r, s :: Canonical(c, p) && Canonical(c, r) && Canonical(c, s) ==>
                        Add(c, Add(c, p, r), s) == Add(c, p, Add(c, r, s))
  }

  ghost predicate Group(c: Params) {
    WellFormed(c) && c.q > 2 && Associative(c)
  }

  lemma AddAssociates(c: Params, p: Point, r: Point, s: Point)
    requires Group(c) && Canonical(c, p) && Canonical(c, r) && Canonical(c, s)
    ensures Add(c, Add(c, p, r), s) == Add(c, p, Add(c, r, s))
  {
  }

  /** The sum of e copies of p. */
  function Times(c: Params, e: nat, p: Point): Point
    requires c.q > 2
  {
    if e == 0 then IDENT else Add(c, Times(c, e - 1, p), p)
  }

  /** What `_scalarmult` computes from a partial result: the low bit of e selects an addition,
      then p is doubled and e halved. */
  function DoubleAndAdd(c: Params, result: Point, p: Point, e: nat): Point
    requires c.q > 2
    decreases e
  {
    if e == 0 then result
    else DoubleAndAdd(c, if e % 2 == 1 then Add(c, result, p) else result, Add(c, p, p), e / 2)
  }

  method ScalarMult(c: Params, p0: Point, e0: nat) returns (result: Point)
    requires c.q > 2
    ensures result == DoubleAndAdd(c, IDENT, p0, e0)
    ensures Group(c) && Canonical(c, p0) ==> result == Times(c, e0, p0)
  {
    var p, e := p0, e0;
    result := IDENT;
    while e > 0
      invariant DoubleAndAdd(c, result, p, e) == DoubleAndAdd(c, IDENT, p0, e0)
    {
      if e % 2 == 1 {
        result := Add(c, result, p);
      }
      p := Add(c, p, p);
      e := e / 2;
    }
    if Group(c) && Canonical(c, p0) {
      DoubleAndAddIsTimes(c, p0, e0);
    }
  }

  lemma {:induction false} TimesCanonical(c: Params, e: nat, p: Point)
    requires Group(c) && Canonical(c, p)
    ensures Canonical(c, Times(c, e, p))
  {
    if e == 0 {
      IdentityCanonical(c);
    } else {
      TimesCanonical(c, e - 1, p);
      AddClosed(c, Times(c, e - 1, p), p);
    }
  }

  lemma {:induction false} TimesSum(c: Params, e: nat, f: nat, p: Point)
    requires Group(c) && Canonical(c, p)
    ensures Times(c, e + f, p) == Add(c, Times(c, e, p), Times(c, f, p))
    decreases f
  {
    hide Add, Canonical, Associative, WellFormed;
    TimesCanonical(c, e, p);
    if f == 0 {
      AddIdentity(c, Times(c, e, p));
    } else {
      TimesSum(c, e, f - 1, p);
      TimesCanonical(c, f - 1, p);
      AddAssociates(c, Times(c, e, p), Times(c, f - 1, p), p);
    }
  }

  lemma {:induction false} TimesProduct(c: Params, e: nat, f: nat, p: Point)
    requires Group(c) && Canonical(c, p)
    ensures e * f >= 0 && Times(c, e * f, p) == Times(c, e, Times(c, f, p))
    decreases e
  {
    hide Add, Canonical, Associative, WellFormed;
    if e > 0 {
      TimesProduct(c, e - 1, f, p);
      assert e * f == (e - 1) * f + f;
      TimesSum(c, (e - 1) * f, f, p);
    }
  }

  lemma {:induction false} TimesIdentity(c: Params, e: nat)
    requires Group(c)
    ensures Times(c, e, IDENT) == IDENT
  {
    if e > 0 {
      TimesIdentity(c, e - 1);
      IdentityCanonical(c);
      AddIdentity(c, IDENT);
    }
  }

  lemma {:induction false} LoopAccumulates(c: Params, result: Point, p: Point, e: nat)
    requires Group(c) && Canonical(c, result) && Canonical(c, p)
    ensures DoubleAndAdd(c, result, p, e) == Add(c, result, Times(c, e, p))
    decreases e
  {
    hide Add, Canonical, Associative, WellFormed;
    if e == 0 {
      AddIdentity(c, result);
    } else {
      var twice := Add(c, p, p);
      AddClosed(c, result, p);
      AddClosed(c, p, p);
      Halves(c, p, e / 2);
      TimesCanonical(c, 2 * (e / 2), p);
      if e % 2 == 1 {
        LoopAccumulates(c, Add(c, result, p), twice, e / 2);
        AddAssociates(c, result, p, Times(c, 2 * (e / 2), p));
        AddCommutes(c, p, Times(c, 2 * (e / 2), p));
      } else {
        LoopAccumulates(c, result, twice, e / 2);
      }
    }
  }

  lemma TwoTimes(c: Params, p: Point)
    requires c.q > 2
    ensures Times(c, 2, p) == Add(c, Add(c, IDENT, p), p)
  {
    hide Add;
    assert Times(c, 1, p) == Add(c, Times(c, 0, p), p);
  }

  lemma Halves(c: Params, p: Point, k: nat)
    requires Group(c) && Canonical(c, p)
    ensures Times(c, k, Add(c, p, p)) == Times(c, 2 * k, p)
  {
    hide Add, Canonical, Associative, WellFormed, Times, IDENT;
    AddIdentity(c, p);
    TwoTimes(c, p);
    TimesProduct(c, k, 2, p);
    assert k * 2 == 2 * k;
  }

  /** `_scalarmult` adds its point to itself exactly e times, for every e. */
  lemma DoubleAndAddIsTimes(c: Params, p: Point, e: nat)
    requires Group(c) && Canonical(c, p)
    ensures DoubleAndAdd(c, IDENT, p, e) == Times(c, e, p)
  {
    IdentityCanonical(c);
    LoopAccumulates(c, IDENT, p, e);
    TimesCanonical(c, e, p);
    AddIdentity(c, Times(c, e, p));
  }

  /** Modulo the order of a point, scalars can be reduced. */
  lemma TimesModulo(c: Params, e: nat, p: Point, order: nat)
    requires Group(c) && Canonical(c, p) && order > 0 && Times(c, order, p) == IDENT
    ensures Times(c, e % order, p) == Times(c, e, p)
  {
    hide Add, Canonical, Associative, WellFormed, Times;
    var k, r := e / order, e % order;
    assert e == k * order + r;
    TimesProduct(c, k, order, p);
    TimesIdentity(c, k);
    TimesSum(c, k * order, r, p);
    TimesCanonical(c, r, p);
    AddIdentity(c, Times(c, r, p));
  }
}
