/** Fermat's little theorem, and the square root of -1 that the Ed25519 code takes. Nothing is
    assumed beyond the primality of the modulus. */
module Fermat {
  import opened Modular

  ghost function Pick<T>(s: set<T>): (x: T)
    requires s != {}
    ensures x in s
  {
    var x :| x in s; x
  }

  /** The product of the members of a set. */
  ghost function Prod(s: set<int>): int {
    if s == {} then 1 else Pick(s) * Prod(s - {Pick(s)})
  }

  lemma PickFirst(s: set<int>)
    requires s != {}
    ensures Prod(s) == Pick(s) * Prod(s - {Pick(s)})
  {
  }

  lemma SwapFirst(y: int, x: int, r: int)
    ensures y * (x * r) == x * (y * r)
  {
  }

  lemma {:induction false} ProdRemove(s: set<int>, x: int)
    requires x in s
    ensures Prod(s) == x * Prod(s - {x})
    decreases |s|
  {
    var y := Pick(s);
    PickFirst(s);
    if y != x {
      hide Prod;
      ProdRemove(s - {y}, x);
      ProdRemove(s - {x}, y);
      assert s - {y} - {x} == s - {x} - {y};
      SwapFirst(y, x, Prod(s - {y} - {x}));
    }
  }

  /** The nonzero residues 1, ..., p - 1. */
  function Residues(p: int): (r: set<int>)
    requires p > 0
    ensures |r| == p - 1 && forall x :: x in r <==> 0 < x < p
  {
    if p == 1 then {} else Residues(p - 1) + {p - 1}
  }

  function TimesMod(a: int, x: int, p: int): int
    requires p > 0
  {
    a * x % p
  }

  function Scaled(a: int, s: set<int>, p: int): set<int>
    requires p > 0
  {
    set x | x in s :: TimesMod(a, x, p)
  }

  /** Multiplying by a nonzero number permutes: it is injective on the residues. */
  lemma TimesModInjective(a: int, x: int, y: int, p: int)
    requires Prime(p) && !Cong(a, 0, p) && x in Residues(p) && y in Residues(p)
            && TimesMod(a, x, p) == TimesMod(a, y, p)
    ensures x == y
  {
    Cancel(a, x, y, p);
    DivisionIsUnique(x, p, 0, x);
    DivisionIsUnique(y, p, 0, y);
  }

  lemma ScaledMinus(a: int, s: set<int>, x: int, p: int)
    requires Prime(p) && !Cong(a, 0, p) && s <= Residues(p) && x in s
    ensures TimesMod(a, x, p) in Scaled(a, s, p)
    ensures Scaled(a, s, p) - {TimesMod(a, x, p)} == Scaled(a, s - {x}, p)
  {
    forall z | z in s && TimesMod(a, z, p) == TimesMod(a, x, p) ensures z == x {
      TimesModInjective(a, x, z, p);
    }
  }

  lemma ScaleStep(a: int, x: int, w: int, r: int, image: int, p: int)
    requires p > 0 && Cong(image, w * r, p)
    ensures Cong(TimesMod(a, x, p) * image, (a * w) * (x * r), p)
  {
    CongMod(a * x, p);
    CongProduct(TimesMod(a, x, p), a * x, image, w * r, p);
    Exchange(a, x, w, r);
  }

  lemma NextPower(a: int, n: nat)
    ensures Pow(a, n + 1) == a * Pow(a, n)
  {
  }

  lemma {:induction false} ScaledProduct(a: int, s: set<int>, p: int)
    requires Prime(p) && !Cong(a, 0, p) && s <= Residues(p)
    ensures |Scaled(a, s, p)| == |s|
    ensures Cong(Prod(Scaled(a, s, p)), Pow(a, |s|) * Prod(s), p)
    decreases |s|
  {
    if s != {} {
      var x := Pick(s);
      var rest := s - {x};
      ScaledMinus(a, s, x, p);
      ScaledProduct(a, rest, p);
      PickFirst(s);
      NextPower(a, |rest|);
      hide Prod, Pow, Prime, Cong, Scaled, Residues, TimesMod;
      ProdRemove(Scaled(a, s, p), TimesMod(a, x, p));
      ScaleStep(a, x, Pow(a, |rest|), Prod(rest), Prod(Scaled(a, rest, p)), p);
    }
  }

  lemma SubsetOfSameSize(s: set<int>, t: set<int>)
    requires s <= t && |s| == |t|
    ensures s == t
  {
    assert |t - s| == |t| - |s|;
    assert t == s + (t - s);
  }

  lemma {:induction false} ProdNonzero(s: set<int>, p: int)
    requires Prime(p) && s <= Residues(p)
    ensures !Cong(Prod(s), 0, p)
    decreases |s|
  {
    if s == {} {
      DivisionIsUnique(1, p, 0, 1);
    } else {
      var x :| x in s;
      ProdRemove(s, x);
      ProdNonzero(s - {x}, p);
      DivisionIsUnique(x, p, 0, x);
      if Cong(Prod(s), 0, p) {
        PrimeDividesFactor(x, Prod(s - {x}), p);
      }
    }
  }

  lemma ScaledIsAll(a: int, p: int)
    requires Prime(p) && !Cong(a, 0, p)
    ensures Scaled(a, Residues(p), p) == Residues(p)
  {
    forall x | x in Residues(p) ensures TimesMod(a, x, p) in Residues(p) {
      DivisionIsUnique(x, p, 0, x);
      if TimesMod(a, x, p) == 0 {
        PrimeDividesFactor(a, x, p);
      }
    }
    ScaledProduct(a, Residues(p), p);
    SubsetOfSameSize(Scaled(a, Residues(p), p), Residues(p));
  }

  lemma CancelFactor(f: int, w: int, p: int)
    requires Prime(p) && !Cong(f, 0, p) && Cong(f, w * f, p)
    ensures Cong(w, 1, p)
  {
    assert f * 1 == f && f * w == w * f;
    Cancel(f, 1, w, p);
  }

  lemma LittleTheorem(a: int, p: int)
    requires Prime(p) && !Cong(a, 0, p)
    ensures Cong(Pow(a, p - 1), 1, p)
  {
    var all := Residues(p);
    ScaledProduct(a, all, p);
    ScaledIsAll(a, p);
    ProdNonzero(all, p);
    CancelFactor(Prod(all), Pow(a, p - 1), p);
  }

  // ----- 2 is not a square modulo a prime of the form 8k + 5 -----

  /** 1 * 2 * ... * n, the product of the first n even and of the first n odd numbers. */
  function Factorial(n: nat): int { if n == 0 then 1 else n * Factorial(n - 1) }
  function Evens(n: nat): int { if n == 0 then 1 else 2 * n * Evens(n - 1) }
  function Odds(n: nat): int { if n == 0 then 1 else (2 * n - 1) * Odds(n - 1) }

  lemma {:induction false} EvensIsPower(n: nat)
    ensures Evens(n) == Pow(2, n) * Factorial(n)
  {
    if n > 0 {
      EvensIsPower(n - 1);
      Exchange(2, n, Pow(2, n - 1), Factorial(n - 1));
    }
  }

  lemma TopTwo(m: nat)
    requires m >= 2
    ensures Factorial(m) == m * ((m - 1) * Factorial(m - 2))
  {
  }

  lemma OddFirst(n: nat)
    requires n > 0
    ensures Evens(n) == (2 * n) * Evens(n - 1) && Odds(n) == (2 * n - 1) * Odds(n - 1)
  {
  }

  lemma Interleave(a: int, b: int, e: int, o: int)
    ensures a * (b * (e * o)) == (a * e) * (b * o)
  {
    Exchange(a, b, e, o);
    assert a * (b * (e * o)) == (a * b) * (e * o);
  }

  lemma {:induction false} FactorialSplits(n: nat)
    ensures Factorial(2 * n) == Evens(n) * Odds(n)
  {
    if n > 0 {
      FactorialSplits(n - 1);
      TopTwo(2 * n);
      OddFirst(n);
      hide Factorial, Evens, Odds;
      Interleave(2 * n, 2 * n - 1, Evens(n - 1), Odds(n - 1));
    }
  }

  /** The top j even numbers below p are the negatives of the first j odd numbers. */
  lemma {:induction false} TopEvens(h: nat, j: nat, p: int)
    requires p == 2 * h + 1 && j <= h && p > 1
    ensures Cong(Evens(h), Evens(h - j) * (Pow(-1, j) * Odds(j)), p)
  {
    if j > 0 {
      TopEvens(h, j - 1, p);
      var e, s, o := Evens(h - j), Pow(-1, j - 1), Odds(j - 1);
      var top := 2 * (h - j + 1);
      OddFirst(h - (j - 1));
      OddFirst(j);
      NextSign(j);
      hide Evens, Odds, Pow, Cong;
      CongFrom(top, -(2 * j - 1), 1, p);
      TakeTop(Evens(h), top, 2 * j - 1, e, s, o, p);
    }
  }

  lemma NextSign(j: nat)
    requires j > 0
    ensures Pow(-1, j) == -1 * Pow(-1, j - 1)
  {
  }

  lemma TakeTop(all: int, top: int, k: int, e: int, s: int, o: int, p: int)
    requires p > 0 && Cong(top, -k, p) && Cong(all, (top * e) * (s * o), p)
    ensures Cong(all, e * ((-1 * s) * (k * o)), p)
  {
    CongScale(top, -k, e * (s * o), p);
    assert (top * e) * (s * o) == top * (e * (s * o));
    SignedProduct(e, s, o, k);
  }

  lemma SignedProduct(e: int, s: int, o: int, k: int)
    ensures -k * (e * (s * o)) == e * ((-1 * s) * (k * o))
  {
    assert -k * (e * (s * o)) == e * (-k * (s * o)) == e * (-(k * (s * o)));
    assert k * (s * o) == s * (k * o);
  }

  lemma {:induction false} OddPowerOfMinusOne(k: nat)
    ensures Pow(-1, 2 * k) == 1 && Pow(-1, 2 * k + 1) == -1
  {
    if k > 0 {
      OddPowerOfMinusOne(k - 1);
      assert Pow(-1, 2 * k) == -1 * Pow(-1, 2 * (k - 1) + 1);
    }
  }

  lemma {:induction false} FactorialNonzero(n: nat, p: int)
    requires Prime(p) && n < p
    ensures !Cong(Factorial(n), 0, p)
  {
    if n == 0 {
      DivisionIsUnique(1, p, 0, 1);
    } else {
      FactorialNonzero(n - 1, p);
      DivisionIsUnique(n, p, 0, n);
      if Cong(Factorial(n), 0, p) {
        PrimeDividesFactor(n, Factorial(n - 1), p);
      }
    }
  }

  /** 2 to the power (p - 1) / 2 is -1, so 2 to the power (p - 1) / 4 is a square root of -1. */
  lemma TwoIsNotASquare(p: int)
    requires Prime(p) && p % 8 == 5
    ensures Cong(Pow(2, (p - 1) / 2), -1, p)
  {
    var h, n := (p - 1) / 2, (p - 1) / 4;
    assert h == 2 * n && n == 2 * (p / 8) + 1;
    TopEvens(h, n, p);
    OddPowerOfMinusOne(p / 8);
    EvensIsPower(h);
    FactorialSplits(n);
    var f := Factorial(h);
    assert Evens(n) * (-1 * Odds(n)) == f * -1;
    FactorialNonzero(h, p);
    Cancel(f, Pow(2, h), -1, p);
  }

  lemma RootOfMinusOne(p: int)
    requires Prime(p) && p % 8 == 5
    ensures var i := ExpMod(2, (p - 1) / 4, p); Cong(i * i, -1, p)
  {
    SquareOfPower(2, (p - 1) / 4, p);
    assert 2 * ((p - 1) / 4) == (p - 1) / 2;
    TwoIsNotASquare(p);
  }

  lemma SquareOfPower(b: int, n: nat, m: int)
    requires m > 0
    ensures Cong(ExpMod(b, n, m) * ExpMod(b, n, m), Pow(b, 2 * n), m)
  {
    PowAdd(b, n, n);
    CongMod(Pow(b, n), m);
    CongProduct(ExpMod(b, n, m), Pow(b, n), ExpMod(b, n, m), Pow(b, n), m);
  }
}
