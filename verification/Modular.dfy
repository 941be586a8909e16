/** Congruences, powers and primes. */
module Modular {

  // ----- Congruence -----

  ghost predicate Cong(a: int, b: int, m: int)
    requires m > 0
  {
    a % m == b % m
  }

  lemma MultipleIsFar(d: int, m: int)
    requires m > 0
    ensures d >= 1 ==> d * m >= m
    ensures d <= -1 ==> d * m <= -m
  {
    if d >= 1 {
      assert d * m == (d - 1) * m + m;
    } else {
      assert -d * m == (-d - 1) * m + m;
    }
  }

  lemma DivisionIsUnique(a: int, m: int, q: int, r: int)
    requires m > 0 && a == q * m + r && 0 <= r < m
    ensures a / m == q && a % m == r
  {
    assert (q - a / m) * m == q * m - (a / m) * m;
    MultipleIsFar(q - a / m, m);
  }

  lemma CongFrom(a: int, b: int, k: int, m: int)
    requires m > 0 && a == b + k * m
    ensures Cong(a, b, m)
  {
    assert a == (b / m + k) * m + b % m by { assert b == (b / m) * m + b % m; }
    DivisionIsUnique(a, m, b / m + k, b % m);
  }

  lemma CongWitness(a: int, b: int, m: int) returns (k: int)
    requires m > 0 && Cong(a, b, m)
    ensures a == b + k * m
  {
    k := a / m - b / m;
    assert a == (a / m) * m + a % m && b == (b / m) * m + b % m;
  }

  /** A number and its remainder are congruent. */
  lemma CongMod(a: int, m: int)
    requires m > 0
    ensures Cong(a % m, a, m)
  {
    DivisionIsUnique(a % m, m, 0, a % m);
  }

  lemma CongFlip(a: int, b: int, m: int)
    requires m > 0 && Cong(a, b, m)
    ensures Cong(b, a, m)
  {
  }

  lemma CongSum(a: int, b: int, c: int, d: int, m: int)
    requires m > 0 && Cong(a, b, m) && Cong(c, d, m)
    ensures Cong(a + c, b + d, m)
  {
    var k := CongWitness(a, b, m);
    var l := CongWitness(c, d, m);
    assert (k + l) * m == k * m + l * m;
    CongFrom(a + c, b + d, k + l, m);
  }

  lemma CongDiff(a: int, b: int, c: int, d: int, m: int)
    requires m > 0 && Cong(a, b, m) && Cong(c, d, m)
    ensures Cong(a - c, b - d, m)
  {
    var k := CongWitness(a, b, m);
    var l := CongWitness(c, d, m);
    assert (k - l) * m == k * m - l * m;
    CongFrom(a - c, b - d, k - l, m);
  }

  lemma CongScale(a: int, b: int, c: int, m: int)
    requires m > 0 && Cong(a, b, m)
    ensures Cong(a * c, b * c, m)
  {
    var k := CongWitness(a, b, m);
    assert (b + k * m) * c == b * c + (k * c) * m;
    CongFrom(a * c, b * c, k * c, m);
  }

  lemma CongProduct(a: int, b: int, c: int, d: int, m: int)
    requires m > 0 && Cong(a, b, m) && Cong(c, d, m)
    ensures Cong(a * c, b * d, m)
  {
    CongScale(a, b, c, m);
    CongScale(c, d, b, m);
  }

  // ----- Powers -----

  function Pow(b: int, e: nat): int {
    if e == 0 then 1 else b * Pow(b, e - 1)
  }

  lemma {:induction false} PowAdd(b: int, i: nat, j: nat)
    ensures Pow(b, i + j) == Pow(b, i) * Pow(b, j)
  {
    if i > 0 {
      PowAdd(b, i - 1, j);
      assert b * (Pow(b, i - 1) * Pow(b, j)) == b * Pow(b, i - 1) * Pow(b, j);
    }
  }

  lemma Exchange(a: int, b: int, x: int, y: int)
    ensures (a * b) * (x * y) == (a * x) * (b * y)
  {
    assert (a * b) * (x * y) == a * (b * x) * y == a * (x * b) * y;
  }

  lemma {:induction false} PowProduct(a: int, b: int, e: nat)
    ensures Pow(a * b, e) == Pow(a, e) * Pow(b, e)
  {
    if e > 0 {
      PowProduct(a, b, e - 1);
      Exchange(a, b, Pow(a, e - 1), Pow(b, e - 1));
    }
  }

  lemma {:induction false} PowPow(b: int, i: nat, j: nat)
    ensures i * j >= 0 && Pow(Pow(b, i), j) == Pow(b, i * j)
  {
    if j > 0 {
      PowPow(b, i, j - 1);
      assert i * j == i + i * (j - 1);
      PowAdd(b, i, i * (j - 1));
    }
  }

  lemma {:induction false} PowCong(a: int, b: int, e: nat, m: int)
    requires m > 0 && Cong(a, b, m)
    ensures Cong(Pow(a, e), Pow(b, e), m)
  {
    if e > 0 {
      PowCong(a, b, e - 1, m);
      CongProduct(a, b, Pow(a, e - 1), Pow(b, e - 1), m);
    }
  }

  lemma {:induction false} PowOne(e: nat)
    ensures Pow(1, e) == 1
  {
    if e > 0 {
      PowOne(e - 1);
    }
  }

  /** Python's `pow(b, e, m)`. */
  function ExpMod(b: int, e: nat, m: int): int
    requires m > 0
  {
    Pow(b, e) % m
  }

  // ----- Primes -----

  ghost predicate Prime(p: int) {
    p > 1 && forall d | 1 < d < p :: p % d != 0
  }

  lemma RemainderVanishes(a: int, b: int, k: int, p: int)
    requires p > 0 && k > 0 && Cong(k * b, 0, p) && Cong(a * b, 0, p)
    ensures Cong((a % k) * b, 0, p)
  {
    var m, r := a / k, a % k;
    CongProduct(m, m, k * b, 0, p);
    CongDiff(a * b, 0, m * (k * b), m * 0, p);
    assert a == m * k + r;
    TakeAway(a, m, k, r, b);
  }

  lemma TakeAway(a: int, m: int, k: int, r: int, b: int)
    requires a == m * k + r
    ensures a * b - m * (k * b) == r * b
  {
    assert (m * k + r) * b == (m * k) * b + r * b;
    assert (m * k) * b == m * (k * b);
  }

  /** The least positive multiplier that makes `b` a multiple of `p` divides every other. */
  lemma LeastMultiplier(b: int, p: int) returns (k: int)
    requires p > 0
    ensures 0 < k && Cong(k * b, 0, p)
    ensures forall a {:trigger Cong(a * b, 0, p)} :: Cong(a * b, 0, p) ==> a % k == 0
  {
    k := p;
    CongFrom(p * b, 0, b, p);
    while exists j | 0 < j < k :: Cong(j * b, 0, p)
      invariant 0 < k && Cong(k * b, 0, p)
      decreases k
    {
      var j :| 0 < j < k && Cong(j * b, 0, p);
      k := j;
    }
    forall a | Cong(a * b, 0, p) ensures a % k == 0 {
      RemainderVanishes(a, b, k, p);
    }
  }

  /** A prime that divides a product divides one of the factors. */
  lemma PrimeDividesFactor(a: int, b: int, p: int)
    requires Prime(p) && Cong(a * b, 0, p)
    ensures Cong(a, 0, p) || Cong(b, 0, p)
  {
    var k := LeastMultiplier(b, p);
    CongFrom(p * b, 0, b, p);
    assert p % k == 0 && a % k == 0;
    if k > p {
      DivisionIsUnique(p, k, 0, p);
    }
    assert k == 1 || k == p;
  }

  lemma Cancel(a: int, x: int, y: int, p: int)
    requires Prime(p) && !Cong(a, 0, p) && Cong(a * x, a * y, p)
    ensures Cong(x, y, p)
  {
    CongDiff(a * x, a * y, a * y, a * y, p);
    assert a * x - a * y == a * (x - y);
    PrimeDividesFactor(a, x - y, p);
    CongSum(x - y, 0, y, y, p);
  }
}
