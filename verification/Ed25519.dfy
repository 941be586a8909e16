/** The script's own constants: the field of 2^255 - 19, the curve constant and the base point as the
    script computes them, and the theorem for them. */
module Ed25519 {
  import opened Common
  import opened Modular
  import opened Fermat
  import opened Curve
  import opened Scalar
  import opened PointCodec
  import opened Signature
  import opened Pruning
  import opened Exactness

  const Q := 0x7fffffffffffffffffffffffffffffffffffffffffffffffffffffffffffffed
  const L := 0x1000000000000000000000000000000014def9dea2f79cd65812631a5cf5d3ed

  /** `_D`, `_By` and `_Bx`. */
  function D(): int { (-121665 * ExpMod(121666, Q - 2, Q)) % Q }
  function BaseY(): int { (4 * ExpMod(5, Q - 2, Q)) % Q }
  function BaseX(): int { XRecover(Params(Q, D(), 0, 0, L), BaseY()) }

  function Ed(): Params { Params(Q, D(), BaseX(), BaseY(), L) }

  // Their values, in figures.
  const D_VALUE := 0x52036cee2b6ffe738cc740797779e89800700a4d4141d8ab75eb4dca135978a3
  const X_VALUE := 0x216936d3cd6e53fec0a4e231fdd6dc5c692cc7609525a7b2c9562d608f25d51a
  const Y_VALUE := 0x6666666666666666666666666666666666666666666666666666666666666658

  /** 2^n for the exponents between 8 and 256 reached by doubling. */
  lemma PowersOfTwo()
    ensures TwoTo255() == 0x8000000000000000000000000000000000000000000000000000000000000000
    ensures Pow(256, 32) == 0x1_0000000000000000000000000000000000000000000000000000000000000000
  {
    Doubling(256, 1, 256);
    Doubling(256, 2, 0x1_0000);
    Doubling(256, 4, 0x1_0000_0000);
    Doubling(256, 8, 0x1_00000000_00000000);
    Doubling(256, 16, 0x1_00000000_00000000_00000000_00000000);
    PowPow(2, 8, 32);
    EightBits(8);
    TwoTo255Is(255);
    HalfOf(256);
  }

  lemma Doubling(b: int, e: nat, value: int)
    requires Pow(b, e) == value
    ensures Pow(b, 2 * e) == value * value
  {
    PowAdd(b, e, e);
  }

  lemma EightBits(n: nat)
    requires n == 8
    ensures Pow(2, n) == 256
  {
  }

  lemma HalfOf(n: nat)
    requires n > 0
    ensures Pow(2, n) == 2 * Pow(2, n - 1)
  {
  }

  /** A quotient computed with the Fermat inverse is the number that solves the equation. */
  lemma QuotientValue(a: int, b: int, value: int)
    requires Prime(Q) && 0 < b < Q && 0 <= value < Q && (b * value - a) % Q == 0
    ensures (a * ExpMod(b, Q - 2, Q)) % Q == value
  {
    var i := ExpMod(b, Q - 2, Q);
    DivisionIsUnique(b, Q, 0, b);
    InverseOf(b, Q);
    SameRemainder(b * value, a, Q);
    SolveForValue(a, b, i, value, Q);
    DivisionIsUnique(value, Q, 0, value);
  }

  lemma InverseOf(b: int, q: int)
    requires Prime(q) && q > 2 && !Cong(b, 0, q)
    ensures Cong(b * ExpMod(b, q - 2, q), 1, q)
  {
    LittleTheorem(b, q);
    CongMod(Pow(b, q - 2), q);
    CongProduct(b, b, ExpMod(b, q - 2, q), Pow(b, q - 2), q);
  }

  lemma SolveForValue(a: int, b: int, i: int, value: int, q: int)
    requires q > 0 && Cong(b * value, a, q) && Cong(b * i, 1, q)
    ensures Cong(a * i, value, q)
  {
    CongScale(b * value, a, i, q);
    CongScale(b * i, 1, value, q);
    assert (b * value) * i == (b * i) * value;
  }

  /** The script's curve constant, in figures. */
  lemma DValue()
    requires Prime(Q)
    ensures D() == D_VALUE
  {
    hide Prime;
    QuotientValue(-121665, 121666, D_VALUE);
  }

  // A square root of 2 d modulo q, and the quotient of its square.
  const ROOT_OF_2D := 0x7aace324fd0ac68910cb40c6304ab6b7dbb63fe1a1c15dad5c477a1b914298b0
  const ROOT_QUOTIENT := 0x75927a8288d9d39d5adb04204c82526a0e9b90dacfcd8304db7c1cd9c5f0eb62

  /** d is no square: 2 d is one and 2 is none. */
  lemma DIsNotASquare()
    requires Prime(Q)
    ensures !IsSquare(D(), Q)
  {
    hide Prime, IsSquare, Cong, D, ExpMod;
    DValue();
    TwiceD();
    HalfOfASquare(ROOT_OF_2D, D_VALUE, Q);
  }

  lemma TwiceD()
    ensures Cong(ROOT_OF_2D * ROOT_OF_2D, 2 * D_VALUE, Q) && !Cong(D_VALUE, 0, Q)
  {
    CongFrom(ROOT_OF_2D * ROOT_OF_2D, 2 * D_VALUE, ROOT_QUOTIENT, Q);
    DivisionIsUnique(D_VALUE, Q, 0, D_VALUE);
    DivisionIsUnique(0, Q, 0, 0);
  }

  /** Half of a square is no square: a root of 2 a over a root of a would be a root of 2. */
  lemma HalfOfASquare(r: int, a: int, q: int)
    requires Prime(q) && q % 8 == 5 && Cong(r * r, 2 * a, q) && !Cong(a, 0, q)
    ensures !IsSquare(a, q)
  {
    if IsSquare(a, q) {
      var s :| IsRoot(s, a, q);
      if Cong(s, 0, q) {
        CongProduct(s, 0, s, 0, q);
      }
      InverseOf(s, q);
      CongScale(s * s, a, 2, q);
      assert 2 * (s * s) == (s * s) * 2;
      var root := r * ExpMod(s, q - 2, q);
      QuotientRoot(r, s, ExpMod(s, q - 2, q), 2, q);
      TwoHasNoRoot(root, q);
    }
  }

  lemma ConstantValues()
    requires Prime(Q)
    ensures D() == D_VALUE && BaseY() == Y_VALUE && BaseX() == X_VALUE
  {
    hide Cong, XRecover, Prime, IsSquare, ExpMod, OnCurve, D;
    DValue();
    DIsNotASquare();
    QuotientValue(4, 5, Y_VALUE);
    var c := Params(Q, D(), 0, 0, L);
    BaseEquation();
    XRecoverCorrect(c, X_VALUE, Y_VALUE);
  }

  // The quotient of the curve equation at the base point, in words of 256 bits.
  const WORD := 0x1_0000000000000000000000000000000000000000000000000000000000000000
  const K0 := 0xcfeb87ecfc5b550744d2c0fca4a89ec707de8b3c9a756eb80e7ec260dc2fda59
  const K1 := 0xa35cfc55550db4be5e6bd6246e4a4ea2054904f5e4438fa42b0e56e116ea5951
  const K2 := 0xbdefac6a6f236898302e8ed7c7df683605c40a4c5bad89dcf0c8e913ecc5b282
  const K3 := 0x72705895b7fd68a9fa7924f5dbf66a83342931bfa505f5c01a65246a2283b5
  const QUOTIENT := ((K3 * WORD + K2) * WORD + K1) * WORD + K0

  lemma BaseEquation()
    ensures Cong(Y_VALUE * Y_VALUE - X_VALUE * X_VALUE,
                 1 + D_VALUE * (X_VALUE * X_VALUE) * (Y_VALUE * Y_VALUE), Q)
  {
    hide Cong;
    CongFrom(Y_VALUE * Y_VALUE - X_VALUE * X_VALUE,
             1 + D_VALUE * (X_VALUE * X_VALUE) * (Y_VALUE * Y_VALUE), -QUOTIENT, Q);
  }

  /** The base point is a point of the curve in normal form. */
  lemma BaseOnCurve()
    requires Prime(Q)
    ensures WellFormed(Ed()) && Canonical(Ed(), Base(Ed()))
  {
    DIsNotASquare();
    ConstantValues();
    BaseEquation();
    DivisionIsUnique(X_VALUE, Q, 0, X_VALUE);
    DivisionIsUnique(Y_VALUE, Q, 0, Y_VALUE);
  }

  /** With the script's constants every signature is accepted, given that 2^255 - 19 is prime and
      that the curve addition is associative with [L]B the neutral element. */
  lemma EverySignatureVerifies(sha: Hash, msg: seq<Byte>, seed: seq<Byte>)
    requires Prime(Q)
    requires Associative(Ed()) && Times(Ed(), L, Base(Ed())) == IDENT
    requires |seed| == 32
    ensures var pub := PublicKey(Ed(), sha, seed).value;
            0 < L <= Pow(256, 32) && Verify(Ed(), sha, msg, Sign(Ed(), sha, msg, seed, pub), pub)
  {
    BaseOnCurve();
    PowersOfTwo();
    SignedIsAccepted(Ed(), sha, msg, seed);
  }

  /** And nothing else is: with the script's constants, for the key of a seed and a first half that encodes rB, the one
      second half that is accepted is the number of RFC 8032 section 5.1.6. That L is prime is one more
      hypothesis. */
  lemma OneSignatureVerifies(sha: Hash, msg: seq<Byte>, seed: seq<Byte>, r: nat)
    requires Prime(Q) && Prime(L)
    requires Associative(Ed()) && Times(Ed(), L, Base(Ed())) == IDENT
    requires |seed| == 32
    ensures AcceptsOneNumber(Ed(), sha, msg, seed, r)
  {
    BaseIsNotNeutral();
    EdIsSuitable();
    hide AcceptsOneNumber, Suitable, Prime;
    AcceptedForPrimeOrder(Ed(), sha, msg, seed, r);
  }

  lemma EdIsSuitable()
    requires Prime(Q) && Associative(Ed()) && Times(Ed(), L, Base(Ed())) == IDENT
    ensures Suitable(Ed())
  {
    BaseOnCurve();
    PowersOfTwo();
  }

  lemma BaseIsNotNeutral()
    requires Prime(Q)
    ensures Base(Ed()) != IDENT
  {
    ConstantValues();
    DivisionIsUnique(X_VALUE, Q, 0, X_VALUE);
  }
}
