/** Point compression (RFC 8032 sections 5.1.2 and 5.1.3): 255 bits of y and the parity of x, packed
    into 32 bytes, and the decompression that inverts it on every point of the curve. */
module PointCodec {
  import opened Common
  import opened Modular
  import opened Curve

  /** `int.from_bytes(s, "little")`. */
  function FromLittle(s: seq<Byte>): (n: nat) {
    if s == [] then 0 else s[0] + 256 * FromLittle(s[1..])
  }

  /** `n.to_bytes(len, "little")`, defined where it does not overflow. */
  function ToLittle(n: nat, len: nat): (s: seq<Byte>)
    requires n < Pow(256, len)
    ensures |s| == len && FromLittle(s) == n
    decreases len
  {
    if len == 0 then []
    else
      assert n / 256 < Pow(256, len - 1);
      [n % 256] + ToLittle(n / 256, len - 1)
  }

  /** The sum of `count` bits from index `from` on, each shifted to its place. */
  function BitSum(bits: seq<int>, from: nat, count: nat): int
    requires from + count <= |bits|
    decreases count
  {
    if count == 0 then 0 else bits[from] + 2 * BitSum(bits, from + 1, count - 1)
  }

  ghost predicate Binary(bits: seq<int>) {
    forall i | 0 <= i < |bits| :: bits[i] == 0 || bits[i] == 1
  }

  lemma {:induction false} BitSumBound(bits: seq<int>, from: nat, count: nat)
    requires Binary(bits) && from + count <= |bits|
    ensures 0 <= BitSum(bits, from, count) < Pow(2, count)
    decreases count
  {
    if count > 0 {
      BitSumBound(bits, from + 1, count - 1);
    }
  }

  lemma {:induction false} BitSumSplit(bits: seq<int>, from: nat, m: nat, n: nat)
    requires from + m + n <= |bits|
    ensures BitSum(bits, from, m + n) == BitSum(bits, from, m) + Pow(2, m) * BitSum(bits, from + m, n)
    decreases m
  {
    if m > 0 {
      BitSumSplit(bits, from + 1, m - 1, n);
      assert 2 * (Pow(2, m - 1) * BitSum(bits, from + m, n)) == Pow(2, m) * BitSum(bits, from + m, n);
    }
  }

  function ByteAt(bits: seq<int>, i: nat): Byte
    requires Binary(bits) && 8 * i + 8 <= |bits|
  {
    BitSumBound(bits, 8 * i, 8);
    assert Pow(2, 8) == 256;
    BitSum(bits, 8 * i, 8)
  }

  /** The bytes of the bits from byte index `i` on. */
  function Pack(bits: seq<int>): (s: seq<Byte>)
    requires Binary(bits) && |bits| % 8 == 0
    ensures |s| == |bits| / 8
  {
    seq(|bits| / 8, i requires 0 <= i < |bits| / 8 => ByteAt(bits, i))
  }

  lemma {:induction false} PackValue(bits: seq<int>, i: nat)
    requires Binary(bits) && |bits| % 8 == 0 && 8 * i <= |bits|
    ensures FromLittle(Pack(bits)[i..]) == BitSum(bits, 8 * i, |bits| - 8 * i)
    decreases |bits| - 8 * i
  {
    hide FromLittle, BitSum;
    var s := Pack(bits);
    if 8 * i < |bits| {
      PackValue(bits, i + 1);
      assert s[i..] == [ByteAt(bits, i)] + s[i + 1..];
      FromLittleHead(ByteAt(bits, i), s[i + 1..]);
      SplitByte(bits, 8 * i, |bits| - 8 * (i + 1));
    } else {
      assert s[i..] == [];
      EmptyValues(bits);
    }
  }

  lemma FromLittleHead(b: Byte, rest: seq<Byte>)
    ensures FromLittle([b] + rest) == b + 256 * FromLittle(rest)
  {
    assert ([b] + rest)[1..] == rest;
  }

  lemma EmptyValues(bits: seq<int>)
    ensures FromLittle([]) == 0 == BitSum(bits, |bits|, 0)
  {
  }

  lemma SplitByte(bits: seq<int>, from: nat, n: nat)
    requires from + 8 + n <= |bits|
    ensures BitSum(bits, from, n + 8) == BitSum(bits, from, 8) + 256 * BitSum(bits, from + 8, n)
  {
    BitSumSplit(bits, from, 8, n);
    assert Pow(2, 8) == 256;
  }

  // ----- The bits of a number -----

  function BitOf(y: nat, i: nat): int {
    PowPositive(2, i);
    (y / Pow(2, i)) % 2
  }

  lemma {:induction false} PowPositive(b: int, e: nat)
    requires b > 0
    ensures Pow(b, e) > 0
  {
    if e > 0 {
      PowPositive(b, e - 1);
    }
  }

  lemma HalfOfQuotient(y: nat, a: int)
    requires a > 0
    ensures y / (2 * a) == (y / a) / 2
  {
    var k, r := y / a, y % a;
    var h, b := k / 2, k % 2;
    assert y == k * a + r && k == 2 * h + b;
    TwoParts(k, h, b, a);
    DivisionIsUnique(y, 2 * a, h, b * a + r);
  }

  lemma TwoParts(k: int, h: int, b: int, a: int)
    requires k == 2 * h + b && 0 <= b <= 1
    ensures k * a == h * (2 * a) + b * a && (a > 0 ==> 0 <= b * a <= a)
  {
    assert (2 * h + b) * a == (2 * h) * a + b * a;
    assert b == 0 || b == 1;
  }

  /** The bits of y from index `from` on sum up to what is left of y above them. */
  lemma {:induction false} BitsOfNumber(bits: seq<int>, y: nat, from: nat, count: nat)
    requires from + count <= |bits| && forall i | from <= i < from + count :: bits[i] == BitOf(y, i)
    requires 0 <= y < Pow(2, from + count)
    ensures Pow(2, from) > 0 && BitSum(bits, from, count) == y / Pow(2, from)
    decreases count
  {
    PowPositive(2, from);
    if count == 0 {
      DivisionIsUnique(y, Pow(2, from), 0, y);
    } else {
      BitsOfNumber(bits, y, from + 1, count - 1);
      HalfOfQuotient(y, Pow(2, from));
      assert bits[from] == (y / Pow(2, from)) % 2;
    }
  }

  // ----- The script's codec -----

  /** The 256 bits `_encodepoint` sends: 255 of y, then the parity of x. */
  function PointBits(c: Params, p: Point): (bits: seq<int>)
    requires c.q > 2
    ensures Binary(bits) && |bits| == 256
  {
    var zi := Inv(c, p.z);
    var x, y := (p.x * zi) % c.q, (p.y * zi) % c.q;
    seq(255, i requires 0 <= i < 255 => BitOf(y, i)) + [x % 2]
  }

  function EncodePoint(c: Params, p: Point): (s: seq<Byte>)
    requires c.q > 2
    ensures |s| == 32
  {
    Pack(PointBits(c, p))
  }

  /** 2^255, and that it is a power of two. */
  function TwoTo255(): (m: int)
    ensures m > 0
  {
    PowPositive(2, 255);
    Pow(2, 255)
  }

  lemma TwoTo255Is(n: nat)
    requires n == 255
    ensures TwoTo255() == Pow(2, n)
  {
  }

  function DecodePoint(c: Params, s: seq<Byte>): Point
    requires c.q > 2 && |s| == 32
  {
    var y := FromLittle(s) % TwoTo255();
    var x0 := XRecover(c, y);
    var x := if x0 % 2 != (s[31] / 128) % 2 then c.q - x0 else x0;
    Point(x, y, 1, (x * y) % c.q)
  }

  lemma BitsOfPoint(c: Params, p: Point)
    requires WellFormed(c) && p.z == 1
    ensures c.q > 2
    ensures var bits := PointBits(c, p);
            bits[255] == (p.x % c.q) % 2 && forall i | 0 <= i < 255 :: bits[i] == BitOf(p.y % c.q, i)
  {
    InverseOfOne(c);
    hide Inv, WellFormed, BitOf;
    assert p.x * 1 == p.x && p.y * 1 == p.y;
  }

  lemma InverseOfOne(c: Params)
    requires WellFormed(c)
    ensures c.q > 2 && Inv(c, 1) == 1
  {
    hide Prime, IsSquare;
    FieldSize(c);
    PowOne(c.q - 2);
    DivisionIsUnique(1, c.q, 0, 1);
  }

  lemma FieldSize(c: Params)
    requires WellFormed(c)
    ensures c.q > 2
  {
  }

  /** A number followed by one more bit. */
  lemma NumberThenBit(bits: seq<int>, y: nat, n: nat)
    requires |bits| == n + 1 && 0 <= y < Pow(2, n) && forall i | 0 <= i < n :: bits[i] == BitOf(y, i)
    ensures BitSum(bits, 0, |bits|) == y + Pow(2, n) * bits[n]
  {
    BitsOfNumber(bits, y, 0, n);
    BitSumSplit(bits, 0, n, 1);
    assert BitSum(bits, n, 1) == bits[n] + 2 * BitSum(bits, n + 1, 0);
    assert y / Pow(2, 0) == y;
  }

  /** The number an encoding stands for: y modulo q below, and the parity of x modulo q as bit 255. */
  lemma EncodedNumber(c: Params, p: Point)
    requires WellFormed(c) && c.q <= TwoTo255() && p.z == 1
    ensures c.q > 2
    ensures FromLittle(EncodePoint(c, p)) == p.y % c.q + TwoTo255() * ((p.x % c.q) % 2)
    ensures EncodePoint(c, p)[31] / 128 == (p.x % c.q) % 2
  {
    BitsOfPoint(c, p);
    var bits := PointBits(c, p);
    hide Pow, Pack, FromLittle, XRecover, PointBits, TwoTo255;
    TwoTo255Is(|bits| - 1);
    NumberThenBit(bits, p.y % c.q, |bits| - 1);
    PackValue(bits, 0);
    assert Pack(bits)[0..] == Pack(bits);
    TopBit(bits);
  }

  /** For a point of the curve: y below, the parity of x as bit 255, which is the top bit of the last byte. */
  lemma EncodingValue(c: Params, p: Point)
    requires WellFormed(c) && c.q <= TwoTo255() && Canonical(c, p)
    ensures FromLittle(EncodePoint(c, p)) == p.y + TwoTo255() * (p.x % 2)
    ensures EncodePoint(c, p)[31] / 128 == p.x % 2
  {
    EncodedNumber(c, p);
    hide EncodePoint, FromLittle, TwoTo255, WellFormed, OnCurve;
    DivisionIsUnique(p.x, c.q, 0, p.x);
    DivisionIsUnique(p.y, c.q, 0, p.y);
  }

  lemma TopBit(bits: seq<int>)
    requires Binary(bits) && |bits| == 256
    ensures Pack(bits)[31] / 128 == bits[255]
  {
    BitSumSplit(bits, 248, 7, 1);
    BitSumBound(bits, 248, 7);
    assert Pow(2, 7) == 128;
    assert BitSum(bits, 255, 1) == bits[255] + 2 * BitSum(bits, 256, 0);
    DivisionIsUnique(ByteAt(bits, 31), 128, bits[255], BitSum(bits, 248, 7));
  }

  /** Decompression undoes compression on every point of the curve. */
  lemma DecodeEncode(c: Params, p: Point)
    requires WellFormed(c) && c.q <= TwoTo255() && Canonical(c, p)
    ensures DecodePoint(c, EncodePoint(c, p)) == p
  {
    hide Pow, PointBits, XRecover, FromLittle, TwoTo255, OnCurve, EncodePoint, DecodePoint, Prime, IsSquare;
    var s, m := EncodePoint(c, p), TwoTo255();
    EncodingValue(c, p);
    LowPart(FromLittle(s), m, p.x % 2, p.y);
    XRecoverCorrect(c, p.x, p.y);
    RestoreX(c.q, p.x);
    DecodeFrom(c, s, p.x, p.y);
  }

  /** What is decoded from a given y, recovered x and parity. */
  lemma DecodeFrom(c: Params, s: seq<Byte>, x: int, y: int)
    requires c.q > 2 && |s| == 32 && FromLittle(s) % TwoTo255() == y && s[31] / 128 == x % 2
    requires var x0 := XRecover(c, y); (if x0 % 2 != x % 2 then c.q - x0 else x0) == x
    ensures DecodePoint(c, s) == Point(x, y, 1, (x * y) % c.q)
  {
    hide XRecover, FromLittle, TwoTo255;
    assert s[31] / 128 % 2 == s[31] / 128;
  }

  lemma LowPart(n: int, m: int, high: int, low: int)
    requires n == low + m * high && 0 <= low < m
    ensures n % m == low
  {
    assert m * high == high * m;
    DivisionIsUnique(n, m, high, low);
  }

  /** The stored parity bit picks x out of x and q - x. */
  lemma RestoreX(q: int, x: int)
    requires q % 8 == 5
    ensures var x0 := if x % 2 == 0 then x else q - x; (if x0 % 2 != x % 2 then q - x0 else x0) == x
  {
    assert q == 2 * (4 * (q / 8) + 2) + 1;
    DivisionIsUnique(q - x, 2, q / 2 - x / 2, 1 - x % 2);
  }

  // ----- Decoding arbitrary bytes -----

  /** Whatever y is, the recovered x is even and reduced. */
  lemma RecoveredRange(c: Params, y: int)
    requires c.q > 2 && c.q % 2 == 1
    ensures 0 <= XRecover(c, y) < c.q && XRecover(c, y) % 2 == 0
  {
    hide Inv, RootOfMinusOneIn, ExpMod, Corrected;
    var xx := (y * y - 1) * Inv(c, c.d * y * y + 1);
    var x0 := ExpMod(xx, (c.q + 3) / 8, c.q);
    PowerRange(xx, (c.q + 3) / 8, c.q);
    CorrectedRange(x0, xx, RootOfMinusOneIn(c), c.q);
    EvenOfBoth(Corrected(x0, xx, RootOfMinusOneIn(c), c.q), c.q);
  }

  lemma CorrectedRange(x0: int, xx: int, i: int, q: int)
    requires 0 <= x0 < q
    ensures 0 <= Corrected(x0, xx, i, q) < q
  {
  }

  lemma EvenOfBoth(x: int, q: int)
    requires 0 <= x < q && q % 2 == 1
    ensures var even := if x % 2 != 0 then q - x else x; 0 <= even < q && even % 2 == 0
  {
  }

  lemma PowerRange(b: int, e: nat, q: int)
    requires q > 0
    ensures 0 <= ExpMod(b, e, q) < q
  {
  }

  lemma Odd(c: Params)
    requires WellFormed(c)
    ensures c.q > 2 && c.q % 2 == 1
  {
    assert c.q == 2 * (4 * (c.q / 8) + 2) + 1;
  }

  /** What 32 bytes decode to, on the curve or not: y is their number without its top bit, x is the recovered
      number or its negative, of the parity that the top bit gives. */
  lemma DecodedShape(c: Params, s: seq<Byte>)
    requires WellFormed(c) && |s| == 32
    ensures c.q > 2
    ensures var p, x0 := DecodePoint(c, s), XRecover(c, FromLittle(s) % TwoTo255());
            && p.y == FromLittle(s) % TwoTo255() && p.z == 1 && p.t == (p.x * p.y) % c.q
            && (p.x == x0 || p.x == c.q - x0) && p.x % 2 == s[31] / 128
  {
    Odd(c);
    hide XRecover, WellFormed, FromLittle, TwoTo255;
    var y: int, top: int := FromLittle(s) % TwoTo255(), s[31] / 128;
    RecoveredRange(c, y);
    Flip(c.q, XRecover(c, y), top);
  }

  lemma Flip(q: int, x0: int, top: int)
    requires q % 2 == 1 && x0 % 2 == 0 && 0 <= top <= 1
    ensures top % 2 == top && (q - x0) % 2 == 1
  {
  }

  /** The top bit of 32 bytes is what their number holds from 2^255 on. */
  lemma TopOfNumber(s: seq<Byte>)
    requires |s| == 32
    ensures FromLittle(s) == FromLittle(s) % TwoTo255() + TwoTo255() * (s[31] / 128)
  {
    hide Pow, FromLittle;
    var last := |s| - 1;
    TwoTo255Is(8 * last + 7);
    LastByte(s);
    BoundedBytes(s[..last]);
    PowPow(2, 8, last);
    SevenEight();
    PowAdd(2, 8 * last, 7);
    var b: int, w := s[last], Pow(256, last);
    assert b == 128 * (b / 128) + b % 128;
    HighAndLow(FromLittle(s[..last]), w, b / 128, b % 128);
  }

  lemma SevenEight()
    ensures Pow(2, 7) == 128 && Pow(2, 8) == 256
  {
  }

  lemma HighAndLow(low: int, w: int, high: int, b: int)
    requires 0 <= low < w && 0 <= b < 128
    ensures low + w * (128 * high + b) == (low + w * b) + (w * 128) * high
    ensures (low + w * (128 * high + b)) % (w * 128) == low + w * b
  {
    assert w * (128 * high + b) == w * b + (w * 128) * high;
    assert w * b <= w * 127;
    assert (w * 128) * high == high * (w * 128);
    DivisionIsUnique(low + w * (128 * high + b), w * 128, high, low + w * b);
  }

  lemma {:induction false} LastByte(s: seq<Byte>)
    requires s != []
    ensures FromLittle(s) == FromLittle(s[..|s| - 1]) + Pow(256, |s| - 1) * s[|s| - 1]
  {
    hide FromLittle, Pow;
    var n := |s| - 1;
    LittleStep(s, 256);
    if n > 0 {
      LastByte(s[1..]);
      LittleStep(s[..n], 256);
      assert s[1..][..n - 1] == s[..n][1..] && s[..n][0] == s[0] && s[1..][n - 1] == s[n];
      OnePlace(s[0], 256, FromLittle(s[..n][1..]), n, s[n]);
    } else {
      OneByte(s, 256);
    }
  }

  lemma LittleStep(s: seq<Byte>, base: nat)
    requires s != [] && base == 256
    ensures FromLittle(s) == s[0] + base * FromLittle(s[1..])
  {
  }

  lemma OneByte(s: seq<Byte>, base: nat)
    requires |s| == 1
    ensures FromLittle(s) == s[0] && FromLittle(s[..0]) == 0 && Pow(base, 0) == 1
  {
  }

  lemma OnePlace(first: int, base: nat, rest: int, n: nat, last: int)
    requires n > 0
    ensures first + base * (rest + Pow(base, n - 1) * last) == (first + base * rest) + Pow(base, n) * last
  {
    assert Pow(base, n) == base * Pow(base, n - 1);
    var w := Pow(base, n - 1);
    assert base * (rest + w * last) == base * rest + base * (w * last);
    assert base * (w * last) == (base * w) * last;
  }

  lemma {:induction false} BoundedBytes(s: seq<Byte>)
    ensures FromLittle(s) < Pow(256, |s|)
  {
    if s != [] {
      BoundedBytes(s[1..]);
    }
  }

  lemma {:induction false} SameBytes(s: seq<Byte>, t: seq<Byte>)
    requires |s| == |t| && FromLittle(s) == FromLittle(t)
    ensures s == t
  {
    if s != [] {
      var u: int, v: int := s[0], t[0];
      DivisionIsUnique(FromLittle(s), 256, FromLittle(s[1..]), u);
      DivisionIsUnique(FromLittle(t), 256, FromLittle(t[1..]), v);
      SameBytes(s[1..], t[1..]);
      assert s == [s[0]] + s[1..] && t == [t[0]] + t[1..];
    }
  }

  /** Compression undoes decompression exactly for the bytes whose y is reduced, except that a zero x has no odd
      representative. */
  lemma EncodeDecode(c: Params, s: seq<Byte>)
    requires WellFormed(c) && c.q <= TwoTo255() && |s| == 32
    ensures c.q > 2
    ensures var y := FromLittle(s) % TwoTo255();
            EncodePoint(c, DecodePoint(c, s)) == s <==> y < c.q && !(XRecover(c, y) == 0 && s[31] / 128 == 1)
  {
    DecodedShape(c, s);
    Odd(c);
    hide WellFormed, XRecover, FromLittle, TwoTo255, EncodePoint, DecodePoint;
    var p, y, m := DecodePoint(c, s), FromLittle(s) % TwoTo255(), TwoTo255();
    var x0, top := XRecover(c, y), s[31] / 128;
    RecoveredRange(c, y);
    TopOfNumber(s);
    EncodedNumber(c, p);
    Parity(p.x, x0, c.q);
    var parity := (p.x % c.q) % 2;
    TwoDigits(y % c.q, parity, y, top, m, c.q);
    if EncodePoint(c, p) != s && FromLittle(EncodePoint(c, p)) == FromLittle(s) {
      SameBytes(EncodePoint(c, p), s);
    }
  }

  /** The parity of x survives its reduction unless x is q itself. */
  lemma Parity(x: int, x0: int, q: int)
    requires q > 2 && q % 2 == 1 && 0 <= x0 < q && x0 % 2 == 0 && (x == x0 || x == q - x0)
    ensures (x % q) % 2 == x % 2 <==> !(x0 == 0 && x % 2 == 1)
  {
    if x == q {
      DivisionIsUnique(q, q, 1, 0);
    } else {
      DivisionIsUnique(x, q, 0, x);
    }
  }

  lemma TwoDigits(low: int, high: int, y: int, top: int, m: int, q: int)
    requires 0 < q <= m && low == y % q && 0 <= y < m && 0 <= high <= 1 && 0 <= top <= 1
    ensures low + m * high == y + m * top <==> y < q && high == top
  {
    if high == top {
      if y < q {
        DivisionIsUnique(y, q, 0, y);
      }
    } else if high == 1 {
      assert m * 1 == m && m * 0 == 0;
    } else {
      assert m * 1 == m && m * 0 == 0;
    }
  }

  /** Decoding ends on the curve exactly when some point of the curve has that y. */
  lemma DecodedOnCurve(c: Params, s: seq<Byte>)
    requires WellFormed(c) && |s| == 32
    ensures c.q > 2
    ensures OnCurve(c, DecodePoint(c, s).x, DecodePoint(c, s).y)
            <==> exists x :: OnCurve(c, x, FromLittle(s) % TwoTo255())
  {
    DecodedShape(c, s);
    hide XRecover, FromLittle, TwoTo255, DecodePoint, WellFormed, OnCurve;
    var p, y := DecodePoint(c, s), FromLittle(s) % TwoTo255();
    if exists x :: OnCurve(c, x, y) {
      var x :| OnCurve(c, x, y);
      SomeRoot(c, x, y, p.x);
    }
  }

  lemma SomeRoot(c: Params, x: int, y: int, found: int)
    requires WellFormed(c) && c.q > 2 && OnCurve(c, x, y)
    requires found == XRecover(c, y) || found == c.q - XRecover(c, y)
    ensures OnCurve(c, found, y)
  {
    hide XRecover, WellFormed;
    var r := x % c.q;
    CongMod(x, c.q);
    SameCurveX(c, r, x, y);
    XRecoverCorrect(c, r, y);
    if found != r {
      CongFrom(found, -r, 1, c.q);
      NegatedX(c, found, r, y);
    }
  }

  lemma SameCurveX(c: Params, r: int, x: int, y: int)
    requires c.q > 0 && Cong(r, x, c.q) && OnCurve(c, x, y)
    ensures OnCurve(c, r, y)
  {
    CongProduct(r, x, r, x, c.q);
    SquaresSuffice(c, r, x, y);
  }

  lemma NegatedX(c: Params, found: int, r: int, y: int)
    requires c.q > 0 && Cong(found, -r, c.q) && OnCurve(c, r, y)
    ensures OnCurve(c, found, y)
  {
    CongProduct(found, -r, found, -r, c.q);
    assert -r * -r == r * r;
    SquaresSuffice(c, found, r, y);
  }

  lemma SquaresSuffice(c: Params, r: int, x: int, y: int)
    requires c.q > 0 && Cong(r * r, x * x, c.q) && OnCurve(c, x, y)
    ensures OnCurve(c, r, y)
  {
    CongDiff(y * y, y * y, r * r, x * x, c.q);
    CongScale(r * r, x * x, c.d * (y * y), c.q);
    assert (r * r) * (c.d * (y * y)) == c.d * (r * r) * (y * y);
    assert (x * x) * (c.d * (y * y)) == c.d * (x * x) * (y * y);
    CongSum(1, 1, c.d * (r * r) * (y * y), c.d * (x * x) * (y * y), c.q);
  }
}
