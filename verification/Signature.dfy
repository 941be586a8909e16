/** Ed25519 signatures as the release script makes and checks them (RFC 8032 sections 5.1.5 to 5.1.7).
    SHA-512 is a parameter; of the curve group only associativity and the order of the base point are
    hypotheses. */
module Signature {
  import opened Common
  import opened Modular
  import opened Curve
  import opened EdwardsLaw
  import opened Scalar
  import opened PointCodec

  function Zeros(n: nat): (s: seq<Byte>)
    ensures |s| == n
  {
    if n == 0 then [] else [0] + Zeros(n - 1)
  }

  type Digest = s: seq<Byte> | |s| == 64 witness Zeros(64)
  type Hash = seq<Byte> -> Digest

  function Base(c: Params): Point
    requires c.q > 2
  {
    Point(c.baseX % c.q, c.baseY % c.q, 1, (c.baseX * c.baseY) % c.q)
  }

  /** `_scalarmult`. */
  function Multiply(c: Params, p: Point, e: nat): Point
    requires c.q > 2
  {
    DoubleAndAdd(c, IDENT, p, e)
  }

  // ----- The secret scalar -----

  function Bit(h: seq<Byte>, i: nat): (b: int)
    requires i / 8 < |h|
    ensures b == 0 || b == 1
  {
    PowPositive(2, i % 8);
    (h[i / 8] / Pow(2, i % 8)) % 2
  }

  /** The sum of `count` bits of h from index `from` on, each at its place. */
  function BitsFrom(h: seq<Byte>, from: nat, count: nat): int
    requires from + count <= 8 * |h|
    decreases count
  {
    if count == 0 then 0 else Pow(2, from) * Bit(h, from) + BitsFrom(h, from + 1, count - 1)
  }

  lemma {:induction false} BitsFromShape(h: seq<Byte>, from: nat, count: nat) returns (k: nat)
    requires from + count <= 8 * |h|
    ensures BitsFrom(h, from, count) == Pow(2, from) * k && k < Pow(2, count)
    decreases count
  {
    if count == 0 {
      k := 0;
    } else {
      var j := BitsFromShape(h, from + 1, count - 1);
      k := Bit(h, from) + 2 * j;
      PlaceBit(Pow(2, from), Bit(h, from), j);
    }
  }

  lemma PlaceBit(p: int, b: int, j: int)
    ensures p * (b + 2 * j) == p * b + (2 * p) * j
  {
  }

  /** Bits 3 to 253 of the digest, with bit 254 set. */
  function Clamp(h: Digest): (a: nat) {
    var middle := BitsFrom(h, 3, 251);
    ClampShape(h, 3, 251);
    Pow(2, 254) + middle
  }

  lemma EightTimes(b: int, p: int, k: int, m: int)
    requires b == p * k && p == 8 && 0 <= k < m
    ensures b % 8 == 0 && 0 <= b < 8 * m
  {
    DivisionIsUnique(b, 8, k, 0);
  }

  lemma TwoCubed(n: nat)
    requires n == 3
    ensures Pow(2, n) == 8
  {
    assert Pow(2, n) == 2 * Pow(2, n - 1) && Pow(2, n - 1) == 2 * Pow(2, n - 2) && Pow(2, n - 2) == 2 * Pow(2, n - 3);
  }

  lemma ClampShape(h: Digest, from: nat, count: nat)
    requires from == 3 && count == 251
    ensures BitsFrom(h, from, count) % 8 == 0
    ensures 0 <= BitsFrom(h, from, count) < Pow(2, from + count) == 8 * Pow(2, count)
  {
    var k := BitsFromShape(h, from, count);
    PowAdd(2, from, count);
    TwoCubed(from);
    hide Pow, BitsFrom;
    EightTimes(BitsFrom(h, from, count), Pow(2, from), k, Pow(2, count));
    assert Pow(2, from + count) == Pow(2, from) * Pow(2, count) == 8 * Pow(2, count);
  }

  /** The clamped scalar is a multiple of the cofactor 8 with its top bit at 254 (RFC 8032 section 5.1.5). */
  lemma ClampedScalar(h: Digest)
    ensures Clamp(h) % 8 == 0 && Pow(2, 254) <= Clamp(h) < 2 * Pow(2, 254)
  {
    var count := 251;
    ClampShape(h, 3, count);
    DivisionIsUnique(Clamp(h), 8, Pow(2, count) + BitsFrom(h, 3, count) / 8, 0);
  }

  // ----- Keys, signing, verification -----

  function PublicKey(c: Params, sha: Hash, seed: seq<Byte>): Option<seq<Byte>>
    requires c.q > 2
  {
    if |seed| != 32 then None
    else Some(EncodePoint(c, Multiply(c, Base(c), Clamp(sha(seed)))))
  }

  function Challenge(c: Params, sha: Hash, r: seq<Byte>, pub: seq<Byte>, msg: seq<Byte>): nat
    requires c.order > 0
  {
    FromLittle(sha(r + pub + msg)) % c.order
  }

  function Nonce(c: Params, sha: Hash, msg: seq<Byte>, seed: seq<Byte>): nat
    requires c.order > 0
  {
    FromLittle(sha(sha(seed)[32..64] + msg)) % c.order
  }

  function Sign(c: Params, sha: Hash, msg: seq<Byte>, seed: seq<Byte>, pub: seq<Byte>): (sig: seq<Byte>)
    requires c.q > 2 && 0 < c.order <= Pow(256, 32)
    ensures |sig| == 64
  {
    var a := Clamp(sha(seed));
    var r := Nonce(c, sha, msg, seed);
    var rEnc := EncodePoint(c, Multiply(c, Base(c), r));
    var s := (r + Challenge(c, sha, rEnc, pub, msg) * a) % c.order;
    rEnc + ToLittle(s, 32)
  }

  predicate Verify(c: Params, sha: Hash, msg: seq<Byte>, sig: seq<Byte>, pub: seq<Byte>)
    requires c.q > 2 && c.order > 0
  {
    if |sig| != 64 || |pub| != 32 then false
    else
      var rEnc, s := sig[..32], FromLittle(sig[32..]);
      if s >= c.order then false
      else
        var a, r := DecodePoint(c, pub), DecodePoint(c, rEnc);
        Multiply(c, Base(c), s) == Add(c, r, Multiply(c, a, Challenge(c, sha, rEnc, pub, msg)))
  }

  /** The group facts the signature scheme rests on. */
  ghost predicate Suitable(c: Params) {
    && Group(c) && c.q <= TwoTo255() && 0 < c.order <= Pow(256, 32)
    && Canonical(c, Base(c)) && Times(c, c.order, Base(c)) == IDENT
  }

  /** s = r + k a gives s B = r B + k (a B). */
  lemma SignatureEquation(c: Params, a: nat, r: nat, k: nat)
    requires Suitable(c)
    ensures r + k * a >= 0
    ensures Multiply(c, Base(c), (r + k * a) % c.order)
            == Add(c, Times(c, r, Base(c)), Multiply(c, Times(c, a, Base(c)), k))
  {
    hide Add, Canonical, Associative, WellFormed, Times, Base, Pow, TwoTo255, DoubleAndAdd;
    var b := Base(c);
    TimesProduct(c, k, a, b);
    TimesSum(c, r, k * a, b);
    TimesModulo(c, r + k * a, b, c.order);
    TimesCanonical(c, a, b);
    DoubleAndAddIsTimes(c, b, (r + k * a) % c.order);
    DoubleAndAddIsTimes(c, Times(c, a, b), k);
  }

  /** Every signature is accepted: for every seed and message, `verify` answers true on what `sign`
      returns under the key of the same seed. */
  lemma SignedIsAccepted(c: Params, sha: Hash, msg: seq<Byte>, seed: seq<Byte>)
    requires Suitable(c) && |seed| == 32
    ensures var pub := PublicKey(c, sha, seed).value; Verify(c, sha, msg, Sign(c, sha, msg, seed, pub), pub)
  {
    hide Add, Times, Base, Clamp, Nonce, Challenge, EncodePoint, DecodePoint, Pow, Multiply, ToLittle, FromLittle;
    hide TwoTo255, Canonical, Associative, WellFormed;
    var b, a, r := Base(c), Clamp(sha(seed)), Nonce(c, sha, msg, seed);
    var pub := PublicKey(c, sha, seed).value;
    KeyDecodes(c, a);
    KeyDecodes(c, r);
    var rEnc := EncodePoint(c, Multiply(c, b, r));
    var k := Challenge(c, sha, rEnc, pub, msg);
    SignatureEquation(c, a, r, k);
    Reduced(r + k * a, c.order);
    SplitHalves(rEnc, ToLittle((r + k * a) % c.order, 32));
  }

  lemma Reduced(n: nat, order: nat)
    requires order > 0
    ensures 0 <= n % order < order
  {
  }

  /** The encoding of a multiple of the base point decodes to that multiple. */
  lemma KeyDecodes(c: Params, a: nat)
    requires Suitable(c)
    ensures DecodePoint(c, EncodePoint(c, Multiply(c, Base(c), a))) == Times(c, a, Base(c))
  {
    hide Add, Canonical, Associative, WellFormed, Times, Base, EncodePoint, DecodePoint;
    DoubleAndAddIsTimes(c, Base(c), a);
    TimesCanonical(c, a, Base(c));
    DecodeEncode(c, Times(c, a, Base(c)));
  }

  lemma SplitHalves(r: seq<Byte>, s: seq<Byte>)
    requires |r| == 32 && |s| == 32
    ensures (r + s)[..32] == r && (r + s)[32..] == s
  {
  }
}
