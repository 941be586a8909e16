/** What signing produces and exactly what verification accepts, in terms of repeated addition (RFC 8032 sections
    5.1.6 and 5.1.7). */
module Exactness {
  import opened Common
  import opened Modular
  import opened Curve
  import opened EdwardsLaw
  import opened Scalar
  import opened PointCodec
  import opened Signature
  import opened Pruning

  /** The base point has no smaller order. */
  ghost predicate LeastOrder(c: Params)
    requires c.q > 2
  {
    forall i | 0 < i < c.order :: Times(c, i, Base(c)) != IDENT
  }

  /** A challenge or a nonce before it is reduced: a digest as a number. */
  function DigestValue(sha: Hash, m: seq<Byte>): nat {
    FromLittle(sha(m))
  }

  // ----- Multiples of the base point -----

  /** A multiple that is the neutral element, found below the order, contradicts that order. */
  lemma SmallDifference(c: Params, e: nat, f: nat)
    requires Suitable(c) && e < f < c.order && Times(c, e, Base(c)) == Times(c, f, Base(c))
    ensures Times(c, f - e, Base(c)) == IDENT
  {
    hide Add, Canonical, Associative, WellFormed, Times, Base, Pow, TwoTo255;
    var b, back := Base(c), c.order - e;
    TimesSum(c, e, back, b);
    TimesSum(c, f, back, b);
    assert f + back == c.order + (f - e) && e + back == c.order;
    TimesSum(c, c.order, f - e, b);
    TimesCanonical(c, f - e, b);
    AddIdentity(c, Times(c, f - e, b));
  }

  lemma MultiplesDiffer(c: Params, e: nat, f: nat)
    requires Suitable(c) && LeastOrder(c) && e < c.order && f < c.order
    ensures Times(c, e, Base(c)) == Times(c, f, Base(c)) <==> e == f
  {
    hide Add, Canonical, Associative, WellFormed, Times, Base, Pow, TwoTo255;
    if Times(c, e, Base(c)) == Times(c, f, Base(c)) {
      if e < f {
        SmallDifference(c, e, f);
      } else if f < e {
        SmallDifference(c, f, e);
      }
    }
  }

  /** A prime order is the least one, unless the base point is the neutral element. */
  lemma PrimeOrderIsLeast(c: Params)
    requires Suitable(c) && Prime(c.order) && Base(c) != IDENT
    ensures LeastOrder(c)
  {
    forall i | 0 < i < c.order ensures Times(c, i, Base(c)) != IDENT {
      if Times(c, i, Base(c)) == IDENT {
        LeastKilling(c, i);
      }
    }
  }

  lemma LeastKilling(c: Params, i: nat)
    requires Suitable(c) && Prime(c.order) && Base(c) != IDENT && 0 < i < c.order
    ensures Times(c, i, Base(c)) != IDENT
    decreases i
  {
    hide Add, Canonical, Associative, WellFormed, Base, Pow, TwoTo255, Times;
    var b := Base(c);
    Once(c, b);
    if i > 1 && Times(c, i, b) == IDENT {
      TimesModulo(c, c.order, b, i);
      LeastKilling(c, c.order % i);
    }
  }

  lemma Once(c: Params, p: Point)
    requires WellFormed(c) && Canonical(c, p)
    ensures c.q > 2 && Times(c, 1, p) == p
  {
    hide Add, Canonical;
    AddIdentity(c, p);
    assert Times(c, 1, p) == Add(c, Times(c, 0, p), p);
  }

  // ----- What signing produces -----

  /** The public key is the encoding of the pruned multiple of the base point; a seed of another length has none. */
  lemma KeyIsMultiple(c: Params, sha: Hash, seed: seq<Byte>)
    requires Suitable(c)
    ensures |seed| != 32 ==> PublicKey(c, sha, seed) == None
    ensures |seed| == 32 ==>
              PublicKey(c, sha, seed) == Some(EncodePoint(c, Times(c, FromLittle(Pruned(sha(seed))), Base(c))))
  {
    hide Add, Canonical, Associative, WellFormed, Times, Base, Pow, TwoTo255, EncodePoint, Clamp, Pruned, FromLittle;
    ClampIsPruned(sha(seed));
    DoubleAndAddIsTimes(c, Base(c), Clamp(sha(seed)));
  }

  lemma ReduceProduct(r: nat, k: nat, a: nat, m: nat)
    requires m > 0
    ensures k * a >= 0 && (k % m) * a >= 0 && (r % m + (k % m) * a) % m == (r + k * a) % m
  {
    CongMod(r, m);
    CongMod(k, m);
    CongScale(k % m, k, a, m);
    CongSum(r % m, r, (k % m) * a, k * a, m);
  }

  /** `sign`: the first half encodes the multiple of the base point by the digest of the second half of the
      hashed seed and the message, and the second half is the number that RFC 8032 section 5.1.6 prescribes. */
  lemma SignatureHalves(c: Params, sha: Hash, msg: seq<Byte>, seed: seq<Byte>, pub: seq<Byte>)
    requires Suitable(c)
    ensures var sig, r := Sign(c, sha, msg, seed, pub), DigestValue(sha, sha(seed)[32..64] + msg);
            var k, a := DigestValue(sha, sig[..32] + pub + msg), FromLittle(Pruned(sha(seed)));
            && sig[..32] == EncodePoint(c, Times(c, r, Base(c)))
            && k * a >= 0 && FromLittle(sig[32..]) == (r + k * a) % c.order
  {
    hide Add, Canonical, Associative, WellFormed, Times, Base, Pow, TwoTo255, EncodePoint, Clamp, Pruned, FromLittle;
    hide ToLittle, DoubleAndAdd;
    var r, a := DigestValue(sha, sha(seed)[32..64] + msg), Clamp(sha(seed));
    ClampIsPruned(sha(seed));
    DoubleAndAddIsTimes(c, Base(c), r % c.order);
    TimesModulo(c, r, Base(c), c.order);
    var rEnc := EncodePoint(c, Times(c, r, Base(c)));
    var k := DigestValue(sha, rEnc + pub + msg);
    ReduceProduct(r, k, a, c.order);
    Signature.Reduced(r + k * a, c.order);
    SplitHalves(rEnc, ToLittle((r + k * a) % c.order, 32));
  }

  // ----- What verification accepts -----

  /** Wrong lengths and a second half that is not reduced are refused, whatever the rest is. */
  lemma Refused(c: Params, sha: Hash, msg: seq<Byte>, sig: seq<Byte>, pub: seq<Byte>)
    requires c.q > 2 && c.order > 0
    requires |sig| != 64 || |pub| != 32 || FromLittle(sig[32..]) >= c.order
    ensures !Verify(c, sha, msg, sig, pub)
  {
  }

  /** For a key and a first half that encode points of the curve, of whatever order: accepted exactly when the
      second half is reduced and satisfies the group equation. */
  lemma AcceptedOnCurve(c: Params, sha: Hash, msg: seq<Byte>, key: Point, first: Point, s: nat)
    requires Suitable(c) && Canonical(c, key) && Canonical(c, first) && s < Pow(256, 32)
    ensures var pub, rEnc := EncodePoint(c, key), EncodePoint(c, first);
            var k := DigestValue(sha, rEnc + pub + msg) % c.order;
            Verify(c, sha, msg, rEnc + ToLittle(s, 32), pub)
            <==> s < c.order && Times(c, s, Base(c)) == Add(c, first, Times(c, k, key))
  {
    hide Add, Canonical, Associative, WellFormed, Times, Base, Pow, TwoTo255, EncodePoint, DecodePoint, FromLittle;
    hide ToLittle, DoubleAndAdd;
    var pub, rEnc := EncodePoint(c, key), EncodePoint(c, first);
    SplitHalves(rEnc, ToLittle(s, 32));
    DecodeEncode(c, key);
    DecodeEncode(c, first);
    DoubleAndAddIsTimes(c, Base(c), s);
    DoubleAndAddIsTimes(c, key, DigestValue(sha, rEnc + pub + msg) % c.order);
  }

  /** Sums of multiples of the base point, with the second factor reduced or not. */
  lemma CombinedMultiple(c: Params, r: nat, k: nat, a: nat)
    requires Suitable(c)
    ensures k * a >= 0
    ensures Add(c, Times(c, r, Base(c)), Times(c, k % c.order, Times(c, a, Base(c))))
            == Times(c, (r + k * a) % c.order, Base(c))
  {
    hide Add, Canonical, Associative, WellFormed, Times, Base, Pow, TwoTo255;
    var b, m := Base(c), k % c.order;
    TimesProduct(c, m, a, b);
    TimesSum(c, r, m * a, b);
    TimesModulo(c, r + m * a, b, c.order);
    ReduceProduct(r, k, a, c.order);
    assert r + m * a >= 0;
    SameReduced(r, m * a, k * a, c.order);
  }

  lemma SameReduced(r: nat, x: nat, y: nat, m: nat)
    requires m > 0 && (r % m + x) % m == (r + y) % m
    ensures (r + x) % m == (r + y) % m
  {
    CongMod(r, m);
    CongSum(r % m, r, x, x, m);
  }

  /** `verify`, exactly: with the key of aB and the encoding of rB, the one number accepted is r + k a modulo
      the order. */
  lemma AcceptedExactly(c: Params, sha: Hash, msg: seq<Byte>, a: nat, r: nat, s: nat)
    requires Suitable(c) && LeastOrder(c) && s < Pow(256, 32)
    ensures var pub, rEnc := EncodePoint(c, Times(c, a, Base(c))), EncodePoint(c, Times(c, r, Base(c)));
            var k := DigestValue(sha, rEnc + pub + msg);
            && k * a >= 0
            && (Verify(c, sha, msg, rEnc + ToLittle(s, 32), pub) <==> s == (r + k * a) % c.order)
  {
    hide Add, Canonical, Associative, WellFormed, Times, Base, Pow, TwoTo255, EncodePoint, FromLittle, Verify;
    hide ToLittle, LeastOrder;
    var key, first := Times(c, a, Base(c)), Times(c, r, Base(c));
    var k := DigestValue(sha, EncodePoint(c, first) + EncodePoint(c, key) + msg);
    TimesCanonical(c, a, Base(c));
    TimesCanonical(c, r, Base(c));
    AcceptedOnCurve(c, sha, msg, key, first, s);
    CombinedMultiple(c, r, k, a);
    Signature.Reduced(r + k * a, c.order);
    if s < c.order {
      MultiplesDiffer(c, s, (r + k * a) % c.order);
    }
  }

  /** Among all second halves s, `verify` accepts for the key of this seed and the encoding of rB exactly the number
      of RFC 8032 section 5.1.6. */
  ghost predicate AcceptsOneNumber(c: Params, sha: Hash, msg: seq<Byte>, seed: seq<Byte>, r: nat)
    requires c.q > 2 && c.order > 0 && |seed| == 32
  {
    var a, pub := FromLittle(Pruned(sha(seed))), PublicKey(c, sha, seed).value;
    var rEnc := EncodePoint(c, Times(c, r, Base(c)));
    var k := DigestValue(sha, rEnc + pub + msg);
    && k * a >= 0
    && forall s: nat | s < Pow(256, 32) ::
         Verify(c, sha, msg, rEnc + ToLittle(s, 32), pub) <==> s == (r + k * a) % c.order
  }

  lemma AcceptedForKey(c: Params, sha: Hash, msg: seq<Byte>, seed: seq<Byte>, r: nat)
    requires Suitable(c) && LeastOrder(c) && |seed| == 32
    ensures AcceptsOneNumber(c, sha, msg, seed, r)
  {
    hide Add, Canonical, Associative, WellFormed, Times, Base, Pow, TwoTo255, EncodePoint, FromLittle, Verify;
    hide ToLittle, LeastOrder, PublicKey, Pruned;
    KeyIsMultiple(c, sha, seed);
    var a := FromLittle(Pruned(sha(seed)));
    AcceptedExactly(c, sha, msg, a, r, 0);
    forall s: nat | s < Pow(256, 32) {
      AcceptedExactly(c, sha, msg, a, r, s);
    }
  }

  lemma AcceptedForPrimeOrder(c: Params, sha: Hash, msg: seq<Byte>, seed: seq<Byte>, r: nat)
    requires Suitable(c) && Prime(c.order) && Base(c) != IDENT && |seed| == 32
    ensures AcceptsOneNumber(c, sha, msg, seed, r)
  {
    hide AcceptsOneNumber, Prime, Times, Base;
    PrimeOrderIsLeast(c);
    AcceptedForKey(c, sha, msg, seed, r);
  }

  /** A signature made for one message is accepted for another exactly when their challenges come to the same
      multiple of the secret scalar. */
  lemma OtherMessage(c: Params, sha: Hash, msg: seq<Byte>, other: seq<Byte>, seed: seq<Byte>)
    requires Suitable(c) && LeastOrder(c) && |seed| == 32
    ensures var pub := PublicKey(c, sha, seed).value;
            var sig, a := Sign(c, sha, msg, seed, pub), FromLittle(Pruned(sha(seed)));
            var k, k' := DigestValue(sha, sig[..32] + pub + msg), DigestValue(sha, sig[..32] + pub + other);
            && k * a >= 0 && k' * a >= 0
            && (Verify(c, sha, other, sig, pub) <==> (k * a) % c.order == (k' * a) % c.order)
  {
    hide Add, Canonical, Associative, WellFormed, Times, Base, Pow, TwoTo255, EncodePoint, FromLittle, Verify, Sign;
    hide ToLittle, LeastOrder, PublicKey, Pruned;
    KeyIsMultiple(c, sha, seed);
    var pub, a := PublicKey(c, sha, seed).value, FromLittle(Pruned(sha(seed)));
    SignatureHalves(c, sha, msg, seed, pub);
    var sig, r := Sign(c, sha, msg, seed, pub), DigestValue(sha, sha(seed)[32..64] + msg);
    var k, k' := DigestValue(sha, sig[..32] + pub + msg), DigestValue(sha, sig[..32] + pub + other);
    var s := FromLittle(sig[32..]);
    SecondHalf(sig, s);
    AcceptedExactly(c, sha, other, a, r, s);
    CancelTerm(r, k * a, k' * a, c.order);
  }

  lemma CancelTerm(r: nat, x: nat, y: nat, m: nat)
    requires m > 0
    ensures (r + x) % m == (r + y) % m <==> x % m == y % m
  {
    if Cong(x, y, m) {
      CongSum(r, r, x, y, m);
    }
    if Cong(r + x, r + y, m) {
      CongDiff(r + x, r + y, r, r, m);
    }
  }

  /** A signature is its first half followed by its second half's number. */
  lemma SecondHalf(sig: seq<Byte>, s: nat)
    requires |sig| == 64 && s == FromLittle(sig[32..])
    ensures s < Pow(256, 32) && sig == sig[..32] + ToLittle(s, 32)
  {
    hide ToLittle, FromLittle, Pow;
    BoundedBytes(sig[32..]);
    SameBytes(sig[32..], ToLittle(s, 32));
    assert sig == sig[..32] + sig[32..];
  }
}
