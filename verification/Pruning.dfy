/** The secret scalar as RFC 8032 section 5.1.5 prescribes it: the script's sum over the bits of the digest is
    the number held by the pruned first 32 bytes. */
module Pruning {
  import opened Common
  import opened Modular
  import opened PointCodec
  import opened Signature

  /** The lowest three bits of the first byte cleared, the highest bit of the last byte cleared, and its second
      highest bit set. */
  function Pruned(h: Digest): (s: seq<Byte>)
    ensures |s| == 32
  {
    [h[0] / 8 * 8] + h[1..31] + [64 + h[31] % 64]
  }

  lemma TakeFirst(h: seq<Byte>, from: nat, count: nat)
    requires 0 < count && from + count <= 8 * |h|
    ensures BitsFrom(h, from, count) == Pow(2, from) * Bit(h, from) + BitsFrom(h, from + 1, count - 1)
  {
    hide Bit, Pow;
  }

  lemma {:induction false} BitsSplit(h: seq<Byte>, from: nat, m: nat, n: nat)
    requires from + m + n <= 8 * |h|
    ensures BitsFrom(h, from, m + n) == BitsFrom(h, from, m) + BitsFrom(h, from + m, n)
    decreases m
  {
    hide Bit, Pow;
    if m > 0 {
      BitsSplit(h, from + 1, m - 1, n);
      TakeFirst(h, from, m);
      TakeFirst(h, from, m + n);
      hide BitsFrom;
    }
  }

  /** One more bit of a number below the ones taken. */
  lemma NextBit(b: int, p: int)
    requires p > 0 && b >= 0
    ensures b % (2 * p) == b % p + p * ((b / p) % 2)
  {
    var k, r := b / p, b % p;
    var h, bit := k / 2, k % 2;
    assert b == k * p + r && k == 2 * h + bit;
    TwoParts(k, h, bit, p);
    assert p * bit == bit * p;
    DivisionIsUnique(b, 2 * p, h, bit * p + r);
  }

  /** The bits of one byte, at the place of that byte. */
  lemma {:induction false} ByteBits(h: seq<Byte>, i: nat, j: nat)
    requires i < |h| && j <= 8
    ensures Pow(2, j) > 0 && BitsFrom(h, 8 * i, j) == Pow(256, i) * (h[i] % Pow(2, j))
    decreases j
  {
    PowPositive(2, j);
    hide BitsFrom, Pow;
    if j == 0 {
      NoBits(h, i);
    } else {
      ByteBits(h, i, j - 1);
      OneMoreBit(h, i, j);
    }
  }

  lemma OneMoreBit(h: seq<Byte>, i: nat, j: nat)
    requires i < |h| && 0 < j <= 8 && Pow(2, j - 1) > 0 && Pow(2, j) > 0
    requires BitsFrom(h, 8 * i, j - 1) == Pow(256, i) * (h[i] % Pow(2, j - 1))
    ensures BitsFrom(h, 8 * i, j) == Pow(256, i) * (h[i] % Pow(2, j))
  {
    hide BitsFrom, Pow, Bit;
    var b: int, from := h[i], 8 * i + (j - 1);
    BitsSplit(h, 8 * i, j - 1, 1);
    OneBit(h, from);
    BitIs(h, i, j - 1);
    PlaceOf(i, j - 1);
    NextBit(b, Pow(2, j - 1));
    Twice(j);
    Collect(BitsFrom(h, 8 * i, j - 1), BitsFrom(h, from, 1), Pow(256, i), b % Pow(2, j - 1), Pow(2, j - 1),
            Bit(h, from), b % Pow(2, j));
  }

  lemma NoBits(h: seq<Byte>, i: nat)
    requires i < |h|
    ensures BitsFrom(h, 8 * i, 0) == 0 == Pow(256, i) * (h[i] % Pow(2, 0))
  {
  }

  lemma Twice(j: nat)
    requires j > 0
    ensures Pow(2, j) == 2 * Pow(2, j - 1)
  {
  }

  lemma BitIs(h: seq<Byte>, i: nat, j: nat)
    requires i < |h| && j < 8
    ensures Pow(2, j) > 0 && Bit(h, 8 * i + j) == (h[i] / Pow(2, j)) % 2
  {
    PowPositive(2, j);
    DivisionIsUnique(8 * i + j, 8, i, j);
  }

  lemma Collect(before: int, one: int, w: int, low: int, p: int, bit: int, now: int)
    requires before == w * low && one == (w * p) * bit && now == low + p * bit
    ensures before + one == w * now
  {
    assert w * (low + p * bit) == w * low + w * (p * bit);
    assert (w * p) * bit == w * (p * bit);
  }

  lemma OneBit(h: seq<Byte>, from: nat)
    requires from < 8 * |h|
    ensures BitsFrom(h, from, 1) == Pow(2, from) * Bit(h, from)
  {
    assert BitsFrom(h, from + 1, 0) == 0;
  }

  lemma PlaceOf(i: nat, j: nat)
    ensures Pow(2, 8 * i + j) == Pow(256, i) * Pow(2, j)
  {
    PowAdd(2, 8 * i, j);
    PowPow(2, 8, i);
    TwoToEight(8);
  }

  lemma TwoToEight(n: nat)
    requires n == 8
    ensures Pow(2, n) == 256
  {
  }

  lemma {:induction false} LittleSnoc(s: seq<Byte>, b: Byte)
    ensures FromLittle(s + [b]) == FromLittle(s) + Pow(256, |s|) * b
  {
    if s == [] {
      assert [] + [b] == [b] && [b][1..] == [];
    } else {
      LittleSnoc(s[1..], b);
      assert (s + [b])[1..] == s[1..] + [b] && (s + [b])[0] == s[0];
      hide FromLittle;
      assert 256 * (Pow(256, |s| - 1) * b) == (256 * Pow(256, |s| - 1)) * b;
      LittleHead(s);
      LittleHead(s + [b]);
    }
  }

  lemma LittleHead(s: seq<Byte>)
    requires s != []
    ensures FromLittle(s) == s[0] + 256 * FromLittle(s[1..])
  {
  }

  lemma {:induction false} BytesBits(h: seq<Byte>, n: nat)
    requires n <= |h|
    ensures BitsFrom(h, 0, 8 * n) == FromLittle(h[..n])
  {
    hide BitsFrom, FromLittle, Pow;
    if n == 0 {
      NoBytes(h);
    } else {
      BytesBits(h, n - 1);
      BitsSplit(h, 0, 8 * (n - 1), 8);
      WholeByte(h, n - 1, 8);
      LittleSnoc(h[..n - 1], h[n - 1]);
      assert h[..n] == h[..n - 1] + [h[n - 1]];
      assert 8 * (n - 1) + 8 == 8 * n;
    }
  }

  lemma NoBytes(h: seq<Byte>)
    ensures BitsFrom(h, 0, 0) == FromLittle(h[..0])
  {
    assert h[..0] == [];
  }

  lemma WholeByte(h: seq<Byte>, i: nat, count: nat)
    requires i < |h| && count == 8
    ensures BitsFrom(h, 8 * i, count) == Pow(256, i) * h[i]
  {
    hide BitsFrom, Pow;
    ByteBits(h, i, count);
    TwoToEight(count);
    var b: int := h[i];
    assert b % 256 == b;
  }

  /** The bits 3 to 253, from the byte sums on both sides of them. */
  lemma MiddleBits(h: Digest, last: nat)
    requires last == 31
    ensures BitsFrom(h, 3, 251) == FromLittle(h[..last]) - h[0] % 8 + Pow(256, last) * (h[last] % 64)
  {
    hide BitsFrom, FromLittle, Pow;
    var lower, middle, whole := 3, 251, 8 * last;
    BytesBits(h, last);
    BitsSplit(h, 0, lower, middle);
    BitsSplit(h, 0, whole, 6);
    ByteBits(h, 0, 3);
    ByteBits(h, last, 6);
    SmallPowers();
  }

  lemma SmallPowers()
    ensures Pow(2, 3) == 8 && Pow(2, 6) == 64 && Pow(256, 0) == 1
  {
  }

  lemma PrunedValue(h: Digest, last: nat)
    requires last == 31
    ensures FromLittle(Pruned(h)) == FromLittle(h[..last]) - h[0] % 8 + Pow(256, last) * (64 + h[last] % 64)
  {
    var front := [h[0] / 8 * 8] + h[1..last];
    LittleSnoc(front, 64 + h[last] % 64);
    LittleHead(front);
    LittleHead(h[..last]);
    hide FromLittle, Pow;
    assert front[1..] == h[1..last] == h[..last][1..];
    assert h[0] == h[0] / 8 * 8 + h[0] % 8;
    assert Pruned(h) == front + [64 + h[last] % 64];
  }

  lemma TopBit254(n: nat, last: nat)
    requires n == 254 && last == 31
    ensures Pow(2, n) == Pow(256, last) * 64
  {
    PlaceOf(last, n - 8 * last);
    SmallPowers();
  }

  /** `_clamp`: the script's sum is the pruned bytes read as a number, for every digest. */
  lemma ClampIsPruned(h: Digest)
    ensures Clamp(h) == FromLittle(Pruned(h))
  {
    hide FromLittle, Pow, BitsFrom;
    MiddleBits(h, 31);
    PrunedValue(h, 31);
    TopBit254(254, 31);
    var w := Pow(256, 31);
    assert w * (64 + h[31] % 64) == w * 64 + w * (h[31] % 64);
  }
}
