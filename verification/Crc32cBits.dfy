// CRC32C as a bit-serial shift register, and what the register computes: the remainder of the
// message polynomial by long division, as section 12.1 of RFC 3720 prescribes it.
module Crc32cBits {
  import opened Crc32cTables

  // ----- Bits of a word, counted from the least significant one

  predicate Bit(l: bv32, k: nat) {
    if k == 0 then Odd(l) else Bit(Half(l), k - 1)
  }

  function Halves(n: nat, l: bv32): bv32 {
    if n == 0 then l else Halves(n - 1, Half(l))
  }

  lemma {:induction false} XorBit(a: bv32, b: bv32, k: nat)
    ensures Bit(Xor(a, b), k) <==> Bit(a, k) != Bit(b, k)
    decreases k
  {
    hide Xor, Half, Odd;
    if k == 0 {
      XorOdd(a, b);
    } else {
      XorHalf(a, b);
      XorBit(Half(a), Half(b), k - 1);
    }
  }

  lemma {:induction false} HalvesBit(n: nat, l: bv32, k: nat)
    ensures Bit(Halves(n, l), k) == Bit(l, n + k)
  {
    hide Half, Odd;
    if n != 0 {
      HalvesBit(n - 1, Half(l), k);
    }
  }

  lemma {:induction false} HalvesCompose(m: nat, n: nat, l: bv32)
    ensures Halves(m + n, l) == Halves(n, Halves(m, l))
  {
    hide Half;
    if m != 0 {
      HalvesCompose(m - 1, n, Half(l));
    }
  }

  lemma HalveTwice(l: bv32)
    ensures Half(Half(l)) == l >> 2 && Half(Half(Half(Half(l)))) == l >> 4
  {
  }

  lemma EightHalves(l: bv32)
    ensures Halves(8, l) == l >> 8
  {
    hide Half;
    HalveTwice(l);
    HalveTwice(l >> 4);
    var l4 := l >> 4;
    assert Halves(4, l4) == Halves(3, Half(l4)) == Halves(2, Half(Half(l4)))
        == Halves(1, Half(Half(Half(l4)))) == Halves(0, l >> 8);
    assert Halves(8, l) == Halves(7, Half(l)) == Halves(6, Half(Half(l))) == Halves(5, Half(Half(Half(l)))) == Halves(4, l4);
  }

  lemma ThirtyTwoHalves(l: bv32)
    ensures Halves(32, l) == 0
  {
    hide Halves;
    HalvesCompose(8, 24, l);
    HalvesCompose(8, 16, l >> 8);
    HalvesCompose(8, 8, l >> 8 >> 8);
    EightHalves(l);
    EightHalves(l >> 8);
    EightHalves(l >> 8 >> 8);
    EightHalves(l >> 8 >> 8 >> 8);
  }

  lemma HalfOfZero()
    ensures Half(0) == 0 && !Odd(0)
  {
  }

  lemma HalfIsZero(l: bv32)
    requires Half(l) == 0 && !Odd(l)
    ensures l == 0
  {
  }

  lemma {:induction false} ZeroBit(k: nat)
    ensures !Bit(0, k)
  {
    HalfOfZero();
    if k != 0 {
      ZeroBit(k - 1);
    }
  }

  /** A word has 32 bits. */
  lemma NoBitAbove(l: bv32, k: nat)
    requires k >= 32
    ensures !Bit(l, k)
  {
    ThirtyTwoHalves(l);
    HalvesBit(32, l, k - 32);
    ZeroBit(k - 32);
  }

  lemma {:induction false} ZeroByBits(n: nat, l: bv32)
    requires Halves(n, l) == 0
    requires forall k: nat | k < n :: !Bit(l, k)
    ensures l == 0
    decreases n
  {
    hide Half, Odd;
    if n != 0 {
      assert !Bit(l, 0);
      forall k: nat | k < n - 1
        ensures !Bit(Half(l), k)
      {
        assert !Bit(l, k + 1);
      }
      ZeroByBits(n - 1, Half(l));
      HalfIsZero(l);
    }
  }

  /** Words are determined by their bits. */
  lemma EqualByBits(a: bv32, b: bv32)
    requires forall k: nat | k < 32 :: Bit(a, k) == Bit(b, k)
    ensures a == b
  {
    hide Xor, Halves;
    var d := Xor(a, b);
    ThirtyTwoHalves(d);
    forall k: nat | k < 32
      ensures !Bit(d, k)
    {
      XorBit(a, b, k);
    }
    ZeroByBits(32, d);
    XorZero(a);
    XorCancels(a, a, b);
  }

  /** Exactly the bits of d stand at the bottom of l. */
  ghost predicate Holds(l: bv32, d: seq<bool>) {
    forall k: nat :: Bit(l, k) == (k < |d| && d[k])
  }

  // ----- The register

  function If1(b: bool): bv32 {
    if b then 1 else 0
  }

  /** One message bit enters the register, then the register shifts. */
  function Step(l: bv32, b: bool): bv32 {
    Shift(Xor(l, If1(b)))
  }

  /** The register after the message bits, fed one at a time. */
  function Feed(l: bv32, bits: seq<bool>): bv32
    decreases |bits|
  {
    if bits == [] then l else Feed(Step(l, bits[0]), bits[1..])
  }

  /** A byte enters with its least significant bit first. */
  function ByteBits(b: bv8): seq<bool> {
    seq(8, (k: nat) => Bit(Word(b), k))
  }

  function Bits(data: seq<bv8>): (bits: seq<bool>)
    ensures |bits| == 8 * |data|
  {
    if data == [] then [] else ByteBits(data[0]) + Bits(data[1..])
  }

  const ONES: bv32 := 0xffffffff

  /** The CRC of a string extended by data, starting from the CRC of that string (0 for none). */
  function Crc(crc: bv32, data: seq<bv8>): bv32 {
    Xor(Feed(Xor(crc, ONES), Bits(data)), ONES)
  }

  lemma {:induction false} FeedCompose(l: bv32, m: seq<bool>, n: seq<bool>)
    ensures Feed(l, m + n) == Feed(Feed(l, m), n)
    decreases |m|
  {
    hide Step;
    if m == [] {
      assert m + n == n;
    } else {
      assert (m + n)[0] == m[0] && (m + n)[1..] == m[1..] + n;
      FeedCompose(Step(l, m[0]), m[1..], n);
    }
  }

  lemma {:induction false} BitsCompose(a: seq<bv8>, b: seq<bv8>)
    ensures Bits(a + b) == Bits(a) + Bits(b)
  {
    if a == [] {
      assert a + b == b;
    } else {
      assert (a + b)[0] == a[0] && (a + b)[1..] == a[1..] + b;
      BitsCompose(a[1..], b);
      assert ByteBits(a[0]) + (Bits(a[1..]) + Bits(b)) == Bits(a) + Bits(b);
    }
  }

  /** Extending in two calls is extending by the concatenation. */
  lemma CrcOfConcatenation(crc: bv32, a: seq<bv8>, b: seq<bv8>)
    ensures Crc(Crc(crc, a), b) == Crc(crc, a + b)
  {
    hide Xor, Feed;
    var l := Xor(crc, ONES);
    BitsCompose(a, b);
    FeedCompose(l, Bits(a), Bits(b));
    var m := Feed(l, Bits(a));
    XorAssociates(m, ONES, ONES);
    XorZero(ONES);
    XorZero(m);
  }

  function XorBits(m: seq<bool>, n: seq<bool>): seq<bool>
    requires |m| == |n|
  {
    seq(|m|, k requires 0 <= k < |m| => m[k] != n[k])
  }

  lemma StepIsLinear(l1: bv32, l2: bv32, b1: bool, b2: bool)
    ensures Step(Xor(l1, l2), b1 != b2) == Xor(Step(l1, b1), Step(l2, b2))
  {
    hide Xor, Shift;
    XorSwap(l1, If1(b1), l2, If1(b2));
    XorZero(1);
    XorZero(0);
    ShiftIsLinear(Xor(l1, If1(b1)), Xor(l2, If1(b2)));
  }

  lemma {:induction false} FeedIsLinear(l1: bv32, l2: bv32, m: seq<bool>, n: seq<bool>)
    requires |m| == |n|
    ensures Feed(Xor(l1, l2), XorBits(m, n)) == Xor(Feed(l1, m), Feed(l2, n))
    decreases |m|
  {
    hide Xor, Step;
    if m != [] {
      StepIsLinear(l1, l2, m[0], n[0]);
      assert XorBits(m, n)[1..] == XorBits(m[1..], n[1..]);
      FeedIsLinear(Step(l1, m[0]), Step(l2, n[0]), m[1..], n[1..]);
    }
  }

  // ----- Burst errors

  lemma HalfOfOne()
    ensures Half(1) == 0 && Odd(1)
  {
  }

  /** The bit that enters changes the lowest bit of the register and no other. */
  lemma EnterBit(l: bv32, b: bool, k: nat)
    ensures Bit(Xor(l, If1(b)), k) == if k == 0 then Bit(l, 0) != b else Bit(l, k)
  {
    hide Xor, Half, Odd;
    XorBit(l, If1(b), k);
    HalfOfOne();
    HalfOfZero();
    if k != 0 {
      ZeroBit(k - 1);
    }
  }

  lemma PolyTopBit()
    ensures Bit(POLY, 31)
  {
    hide Halves, Half;
    HalvesCompose(8, 16, POLY);
    HalvesCompose(8, 8, POLY >> 8);
    EightHalves(POLY);
    EightHalves(POLY >> 8);
    EightHalves(POLY >> 8 >> 8);
    HalvesBit(24, POLY, 7);
    Bit7(Halves(24, POLY));
  }

  lemma Bit7(l: bv32)
    requires l == 0x82
    ensures Bit(l, 7)
  {
    assert Bit(0x82, 7) == Bit(0x41, 6) == Bit(0x20, 5) == Bit(0x10, 4) == Bit(0x8, 3) == Bit(0x4, 2) == Bit(0x2, 1) == Bit(0x1, 0);
  }

  /** A shift that leaves the top bit clear did not bring the polynomial in. */
  lemma ShiftWithoutPoly(l: bv32)
    requires !Bit(Shift(l), 31)
    ensures !Odd(l) && Shift(l) == Half(l)
  {
    hide Xor, Half, Odd;
    if Odd(l) {
      XorBit(Half(l), POLY, 31);
      PolyTopBit();
      assert Bit(Half(l), 31) == Bit(l, 32);
      NoBitAbove(l, 32);
    }
  }

  /** At most 32 message bits end in the zero register only from the register that spells them. */
  lemma {:induction false} FeedToZero(l: bv32, d: seq<bool>)
    requires |d| <= 32 && Feed(l, d) == 0
    ensures Holds(l, d)
    decreases |d|
  {
    hide Xor, Half, Odd, Shift;
    if d == [] {
      forall k: nat ensures !Bit(l, k) { ZeroBit(k); }
    } else {
      var x := Xor(l, If1(d[0]));
      FeedToZero(Shift(x), d[1..]);
      assert !Bit(Shift(x), 31);
      ShiftWithoutPoly(x);
      forall k: nat
        ensures Bit(l, k) == (k < |d| && d[k])
      {
        EnterBit(l, d[0], k);
        if k != 0 {
          assert Bit(x, k) == Bit(Shift(x), k - 1);
        }
      }
    }
  }

  /** The register that spells the coming bits is cleared by them, whatever their number. */
  lemma {:induction false} FeedSpelled(l: bv32, d: seq<bool>)
    requires Holds(l, d)
    ensures Feed(l, d) == 0
    decreases |d|
  {
    hide Xor, Half, Odd;
    if d == [] {
      forall k: nat | k < 32 ensures Bit(l, k) == Bit(0, k) { ZeroBit(k); }
      EqualByBits(l, 0);
    } else {
      var x := Xor(l, If1(d[0]));
      EnterBit(l, d[0], 0);
      assert !Bit(x, 0);
      forall k: nat
        ensures Bit(Half(x), k) == (k < |d[1..]| && d[1..][k])
      {
        EnterBit(l, d[0], k + 1);
        assert Bit(x, k + 1) == Bit(Half(x), k);
      }
      FeedSpelled(Half(x), d[1..]);
    }
  }

  /** Equal bits keep different registers different. */
  lemma {:induction false} FeedIsInjective(l1: bv32, l2: bv32, d: seq<bool>)
    requires Feed(l1, d) == Feed(l2, d)
    ensures l1 == l2
    decreases |d|
  {
    hide Xor, Feed;
    if |d| <= 32 {
      var z := XorBits(d, d);
      FeedIsLinear(l1, l2, d, d);
      XorZero(Feed(l1, d));
      FeedToZero(Xor(l1, l2), z);
      forall k: nat | k < 32
        ensures Bit(l1, k) == Bit(l2, k)
      {
        XorBit(l1, l2, k);
        assert !(k < |z| && z[k]);
      }
      EqualByBits(l1, l2);
    } else {
      assert d == d[..1] + d[1..];
      FeedCompose(l1, d[..1], d[1..]);
      FeedCompose(l2, d[..1], d[1..]);
      FeedIsInjective(Feed(l1, d[..1]), Feed(l2, d[..1]), d[1..]);
      FeedIsInjective(l1, l2, d[..1]);
    }
  }

  /** Every burst is seen: messages that differ, and only inside 32 consecutive bits, end differently. */
  lemma BurstIsSeen(l: bv32, before: seq<bool>, w1: seq<bool>, w2: seq<bool>, after: seq<bool>)
    requires |w1| == |w2| <= 32 && w1 != w2
    ensures Feed(l, before + w1 + after) != Feed(l, before + w2 + after)
  {
    hide Xor, Feed;
    var s := Feed(l, before);
    FeedCompose(l, before + w1, after);
    FeedCompose(l, before + w2, after);
    FeedCompose(l, before, w1);
    FeedCompose(l, before, w2);
    if Feed(l, before + w1 + after) == Feed(l, before + w2 + after) {
      FeedIsInjective(Feed(s, w1), Feed(s, w2), after);
      var d := XorBits(w1, w2);
      FeedIsLinear(s, s, w1, w2);
      XorZero(s);
      XorZero(Feed(s, w1));
      FeedToZero(0, d);
      forall k | 0 <= k < |w1|
        ensures w1[k] == w2[k]
      {
        ZeroBit(k);
        assert !d[k];
      }
    }
  }

  lemma {:induction false} BitsAreInjective(a: seq<bv8>, b: seq<bv8>)
    requires |a| == |b| && Bits(a) == Bits(b)
    ensures a == b
  {
    hide Bit;
    if a != [] {
      assert Bits(a)[..8] == ByteBits(a[0]) && Bits(a)[8..] == Bits(a[1..]);
      assert Bits(b)[..8] == ByteBits(b[0]) && Bits(b)[8..] == Bits(b[1..]);
      BitsAreInjective(a[1..], b[1..]);
      forall k: nat | k < 32
        ensures Bit(Word(a[0]), k) == Bit(Word(b[0]), k)
      {
        if k < 8 {
          assert ByteBits(a[0])[k] == ByteBits(b[0])[k];
        } else {
          NoByteBitAbove(a[0], k);
          NoByteBitAbove(b[0], k);
        }
      }
      EqualByBits(Word(a[0]), Word(b[0]));
      Widen(a[0], b[0]);
    }
  }

  lemma Widen(a: bv8, b: bv8)
    requires Word(a) == Word(b)
    ensures a == b
  {
  }

  lemma NoByteBitAbove(b: bv8, k: nat)
    requires k >= 8
    ensures !Bit(Word(b), k)
  {
    EightHalves(Word(b));
    HalvesBit(8, Word(b), k - 8);
    ZeroBit(k - 8);
  }

  /** Two messages that differ only inside four consecutive bytes have different CRCs. */
  lemma FourByteWindowIsSeen(crc: bv32, before: seq<bv8>, w1: seq<bv8>, w2: seq<bv8>, after: seq<bv8>)
    requires |w1| == |w2| <= 4 && w1 != w2
    ensures Crc(crc, before + w1 + after) != Crc(crc, before + w2 + after)
  {
    hide Xor, Feed, Bits;
    var l := Xor(crc, ONES);
    BitsCompose(before + w1, after);
    BitsCompose(before + w2, after);
    BitsCompose(before, w1);
    BitsCompose(before, w2);
    if Bits(w1) == Bits(w2) {
      BitsAreInjective(w1, w2);
    }
    BurstIsSeen(l, Bits(before), Bits(w1), Bits(w2), Bits(after));
    var f1, f2 := Feed(l, Bits(before + w1 + after)), Feed(l, Bits(before + w2 + after));
    XorCommutes(f1, ONES);
    XorCommutes(f2, ONES);
    if Xor(f1, ONES) == Xor(f2, ONES) {
      XorCancels(ONES, f1, f2);
    }
  }

  // ----- Long division

  /** The exponents of the Castagnoli polynomial G. */
  const EXPONENTS: set<nat> := {32, 28, 27, 26, 25, 23, 22, 20, 19, 18, 14, 13, 11, 10, 9, 8, 6, 0}

  /** The coefficient of G at place k, counted from the highest. */
  predicate G(k: nat) {
    k <= 32 && 32 - k in EXPONENTS
  }

  /** Schoolbook division by G of the polynomial p, highest coefficient first. */
  function Remainder(p: seq<bool>): (r: seq<bool>)
    requires |p| >= 32
    ensures |r| == 32
    decreases |p|
  {
    if |p| == 32 then p
    else Remainder(seq(|p| - 1, k requires 0 <= k < |p| - 1 => p[k + 1] != (p[0] && G(k + 1))))
  }

  /** The message times x^32, with the register added to its first 32 coefficients. */
  function Dividend(l: bv32, bits: seq<bool>): seq<bool> {
    seq(|bits| + 32, (k: nat) => (k < |bits| && bits[k]) != (k < 32 && Bit(l, k)))
  }

  function Register(l: bv32): seq<bool> {
    seq(32, (k: nat) => Bit(l, k))
  }

  lemma {:induction false} BitIsOdd(l: bv32, k: nat)
    ensures Bit(l, k) == Odd(Halves(k, l))
    decreases k
  {
    hide Half, Odd;
    if k != 0 {
      BitIsOdd(Half(l), k - 1);
    }
  }

  lemma FirstHalves(l: bv32)
    ensures Halves(0, l) == l && Halves(1, l) == l >> 1 && Halves(2, l) == l >> 2 && Halves(3, l) == l >> 3
    ensures Halves(4, l) == l >> 4 && Halves(5, l) == l >> 5 && Halves(6, l) == l >> 6 && Halves(7, l) == l >> 7
  {
    hide Half;
    HalfOfShifted(l);
    var h := Half(l);
    assert Halves(1, l) == Halves(0, h);
    assert Halves(2, l) == Halves(1, h) == Halves(0, Half(h));
    HalvesCompose(2, 1, l);
    HalvesCompose(3, 1, l);
    HalvesCompose(4, 1, l);
    HalvesCompose(5, 1, l);
    HalvesCompose(6, 1, l);
  }

  lemma HalfOfShifted(l: bv32)
    ensures Half(l) == l >> 1 && Half(l >> 1) == l >> 2 && Half(l >> 2) == l >> 3 && Half(l >> 3) == l >> 4
    ensures Half(l >> 4) == l >> 5 && Half(l >> 5) == l >> 6 && Half(l >> 6) == l >> 7
  {
  }

  lemma LowByteBit(l: bv32, k: nat)
    requires k < 8
    ensures Bit(l, k) == [Odd(l), Odd(l >> 1), Odd(l >> 2), Odd(l >> 3), Odd(l >> 4), Odd(l >> 5), Odd(l >> 6), Odd(l >> 7)][k]
  {
    hide Halves, Odd;
    BitIsOdd(l, k);
    FirstHalves(l);
  }

  lemma PolyBytes()
    ensures POLY >> 8 == 0x82f63b && (POLY >> 8) >> 8 == 0x82f6 && ((POLY >> 8) >> 8) >> 8 == 0x82
  {
  }

  lemma PolyHalves()
    ensures Halves(0, POLY) == POLY && Halves(8, POLY) == 0x82f63b
    ensures Halves(16, POLY) == 0x82f6 && Halves(24, POLY) == 0x82
  {
    hide Half;
    PolyBytes();
    var p0, p1, p2 := POLY, POLY >> 8, (POLY >> 8) >> 8;
    EightHalves(p0);
    EightHalves(p1);
    EightHalves(p2);
    HalvesCompose(8, 8, p0);
    HalvesCompose(16, 8, p0);
  }

  /** Bit k of the polynomial in its byte. */
  lemma ByteOfPoly(k: nat)
    requires k < 32
    ensures Bit(POLY, k) == Bit(if k < 8 then 0x82f63b78 else if k < 16 then 0x82f63b else if k < 24 then 0x82f6 else 0x82, k % 8)
  {
    hide Halves, Bit;
    PolyHalves();
    HalvesBit(k - k % 8, POLY, k % 8);
  }

  lemma PolyIsG(k: nat)
    requires k < 32
    ensures Bit(POLY, k) == G(k + 1)
  {
    hide Bit;
    ByteOfPoly(k);
    LowByteBit(if k < 8 then 0x82f63b78 else if k < 16 then 0x82f63b else if k < 24 then 0x82f6 else 0x82, k % 8);
  }

  lemma ShiftBit(l: bv32, k: nat)
    requires k < 32
    ensures Bit(Shift(l), k) == ((k < 31 && Bit(l, k + 1)) != (Odd(l) && G(k + 1)))
  {
    hide Xor, Half, Odd;
    PolyIsG(k);
    XorBit(Half(l), POLY, k);
    assert Bit(Half(l), k) == Bit(l, k + 1);
    if k == 31 {
      NoBitAbove(l, 32);
    }
  }

  /** Feeding the register is dividing: the register ends holding the remainder. */
  lemma {:induction false} FeedDivides(l: bv32, bits: seq<bool>)
    ensures Remainder(Dividend(l, bits)) == Register(Feed(l, bits))
    decreases |bits|
  {
    hide Xor, Half, Odd, Shift, G;
    var p := Dividend(l, bits);
    if bits == [] {
      assert p == Register(l);
    } else {
      var x := Xor(l, If1(bits[0]));
      var q := seq(|p| - 1, k requires 0 <= k < |p| - 1 => p[k + 1] != (p[0] && G(k + 1)));
      forall k | 0 <= k < |q|
        ensures q[k] == Dividend(Shift(x), bits[1..])[k]
      {
        EnterBit(l, bits[0], 0);
        EnterBit(l, bits[0], k + 1);
        if k < 32 {
          ShiftBit(x, k);
        } else {
          GIsMonic(k);
        }
      }
      assert q == Dividend(Shift(x), bits[1..]);
      FeedDivides(Shift(x), bits[1..]);
    }
  }

  lemma GIsMonic(k: nat)
    requires k >= 32
    ensures !G(k + 1)
  {
  }
}
