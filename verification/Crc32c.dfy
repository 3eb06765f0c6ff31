// The word-at-a-time CRC32C of the voice server: four tables, an alignment prologue and loops over
// 16, 4 and 1 bytes. It computes the bit-serial CRC for every buffer, start value and address.
module Crc32c {
  import opened Crc32cTables
  import opened Crc32cBits

  /** The complement of the first 32 coefficients of the message times x^32. */
  function Prepared(bits: seq<bool>): (p: seq<bool>)
    ensures |p| == |bits| + 32
  {
    seq(|bits| + 32, (k: nat) => (k < |bits| && bits[k]) != (k < 32))
  }

  lemma OnesBit(k: nat)
    requires k < 32
    ensures Bit(ONES, k)
  {
    hide Halves, Bit;
    EightHalves(0xffffffff);
    EightHalves(0xffffff);
    EightHalves(0xffff);
    HalvesCompose(8, 8, ONES);
    HalvesCompose(16, 8, ONES);
    HalvesBit(k - k % 8, ONES, k % 8);
    LowByteBit(if k < 8 then 0xffffffff else if k < 16 then 0xffffff else if k < 24 then 0xffff else 0xff, k % 8);
  }

  /**
   * The CRC of a message is the complement of the remainder of section 12.1 of RFC 3720: divide the
   * message polynomial times x^32, first 32 coefficients complemented, by G. Bit k of the CRC is the
   * coefficient of x^(31-k).
   */
  lemma CrcIsComplementedRemainder(data: seq<bv8>, k: nat)
    requires k < 32
    ensures Bit(Crc(0, data), k) == !Remainder(Prepared(Bits(data)))[k]
  {
    hide Xor, Bit, Feed, Bits;
    XorZero(ONES);
    var bits := Bits(data);
    forall j | 0 <= j < |bits| + 32
      ensures Dividend(ONES, bits)[j] == Prepared(bits)[j]
    {
      if j < 32 {
        OnesBit(j);
      }
    }
    assert Dividend(ONES, bits) == Prepared(bits);
    FeedDivides(ONES, bits);
    XorBit(Feed(ONES, bits), ONES, k);
    OnesBit(k);
  }

  // ----- Bytes entering the register

  /** Feeding the bits a word spells is adding the word and shifting. */
  lemma FeedWord(l: bv32, w: bv32, d: seq<bool>)
    requires Holds(w, d)
    ensures Feed(l, d) == Shifts(|d|, Xor(l, w))
  {
    hide Xor, Feed, Shifts;
    var none := seq(|d|, (k: nat) => false);
    assert XorBits(none, d) == d;
    FeedSpelled(w, d);
    FeedIsLinear(Xor(l, w), w, none, d);
    XorAssociates(l, w, w);
    XorZero(w);
    XorZero(l);
    FeedNothing(Xor(l, w), |d|);
    XorZero(Shifts(|d|, Xor(l, w)));
  }

  lemma {:induction false} FeedNothing(l: bv32, n: nat)
    ensures Feed(l, seq(n, (k: nat) => false)) == Shifts(n, l)
    decreases n
  {
    hide Xor, Shift;
    var d := seq(n, (k: nat) => false);
    if n != 0 {
      XorZero(l);
      assert d[1..] == seq(n - 1, (k: nat) => false);
      FeedNothing(Shift(l), n - 1);
    }
  }

  lemma FeedByte(l: bv32, b: bv8)
    ensures Feed(l, ByteBits(b)) == Shifts(8, Xor(l, Word(b)))
  {
    hide Bit, Feed, Shifts, Xor;
    forall k: nat
      ensures Bit(Word(b), k) == (k < 8 && ByteBits(b)[k])
    {
      if k >= 8 {
        NoByteBitAbove(b, k);
      }
    }
    FeedWord(l, Word(b), ByteBits(b));
  }

  /** Shifting out zeros is halving. */
  lemma {:induction false} ShiftsOfEven(n: nat, l: bv32)
    requires forall k: nat | k < n :: !Bit(l, k)
    ensures Shifts(n, l) == Halves(n, l)
  {
    hide Half, Odd;
    if n != 0 {
      assert !Bit(l, 0);
      forall k: nat | k < n - 1
        ensures !Bit(Half(l), k)
      {
        assert !Bit(l, k + 1);
      }
      ShiftsOfEven(n - 1, Half(l));
    }
  }

  lemma HighBitsClearLow(l: bv32, k: nat)
    requires k < 8 && l & 0xff == 0
    ensures !Bit(l, k)
  {
    hide Bit;
    LowByteBit(l, k);
  }

  lemma ShiftsOfHighBytes(l: bv32)
    requires l & 0xff == 0
    ensures Shifts(8, l) == l >> 8
  {
    hide Bit, Shifts, Halves;
    forall k: nat | k < 8 ensures !Bit(l, k) {
      HighBitsClearLow(l, k);
    }
    ShiftsOfEven(8, l);
    EightHalves(l);
  }

  // ----- The table steps of the code

  function Or(a: bv32, b: bv32): bv32 {
    a | b
  }

  function Low(c: bv32): bv8 {
    (c & 0xff) as bv8
  }

  // The second, third and fourth byte of a word, and a byte in those places.
  function Byte1(c: bv32): bv8 { Low(c >> 8) }
  function Byte2(c: bv32): bv8 { Low(c >> 16) }
  function Byte3(c: bv32): bv8 { Low(c >> 24) }
  function Lane1(b: bv8): bv32 { Word(b) << 8 }
  function Lane2(b: bv8): bv32 { Word(b) << 16 }
  function Lane3(b: bv8): bv32 { Word(b) << 24 }

  function Step1(l: bv32, b: bv8): bv32 {
    Xor(Table0(Low(Xor(l & 0xff, Word(b)))), l >> 8)
  }

  /** Four bytes as a little-endian word. */
  function LoadLE32(b0: bv8, b1: bv8, b2: bv8, b3: bv8): bv32 {
    Or(Or(Or(Word(b0), Lane1(b1)), Lane2(b2)), Lane3(b3))
  }

  function Step4(l: bv32, b0: bv8, b1: bv8, b2: bv8, b3: bv8): bv32 {
    var c := Xor(l, LoadLE32(b0, b1, b2, b3));
    Xor(Table3(Low(c)), Xor(Table2(Byte1(c)), Xor(Table1(Byte2(c)), Table0(Byte3(c)))))
  }

  lemma LowAndHigh(l: bv32, b: bv8)
    ensures Xor(l, Word(b)) == Xor(Word(Low(Xor(l & 0xff, Word(b)))), l & 0xffffff00)
    ensures (l & 0xffffff00) & 0xff == 0 && (l & 0xffffff00) >> 8 == l >> 8
  {
  }

  lemma Step1Feeds(l: bv32, b: bv8)
    ensures Step1(l, b) == Feed(l, ByteBits(b))
  {
    hide Xor, Low, Word, Bit, Shifts, Feed, Table0;
    FeedByte(l, b);
    LowAndHigh(l, b);
    var i := Low(Xor(l & 0xff, Word(b)));
    ShiftsAreLinear(8, Word(i), l & 0xffffff00);
    ShiftsOfHighBytes(l & 0xffffff00);
    Table0IsShifts(i);
  }

  /** The four bytes of c, each in its place. */
  lemma Lanes(c: bv32)
    ensures c == Xor(Word(Low(c)), Xor(Lane1(Byte1(c)), Xor(Lane2(Byte2(c)), Lane3(Byte3(c)))))
  {
  }

  lemma LaneShifts(b: bv8)
    ensures Lane1(b) & 0xff == 0 && Lane2(b) & 0xff == 0 && Lane3(b) & 0xff == 0
    ensures Lane1(b) >> 8 == Word(b) && Lane2(b) >> 8 == Lane1(b) && Lane3(b) >> 8 == Lane2(b)
  {
  }

  /** Shifting a byte out of lane j takes 8 * j shifts. */
  lemma ShiftsOfLane(b: bv8)
    ensures Shifts(8, Lane1(b)) == Shifts(16, Lane2(b)) == Shifts(24, Lane3(b)) == Word(b)
    ensures Shifts(32, Lane1(b)) == Shifts(24, Word(b))
    ensures Shifts(32, Lane2(b)) == Shifts(16, Word(b))
    ensures Shifts(32, Lane3(b)) == Shifts(8, Word(b))
  {
    hide Word, Shifts, Lane1, Lane2, Lane3;
    LaneShifts(b);
    ShiftsOfHighBytes(Lane1(b));
    ShiftsOfHighBytes(Lane2(b));
    ShiftsOfHighBytes(Lane3(b));
    ShiftsCompose(8, 8, Lane2(b));
    ShiftsCompose(8, 16, Lane3(b));
    ShiftsCompose(8, 24, Lane1(b));
    ShiftsCompose(16, 16, Lane2(b));
    ShiftsCompose(24, 8, Lane3(b));
  }

  lemma OrIsXor(a: bv32, b: bv32)
    requires a & b == 0
    ensures a | b == a ^ b
  {
  }

  lemma LanesAreDisjoint(b0: bv8, b1: bv8, b2: bv8, b3: bv8)
    ensures Word(b0) & Lane1(b1) == 0
    ensures Or(Word(b0), Lane1(b1)) & Lane2(b2) == 0
    ensures Or(Or(Word(b0), Lane1(b1)), Lane2(b2)) & Lane3(b3) == 0
  {
  }

  lemma DisjointOr(a: bv32, b: bv32)
    requires a & b == 0
    ensures Or(a, b) == Xor(a, b)
  {
    OrIsXor(a, b);
  }

  lemma LoadIsXor(b0: bv8, b1: bv8, b2: bv8, b3: bv8)
    ensures LoadLE32(b0, b1, b2, b3) == Xor(Xor(Xor(Word(b0), Lane1(b1)), Lane2(b2)), Lane3(b3))
  {
    hide Xor, Or, Word, Lane1, Lane2, Lane3;
    LanesAreDisjoint(b0, b1, b2, b3);
    DisjointOr(Word(b0), Lane1(b1));
    DisjointOr(Or(Word(b0), Lane1(b1)), Lane2(b2));
    DisjointOr(Or(Or(Word(b0), Lane1(b1)), Lane2(b2)), Lane3(b3));
  }

  /** A byte fed after 8 * j shifts could as well have been added in lane j at the start. */
  lemma FeedLater(n: nat, l: bv32, lane: bv32, b: bv8)
    requires Shifts(n, lane) == Word(b)
    ensures Feed(Shifts(n, l), ByteBits(b)) == Shifts(n + 8, Xor(l, lane))
  {
    hide Xor, Word, Bit, Shifts, Feed;
    FeedByte(Shifts(n, l), b);
    ShiftsAreLinear(n, l, lane);
    ShiftsCompose(n, 8, Xor(l, lane));
  }

  /** Four bytes fed one after the other. */
  function FeedFour(l: bv32, b0: bv8, b1: bv8, b2: bv8, b3: bv8): bv32 {
    Feed(Feed(Feed(Feed(l, ByteBits(b0)), ByteBits(b1)), ByteBits(b2)), ByteBits(b3))
  }

  lemma FeedFourShifts(l: bv32, b0: bv8, b1: bv8, b2: bv8, b3: bv8)
    ensures FeedFour(l, b0, b1, b2, b3) == Shifts(32, Xor(l, LoadLE32(b0, b1, b2, b3)))
  {
    hide Xor, Word, Lane1, Lane2, Lane3, LoadLE32, Bit, Shifts, Feed;
    LoadIsXor(b0, b1, b2, b3);
    ShiftsOfLane(b1);
    ShiftsOfLane(b2);
    ShiftsOfLane(b3);
    var w0, w1, w2, w3 := Word(b0), Lane1(b1), Lane2(b2), Lane3(b3);
    FeedByte(l, b0);
    FeedLater(8, Xor(l, w0), w1, b1);
    FeedLater(16, Xor(Xor(l, w0), w1), w2, b2);
    FeedLater(24, Xor(Xor(Xor(l, w0), w1), w2), w3, b3);
    XorAssociates(l, w0, w1);
    XorAssociates(l, Xor(w0, w1), w2);
    XorAssociates(l, Xor(Xor(w0, w1), w2), w3);
  }

  /** One four-byte step over table3 to table0 does what four single-byte steps do. */
  lemma Step4IsFourStep1(l: bv32, b0: bv8, b1: bv8, b2: bv8, b3: bv8)
    ensures Step4(l, b0, b1, b2, b3) == Step1(Step1(Step1(Step1(l, b0), b1), b2), b3)
    ensures Step4(l, b0, b1, b2, b3) == FeedFour(l, b0, b1, b2, b3)
  {
    hide Xor, Low, Byte1, Byte2, Byte3, Word, Lane1, Lane2, Lane3, LoadLE32, Bit, Shifts, Feed;
    hide Table0, Table1, Table2, Table3, Step1;
    Step1Feeds(l, b0);
    Step1Feeds(Step1(l, b0), b1);
    Step1Feeds(Step1(Step1(l, b0), b1), b2);
    Step1Feeds(Step1(Step1(Step1(l, b0), b1), b2), b3);
    FeedFourShifts(l, b0, b1, b2, b3);
    var c := Xor(l, LoadLE32(b0, b1, b2, b3));
    Lanes(c);
    var c0, c1, c2, c3 := Low(c), Byte1(c), Byte2(c), Byte3(c);
    ShiftsOfLane(c1);
    ShiftsOfLane(c2);
    ShiftsOfLane(c3);
    ShiftsAreLinear(32, Lane2(c2), Lane3(c3));
    ShiftsAreLinear(32, Lane1(c1), Xor(Lane2(c2), Lane3(c3)));
    ShiftsAreLinear(32, Word(c0), Xor(Lane1(c1), Xor(Lane2(c2), Lane3(c3))));
    Table3IsShifts(c0);
    Table2IsShifts(c1);
    Table1IsShifts(c2);
    Table0IsShifts(c3);
  }

  // ----- Extend

  lemma FeedOneMore(l: bv32, data: seq<bv8>, p: nat)
    requires p < |data|
    ensures Feed(l, Bits(data[..p + 1])) == Feed(Feed(l, Bits(data[..p])), ByteBits(data[p]))
  {
    hide Feed, Bit;
    var one := [data[p]];
    assert data[..p + 1] == data[..p] + one;
    BitsCompose(data[..p], one);
    assert Bits(one) == ByteBits(data[p]) + Bits(one[1..]) == ByteBits(data[p]);
    FeedCompose(l, Bits(data[..p]), ByteBits(data[p]));
  }

  lemma FeedFourMore(l: bv32, data: seq<bv8>, p: nat)
    requires p + 4 <= |data|
    ensures Feed(l, Bits(data[..p + 4])) == Step4(Feed(l, Bits(data[..p])), data[p], data[p + 1], data[p + 2], data[p + 3])
  {
    hide Feed, Bits, Bit, Step4;
    FeedOneMore(l, data, p);
    FeedOneMore(l, data, p + 1);
    FeedOneMore(l, data, p + 2);
    FeedOneMore(l, data, p + 3);
    Step4IsFourStep1(Feed(l, Bits(data[..p])), data[p], data[p + 1], data[p + 2], data[p + 3]);
  }

  /** The CRC of the buffer, whatever the address it starts at. */
  method Extend(crc: bv32, buf: seq<bv8>, address: nat) returns (r: bv32)
    ensures r == Crc(crc, buf)
  {
    hide Feed, Bits, Bit, Xor, Step1, Step4;
    var p, e := 0, |buf|;
    var l := Xor(crc, ONES);
    ghost var start := l;
    assert buf[..0] == [] && Feed(start, Bits(buf[..0])) == start by {
      FeedNone(start);
    }
    // The first word boundary at or after the start, as an offset. It may lie past the end.
    var x := (address + 3) / 4 * 4 - address;
    if x <= e {
      while p != x
        invariant 0 <= p <= x && l == Feed(start, Bits(buf[..p]))
      {
        FeedOneMore(start, buf, p);
        Step1Feeds(l, buf[p]);
        l, p := Step1(l, buf[p]), p + 1;
      }
    }
    while e - p >= 16
      invariant 0 <= p <= e && l == Feed(start, Bits(buf[..p]))
    {
      FeedFourMore(start, buf, p);
      l, p := Step4(l, buf[p], buf[p + 1], buf[p + 2], buf[p + 3]), p + 4;
      FeedFourMore(start, buf, p);
      l, p := Step4(l, buf[p], buf[p + 1], buf[p + 2], buf[p + 3]), p + 4;
      FeedFourMore(start, buf, p);
      l, p := Step4(l, buf[p], buf[p + 1], buf[p + 2], buf[p + 3]), p + 4;
      FeedFourMore(start, buf, p);
      l, p := Step4(l, buf[p], buf[p + 1], buf[p + 2], buf[p + 3]), p + 4;
    }
    while e - p >= 4
      invariant 0 <= p <= e && l == Feed(start, Bits(buf[..p]))
    {
      FeedFourMore(start, buf, p);
      l, p := Step4(l, buf[p], buf[p + 1], buf[p + 2], buf[p + 3]), p + 4;
    }
    while p != e
      invariant 0 <= p <= e && l == Feed(start, Bits(buf[..p]))
    {
      FeedOneMore(start, buf, p);
      Step1Feeds(l, buf[p]);
      l, p := Step1(l, buf[p]), p + 1;
    }
    assert buf[..p] == buf;
    r := Xor(l, ONES);
  }

  lemma FeedNone(l: bv32)
    ensures Feed(l, Bits([])) == l
  {
  }

  // ----- Masked storage form

  const MASK_DELTA: bv32 := 0xa282ead8

  function Mask(crc: bv32): bv32 {
    ((crc >> 15) | (crc << 17)) + MASK_DELTA
  }

  function Unmask(maskedCrc: bv32): bv32 {
    var rot := maskedCrc - MASK_DELTA;
    (rot >> 17) | (rot << 15)
  }

  /** Rotating right by one place. */
  function Turn(x: bv32): bv32 {
    Half(x) | (if Odd(x) then 0x80000000 else 0)
  }

  /** Rotating right by n places, one place at a time. */
  function RotateRight(n: nat, x: bv32): bv32 {
    if n == 0 then x else RotateRight(n - 1, Turn(x))
  }

  lemma LowToTop(x: bv32)
    ensures x << 31 == if Odd(x) then 0x80000000 else 0
  {
  }

  lemma HalfIsShift(x: bv32)
    ensures Half(x) == x >> 1
  {
  }

  lemma TurnIsShifts(x: bv32)
    ensures Turn(x) == (x >> 1) | (x << 31)
  {
    hide Half, Odd;
    LowToTop(x);
    HalfIsShift(x);
  }

  lemma RotateStep(n: nat, x: bv32)
    ensures RotateRight(n + 1, x) == RotateRight(n, Turn(x))
  {
    hide Turn;
  }

  lemma RotateFive(x: bv32)
    ensures RotateRight(5, x) == (x >> 5) | (x << 27)
  {
    hide RotateRight, Turn;
    var a, b, c, d, e := Turn(x), Turn(Turn(x)), Turn(Turn(Turn(x))), Turn(Turn(Turn(Turn(x)))), Turn(Turn(Turn(Turn(Turn(x)))));
    RotateStep(4, x);
    RotateStep(3, a);
    RotateStep(2, b);
    RotateStep(1, c);
    RotateStep(0, d);
    RotateNone(e);
    TwoTurns(x);
    TwoTurns(b);
    TurnIsShifts(d);
    FivePlaces(x);
  }

  lemma TwoTurns(x: bv32)
    ensures Turn(Turn(x)) == (x >> 2) | (x << 30)
  {
    hide Turn;
    TurnIsShifts(x);
    TurnIsShifts(Turn(x));
    TwoPlaces(x);
  }

  lemma RotateNone(x: bv32)
    ensures RotateRight(0, x) == x
  {
  }

  lemma TwoPlaces(x: bv32)
    ensures var a := (x >> 1) | (x << 31); (a >> 1) | (a << 31) == (x >> 2) | (x << 30)
  {
  }

  lemma FivePlaces(x: bv32)
    ensures var b := (x >> 2) | (x << 30);
      var d := (b >> 2) | (b << 30);
      (d >> 1) | (d << 31) == (x >> 5) | (x << 27)
  {
  }

  lemma {:induction false} RotateSum(m: nat, n: nat, x: bv32)
    ensures RotateRight(m + n, x) == RotateRight(n, RotateRight(m, x))
  {
    hide Turn;
    if m > 0 {
      RotateSum(m - 1, n, Turn(x));
    }
  }

  lemma FifteenPlaces(x: bv32)
    ensures var a := (x >> 5) | (x << 27);
      var b := (a >> 5) | (a << 27);
      (b >> 5) | (b << 27) == (x >> 15) | (x << 17)
  {
  }

  /** Masking is rotating right by 15 places, one at a time, and adding the constant of the format. */
  lemma MaskRotates(x: bv32)
    ensures Mask(x) == RotateRight(15, x) + 0xa282ead8
  {
    hide RotateRight;
    RotateSum(5, 10, x);
    RotateSum(5, 5, RotateRight(5, x));
    RotateFive(x);
    RotateFive(RotateRight(5, x));
    RotateFive(RotateRight(5, RotateRight(5, x)));
    FifteenPlaces(x);
  }

  /** Mask and Unmask are inverse bijections on all 32-bit values. */
  lemma MaskRoundTrip(x: bv32)
    ensures Unmask(Mask(x)) == x && Mask(Unmask(x)) == x
  {
  }
}
