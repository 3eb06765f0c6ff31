// Fixed-width and variable-length integers on the wire. Bit operations on unsigned values are
// written as the arithmetic they are: v >> 7 is v / 128, v & 127 is v % 128, and setting bit 7 of a
// byte below 128 adds 128.
module Coding {
  import opened Machine

  type Bytes = seq<byte>

  // ----- Fixed width, least significant byte first

  /** The low eight bits. */
  function Low(x: nat): byte {
    x % 256
  }

  function EncodeFixed32(v: uint32): (b: Bytes)
    ensures |b| == 4
  {
    [Low(v), Low(v / 256), Low(v / 65536), Low(v / 16777216)]
  }

  /** The word at position i. */
  function DecodeFixed32(b: Bytes, i: nat): uint32
    requires i + 4 <= |b|
  {
    b[i] as int + 256 * (b[i + 1] as int) + 65536 * (b[i + 2] as int) + 16777216 * (b[i + 3] as int)
  }

  lemma DigitSum(v: uint32)
    ensures Low(v) as int + 256 * (Low(v / 256) as int) + 65536 * (Low(v / 65536) as int) + 16777216 * (Low(v / 16777216) as int) == v
  {
    var v1 := v / 256;
    var v2 := v1 / 256;
    assert v2 == v / 65536 && v2 / 256 == v / 16777216;
  }

  lemma Fixed32RoundTrip(v: uint32, before: Bytes, after: Bytes)
    ensures DecodeFixed32(before + EncodeFixed32(v) + after, |before|) == v
  {
    hide Low;
    var s, e := before + EncodeFixed32(v) + after, EncodeFixed32(v);
    assert s[|before|] == e[0] && s[|before| + 1] == e[1] && s[|before| + 2] == e[2] && s[|before| + 3] == e[3];
    DigitSum(v);
  }

  lemma Fixed32Back(b: Bytes, i: nat)
    requires i + 4 <= |b|
    ensures EncodeFixed32(DecodeFixed32(b, i)) == b[i..i + 4]
  {
    DigitsOf(b[i], b[i + 1], b[i + 2], b[i + 3]);
  }

  lemma DigitsOf(b0: byte, b1: byte, b2: byte, b3: byte)
    ensures var v := b0 + 256 * b1 + 65536 * b2 + 16777216 * b3;
      v % 256 == b0 && v / 256 % 256 == b1 && v / 65536 % 256 == b2 && v / 16777216 == b3
  {
    var v := b0 + 256 * b1 + 65536 * b2 + 16777216 * b3;
    assert v / 256 == b1 + 256 * b2 + 65536 * b3;
    assert v / 65536 == b2 + 256 * b3;
  }

  function EncodeFixed64(v: uint64): (b: Bytes)
    ensures |b| == 8
  {
    EncodeFixed32(v % 0x1_0000_0000) + EncodeFixed32(v / 0x1_0000_0000)
  }

  function DecodeFixed64(b: Bytes, i: nat): uint64
    requires i + 8 <= |b|
  {
    DecodeFixed32(b, i) + 0x1_0000_0000 * DecodeFixed32(b, i + 4)
  }

  lemma Fixed64RoundTrip(v: uint64, before: Bytes, after: Bytes)
    ensures DecodeFixed64(before + EncodeFixed64(v) + after, |before|) == v
  {
    hide EncodeFixed32, DecodeFixed32;
    var lo, hi := EncodeFixed32(v % 0x1_0000_0000), EncodeFixed32(v / 0x1_0000_0000);
    Fixed32RoundTrip(v % 0x1_0000_0000, before, hi + after);
    Fixed32RoundTrip(v / 0x1_0000_0000, before + lo, after);
    assert before + lo + (hi + after) == before + (lo + hi) + after == before + lo + hi + after;
  }

  function Pow256(k: nat): (r: nat)
    ensures r > 0
  {
    if k == 0 then 1 else 256 * Pow256(k - 1)
  }

  lemma SmallPowers()
    ensures Pow256(0) == 1 && Pow256(1) == 256 && Pow256(2) == 65536 && Pow256(3) == 16777216 && Pow256(4) == 0x1_0000_0000
  {
    assert Pow256(4) == 256 * Pow256(3) == 256 * 256 * Pow256(2);
  }

  /** Byte k on the wire is digit k of the value to base 256, least significant first. */
  lemma Fixed32Digit(v: uint32, k: nat)
    requires k < 4
    ensures EncodeFixed32(v)[k] as int == v / Pow256(k) % 256
  {
    hide Pow256;
    SmallPowers();
  }

  /** The same for 64 bits, the low word first: byte k is v >> 8 * k, cut to a byte. */
  lemma Fixed64Bytes(v: uint64)
    ensures var e := EncodeFixed64(v);
      && e[0] as int == v % 256 && e[1] as int == v / 0x100 % 256
      && e[2] as int == v / 0x1_0000 % 256 && e[3] as int == v / 0x100_0000 % 256
      && e[4] as int == v / 0x1_0000_0000 % 256 && e[5] as int == v / 0x100_0000_0000 % 256
      && e[6] as int == v / 0x1_0000_0000_0000 % 256 && e[7] as int == v / 0x100_0000_0000_0000 % 256
  {
    var lo, hi := v % 0x1_0000_0000, v / 0x1_0000_0000;
    LowBytes(lo, hi);
    HighBytes(v, hi);
  }

  lemma LowBytes(lo: nat, hi: nat)
    ensures var v := lo + 0x1_0000_0000 * hi;
      && v % 256 == lo % 256 && v / 0x100 % 256 == lo / 0x100 % 256
      && v / 0x1_0000 % 256 == lo / 0x1_0000 % 256 && v / 0x100_0000 % 256 == lo / 0x100_0000 % 256
  {
    Behind256(lo, 0x100_0000 * hi);
    Behind65536(lo, 0x1_0000 * hi);
    Behind16777216(lo, 0x100 * hi);
    LowByteOf(lo, 0x100_0000 * hi);
    LowByteOf(lo / 0x100, 0x1_0000 * hi);
    LowByteOf(lo / 0x1_0000, 0x100 * hi);
    LowByteOf(lo / 0x100_0000, hi);
  }

  lemma LowByteOf(x: nat, y: nat)
    ensures (x + 256 * y) % 256 == x % 256
  {
  }

  lemma Behind256(x: nat, y: nat)
    ensures (x + 0x100 * y) / 0x100 == x / 0x100 + y
  {
  }

  lemma Behind65536(x: nat, y: nat)
    ensures (x + 0x1_0000 * y) / 0x1_0000 == x / 0x1_0000 + y
  {
  }

  lemma Behind16777216(x: nat, y: nat)
    ensures (x + 0x100_0000 * y) / 0x100_0000 == x / 0x100_0000 + y
  {
  }

  lemma HighBytes(v: nat, hi: nat)
    requires hi == v / 0x1_0000_0000
    ensures hi / 0x100 == v / 0x100_0000_0000 && hi / 0x1_0000 == v / 0x1_0000_0000_0000
    ensures hi / 0x100_0000 == v / 0x100_0000_0000_0000
  {
  }

  /** A byte string that grows at its end. */
  class ByteString {
    var contents: Bytes

    constructor ()
      ensures contents == []
    {
      contents := [];
    }

    method Append(b: Bytes)
      modifies this
      ensures contents == old(contents) + b
    {
      contents := contents + b;
    }

    method PutFixed32(v: uint32)
      modifies this
      ensures contents == old(contents) + EncodeFixed32(v)
    {
      Append(EncodeFixed32(v));
    }
  }

  // ----- Variable length: seven bits a byte, low bits first, bit 7 set while more follow

  function Varint(v: nat): (b: Bytes)
    ensures |b| >= 1
  {
    if v < 128 then [v] else [v % 128 + 128] + Varint(v / 128)
  }

  lemma VarintSize(v: nat)
    ensures v < 128 ==> |Varint(v)| == 1
    ensures 128 <= v < 16384 ==> |Varint(v)| == 2
    ensures 16384 <= v < 2097152 ==> |Varint(v)| == 3
    ensures 2097152 <= v < 268435456 ==> |Varint(v)| == 4
    ensures 268435456 <= v < 34359738368 ==> |Varint(v)| == 5
  {
    assert v >= 128 ==> |Varint(v)| == 1 + |Varint(v / 128)|;
    assert v >= 16384 ==> |Varint(v / 128)| == 1 + |Varint(v / 128 / 128)|;
    assert v >= 2097152 ==> |Varint(v / 128 / 128)| == 1 + |Varint(v / 128 / 128 / 128)|;
    assert v >= 268435456 ==> |Varint(v / 128 / 128 / 128)| == 1 + |Varint(v / 128 / 128 / 128 / 128)|;
  }

  lemma {:induction false} Varint64Size(v: nat, n: nat)
    requires v < Pow128(n) && n >= 1
    ensures |Varint(v)| <= n
  {
    if v >= 128 {
      Varint64Size(v / 128, n - 1);
    }
  }

  function Pow128(n: nat): nat {
    if n == 0 then 1 else 128 * Pow128(n - 1)
  }

  /** The ten bytes of buffer that the 64-bit append provides are enough. */
  lemma VarintFitsTen(v: uint64)
    ensures |Varint(v)| <= 10
  {
    hide Varint;
    ScaleBound(4);
    assert Pow128(10) == 128 * 128 * 128 * 128 * 128 * 128 * Pow128(4);
    Varint64Size(v, 10);
  }

  /** b written into a from position i on. */
  ghost function Written(a: Bytes, i: nat, b: Bytes): Bytes
    requires i + |b| <= |a|
  {
    a[..i] + b + a[i + |b|..]
  }

  /** One store through the advancing pointer: byte k of whole, which begins at position at. */
  method Store(dst: array<byte>, ptr: nat, b: byte, ghost all: Bytes, ghost at: nat, ghost whole: Bytes, ghost k: nat)
    returns (next: nat)
    requires k < |whole| && b == whole[k] && ptr == at + k < dst.Length == |all|
    requires dst[..] == Written(all, at, whole[..k])
    modifies dst
    ensures next == ptr + 1 && dst[..] == Written(all, at, whole[..k + 1])
  {
    dst[ptr] := b;
    next := ptr + 1;
    assert whole[..k + 1] == whole[..k] + [b];
  }

  /** The five-way form for 32 bits. The result is the position behind the last byte written. */
  method EncodeVarint32(dst: array<byte>, at: nat, v: uint32) returns (end: nat)
    requires at + |Varint(v)| <= dst.Length
    modifies dst
    ensures end == at + |Varint(v)| && |Varint(v)| <= 5
    ensures dst[..] == Written(old(dst[..]), at, Varint(v))
  {
    hide Varint, Written;
    VarintByCases(v);
    ghost var all, whole := dst[..], Varint(v);
    NothingWritten(all, at);
    assert whole[..0] == [] && whole[..|whole|] == whole;
    end := at;
    if v < 128 {
      end := Store(dst, end, v, all, at, whole, 0);
    } else if v < 16384 {
      end := Store(dst, end, v % 128 + 128, all, at, whole, 0);
      end := Store(dst, end, v / 128, all, at, whole, 1);
    } else if v < 2097152 {
      end := Store(dst, end, v % 128 + 128, all, at, whole, 0);
      end := Store(dst, end, v / 128 % 128 + 128, all, at, whole, 1);
      end := Store(dst, end, v / 16384, all, at, whole, 2);
    } else if v < 268435456 {
      end := Store(dst, end, v % 128 + 128, all, at, whole, 0);
      end := Store(dst, end, v / 128 % 128 + 128, all, at, whole, 1);
      end := Store(dst, end, v / 16384 % 128 + 128, all, at, whole, 2);
      end := Store(dst, end, v / 2097152, all, at, whole, 3);
    } else {
      end := Store(dst, end, v % 128 + 128, all, at, whole, 0);
      end := Store(dst, end, v / 128 % 128 + 128, all, at, whole, 1);
      end := Store(dst, end, v / 16384 % 128 + 128, all, at, whole, 2);
      end := Store(dst, end, v / 2097152 % 128 + 128, all, at, whole, 3);
      end := Store(dst, end, v / 268435456, all, at, whole, 4);
    }
  }

  lemma NothingWritten(a: Bytes, i: nat)
    requires i <= |a|
    ensures Written(a, i, []) == a
  {
  }

  lemma VarintUnfolds(v: nat)
    ensures v < 128 ==> Varint(v) == [v]
    ensures v >= 128 ==> Varint(v) == [v % 128 + 128] + Varint(v / 128)
  {
  }

  lemma DivTwice(v: nat)
    ensures v / 128 / 128 == v / 16384 && v / 16384 / 128 == v / 2097152 && v / 2097152 / 128 == v / 268435456
  {
  }

  /** The encoding by cases, from the successive quotients of v by 128. */
  lemma VarintDigits(v: nat, v1: nat, v2: nat, v3: nat, v4: nat)
    requires v1 == v / 128 && v2 == v1 / 128 && v3 == v2 / 128 && v4 == v3 / 128 && v4 < 128
    ensures v < 128 ==> Varint(v) == [v]
    ensures v >= 128 > v1 ==> Varint(v) == [v % 128 + 128, v1]
    ensures v1 >= 128 > v2 ==> Varint(v) == [v % 128 + 128, v1 % 128 + 128, v2]
    ensures v2 >= 128 > v3 ==> Varint(v) == [v % 128 + 128, v1 % 128 + 128, v2 % 128 + 128, v3]
    ensures v3 >= 128 ==> Varint(v) == [v % 128 + 128, v1 % 128 + 128, v2 % 128 + 128, v3 % 128 + 128, v4]
  {
    hide Varint;
    VarintUnfolds(v);
    VarintUnfolds(v1);
    VarintUnfolds(v2);
    VarintUnfolds(v3);
    VarintUnfolds(v4);
  }

  /** The same from the shifts of v. */
  lemma VarintByCases(v: uint32)
    ensures v < 128 ==> Varint(v) == [v]
    ensures 128 <= v < 16384 ==> Varint(v) == [v % 128 + 128, v / 128]
    ensures 16384 <= v < 2097152 ==> Varint(v) == [v % 128 + 128, v / 128 % 128 + 128, v / 16384]
    ensures 2097152 <= v < 268435456 ==>
      Varint(v) == [v % 128 + 128, v / 128 % 128 + 128, v / 16384 % 128 + 128, v / 2097152]
    ensures 268435456 <= v ==>
      Varint(v) == [v % 128 + 128, v / 128 % 128 + 128, v / 16384 % 128 + 128, v / 2097152 % 128 + 128, v / 268435456]
  {
    hide Varint;
    var v1, v2, v3, v4 := v / 128, v / 16384, v / 2097152, v / 268435456;
    DivTwice(v);
    QuotientRanges(v);
    VarintDigits(v, v1, v2, v3, v4);
  }

  lemma QuotientRanges(v: uint32)
    ensures v < 16384 <==> v / 128 < 128
    ensures v < 2097152 <==> v / 16384 < 128
    ensures v < 268435456 <==> v / 2097152 < 128
    ensures v / 268435456 < 128
  {
  }

  /** The loop for 64 bits. */
  method EncodeVarint64(dst: array<byte>, at: nat, v: uint64) returns (end: nat)
    requires at + |Varint(v)| <= dst.Length
    modifies dst
    ensures end == at + |Varint(v)|
    ensures dst[..] == Written(old(dst[..]), at, Varint(v))
  {
    hide Varint, Written;
    ghost var all, whole := dst[..], Varint(v);
    NothingWritten(all, at);
    assert whole[..0] == [] && whole[0..] == whole;
    var w := v;
    end := at;
    while w >= 128
      invariant at <= end && end - at < |whole| && whole[end - at..] == Varint(w)
      invariant dst[..] == Written(all, at, whole[..end - at])
    {
      VarintTail(whole, end - at, w);
      end := Store(dst, end, w % 128 + 128, all, at, whole, end - at);
      w := w / 128;
    }
    VarintTail(whole, end - at, w);
    end := Store(dst, end, w, all, at, whole, end - at);
    assert whole[..end - at] == whole;
  }

  /** The next byte of an encoding, of which the encoding of w is still to be written. */
  lemma VarintTail(whole: Bytes, k: nat, w: nat)
    requires k < |whole| && whole[k..] == Varint(w)
    ensures w < 128 ==> whole[k] == w && k + 1 == |whole|
    ensures w >= 128 ==> whole[k] == w % 128 + 128 && k + 1 < |whole| && whole[k + 1..] == Varint(w / 128)
  {
    assert whole[k..][0] == whole[k] && whole[k..][1..] == whole[k + 1..];
  }

  method VarintLength(v: uint64) returns (len: nat)
    ensures len == |Varint(v)|
  {
    len := 1;
    var w := v;
    while w >= 128
      invariant len - 1 + |Varint(w)| == |Varint(v)|
    {
      w := w / 128;
      len := len + 1;
    }
  }

  // ----- Reading a varint back

  /** The value and end of the varint at p, if it ends within n bytes and within the data. */
  function VarintAt(data: Bytes, p: nat, n: nat): (r: Option<(nat, nat)>)
    ensures r.Some? ==> p < r.value.1 <= |data| && r.value.1 <= p + n
    decreases n
  {
    if n == 0 || p >= |data| then None
    else if data[p] < 128 then Some((data[p], p + 1))
    else
      match VarintAt(data, p + 1, n - 1)
      case None => None
      case Some((v, e)) => Some((data[p] - 128 + 128 * v, e))
  }

  /** At most five bytes, the value cut to 32 bits. */
  function Varint32At(data: Bytes, p: nat): Option<(uint32, nat)> {
    match VarintAt(data, p, 5)
    case None => None
    case Some((v, e)) => Some((Wrap32(v), e))
  }

  /** Behind k bytes that all announce more, with value r so far. */
  ghost predicate Continues(data: Bytes, p: nat, k: nat, r: nat, scale: nat) {
    && k <= 5 && scale == Pow128(k) && r < scale
    && VarintAt(data, p, 5) == match VarintAt(data, p + k, 5 - k)
         case None => None
         case Some((v, e)) => Some((r + scale * v, e))
  }

  lemma ContinueOneMore(data: Bytes, p: nat, k: nat, r: nat, scale: nat, low: nat)
    requires Continues(data, p, k, r, scale) && k < 5 && p + k < |data| && data[p + k] == low + 128
    ensures Continues(data, p, k + 1, r + low * scale, 128 * scale)
  {
    hide Pow128;
    PowStep(k);
    TimesLess(low, scale);
    match VarintAt(data, p + k + 1, 5 - k - 1)
    case None =>
    case Some((v, e)) =>
      Spread(r, scale, low, v);
  }

  lemma PowStep(k: nat)
    ensures Pow128(k + 1) == 128 * Pow128(k) && Pow128(0) == 1
  {
  }

  lemma TimesLess(low: nat, scale: nat)
    requires low < 128
    ensures low * scale <= 127 * scale
  {
  }

  lemma Spread(r: nat, scale: nat, low: nat, v: nat)
    ensures r + scale * (low + 128 * v) == r + low * scale + 128 * scale * v
  {
  }

  lemma ScaleBound(k: nat)
    requires k <= 4
    ensures Pow128(k) <= 268435456
  {
    PowStep(0);
    PowStep(1);
    PowStep(2);
    PowStep(3);
  }

  /** The varint does not end within its five bytes or the data. */
  lemma NoEnd(data: Bytes, p: nat, k: nat, r: nat, scale: nat)
    requires Continues(data, p, k, r, scale) && (k == 5 || p + k >= |data|)
    ensures Varint32At(data, p) == None
  {
    VarintHere(data, p + k, 5 - k);
  }

  lemma EndHere(data: Bytes, p: nat, k: nat, r: nat, scale: nat)
    requires Continues(data, p, k, r, scale) && k < 5 && p + k < |data| && data[p + k] < 128
    ensures Varint32At(data, p) == Some((Wrap32(r + scale * data[p + k]), p + k + 1))
  {
    VarintHere(data, p + k, 5 - k);
  }

  /** Up to four bytes fit 32 bits. */
  lemma StillFits(data: Bytes, p: nat, k: nat, r: nat, scale: nat)
    requires Continues(data, p, k, r, scale) && k <= 4
    ensures r < scale <= 268435456
  {
    hide Pow128, VarintAt;
    ScaleBound(k);
  }

  /** The loop: shift runs over 0, 7, .., 28, here as scale 1, 128, .., 2^28. */
  method GetVarint32PtrFallback(data: Bytes, p: nat) returns (r: Option<(uint32, nat)>)
    ensures r == Varint32At(data, p)
  {
    hide Continues, Varint32At, Wrap32;
    var result: uint32, scale: nat, q := 0, 1, p;
    ContinuesAtStart(data, p);
    for k := 0 to 5
      invariant q == p + k && Continues(data, p, k, result, scale)
    {
      if q >= |data| {
        NoEnd(data, p, k, result, scale);
        return None;
      }
      var byte := data[q];
      q := q + 1;
      if byte >= 128 {
        var low := byte - 128;
        ContinueOneMore(data, p, k, result, scale, low);
        if k == 4 {
          NoEnd(data, p, 5, result + low * scale, 128 * scale);
          return None;
        }
        StillFits(data, p, k + 1, result + low * scale, 128 * scale);
        result := result + low * scale;
        scale := 128 * scale;
      } else {
        EndHere(data, p, k, result, scale);
        return Some((Wrap32(result + scale * byte), q));
      }
    }
    NoEnd(data, p, 5, result, scale);
    r := None;
  }

  lemma ContinuesAtStart(data: Bytes, p: nat)
    ensures Continues(data, p, 0, 0, 1)
  {
  }

  lemma VarintHere(data: Bytes, q: nat, n: nat)
    ensures n == 0 || q >= |data| ==> VarintAt(data, q, n) == None
    ensures n > 0 && q < |data| && data[q] < 128 ==> VarintAt(data, q, n) == Some((data[q], q + 1))
  {
  }

  /** The one-byte case first, then the loop. */
  method GetVarint32Ptr(data: Bytes, p: nat) returns (r: Option<(uint32, nat)>)
    ensures r == Varint32At(data, p)
  {
    if p < |data| && data[p] < 128 {
      return Some((data[p], p + 1));
    }
    r := GetVarint32PtrFallback(data, p);
  }

  lemma {:induction false} VarintReadBack(v: nat, before: Bytes, after: Bytes, n: nat)
    requires |Varint(v)| <= n
    ensures VarintAt(before + Varint(v) + after, |before|, n) == Some((v, |before| + |Varint(v)|))
    decreases v
  {
    var s := before + Varint(v) + after;
    if v >= 128 {
      assert s == before + [v % 128 + 128] + Varint(v / 128) + after;
      VarintReadBack(v / 128, before + [v % 128 + 128], after, n - 1);
    }
  }

  /** Every 32-bit value is read back, whatever surrounds its encoding. */
  lemma Varint32RoundTrip(v: uint32, before: Bytes, after: Bytes)
    ensures Varint32At(before + Varint(v) + after, |before|) == Some((v, |before| + |Varint(v)|))
  {
    hide Varint, VarintAt;
    VarintSize(v);
    VarintReadBack(v, before, after, 5);
  }

  lemma {:induction false} CutVarint(v: nat, before: Bytes, cut: nat, n: nat)
    requires cut < |Varint(v)|
    ensures VarintAt(before + Varint(v)[..cut], |before|, n) == None
    decreases v
  {
    if cut > 0 && n > 0 {
      assert before + Varint(v)[..cut] == before + [v % 128 + 128] + Varint(v / 128)[..cut - 1];
      CutVarint(v / 128, before + [v % 128 + 128], cut - 1, n - 1);
    }
  }

  /** No strict prefix of an encoding is taken for a value. */
  lemma Varint32Prefix(v: uint32, cut: nat)
    requires cut < |Varint(v)|
    ensures Varint32At(Varint(v)[..cut], 0) == None
  {
    CutVarint(v, [], cut, 5);
    assert [] + Varint(v)[..cut] == Varint(v)[..cut];
  }

  /** What was read is the encoding of its value exactly when it does not end in a padding zero. */
  lemma {:induction false} VarintCanonical(data: Bytes, p: nat, n: nat)
    requires VarintAt(data, p, n).Some?
    ensures var (v, e) := VarintAt(data, p, n).value;
      data[p..e] == Varint(v) <==> e == p + 1 || data[e - 1] != 0
    decreases n
  {
    var (v, e) := VarintAt(data, p, n).value;
    if data[p] >= 128 {
      VarintCanonical(data, p + 1, n - 1);
      var (w, e') := VarintAt(data, p + 1, n - 1).value;
      assert v == data[p] - 128 + 128 * w && e == e';
      assert data[p..e] == [data[p]] + data[p + 1..e];
      if w == 0 {
        ZeroEndsInZero(data, p + 1, n - 1);
      } else {
        assert v / 128 == w && v % 128 == data[p] - 128;
        assert Varint(v) == [data[p]] + Varint(w);
        assert data[p..e][1..] == data[p + 1..e] && Varint(v)[1..] == Varint(w);
        if e == p + 2 {
          assert data[p + 1] == w;
        }
      }
    }
  }

  lemma {:induction false} ZeroEndsInZero(data: Bytes, p: nat, n: nat)
    requires VarintAt(data, p, n).Some? && VarintAt(data, p, n).value.0 == 0
    ensures data[VarintAt(data, p, n).value.1 - 1] == 0
    decreases n
  {
    if data[p] >= 128 {
      ZeroEndsInZero(data, p + 1, n - 1);
    }
  }

  /** v >> 7 * k. */
  function Shifted(v: nat, k: nat): nat
    decreases k
  {
    if k == 0 then v else Shifted(v / 128, k - 1)
  }

  /** Byte k of an encoding: the low seven bits of v >> 7 * k, and whether more follow. No byte is wasted. */
  lemma {:induction false} VarintDigit(v: nat, k: nat)
    requires k < |Varint(v)|
    ensures Varint(v)[k] as int == Shifted(v, k) % 128 + if k + 1 < |Varint(v)| then 128 else 0
    ensures k + 1 == |Varint(v)| <==> Shifted(v, k) < 128
    ensures k > 0 ==> Shifted(v, k) > 0
    decreases k
  {
    if k > 0 {
      VarintDigit(v / 128, k - 1);
    }
  }

  /** The first byte from p on that announces no more, within n bytes and the data. */
  ghost predicate EndsAt(data: Bytes, p: nat, n: nat, e: nat) {
    p <= e < |data| && e < p + n && data[e] < 128 && forall i | p <= i < e :: data[i] >= 128
  }

  /** The seven-bit digits of the bytes from p to e, least significant first. */
  function Digits(data: Bytes, p: nat, e: nat): nat
    requires p <= e < |data|
    decreases e - p
  {
    if p == e then data[e] % 128 else data[p] % 128 + 128 * Digits(data, p + 1, e)
  }

  lemma {:induction false} VarintAtExactly(data: Bytes, p: nat, n: nat)
    ensures VarintAt(data, p, n).Some? <==> exists e :: EndsAt(data, p, n, e)
    ensures forall e | EndsAt(data, p, n, e) :: VarintAt(data, p, n) == Some((Digits(data, p, e), e + 1))
    decreases n
  {
    if n > 0 && p < |data| {
      if data[p] < 128 {
        assert EndsAt(data, p, n, p) && Digits(data, p, p) == data[p];
        forall e | EndsAt(data, p, n, e)
          ensures e == p
        {
        }
      } else {
        VarintAtExactly(data, p + 1, n - 1);
        forall e
          ensures EndsAt(data, p, n, e) <==> EndsAt(data, p + 1, n - 1, e)
        {
        }
        var p1, n1 := p + 1, n - 1;
        if e :| EndsAt(data, p1, n1, e) {
          assert EndsAt(data, p, n, e);
        }
        forall e | EndsAt(data, p, n, e)
          ensures VarintAt(data, p, n) == Some((Digits(data, p, e), e + 1))
        {
          assert Digits(data, p, e) == data[p] % 128 + 128 * Digits(data, p + 1, e);
        }
      }
    }
  }

  /** For any bytes: a value is read exactly if one of the first five announces no more, and it is their digits, cut to 32 bits. */
  lemma Varint32Exactly(data: Bytes, p: nat)
    ensures Varint32At(data, p).Some? <==> exists e :: EndsAt(data, p, 5, e)
    ensures forall e | EndsAt(data, p, 5, e) :: Varint32At(data, p) == Some((Digits(data, p, e) % 0x1_0000_0000, e + 1))
  {
    VarintAtExactly(data, p, 5);
  }

  function EncodeAll(vs: seq<uint32>): Bytes {
    if vs == [] then [] else Varint(vs[0]) + EncodeAll(vs[1..])
  }

  /** Varint after varint to the end of the data. */
  function DecodeAll(data: Bytes, p: nat): Option<seq<uint32>>
    decreases |data| - p
  {
    if p >= |data| then Some([])
    else
      match Varint32At(data, p)
      case None => None
      case Some((v, e)) =>
        match DecodeAll(data, e)
        case None => None
        case Some(rest) => Some([v] + rest)
  }

  /** A concatenated list is read back as it was. */
  lemma {:induction false} ListRoundTrip(vs: seq<uint32>, before: Bytes)
    ensures DecodeAll(before + EncodeAll(vs), |before|) == Some(vs)
    decreases |vs|
  {
    hide Varint32At;
    var s := before + EncodeAll(vs);
    if vs != [] {
      assert s == before + Varint(vs[0]) + EncodeAll(vs[1..]);
      Varint32RoundTrip(vs[0], before, EncodeAll(vs[1..]));
      ListRoundTrip(vs[1..], before + Varint(vs[0]));
      assert vs == [vs[0]] + vs[1..];
    }
  }
}
