// Times as the voice server keeps them: unsigned 32-bit seconds and nanoseconds, where a full
// second of nanoseconds (1000000000) is not carried.
module UTimes {
  import opened Machine

  const NANOS: nat := 1_000_000_000

  datatype UTime = UTime(sec: uint32, nsec: uint32)
  {
    ghost function Total(): (t: nat)
      ensures t == sec * 1_000_000_000 + nsec
    {
      sec * NANOS + nsec
    }

    /** A normalized time. The bound is not strict: see Normalize. */
    predicate Normal() {
      nsec <= NANOS
    }
  }

  function Normalize(t: UTime): UTime {
    if t.nsec > NANOS then UTime(Wrap32(t.sec + t.nsec / NANOS), t.nsec % NANOS) else t
  }

  /** Whether the seconds wrap when the full seconds of nanoseconds are carried. */
  predicate Overflows(t: UTime) {
    t.nsec > NANOS && t.sec + t.nsec / NANOS >= TWO_32
  }

  /** Normalizing always gives a normal time, and the same time unless the seconds wrap. */
  lemma NormalizeSpec(t: UTime)
    ensures Normalize(t).Normal()
    ensures Normalize(t).Total() == t.Total() - (if Overflows(t) then TWO_32 * NANOS else 0)
    ensures Normalize(t) == t <==> t.Normal()
  {
    var q := t.nsec / NANOS;
    assert t.nsec == q * NANOS + t.nsec % NANOS;
    assert Overflows(t) ==> Wrap32(t.sec + q) == t.sec + q - TWO_32;
  }

  function Plus(l: UTime, r: UTime): UTime {
    Normalize(UTime(Wrap32(l.sec + r.sec), Wrap32(l.nsec + r.nsec)))
  }

  function Borrow(l: UTime, r: UTime): nat {
    if l.nsec < r.nsec then 1 else 0
  }

  /** Subtraction before normalization, which is what the assigning form leaves behind. */
  function RawMinus(l: UTime, r: UTime): UTime {
    UTime(Wrap32(l.sec - r.sec - Borrow(l, r)),
          if l.nsec < r.nsec then Wrap32(l.nsec + NANOS - r.nsec) else l.nsec - r.nsec)
  }

  function Minus(l: UTime, r: UTime): UTime {
    Normalize(RawMinus(l, r))
  }

  predicate Less(a: UTime, b: UTime) {
    a.sec < b.sec || (a.sec == b.sec && a.nsec < b.nsec)
  }

  predicate AtMost(a: UTime, b: UTime) {
    !Less(b, a)
  }

  lemma DivNanos(n: nat, q: nat)
    requires q * NANOS <= n < (q + 1) * NANOS
    ensures n / NANOS == q && n % NANOS == n - q * NANOS
  {
  }

  /** The whole seconds carried out of the sum of two normal nanosecond counts. */
  function Carry(l: UTime, r: UTime): nat {
    if l.nsec + r.nsec == 2 * NANOS then 2 else if l.nsec + r.nsec > NANOS then 1 else 0
  }

  lemma PlusCarries(l: UTime, r: UTime)
    requires l.Normal() && r.Normal()
    ensures Plus(l, r) == UTime(Wrap32(l.sec + r.sec + Carry(l, r)), l.nsec + r.nsec - Carry(l, r) * NANOS)
    ensures Plus(l, r).Normal()
  {
    hide Normalize, Wrap32;
    SmallStays(l.nsec + r.nsec);
    WrapsOnce(l.sec + r.sec, Carry(l, r));
    NormalizeCarries(Wrap32(l.sec + r.sec), l.nsec + r.nsec, Carry(l, r));
  }

  lemma SmallStays(x: nat)
    requires x < TWO_32
    ensures Wrap32(x) == x
  {
  }

  lemma NormalizeCarries(sec: uint32, nsec: nat, carry: nat)
    requires nsec <= 2 * NANOS && carry == if nsec == 2 * NANOS then 2 else if nsec > NANOS then 1 else 0
    ensures Normalize(UTime(sec, nsec)) == UTime(Wrap32(sec + carry), nsec - carry * NANOS)
  {
    hide Wrap32;
    SmallStays(sec);
    if carry > 0 {
      DivNanos(nsec, carry);
    }
  }

  /** Carrying after the wrap is wrapping after the carry. */
  lemma WrapsOnce(x: nat, carry: nat)
    ensures Wrap32(Wrap32(x) + carry) == Wrap32(x + carry)
  {
  }

  /** A sum is exact just when its seconds, carry included, do not overflow. */
  lemma PlusIsExact(l: UTime, r: UTime)
    requires l.Normal() && r.Normal()
    ensures Plus(l, r).Total() == l.Total() + r.Total() <==> l.sec + r.sec + Carry(l, r) < TWO_32
  {
    PlusCarries(l, r);
    var sum := l.sec + r.sec + Carry(l, r);
    if sum >= TWO_32 {
      assert Wrap32(sum) <= sum - TWO_32;
    }
  }

  /** Subtracting what was added gives the time back, unless an uncarried full second was added to. */
  lemma PlusThenMinus(a: UTime, b: UTime)
    requires a.Normal() && b.Normal()
    ensures Minus(Plus(a, b), b) == a <==> !(a.nsec == NANOS && b.nsec > 0)
  {
    hide Plus;
    PlusCarries(a, b);
  }

  /** A difference is exact just when the second time is not after the first. */
  lemma MinusIsExact(l: UTime, r: UTime)
    requires l.Normal() && r.Normal()
    ensures Minus(l, r).Total() == l.Total() - r.Total() <==> AtMost(r, l)
    ensures Minus(l, r).Normal()
  {
    hide Normalize;
    RawMinusIsNormal(l, r);
  }

  /** Of normal times, or any whose nanoseconds are at most a second apart, the raw difference is normal. */
  lemma RawMinusIsNormal(l: UTime, r: UTime)
    ensures RawMinus(l, r).Normal() <==> l.nsec <= r.nsec + NANOS && r.nsec <= l.nsec + NANOS
    ensures RawMinus(l, r).Normal() ==> Normalize(RawMinus(l, r)) == RawMinus(l, r)
  {
  }

  /**
   * The assigning subtraction and the free one never differ on normal times; on others they agree just
   * when the nanoseconds are at most a second apart.
   */
  lemma MinusFormsAgree(l: UTime, r: UTime)
    ensures l.Normal() && r.Normal() ==> RawMinus(l, r) == Minus(l, r)
    ensures RawMinus(l, r) == Minus(l, r) <==> l.nsec <= r.nsec + NANOS && r.nsec <= l.nsec + NANOS
  {
    hide RawMinus;
    RawMinusIsNormal(l, r);
    var d := RawMinus(l, r);
    NormalizeSpec(d);
    if !d.Normal() {
      assert Normalize(d) != d;
    }
  }

  /** The order of times is a strict total order. */
  lemma LessIsStrictTotal(a: UTime, b: UTime, c: UTime)
    ensures !Less(a, a)
    ensures Less(a, b) && Less(b, c) ==> Less(a, c)
    ensures a == b || Less(a, b) || Less(b, a)
    ensures !(Less(a, b) && Less(b, a))
  {
  }

  /** The order follows the clock; the two readings of one instant are the only distinct equal times. */
  lemma LessFollowsTotal(a: UTime, b: UTime)
    requires a.Normal() && b.Normal() && Less(a, b)
    ensures a.Total() <= b.Total()
    ensures a.Total() == b.Total() <==> a.nsec == NANOS && b == UTime(a.sec + 1, 0)
  {
  }

  /** A time updated in place. */
  class TimeCell {
    var tvSec: uint32
    var tvNsec: uint32

    function Value(): UTime
      reads this
    {
      UTime(tvSec, tvNsec)
    }

    constructor (sec: uint32, nsec: uint32)
      ensures Value() == Normalize(UTime(sec, nsec)) && Value().Normal()
      ensures !Overflows(UTime(sec, nsec)) ==> Value().Total() == sec * NANOS + nsec
    {
      tvSec, tvNsec := sec, nsec;
      new;
      NormalizeInPlace();
    }

    method NormalizeInPlace()
      modifies this
      ensures Value() == Normalize(old(Value())) && Value().Normal()
      ensures Value().Total() == old(Value().Total() - (if Overflows(Value()) then TWO_32 * NANOS else 0))
    {
      NormalizeSpec(Value());
      if tvNsec > NANOS {
        tvSec := Wrap32(tvSec + tvNsec / NANOS);
        tvNsec := tvNsec % NANOS;
      }
    }

    method PlusAssign(time: UTime)
      modifies this
      ensures Value() == Plus(old(Value()), time) && Value().Normal()
    {
      tvSec := Wrap32(tvSec + time.sec);
      tvNsec := Wrap32(tvNsec + time.nsec);
      NormalizeInPlace();
    }

    method MinusAssign(time: UTime)
      modifies this
      ensures Value() == RawMinus(old(Value()), time)
    {
      tvSec := Wrap32(tvSec - time.sec - if tvNsec < time.nsec then 1 else 0);
      tvNsec := if tvNsec < time.nsec then Wrap32(tvNsec + NANOS - time.nsec) else tvNsec - time.nsec;
    }
  }
}
