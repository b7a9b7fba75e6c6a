/**
 Rates, and the time a packet takes at a rate: psched_ratecfg_precompute
 (net/sched/sch_generic.c:1325-1358) and psched_ns_t2l (sch_tbf.c:119-143).
 The transmission time is the (len * mult) >> shift of sch_generic.c:1341-1342, on the
 length with its overhead, in whole 53-byte cells of 48 bytes on an ATM link.
 */
module PacketRate {
  import opened Basics

  const NSEC: nat := 1_000_000_000
  const TWO31: nat := 0x8000_0000
  const TWO32: nat := 0x1_0000_0000
  const TWO63: nat := 0x8000_0000_0000_0000
  const TWO64: nat := 0x1_0000_0000_0000_0000

  datatype RateCfg = RateCfg(rate: nat, overhead: nat, atm: bool, mult: nat, shift: nat)

  function Factor(shift: nat): (r: nat)
    ensures r == NSEC * Exp2(shift)
  {
    if shift == 0 then NSEC else 2 * Factor(shift - 1)
  }

  function Quotient(a: nat, d: nat): nat
    requires d > 0
  {
    a / d
  }

  function Product(a: nat, b: nat): nat { a * b }

  /** What precomputing promises: mult / 2^shift is no more than the nanoseconds per byte. */
  ghost predicate Derived(r: RateCfg) {
    if r.rate == 0 then r.mult == 1 && r.shift == 0 else r.mult == Quotient(Factor(r.shift), r.rate)
  }

  lemma DoubleQuotient(a: nat, b: nat)
    requires b > 0
    ensures Quotient(2 * a, b) <= 2 * Quotient(a, b) + 1
  {
    QuotientTimes(a, b);
    QuotientTimes(2 * a, b);
    if 2 * a / b > 2 * (a / b) + 1 {
      MulMonotone(2 * (a / b) + 2, 2 * a / b, b);
    }
  }

  /** No step overflows the 64-bit factor or the 32-bit mult, and no larger mult was possible. */
  method Precompute(conf: nat, overhead: nat, atm: bool, rate64: nat) returns (r: RateCfg)
    requires conf < TWO32 && rate64 < TWO64
    ensures r.rate == (if conf > rate64 then conf else rate64) && r.overhead == overhead && r.atm == atm
    ensures Derived(r) && r.mult < TWO32 && Factor(r.shift) < TWO64
    ensures r.rate > 0 ==> r.mult >= TWO31 || Factor(r.shift) >= TWO63
  {
    var rate := if conf > rate64 then conf else rate64;
    var mult: nat, shift: nat := 1, 0;
    if rate > 0 {
      var factor := NSEC;
      mult := Quotient(factor, rate);
      while mult < TWO31 && factor < TWO63
        invariant factor == Factor(shift) && NSEC <= factor < TWO64
        invariant mult == Quotient(factor, rate) && mult < TWO32
        decreases TWO64 - factor
      {
        DoubleQuotient(factor, rate);
        factor, shift := 2 * factor, shift + 1;
        mult := Quotient(factor, rate);
      }
    }
    r := RateCfg(rate, overhead, atm, mult, shift);
  }

  /** The bytes on the wire for a packet of length len. */
  function Wire(r: RateCfg, len: nat): nat {
    var n := len + r.overhead;
    if r.atm then 53 * ((n + 47) / 48) else n
  }

  /** psched_l2t_ns */
  function L2T(r: RateCfg, len: nat): nat {
    Quotient(Product(Wire(r, len), r.mult), Exp2(r.shift))
  }

  /** psched_ns_t2l, with the 64-bit product wrapping. */
  function T2L(r: RateCfg, time: nat): nat {
    var len := (time * r.rate) % TWO64 / NSEC;
    var cells := if r.atm then len / 53 * 48 else len;
    if cells > r.overhead then cells - r.overhead else 0
  }

  // ----- arithmetic

  lemma DivMonotone(a: nat, b: nat, d: nat)
    requires a <= b && d > 0
    ensures a / d <= b / d
  {
    QuotientTimes(a, d);
    QuotientTimes(b, d);
    if a / d > b / d {
      MulMonotone(b / d + 1, a / d, d);
    }
  }

  lemma MulMonotone(a: nat, b: nat, c: nat)
    requires a <= b
    ensures a * c <= b * c
  {
  }

  lemma MulCancel(a: nat, b: nat, c: nat)
    requires c > 0 && a * c <= b * c
    ensures a <= b
  {
    if a > b {
      MulMonotone(b + 1, a, c);
    }
  }

  lemma QuotientTimes(a: nat, d: nat)
    requires d > 0
    ensures (a / d) * d <= a < (a / d) * d + d
  {
  }

  lemma QuotientBound(a: nat, b: nat, d: nat)
    requires d > 0 && a <= b * d
    ensures a / d <= b
  {
    QuotientTimes(a, d);
    MulCancel(a / d, b, d);
  }

  // ----- the two conversions

  /** A longer packet never takes less time. */
  lemma L2TMonotone(r: RateCfg, a: nat, b: nat)
    requires a <= b
    ensures L2T(r, a) <= L2T(r, b)
  {
    DivMonotone(a + r.overhead + 47, b + r.overhead + 47, 48);
    MulMonotone(Wire(r, a), Wire(r, b), r.mult);
    DivMonotone(Wire(r, a) * r.mult, Wire(r, b) * r.mult, Exp2(r.shift));
  }

  lemma ScaledQuotient(w: nat, mult: nat, rate: nat, e: nat, time: nat)
    requires rate > 0 && e > 0 && mult * rate <= NSEC * e && w * NSEC <= time * rate
    ensures Quotient(Product(w, mult), e) <= time
  {
    MulMonotone(mult * rate, NSEC * e, w);
    MulMonotone(w * NSEC, time * rate, e);
    assert (w * mult) * rate == (mult * rate) * w;
    assert (NSEC * e) * w == (w * NSEC) * e;
    assert (time * rate) * e == (time * e) * rate;
    MulCancel(w * mult, time * e, rate);
    QuotientBound(w * mult, time, e);
  }

  /** A packet whose wire bytes fit in `time` at the rate does not take longer. */
  lemma L2TWithin(r: RateCfg, len: nat, time: nat)
    requires Derived(r) && r.rate > 0 && Wire(r, len) * NSEC <= time * r.rate
    ensures L2T(r, len) <= time
  {
    QuotientTimes(Factor(r.shift), r.rate);
    ScaledQuotient(Wire(r, len), r.mult, r.rate, Exp2(r.shift), time);
  }

  lemma CellsFit(n: nat, len: nat)
    requires n <= len / 53 * 48
    ensures 53 * ((n + 47) / 48) <= len
  {
    QuotientBound(n, len / 53, 48);
    assert (n + 47) / 48 <= len / 53;
    QuotientTimes(len, 53);
  }

  /** psched_ns_t2l is safe to use as a size limit: what it allows takes no longer than `time`.
      The wrap of the 64-bit product only makes it smaller. */
  lemma T2LFits(r: RateCfg, time: nat, len: nat)
    requires Derived(r) && T2L(r, time) > 0 && len <= T2L(r, time)
    ensures L2T(r, len) <= time
  {
    var product := time * r.rate;
    var bytes := product % TWO64 / NSEC;
    assert r.rate == 0 ==> product == 0;
    assert product % TWO64 <= product by { QuotientTimes(product, TWO64); }
    QuotientTimes(product % TWO64, NSEC);
    if r.atm {
      CellsFit(len + r.overhead, bytes);
    }
    MulMonotone(Wire(r, len), bytes, NSEC);
    L2TWithin(r, len, time);
  }

  lemma FloorExact(w: nat, m: nat, d: nat)
    requires d > 0
    ensures w * d <= m <==> w <= m / d
  {
    QuotientTimes(m, d);
    if w <= m / d {
      MulMonotone(w, m / d, d);
    } else {
      MulMonotone(m / d + 1, w, d);
    }
  }

  lemma CellsExact(n: nat, len: nat)
    ensures 53 * ((n + 47) / 48) <= len <==> n <= len / 53 * 48
  {
    var c := (n + 47) / 48;
    assert c * 48 <= n + 47 < c * 48 + 48;
    FloorExact(c, len, 53);
    if n <= len / 53 * 48 {
      CellsFit(n, len);
    }
  }

  /** A length is within psched_ns_t2l exactly if its wire bytes fit in `time` at the rate, up to the wrap of the 64-bit
      product. So one byte more than it allows does not fit. */
  lemma T2LExact(r: RateCfg, time: nat, len: nat)
    requires len >= 1
    ensures len <= T2L(r, time) <==> Wire(r, len) * NSEC <= (time * r.rate) % TWO64
  {
    var product := (time * r.rate) % TWO64;
    FloorExact(Wire(r, len), product, NSEC);
    CellsExact(len + r.overhead, product / NSEC);
  }

  /** On an ATM link the wire bytes are whole cells of 53, as many as hold the packet with its overhead and no more. */
  lemma WireIs(r: RateCfg, len: nat) returns (cells: nat)
    ensures r.atm ==> Wire(r, len) == 53 * cells && 48 * cells < len + r.overhead + 48 && len + r.overhead <= 48 * cells
    ensures !r.atm ==> Wire(r, len) == len + r.overhead
  {
    cells := (len + r.overhead + 47) / 48;
  }

  lemma CloseStep(w: nat, mult: nat, rate: nat, e: nat, t: nat)
    requires w * mult < (t + 1) * e && NSEC * e < mult * rate + rate && rate > 0
    ensures w * NSEC * e < ((t + 1) * e + w) * rate
  {
    MulMonotone(w * mult + 1, (t + 1) * e, rate);
    MulMonotone(NSEC * e, mult * rate + rate, w);
    assert (w * mult + 1) * rate == (mult * rate) * w + rate;
    assert (mult * rate + rate) * w == (mult * rate) * w + w * rate;
    assert NSEC * e * w == w * NSEC * e;
    assert ((t + 1) * e + w) * rate == (t + 1) * e * rate + w * rate;
  }

  /** The other half of L2TWithin. The time is short of the exact one by less than a nanosecond and one 2^shift-th of a
      nanosecond a byte, which is what the two roundings take. */
  lemma L2TClose(r: RateCfg, len: nat)
    requires Derived(r) && r.rate > 0
    ensures Wire(r, len) * NSEC * Exp2(r.shift) < ((L2T(r, len) + 1) * Exp2(r.shift) + Wire(r, len)) * r.rate
  {
    var e, t := Exp2(r.shift), L2T(r, len);
    QuotientTimes(Factor(r.shift), r.rate);
    QuotientTimes(Wire(r, len) * r.mult, e);
    assert t * e + e == (t + 1) * e;
    CloseStep(Wire(r, len), r.mult, r.rate, e, t);
  }
}
