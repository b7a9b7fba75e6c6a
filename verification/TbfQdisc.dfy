/** struct tbf_sched_data and its operations (sch_tbf.c). */
module TbfQdisc {
  import opened Basics
  import opened PacketRate
  import opened TokenBucket

  const U32MAX: nat := 0xffff_ffff

  const NoRate: RateCfg := RateCfg(0, 0, false, 0, 0)

  /** PSCHED_TICKS2NS: a tick is 64 ns. */
  function Ticks2Ns(ticks: nat): nat { 64 * ticks }

  /** struct tc_ratespec, as far as the rate computation reads it. */
  datatype RateSpec = RateSpec(rate: nat, overhead: nat, atm: bool)

  /** A parsed TCA_OPTIONS: struct tc_tbf_qopt and the optional attributes. */
  datatype Request = Request(limit: nat, bufferTicks: nat, mtuTicks: nat, rate: RateSpec, rate64: nat,
                             burst: Option<nat>,
                             peak: RateSpec, prate64: nat, pburst: Option<nat>)

  ghost predicate Wire32(q: Request) {
    && q.rate.rate < TWO32 && q.peak.rate < TWO32 && q.rate64 < TWO64 && q.prate64 < TWO64
    && (q.burst.Some? ==> q.burst.value < TWO32) && (q.pburst.Some? ==> q.pburst.value < TWO32)
  }

  /** The size limit: what both buckets allow (sch_tbf.c:332-363). */
  function SizeLimit(q: Request, rate: RateCfg, peak: RateCfg): nat {
    var buffer, mtu := Min(Ticks2Ns(q.bufferTicks), U32MAX), Min(Ticks2Ns(q.mtuTicks), U32MAX);
    var size := if q.burst.Some? then q.burst.value else Min(T2L(rate, buffer), U32MAX);
    if q.peak.rate == 0 then size
    else Min(size, if q.pburst.Some? then q.pburst.value else T2L(peak, mtu))
  }

  /** What tbf_change installs, or None for -EINVAL (sch_tbf.c:332-416). */
  function NewParams(q: Request, rate: RateCfg, peak: RateCfg): Option<Params> {
    if (q.peak.rate != 0 && peak.rate <= rate.rate) || SizeLimit(q, rate, peak) == 0 then None
    else
      var buffer := if q.burst.Some? then L2T(rate, q.burst.value) else Ticks2Ns(q.bufferTicks);
      var mtu := if q.pburst.None? then Ticks2Ns(q.mtuTicks)
                 else if q.peak.rate != 0 then L2T(peak, q.pburst.value) else Min(Ticks2Ns(q.mtuTicks), U32MAX);
      Some(Params(q.limit, SizeLimit(q, rate, peak), buffer, mtu, rate, if q.peak.rate != 0 then peak else NoRate))
  }

  lemma SizeFits(q: Request, rate: RateCfg, peak: RateCfg, len: nat)
    requires Derived(rate) && (q.peak.rate != 0 ==> Derived(peak)) && NewParams(q, rate, peak).Some?
    requires len <= SizeLimit(q, rate, peak)
    ensures var p := NewParams(q, rate, peak).value;
      Cost(p, len) <= p.buffer && (PeakPresent(p) ==> PeakCost(p, len) <= p.mtu)
  {
    var buffer, mtu := Min(Ticks2Ns(q.bufferTicks), U32MAX), Min(Ticks2Ns(q.mtuTicks), U32MAX);
    if q.burst.Some? {
      L2TMonotone(rate, len, q.burst.value);
    } else {
      T2LFits(rate, buffer, len);
    }
    if q.peak.rate != 0 {
      if q.pburst.Some? {
        L2TMonotone(peak, len, q.pburst.value);
      } else {
        T2LFits(peak, mtu, len);
      }
    }
  }

  /** Every successful change, in every combination of the options, sizes the queue to its buckets. */
  lemma SizesFit(q: Request, rate: RateCfg, peak: RateCfg)
    requires Derived(rate) && (q.peak.rate != 0 ==> Derived(peak)) && NewParams(q, rate, peak).Some?
    ensures Sized(NewParams(q, rate, peak).value) && NewParams(q, rate, peak).value.maxSize > 0
  {
    forall len: nat | len <= SizeLimit(q, rate, peak)
      ensures var p := NewParams(q, rate, peak).value;
        Cost(p, len) <= p.buffer && (PeakPresent(p) ==> PeakCost(p, len) <= p.mtu)
    {
      SizeFits(q, rate, peak, len);
    }
  }

  /** A packet of this length is within a bucket: within the burst in bytes if there is one, and otherwise its wire
      bytes pass at the rate in the time given in ticks of 64 ns, of which 2^32 - 1 ns count (the product wraps). */
  predicate Within(r: RateCfg, burst: Option<nat>, ticks: nat, len: nat) {
    if burst.Some? then len <= burst.value
    else Wire(r, len) * NSEC <= ((if 64 * ticks < TWO32 then 64 * ticks else TWO32 - 1) * r.rate) % TWO64
  }

  predicate Admits(q: Request, rate: RateCfg, peak: RateCfg, len: nat) {
    && Within(rate, q.burst, q.bufferTicks, len) && (q.burst.None? ==> len < TWO32)
    && (q.peak.rate != 0 ==> Within(peak, q.pburst, q.mtuTicks, len))
  }

  lemma LimitExact(q: Request, rate: RateCfg, peak: RateCfg, len: nat)
    requires len >= 1
    ensures len <= SizeLimit(q, rate, peak) <==> Admits(q, rate, peak, len)
  {
    T2LExact(rate, Min(Ticks2Ns(q.bufferTicks), U32MAX), len);
    T2LExact(peak, Min(Ticks2Ns(q.mtuTicks), U32MAX), len);
  }

  /** A request is refused exactly if it has a peak rate that is not above the rate, or if not even one byte is within
      both buckets. max_size is the largest length that is within both. */
  lemma AcceptedExactly(q: Request, rate: RateCfg, peak: RateCfg, len: nat)
    requires len >= 1
    ensures var p := NewParams(q, rate, peak);
      && (p.Some? <==> (q.peak.rate != 0 ==> peak.rate > rate.rate) && Admits(q, rate, peak, 1))
      && (p.Some? ==> (len <= p.value.maxSize <==> Admits(q, rate, peak, len)))
  {
    LimitExact(q, rate, peak, 1);
    LimitExact(q, rate, peak, len);
  }

  /** What an accepted request installs: a bucket holds the time its burst takes at its rate, or else the time given.
      The one depth that is capped is that of a peak bucket with a burst and no peak rate. */
  lemma InstalledIs(q: Request, rate: RateCfg, peak: RateCfg)
    requires NewParams(q, rate, peak).Some?
    ensures var p := NewParams(q, rate, peak).value;
      && p.limit == q.limit && p.rate == rate
      && (PeakPresent(p) <==> q.peak.rate != 0) && (PeakPresent(p) ==> p.peak == peak)
      && p.buffer == (if q.burst.Some? then Cost(p, q.burst.value) else 64 * q.bufferTicks)
      && (PeakPresent(p) && q.pburst.Some? ==> p.mtu == PeakCost(p, q.pburst.value))
      && (q.pburst.None? ==> p.mtu == 64 * q.mtuTicks)
      && (!PeakPresent(p) && q.pburst.Some? ==> p.mtu <= 64 * q.mtuTicks && p.mtu < TWO32
                                                && (p.mtu == 64 * q.mtuTicks || p.mtu == TWO32 - 1))
  {
  }

  /** What psched_ratecfg_precompute makes of a rate. */
  ghost predicate Configured(spec: RateSpec, rate64: nat, r: RateCfg) {
    && r.rate == (if spec.rate > rate64 then spec.rate else rate64) && r.overhead == spec.overhead && r.atm == spec.atm
    && Derived(r) && r.mult < TWO32 && Factor(r.shift) < TWO64
    && (r.rate > 0 ==> r.mult >= TWO31 || Factor(r.shift) >= TWO63)
  }

  /** 1000 and 2000 bytes a second, burst 100 each, and an overhead of 5000 bytes on the peak rate only. */
  const UNEVEN: Request :=
    Request(0, 0, 0, RateSpec(1000, 0, false), 0, Some(100), RateSpec(2000, 5000, false), 0, Some(100))

  const UNEVEN_RATE: RateCfg := RateCfg(1000, 0, false, 4_096_000_000, 12)

  const UNEVEN_PEAK: RateCfg := RateCfg(2000, 5000, false, 4_096_000_000, 13)

  /** An accepted request that blocks at once. A packet of 100 bytes, which is the largest admitted, costs the depth of
      each bucket. But with the empty peak bucket that a new queue has it does not fit, so it is never sent, nor is
      anything behind it. */
  lemma BlockedAtOnce(tokens: nat, rest: seq<Packet>, es: seq<Event>)
    requires Timed(es, 0) && NoChange(es)
    ensures Wire32(UNEVEN) && Configured(UNEVEN.rate, 0, UNEVEN_RATE) && Configured(UNEVEN.peak, 0, UNEVEN_PEAK)
    ensures var q := NewParams(UNEVEN, UNEVEN_RATE, UNEVEN_PEAK); q.Some? && var p := q.value;
      && p.maxSize == 100 && Cost(p, 100) == p.buffer && PeakCost(p, 100) == p.mtu
      && var b := Bucket(p, tokens, 0, 0);
      && !Fits(b, 100) && Outputs(Sched(b, [Packet(0, 100)] + rest), es) == []
  {
    assert Exp2(12) == 4096 && Exp2(13) == 8192;
    assert Factor(12) == NSEC * 4096 && Factor(13) == NSEC * 8192;
    assert L2T(UNEVEN_RATE, 100) == 100_000_000 && L2T(UNEVEN_PEAK, 100) == 2_550_000_000;
    var p := NewParams(UNEVEN, UNEVEN_RATE, UNEVEN_PEAK).value;
    Blocked(Sched(Bucket(p, tokens, 0, 0), [Packet(0, 100)] + rest), es, 0);
  }

  const EINVAL: int := -22

  /** A segment, and whether the inner queue takes it. */
  datatype Offer = Offer(p: Packet, room: bool)

  function Arrived(segs: seq<Offer>): seq<Event> {
    if segs == [] then [] else (if segs[0].room then [Arrive(segs[0].p)] else []) + Arrived(segs[1..])
  }

  /** Wherever a segment stands among the others, it arrives if and only if the inner queue takes it, and in turn. */
  lemma {:induction false} ArrivedIs(a: seq<Offer>, o: Offer, b: seq<Offer>)
    ensures Arrived(a + [o] + b) == Arrived(a) + (if o.room then [Arrive(o.p)] else []) + Arrived(b)
  {
    var all := a + [o] + b;
    if a == [] {
      assert all[0] == o && all[1..] == b;
    } else {
      assert all[0] == a[0] && all[1..] == a[1..] + [o] + b;
      ArrivedIs(a[1..], o, b);
    }
  }

  method Rates(q: Request) returns (rate: RateCfg, peak: RateCfg)
    requires Wire32(q)
    ensures Configured(q.rate, q.rate64, rate)
    ensures if q.peak.rate != 0 then Configured(q.peak, q.prate64, peak) else peak == NoRate
  {
    rate := Precompute(q.rate.rate, q.rate.overhead, q.rate.atm, q.rate64);
    peak := NoRate;
    if q.peak.rate != 0 {
      peak := Precompute(q.peak.rate, q.peak.overhead, q.peak.atm, q.prate64);
    }
  }

  class Tbf {
    var limit: nat
    var maxSize: nat
    var buffer: int
    var mtu: int
    var rate: RateCfg
    var peak: RateCfg
    var tokens: int
    var ptokens: int
    var tC: int
    var queue: seq<Packet>
    var qlen: int

    ghost function View(): Sched
      reads this
    {
      Sched(Bucket(Params(limit, maxSize, buffer, mtu, rate, peak), tokens, ptokens, tC), queue)
    }

    ghost predicate Valid()
      reads this
    {
      qlen == |queue| && tokens >= 0 && ptokens >= 0 && buffer >= 0 && mtu >= 0
    }

    constructor (now: int)
      ensures Valid() && queue == [] && tokens == 0 && ptokens == 0 && tC == now
    {
      limit, maxSize, buffer, mtu, rate, peak := 0, 0, 0, 0, NoRate, NoRate;
      tokens, ptokens, tC, queue, qlen := 0, 0, now, [], 0;
    }

    /** tbf_dequeue (sch_tbf.c:214-272). `timer` is what the watchdog is set to, if it is. */
    method Dequeue(now: int) returns (skb: Option<Packet>, timer: Option<int>)
      requires Valid()
      modifies this
      ensures Valid() && View() == Step(old(View()), Poll(now))
      ensures var s := old(View());
        if s.queue == [] then skb.None? && timer.None?
        else if Passes(s.b, now, s.queue[0].len) then skb == Some(s.queue[0]) && timer.None?
        else skb.None? && timer == Some(Watchdog(s.b, now, s.queue[0].len))
    {
      skb, timer := None, None;
      if queue != [] {
        var toks, ptoks := Levels(now, queue[0].len);
        BitOrSign(toks, ptoks);
        if BitOr(toks, ptoks) >= 0 {
          skb := Some(queue[0]);
          queue := queue[1..];
          tC, tokens, ptokens := now, toks, ptoks;
          qlen := qlen - 1;
        } else {
          timer := Some(now + Max(-toks, -ptoks));
        }
      }
    }

    /** The two levels after the packet (sch_tbf.c:228-239). */
    method Levels(now: int, len: nat) returns (toks: int, ptoks: int)
      ensures toks == Toks(View().b, now, len) && ptoks == Ptoks(View().b, now, len)
    {
      toks, ptoks := Min(now - tC, buffer), 0;
      if peak.rate != 0 {
        ptoks := toks + ptokens;
        if ptoks > mtu {
          ptoks := mtu;
        }
        ptoks := ptoks - L2T(peak, len);
      }
      toks := toks + tokens;
      if toks > buffer {
        toks := buffer;
      }
      toks := toks - L2T(rate, len);
    }

    /** tbf_enqueue (sch_tbf.c:184-207). `room` says whether the inner queue takes the packet, `split` the segments of
        an oversized packet that can be segmented. */
    method Enqueue(p: Packet, room: bool, split: seq<Offer>) returns (ok: bool)
      requires Valid()
      modifies this`queue, this`qlen
      ensures Valid()
      ensures ok == if p.len <= maxSize then room else exists o :: o in split && o.room
      ensures View() == if p.len > maxSize then Final(old(View()), Arrived(split))
                        else if room then Step(old(View()), Arrive(p)) else old(View())
    {
      if p.len > maxSize {
        ok := Segment(split);
        return;
      }
      if !room {
        return false;
      }
      queue := queue + [p];
      qlen := qlen + 1;
      ok := true;
    }

    /** tbf_segment (sch_tbf.c:148-182): each segment is offered to the inner queue in turn. */
    method Segment(segs: seq<Offer>) returns (ok: bool)
      requires Valid()
      modifies this`queue, this`qlen
      ensures Valid() && View() == Final(old(View()), Arrived(segs)) && (ok <==> exists o :: o in segs && o.room)
    {
      ghost var s0 := View();
      var i, nb := 0, 0;
      while i < |segs|
        invariant 0 <= i <= |segs| && qlen == old(qlen) && |queue| == old(|queue|) + nb && nb >= 0
        invariant Final(View(), Arrived(segs[i..])) == Final(s0, Arrived(segs))
        invariant nb > 0 <==> exists o :: o in segs[..i] && o.room
      {
        assert segs[i..][1..] == segs[i + 1..] && segs[..i + 1] == segs[..i] + [segs[i]];
        ghost var rest := Arrived(segs[i + 1..]);
        if segs[i].room {
          assert ([Arrive(segs[i].p)] + rest)[1..] == rest;
          queue := queue + [segs[i].p];
          nb := nb + 1;
        } else {
          assert [] + rest == rest;
        }
        i := i + 1;
      }
      assert segs[..i] == segs;
      qlen := qlen + nb;
      ok := nb > 0;
    }

    /** tbf_change (sch_tbf.c:297-420): a request is either refused without a trace or installed whole, and the
        tokens and the queue stay as they are. `parse` and `fifo` are the errors of the attribute parser and of the
        inner queue. */
    method Change(q: Option<Request>, parse: int, fifo: int) returns (err: int, ghost r: RateCfg, ghost pk: RateCfg)
      requires Valid() && (q.Some? ==> Wire32(q.value))
      modifies this
      ensures Valid() && (err == 0 <==> parse >= 0 && fifo == 0 && q.Some? && NewParams(q.value, r, pk).Some?)
      ensures q.Some? ==> Configured(q.value.rate, q.value.rate64, r)
                          && (q.value.peak.rate != 0 ==> Configured(q.value.peak, q.value.prate64, pk))
      ensures err == if parse < 0 then parse else if q.None? || NewParams(q.value, r, pk).None? then EINVAL else fifo
      ensures err != 0 ==> View() == old(View())
      ensures tokens == old(tokens) && ptokens == old(ptokens) && tC == old(tC) && queue == old(queue)
      ensures err == 0 ==> Sized(View().b.p) && NewParams(q.value, r, pk).Some?
                           && View() == Step(old(View()), Event.Change(NewParams(q.value, r, pk).value))
    {
      r, pk := NoRate, NoRate;
      if q.Some? {
        var rate', peak' := Rates(q.value);
        r, pk := rate', peak';
        if parse < 0 {
          return parse, r, pk;
        }
        var p := NewParams(q.value, rate', peak');
        if p.None? {
          return EINVAL, r, pk;
        }
        if fifo != 0 {
          return fifo, r, pk;
        }
        SizesFit(q.value, rate', peak');
        limit, mtu, maxSize, buffer := p.value.limit, p.value.mtu, p.value.maxSize, p.value.buffer;
        rate, peak := p.value.rate, p.value.peak;
        return 0, r, pk;
      }
      err := if parse < 0 then parse else EINVAL;
    }

    /** tbf_reset (sch_tbf.c:274-285). */
    method Reset(now: int)
      requires Valid()
      modifies this`queue, this`qlen, this`tC, this`tokens, this`ptokens
      ensures Valid() && View() == Sched(Bucket(old(View().b.p), buffer, mtu, now), [])
    {
      queue, qlen := [], 0;
      tC, tokens, ptokens := now, buffer, mtu;
    }
  }
}
