/**
 The token bucket of sch_tbf.c as a state machine on values, and the theorems its
 header comment states (sch_tbf.c:37-45): what may be sent in an interval, and when a
 throttled packet can go.
 Times, tokens and costs are in nanoseconds.
 */
module TokenBucket {
  import opened Basics
  import opened PacketRate

  datatype Packet = Packet(id: nat, len: nat)

  datatype Params = Params(limit: nat, maxSize: nat, buffer: int, mtu: int, rate: RateCfg, peak: RateCfg)

  /** The variables of struct tbf_sched_data; tC is the time of the last checkpoint. */
  datatype Bucket = Bucket(p: Params, tokens: int, ptokens: int, tC: int)

  function Min(a: int, b: int): int { if a < b then a else b }

  function Max(a: int, b: int): int { if a > b then a else b }

  /** tbf_peak_present */
  predicate PeakPresent(p: Params) { p.peak.rate != 0 }

  function Cost(p: Params, len: nat): nat { L2T(p.rate, len) }

  function PeakCost(p: Params, len: nat): nat { if PeakPresent(p) then L2T(p.peak, len) else 0 }

  /** The value of `toks` after sch_tbf.c:239, and of `ptoks` after sch_tbf.c:235. */
  function Toks(b: Bucket, now: int, len: nat): int {
    Min(Min(now - b.tC, b.p.buffer) + b.tokens, b.p.buffer) - Cost(b.p, len)
  }

  /** The peak level after a pause of d from level p (sch_tbf.c:228-233). */
  function LazyPeak(q: Params, p: int, d: int): int { Min(Min(d, q.buffer) + p, q.mtu) }

  function Ptoks(b: Bucket, now: int, len: nat): int {
    if PeakPresent(b.p) then LazyPeak(b.p, b.ptokens, now - b.tC) - L2T(b.p.peak, len) else 0
  }

  // ----- the sign of (toks|ptoks)

  function Size(a: int): nat { if a < 0 then -a else a }

  /** Bitwise or of two's complement numbers, bit by bit. */
  function BitOr(a: int, b: int): int
    decreases Size(a) + Size(b)
  {
    if (a == 0 || a == -1) && (b == 0 || b == -1) then (if a == -1 || b == -1 then -1 else 0)
    else 2 * BitOr(a / 2, b / 2) + (if a % 2 == 1 || b % 2 == 1 then 1 else 0)
  }

  lemma {:induction false} BitOrSign(a: int, b: int)
    ensures BitOr(a, b) >= 0 <==> a >= 0 && b >= 0
    decreases Size(a) + Size(b)
  {
    if !((a == 0 || a == -1) && (b == 0 || b == -1)) {
      BitOrSign(a / 2, b / 2);
    }
  }

  /** The test of sch_tbf.c:241. */
  predicate Passes(b: Bucket, now: int, len: nat) {
    BitOr(Toks(b, now, len), Ptoks(b, now, len)) >= 0
  }

  function Send(b: Bucket, now: int, len: nat): Bucket {
    b.(tokens := Toks(b, now, len), ptokens := Ptoks(b, now, len), tC := now)
  }

  // ----- when a throttled packet can go (sch_tbf.c:255-256)

  function Watchdog(b: Bucket, now: int, len: nat): int {
    now + Max(-Toks(b, now, len), -Ptoks(b, now, len))
  }

  /** What a packet needs to be sendable at all from this state. */
  predicate Fits(b: Bucket, len: nat) {
    && Cost(b.p, len) <= b.p.buffer
    && (PeakPresent(b.p) ==> PeakCost(b.p, len) <= b.p.mtu && PeakCost(b.p, len) <= b.p.buffer + b.ptokens)
  }

  /** If the packet can go at all, the watchdog fires at the first moment at which it can. */
  lemma WatchdogExact(b: Bucket, now: int, len: nat)
    requires b.tokens >= 0 && b.ptokens >= 0 && now >= b.tC && !Passes(b, now, len)
    ensures Fits(b, len) ==> Watchdog(b, now, len) > now
    ensures forall t :: t >= now ==> (Passes(b, t, len) <==> Fits(b, len) && t >= Watchdog(b, now, len))
  {
    BitOrSign(Toks(b, now, len), Ptoks(b, now, len));
    forall t | t >= now
      ensures Passes(b, t, len) <==> Fits(b, len) && t >= Watchdog(b, now, len)
    {
      BitOrSign(Toks(b, t, len), Ptoks(b, t, len));
    }
  }

  // ----- runs

  /** What can happen to a queue, other than tbf_reset. */
  datatype Event = Arrive(p: Packet) | Poll(now: int) | Change(params: Params)

  datatype Sched = Sched(b: Bucket, queue: seq<Packet>)

  /** A packet as it left: when, and what it cost at the parameters then in force. */
  datatype Sent = Sent(p: Packet, time: int, b: Bucket)

  function Step(s: Sched, e: Event): Sched {
    match e
    case Arrive(p) => s.(queue := s.queue + [p])
    case Poll(now) =>
      if s.queue == [] || !Passes(s.b, now, s.queue[0].len) then s
      else Sched(Send(s.b, now, s.queue[0].len), s.queue[1..])
    case Change(params) => s.(b := s.b.(p := params))
  }

  function Output(s: Sched, e: Event): seq<Sent> {
    if e.Poll? && s.queue != [] && Passes(s.b, e.now, s.queue[0].len) then [Sent(s.queue[0], e.now, Step(s, e).b)]
    else []
  }

  function Outputs(s: Sched, es: seq<Event>): seq<Sent>
    decreases es
  {
    if es == [] then [] else Output(s, es[0]) + Outputs(Step(s, es[0]), es[1..])
  }

  /** The clock does not go back. */
  ghost predicate Timed(es: seq<Event>, t: int) {
    es != [] ==>
      && (es[0].Poll? ==> t <= es[0].now)
      && (es[0].Change? ==> es[0].params.mtu >= 0)
      && Timed(es[1..], if es[0].Poll? then es[0].now else t)
  }

  ghost predicate NoChange(es: seq<Event>) {
    forall i :: 0 <= i < |es| ==> !es[i].Change?
  }

  // ----- the burst bound (sch_tbf.c:37-45)

  /** One bucket's view of a packet: its cost, the depth in force, and the tokens left. */
  datatype Charge = Charge(time: int, cost: int, depth: int, left: int)

  function RateCharge(x: Sent): Charge { Charge(x.time, Cost(x.b.p, x.p.len), x.b.p.buffer, x.b.tokens) }

  function PeakCharge(x: Sent): Charge { Charge(x.time, PeakCost(x.b.p, x.p.len), x.b.p.mtu, x.b.ptokens) }

  function Charges(sent: seq<Sent>, peak: bool): (c: seq<Charge>)
    ensures |c| == |sent|
    ensures forall i :: 0 <= i < |c| ==> c[i] == if peak then PeakCharge(sent[i]) else RateCharge(sent[i])
  {
    if sent == [] then []
    else [if peak then PeakCharge(sent[0]) else RateCharge(sent[0])] + Charges(sent[1..], peak)
  }

  function Total(c: seq<Charge>): int { if c == [] then 0 else c[0].cost + Total(c[1..]) }

  /** What each send leaves: no more than was there plus the time passed, less the cost. */
  ghost predicate Paid(c: seq<Charge>, left: int, t: int) {
    c != [] ==>
      && 0 <= c[0].left <= left + (c[0].time - t) - c[0].cost
      && c[0].left <= c[0].depth - c[0].cost
      && Paid(c[1..], c[0].left, c[0].time)
  }

  lemma {:induction false} OutputsPaid(s: Sched, es: seq<Event>, t: int)
    requires s.b.tokens >= 0 && s.b.ptokens >= 0 && s.b.p.mtu >= 0 && s.b.tC <= t && Timed(es, t)
    ensures Paid(Charges(Outputs(s, es), false), s.b.tokens, s.b.tC)
    ensures Paid(Charges(Outputs(s, es), true), s.b.ptokens, s.b.tC)
    decreases es
  {
    if es != [] {
      var s', t' := Step(s, es[0]), if es[0].Poll? then es[0].now else t;
      if Output(s, es[0]) == [] {
        OutputsPaid(s', es[1..], t');
        assert Outputs(s, es) == Outputs(s', es[1..]);
      } else {
        var len := s.queue[0].len;
        BitOrSign(Toks(s.b, t', len), Ptoks(s.b, t', len));
        OutputsPaid(s', es[1..], t');
        assert Outputs(s, es)[1..] == Outputs(s', es[1..]);
      }
    }
  }

  lemma {:induction false} PaidBound(c: seq<Charge>, left: int, t: int, k: nat)
    requires Paid(c, left, t) && k <= |c|
    ensures k > 0 ==> Total(c[..k]) <= left + (c[k - 1].time - t)
  {
    if k > 0 {
      assert c[..k][0] == c[0] && c[..k][1..] == c[1..][..k - 1];
      PaidBound(c[1..], c[0].left, c[0].time, k - 1);
    }
  }

  lemma SliceTail<T>(c: seq<T>, i: nat, k: nat)
    requires 0 < i <= k <= |c|
    ensures c[i..k] == c[1..][i - 1..k - 1]
  {
    forall j | 0 <= j < k - i
      ensures c[i..k][j] == c[1..][i - 1..k - 1][j]
    {
      assert c[i..k][j] == c[i + j] && c[1..][i - 1..k - 1][j] == c[1..][i - 1 + j];
    }
  }

  lemma {:induction false} PaidSuffix(c: seq<Charge>, left: int, t: int, i: nat, k: nat)
    requires Paid(c, left, t) && i < k <= |c|
    ensures Total(c[i..k]) <= c[i].depth + (c[k - 1].time - c[i].time)
  {
    if i == 0 {
      PaidBound(c[1..], c[0].left, c[0].time, k - 1);
      assert c[0..k][1..] == c[1..][..k - 1];
    } else {
      PaidSuffix(c[1..], c[0].left, c[0].time, i - 1, k - 1);
      SliceTail(c, i, k);
    }
  }

  /** Over every run, and across any number of changes of the parameters: packets i to k cost no
      more than the depth in force at packet i and the time from i to k; likewise for the peak. */
  lemma BurstBound(s: Sched, es: seq<Event>, t: int, i: nat, k: nat)
    requires s.b.tokens >= 0 && s.b.ptokens >= 0 && s.b.p.mtu >= 0 && s.b.tC <= t && Timed(es, t)
    requires i <= k < |Outputs(s, es)|
    ensures var sent := Outputs(s, es);
      && Total(Charges(sent, false)[i..k + 1]) <= sent[i].b.p.buffer + (sent[k].time - sent[i].time)
      && Total(Charges(sent, true)[i..k + 1]) <= sent[i].b.p.mtu + (sent[k].time - sent[i].time)
  {
    OutputsPaid(s, es, t);
    PaidSuffix(Charges(Outputs(s, es), false), s.b.tokens, s.b.tC, i, k + 1);
    PaidSuffix(Charges(Outputs(s, es), true), s.b.ptokens, s.b.tC, i, k + 1);
  }

  // ----- the same in bytes

  /** The bytes these packets put on the wire. */
  function WireTotal(r: RateCfg, sent: seq<Sent>): nat {
    if sent == [] then 0 else Wire(r, sent[0].p.len) + WireTotal(r, sent[1..])
  }

  lemma WireStep(w: nat, more: nat, mult: nat, cost: nat, rest: int, n: nat, e: nat)
    requires w * mult < cost * e + e && more * mult <= (rest + n) * e - n
    ensures (w + more) * mult <= (cost + rest + n + 1) * e - (n + 1)
  {
    assert (w + more) * mult == w * mult + more * mult;
    assert (cost + rest + n + 1) * e == cost * e + e + (rest + n) * e;
  }

  lemma {:induction false} WireCost(r: RateCfg, sent: seq<Sent>)
    requires forall j :: 0 <= j < |sent| ==> sent[j].b.p.rate == r
    ensures WireTotal(r, sent) * r.mult <= (Total(Charges(sent, false)) + |sent|) * Exp2(r.shift) - |sent|
  {
    if sent != [] {
      var w, e, rest := Wire(r, sent[0].p.len), Exp2(r.shift), sent[1..];
      WireCost(r, rest);
      QuotientTimes(Product(w, r.mult), e);
      assert Charges(sent, false)[1..] == Charges(rest, false);
      WireStep(w, WireTotal(r, rest), r.mult, L2T(r, sent[0].p.len), Total(Charges(rest, false)), |rest|, e);
    }
  }

  lemma RaiseLimit(time: nat, spent: int, limit: int, n: nat, e: nat)
    requires time <= (spent + n) * e - n && spent <= limit && n > 0
    ensures time < (limit + n) * e
  {
    var more := limit - spent;
    assert (spent + n + more) * e == (spent + n) * e + more * e;
  }

  lemma {:induction false} WireWithin(r: RateCfg, sent: seq<Sent>, limit: int)
    requires sent != [] && forall j :: 0 <= j < |sent| ==> sent[j].b.p.rate == r
    requires Total(Charges(sent, false)) <= limit
    ensures WireTotal(r, sent) * r.mult < (limit + |sent|) * Exp2(r.shift)
  {
    WireCost(r, sent);
    RaiseLimit(WireTotal(r, sent) * r.mult, Total(Charges(sent, false)), limit, |sent|, Exp2(r.shift));
  }

  /** The wire bytes of packets i to k, at mult / 2^shift nanoseconds each, take no more than the depth at i and the
      time from i to k, but for less than one nanosecond of rounding a packet. */
  ghost predicate WithinRate(sent: seq<Sent>, i: nat, k: nat, r: RateCfg)
    requires i <= k < |sent|
  {
    WireTotal(r, sent[i..k + 1]) * r.mult
      < (sent[i].b.p.buffer + (sent[k].time - sent[i].time) + (k - i + 1)) * Exp2(r.shift)
  }

  lemma {:induction false} BytesWithin(sent: seq<Sent>, i: nat, k: nat, r: RateCfg)
    requires i <= k < |sent| && forall j :: i <= j <= k ==> sent[j].b.p.rate == r
    requires Total(Charges(sent, false)[i..k + 1]) <= sent[i].b.p.buffer + (sent[k].time - sent[i].time)
    ensures WithinRate(sent, i, k, r)
  {
    var part := sent[i..k + 1];
    assert Charges(sent, false)[i..k + 1] == Charges(part, false);
    WireWithin(r, part, sent[i].b.p.buffer + (sent[k].time - sent[i].time));
  }

  /** The burst bound in bytes, over every run and wherever the rate stays the same from packet i to packet k. */
  lemma {:induction false} ByteBound(s: Sched, es: seq<Event>, t: int, i: nat, k: nat, r: RateCfg)
    requires s.b.tokens >= 0 && s.b.ptokens >= 0 && s.b.p.mtu >= 0 && s.b.tC <= t && Timed(es, t)
    requires i <= k < |Outputs(s, es)| && forall j :: i <= j <= k ==> Outputs(s, es)[j].b.p.rate == r
    ensures WithinRate(Outputs(s, es), i, k, r)
  {
    BurstBound(s, es, t, i, k);
    BytesWithin(Outputs(s, es), i, k, r);
  }

  // ----- first in, first out

  function Arrivals(es: seq<Event>): seq<Packet> {
    if es == [] then [] else (if es[0].Arrive? then [es[0].p] else []) + Arrivals(es[1..])
  }

  function Final(s: Sched, es: seq<Event>): Sched
    decreases es
  {
    if es == [] then s else Final(Step(s, es[0]), es[1..])
  }

  function Packets(sent: seq<Sent>): seq<Packet> {
    if sent == [] then [] else [sent[0].p] + Packets(sent[1..])
  }

  lemma PacketsStep(s: Sched, es: seq<Event>)
    requires es != []
    ensures Packets(Outputs(s, es)) == Packets(Output(s, es[0])) + Packets(Outputs(Step(s, es[0]), es[1..]))
    ensures Packets(Output(s, es[0])) + Step(s, es[0]).queue == s.queue + (if es[0].Arrive? then [es[0].p] else [])
  {
    var o, r := Output(s, es[0]), Outputs(Step(s, es[0]), es[1..]);
    if o == [] {
      assert o + r == r;
    } else {
      assert (o + r)[1..] == r;
    }
  }

  lemma Join<T>(o: seq<T>, p: seq<T>, f: seq<T>, q: seq<T>, r: seq<T>, s: seq<T>, a: seq<T>)
    requires p + f == q + r && o + q == s + a
    ensures (o + p) + f == s + (a + r)
  {
    assert (o + p) + f == o + (p + f) && o + (q + r) == (o + q) + r && (s + a) + r == s + (a + r);
  }

  /** Nothing is lost, duplicated or reordered: what was sent, then what is queued, is what came in. */
  lemma {:induction false} InOrder(s: Sched, es: seq<Event>)
    ensures Packets(Outputs(s, es)) + Final(s, es).queue == s.queue + Arrivals(es)
    decreases es
  {
    if es != [] {
      var s', rest := Step(s, es[0]), es[1..];
      InOrder(s', rest);
      PacketsStep(s, es);
      var o, a := Packets(Output(s, es[0])), if es[0].Arrive? then [es[0].p] else [];
      Join(o, Packets(Outputs(s', rest)), Final(s', rest).queue, s'.queue, Arrivals(rest), s.queue, a);
    }
  }

  // ----- a head that can never be sent

  /** A head that does not fit is never sent, and nothing behind it. By WatchdogExact, a head that fits goes when the
      watchdog fires. */
  lemma {:induction false} Blocked(s: Sched, es: seq<Event>, t: int)
    requires s.queue != [] && !Fits(s.b, s.queue[0].len) && s.b.tokens >= 0 && s.b.ptokens >= 0
    requires s.b.tC <= t && Timed(es, t) && NoChange(es)
    ensures Outputs(s, es) == []
    decreases es
  {
    if es != [] {
      if es[0].Poll? {
        BitOrSign(Toks(s.b, es[0].now, s.queue[0].len), Ptoks(s.b, es[0].now, s.queue[0].len));
      }
      Blocked(Step(s, es[0]), es[1..], if es[0].Poll? then es[0].now else t);
    }
  }

  /** A packet of at most max_size never needs more than the depth of either bucket. */
  ghost predicate Sized(p: Params) {
    forall len: nat :: len <= p.maxSize ==> Cost(p, len) <= p.buffer && (PeakPresent(p) ==> PeakCost(p, len) <= p.mtu)
  }

  /** Depth is not enough, because a pause gives the peak bucket no more than `buffer`: every packet of at most max_size
      can be sent from every state if and only if the largest one's peak cost is within the buffer, too. */
  lemma NeverBlocked(p: Params)
    requires Sized(p)
    ensures (forall b: Bucket, len: nat :: b.p == p && b.ptokens >= 0 && len <= p.maxSize ==> Fits(b, len))
            <==> !PeakPresent(p) || PeakCost(p, p.maxSize) <= p.buffer
  {
    if !PeakPresent(p) || PeakCost(p, p.maxSize) <= p.buffer {
      forall b: Bucket, len: nat | b.p == p && b.ptokens >= 0 && len <= p.maxSize
        ensures Fits(b, len)
      {
        L2TMonotone(p.peak, len, p.maxSize);
      }
    } else {
      assert !Fits(Bucket(p, 0, 0, 0), p.maxSize);
    }
  }
}
