/**
 The continuous bucket of the header comment (sch_tbf.c:47-58), and exactly when the scheduler, which brings its levels
 up to date only on a send, transmits like it.
 */
module ContinuousBucket {
  import opened Basics
  import opened PacketRate
  import opened TokenBucket

  /** N(t) and its peak counterpart at the time of the last poll. */
  datatype Level = Level(n: int, p: int, last: int)

  function Grown(q: Params, l: Level, now: int): Level {
    Level(Min(q.buffer, l.n + (now - l.last)), Min(q.mtu, l.p + (now - l.last)), now)
  }

  predicate Enough(q: Params, l: Level, len: nat) {
    Cost(q, len) <= l.n && (PeakPresent(q) ==> PeakCost(q, len) <= l.p)
  }

  /** A queue in front of the continuous bucket: every poll brings the level up to date. */
  datatype Fluid = Fluid(q: Params, l: Level, queue: seq<Packet>)

  predicate FluidSends(f: Fluid, e: Event) {
    e.Poll? && f.queue != [] && Enough(f.q, Grown(f.q, f.l, e.now), f.queue[0].len)
  }

  function FluidStep(f: Fluid, e: Event): Fluid {
    match e
    case Arrive(p) => f.(queue := f.queue + [p])
    case Change(params) => f.(q := params)
    case Poll(now) =>
      var g := Grown(f.q, f.l, now);
      if !FluidSends(f, e) then f.(l := g)
      else
        var len := f.queue[0].len;
        f.(l := g.(n := g.n - Cost(f.q, len), p := g.p - PeakCost(f.q, len)), queue := f.queue[1..])
  }

  function FluidOutput(f: Fluid, e: Event): seq<(Packet, int)> {
    if FluidSends(f, e) then [(f.queue[0], e.now)] else []
  }

  function FluidOutputs(f: Fluid, es: seq<Event>): seq<(Packet, int)>
    decreases es
  {
    if es == [] then [] else FluidOutput(f, es[0]) + FluidOutputs(FluidStep(f, es[0]), es[1..])
  }

  /** The packets and their times. */
  function Departures(sent: seq<Sent>): seq<(Packet, int)> {
    if sent == [] then [] else [(sent[0].p, sent[0].time)] + Departures(sent[1..])
  }

  lemma DeparturesStep(s: Sched, es: seq<Event>)
    requires es != []
    ensures Departures(Outputs(s, es)) == Departures(Output(s, es[0])) + Departures(Outputs(Step(s, es[0]), es[1..]))
  {
    var o, r := Output(s, es[0]), Outputs(Step(s, es[0]), es[1..]);
    if o == [] {
      assert o + r == r;
    } else {
      assert (o + r)[1..] == r;
    }
  }

  // ----- the levels

  /** The scheduler's tokens stand for the level n at time l.last. */
  ghost predicate Tracks(b: Bucket, l: Level) {
    && b.tC <= l.last && b.tokens >= 0 && b.ptokens >= 0
    && l.n == Min(b.p.buffer, b.tokens + (l.last - b.tC))
  }

  /** Likewise for the peak. */
  ghost predicate PeakTracks(b: Bucket, l: Level) { l.p == Min(b.p.mtu, b.ptokens + (l.last - b.tC)) }

  /** The peak levels may differ, but neither is ever below the level of the rate. */
  ghost predicate PeakAhead(b: Bucket, l: Level) { b.p.buffer <= b.p.mtu && b.tokens <= b.ptokens && l.n <= l.p }

  /** The levels agree, and go on to do so; or, unless `exact`, the peak does not matter. */
  ghost predicate Follows(b: Bucket, l: Level, exact: bool) {
    && Tracks(b, l) && (exact ==> b.p.mtu <= b.p.buffer)
    && (PeakPresent(b.p) ==> PeakTracks(b, l) || (!exact && PeakAhead(b, l)))
  }

  /** A packet of this length costs no more at the peak rate, or it is too long for one of the buckets. */
  predicate Harmless(q: Params, len: nat) {
    PeakCost(q, len) <= Cost(q, len) || Cost(q, len) > q.buffer || PeakCost(q, len) > q.mtu
  }

  lemma FollowsGrown(b: Bucket, l: Level, now: int, exact: bool)
    requires Follows(b, l, exact) && l.last <= now
    ensures Follows(b, Grown(b.p, l, now), exact)
  {
  }

  lemma FollowsPoll(b: Bucket, l: Level, now: int, len: nat, exact: bool)
    requires Follows(b, l, exact) && l.last <= now && (exact || Harmless(b.p, len))
    ensures var g := Grown(b.p, l, now);
      && (Passes(b, now, len) <==> Enough(b.p, g, len))
      && (Passes(b, now, len) ==>
            Follows(Send(b, now, len), g.(n := g.n - Cost(b.p, len), p := g.p - PeakCost(b.p, len)), exact))
  {
    BitOrSign(Toks(b, now, len), Ptoks(b, now, len));
  }

  // ----- the runs

  ghost predicate AllHarmless(q: Params, ps: seq<Packet>) { forall i :: 0 <= i < |ps| ==> Harmless(q, ps[i].len) }

  ghost predicate Simulates(s: Sched, f: Fluid, exact: bool) {
    s.b.p == f.q && s.queue == f.queue && Follows(s.b, f.l, exact) && (exact || AllHarmless(f.q, f.queue))
  }

  lemma SimulatesPoll(s: Sched, f: Fluid, now: int, exact: bool)
    requires Simulates(s, f, exact) && f.l.last <= now
    ensures Simulates(Step(s, Poll(now)), FluidStep(f, Poll(now)), exact)
    ensures Departures(Output(s, Poll(now))) == FluidOutput(f, Poll(now))
  {
    FollowsGrown(s.b, f.l, now, exact);
    if s.queue != [] {
      FollowsPoll(s.b, f.l, now, s.queue[0].len, exact);
    }
  }

  lemma SimulatesStep(s: Sched, f: Fluid, e: Event, exact: bool)
    requires Simulates(s, f, exact) && !e.Change? && (e.Poll? ==> f.l.last <= e.now)
    requires e.Arrive? ==> exact || Harmless(f.q, e.p.len)
    ensures Simulates(Step(s, e), FluidStep(f, e), exact) && Departures(Output(s, e)) == FluidOutput(f, e)
    ensures FluidStep(f, e).q == f.q && FluidStep(f, e).l.last == if e.Poll? then e.now else f.l.last
  {
    if e.Poll? {
      SimulatesPoll(s, f, e.now, exact);
    }
  }

  /** The scheduler transmits the same packets at the same polls as the continuous bucket, whatever polls fail in
      between: if the levels agree and the peak depth is within the buffer, or if every packet queued or arriving is
      harmless and the peak levels agree or are both ahead. */
  lemma {:induction false} LazyIsContinuous(s: Sched, f: Fluid, es: seq<Event>, exact: bool)
    requires Simulates(s, f, exact) && Timed(es, f.l.last) && NoChange(es) && (exact || AllHarmless(f.q, Arrivals(es)))
    ensures Departures(Outputs(s, es)) == FluidOutputs(f, es)
    decreases es
  {
    if es != [] {
      var a, rest := if es[0].Arrive? then [es[0].p] else [], Arrivals(es[1..]);
      assert forall i :: 0 <= i < |rest| ==> rest[i] == (a + rest)[|a| + i];
      assert forall i :: 0 <= i < |a| ==> a[i] == (a + rest)[i];
      assert es[0].Arrive? ==> a[0] == es[0].p;
      SimulatesStep(s, f, es[0], exact);
      DeparturesStep(s, es);
      LazyIsContinuous(Step(s, es[0]), FluidStep(f, es[0]), es[1..], exact);
    }
  }

  /** The same parameters q, the same queue, and the same levels. */
  ghost predicate Alike(q: Params, s: Sched, f: Fluid) {
    s.b.p == f.q == q && s.queue == f.queue && Tracks(s.b, f.l) && (PeakPresent(q) ==> PeakTracks(s.b, f.l))
  }

  // ----- a run that tells the two apart

  /** Polls that send packets of peak cost `cost` at time t while the lazy peak bucket, at level b, has enough, and one
      more poll just before it has enough again. */
  function Probe(t: int, cost: nat, b: nat): seq<Event>
    requires cost > 0
    decreases b
  {
    if b < cost then [Poll(t + (cost - 1 - b))] else [Poll(t)] + Probe(t, cost, b - cost)
  }

  function Copies(p: Packet, n: nat): (r: seq<Packet>)
    ensures |r| == n && forall i :: 0 <= i < n ==> r[i] == p
  {
    seq(n, _ => p)
  }

  lemma {:induction false} ProbeTimed(t: int, cost: nat, b: nat, from: int)
    requires cost > 0 && from <= t
    ensures Timed(Probe(t, cost, b), from) && NoChange(Probe(t, cost, b)) && |Probe(t, cost, b)| > 0
    decreases b
  {
    if b >= cost {
      ProbeTimed(t, cost, b - cost, t);
      var rest := Probe(t, cost, b - cost);
      assert Probe(t, cost, b)[1..] == rest;
    }
  }

  /** Packets p of cost c, and cp at the peak rate. */
  datatype Case = Case(q: Params, p: Packet, c: nat, cp: nat)

  /** That is more, although it fits both buckets. */
  ghost predicate Harmful(x: Case) {
    && x.q.buffer < x.q.mtu && x.c < x.cp <= x.q.mtu && x.c <= x.q.buffer
    && forall o :: Shown(o) ==> Cost(x.q, x.p.len) == x.c && PeakCost(x.q, x.p.len) == x.cp
  }

  type Harm = x: Case | Harmful(x)
    ghost witness Case(Params(0, 0, 0, 1, RateCfg(0, 0, false, 0, 0), RateCfg(1, 1, false, 1, 0)), Packet(0, 0), 0, 1)

  function LazyAt(x: Case, n: nat, t: int, a: int, b: int): Sched { Sched(Bucket(x.q, a, b, t), Copies(x.p, n)) }

  /** The continuous peak bucket is ahead of the lazy one. */
  function FluidAt(x: Case, n: nat, t: int, a: int, b: int): Fluid {
    Fluid(x.q, Level(a, b + (x.q.mtu - x.q.buffer), t), Copies(x.p, n))
  }

  /** The continuous bucket sends one packet more than the scheduler. */
  ghost predicate OneMore(s: Sched, f: Fluid, es: seq<Event>) {
    forall o :: Open(o) ==> |FluidOutputs(f, es)| == |Outputs(s, es)| + 1
  }

  lemma OneMoreFirst(s: Sched, f: Fluid, e: Event, rest: seq<Event>)
    requires |Output(s, e)| == |FluidOutput(f, e)| && OneMore(Step(s, e), FluidStep(f, e), rest)
    ensures OneMore(s, f, [e] + rest)
  {
    assert Open(0);
    assert ([e] + rest)[0] == e && ([e] + rest)[1..] == rest;
  }

  lemma OneMoreLast(s: Sched, f: Fluid, e: Event)
    requires Output(s, e) == [] && |FluidOutput(f, e)| == 1
    ensures OneMore(s, f, [e])
  {
    assert [e][1..] == [];
  }

  /** While the lazy bucket has enough, both send. */
  lemma BothSend(x: Harm, n: nat, t: int, a: int, b: int)
    requires x.cp <= b <= a <= x.q.buffer
    ensures var e := Poll(t);
      && |Output(LazyAt(x, n + 1, t, a, b), e)| == |FluidOutput(FluidAt(x, n + 1, t, a, b), e)| == 1
      && Step(LazyAt(x, n + 1, t, a, b), e) == LazyAt(x, n, t, a - x.c, b - x.cp)
      && FluidStep(FluidAt(x, n + 1, t, a, b), e) == FluidAt(x, n, t, a - x.c, b - x.cp)
  {
    assert Shown(0);
    BitOrSign(Toks(Bucket(x.q, a, b, t), t, x.p.len), Ptoks(Bucket(x.q, a, b, t), t, x.p.len));
    assert Copies(x.p, n + 1)[1..] == Copies(x.p, n);
  }

  ghost predicate Apart(x: Harm, t: int, a: int, b: nat) {
    forall o :: Shown(o) ==>
      var es := Probe(t, x.cp, b);
      OneMore(LazyAt(x, |es|, t, a, b), FluidAt(x, |es|, t, a, b), es)
  }

  lemma ProbeSend(x: Harm, t: int, a: int, b: nat)
    requires x.cp <= b <= a <= x.q.buffer && Apart(x, t, a - x.c, b - x.cp)
    ensures Apart(x, t, a, b)
  {
    assert Shown(0);
    var rest := Probe(t, x.cp, b - x.cp);
    var n := |rest|;
    BothSend(x, n, t, a, b);
    OneMoreFirst(LazyAt(x, n + 1, t, a, b), FluidAt(x, n + 1, t, a, b), Poll(t), rest);
  }

  /** Then there is a moment at which only the continuous one does. */
  lemma ProbeEnd(x: Harm, t: int, a: int, b: nat)
    requires b <= a <= x.q.buffer && b < x.cp
    ensures Apart(x, t, a, b)
  {
    var now := t + (x.cp - 1 - b);
    assert Shown(0);
    BitOrSign(Toks(Bucket(x.q, a, b, t), now, x.p.len), Ptoks(Bucket(x.q, a, b, t), now, x.p.len));
    OneMoreLast(LazyAt(x, 1, t, a, b), FluidAt(x, 1, t, a, b), Poll(now));
  }

  lemma {:induction false} ProbeApart(x: Harm, t: int, a: int, b: nat)
    requires b <= a <= x.q.buffer
    ensures Apart(x, t, a, b)
    decreases b
  {
    if b < x.cp {
      ProbeEnd(x, t, a, b);
    } else {
      ProbeApart(x, t, a - x.c, b - x.cp);
      ProbeSend(x, t, a, b);
    }
  }

  // from empty buckets

  function EmptyLazy(x: Case, n: nat): Sched { Sched(Bucket(x.q, 0, 0, 0), Copies(x.p, n)) }

  function EmptyFluid(x: Case, n: nat): Fluid { Fluid(x.q, Level(0, 0, 0), Copies(x.p, n)) }

  function Tell(x: Harm): seq<Event> { Probe(x.q.mtu, x.cp, x.q.buffer) }

  ghost predicate EmptyApart(x: Harm) {
    forall o :: Shown(o) ==> OneMore(EmptyLazy(x, |Tell(x)|), EmptyFluid(x, |Tell(x)|), Tell(x))
  }

  lemma EmptyBothSend(x: Harm, n: nat)
    requires x.cp <= x.q.buffer
    ensures var e, t, a, b := Poll(x.q.mtu), x.q.mtu, x.q.buffer - x.c, x.q.buffer - x.cp;
      && |Output(EmptyLazy(x, n + 1), e)| == |FluidOutput(EmptyFluid(x, n + 1), e)| == 1
      && Step(EmptyLazy(x, n + 1), e) == LazyAt(x, n, t, a, b)
      && FluidStep(EmptyFluid(x, n + 1), e) == FluidAt(x, n, t, a, b)
  {
    assert Shown(0);
    BitOrSign(Toks(Bucket(x.q, 0, 0, 0), x.q.mtu, x.p.len), Ptoks(Bucket(x.q, 0, 0, 0), x.q.mtu, x.p.len));
    assert Copies(x.p, n + 1)[1..] == Copies(x.p, n);
  }

  lemma EmptySend(x: Harm)
    requires x.cp <= x.q.buffer && Apart(x, x.q.mtu, x.q.buffer - x.c, x.q.buffer - x.cp)
    ensures EmptyApart(x)
  {
    assert Shown(0);
    var rest := Probe(x.q.mtu, x.cp, x.q.buffer - x.cp);
    var n := |rest|;
    EmptyBothSend(x, n);
    OneMoreFirst(EmptyLazy(x, n + 1), EmptyFluid(x, n + 1), Poll(x.q.mtu), rest);
  }

  lemma EmptyEnd(x: Harm)
    requires x.cp > x.q.buffer
    ensures EmptyApart(x)
  {
    var now := x.q.mtu + (x.cp - 1 - x.q.buffer);
    assert Shown(0);
    BitOrSign(Toks(Bucket(x.q, 0, 0, 0), now, x.p.len), Ptoks(Bucket(x.q, 0, 0, 0), now, x.p.len));
    OneMoreLast(EmptyLazy(x, 1), EmptyFluid(x, 1), Poll(now));
  }

  /** With any harmful length the two are told apart, from empty buckets and a queue of equal packets. */
  lemma HarmTells(x: Harm)
    ensures EmptyApart(x)
  {
    if x.q.buffer < x.cp {
      EmptyEnd(x);
    } else {
      ProbeApart(x, x.q.mtu, x.q.buffer - x.c, x.q.buffer - x.cp);
      EmptySend(x);
    }
  }

  lemma {:induction false} DeparturesCount(sent: seq<Sent>)
    ensures |Departures(sent)| == |sent|
  {
    if sent != [] {
      DeparturesCount(sent[1..]);
    }
  }

  // ----- the exact condition

  /** Every run without a change of the parameters, from every start at which the levels agree. */
  ghost predicate AlwaysAgree(q: Params) {
    forall s: Sched, f: Fluid, es: seq<Event> :: Alike(q, s, f) && Timed(es, f.l.last) && NoChange(es) ==>
      Departures(Outputs(s, es)) == FluidOutputs(f, es)
  }

  /** The scheduler transmits like the continuous bucket if and only if the peak depth is within the buffer or no length
      that fits both buckets costs more at the peak rate than at the rate. */
  lemma LazyExactly(q: Params)
    ensures AlwaysAgree(q) <==> q.mtu <= q.buffer || forall len: nat :: Harmless(q, len)
  {
    if q.mtu <= q.buffer || forall len: nat :: Harmless(q, len) {
      forall s: Sched, f: Fluid, es: seq<Event> | Alike(q, s, f) && Timed(es, f.l.last) && NoChange(es)
        ensures Departures(Outputs(s, es)) == FluidOutputs(f, es)
      {
        LazyIsContinuous(s, f, es, q.mtu <= q.buffer);
      }
    } else {
      var len: nat :| !Harmless(q, len);
      var x := Case(q, Packet(0, len), Cost(q, len), PeakCost(q, len));
      HarmTells(x);
      assert Shown(0) && Open(0);
      var es := Tell(x);
      ProbeTimed(q.mtu, x.cp, q.buffer, 0);
      DeparturesCount(Outputs(EmptyLazy(x, |es|), es));
      assert Alike(q, EmptyLazy(x, |es|), EmptyFluid(x, |es|));
    }
  }

  /** It can be for good: a packet whose peak cost is between the two depths is sent by the continuous bucket after a
      pause, and on no run by the lazy one that starts empty. */
  lemma LazyCanStarve(q: Params, p: Packet, rest: seq<Packet>, es: seq<Event>)
    requires PeakPresent(q) && Cost(q, p.len) <= q.buffer < PeakCost(q, p.len) <= q.mtu
    requires Timed(es, 0) && NoChange(es)
    ensures FluidOutputs(Fluid(q, Level(0, 0, 0), [p] + rest), [Poll(q.mtu)]) == [(p, q.mtu)]
    ensures Outputs(Sched(Bucket(q, 0, 0, 0), [p] + rest), es) == []
  {
    assert [Poll(q.mtu)][1..] == [];
    Blocked(Sched(Bucket(q, 0, 0, 0), [p] + rest), es, 0);
  }

  function ContinuousPeak(q: Params, p: int, d: int): int { Min(d + p, q.mtu) }

  /** The condition on the depths is exact: the two levels agree after every pause from every
      level if and only if the peak depth is within the buffer. */
  lemma PeakLevelExact(q: Params)
    requires q.buffer >= 0 && q.mtu >= 0
    ensures (forall p, d :: p >= 0 && d >= 0 ==> LazyPeak(q, p, d) == ContinuousPeak(q, p, d)) <==> q.mtu <= q.buffer
  {
    if q.mtu > q.buffer {
      assert LazyPeak(q, 0, q.mtu) != ContinuousPeak(q, 0, q.mtu);
    }
  }
}
