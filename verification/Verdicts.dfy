/** The resequencer of nfqueue.c as it is written below its early returns: every packet id gets one verdict. */
module Verdicts {
  import opened SerialNumber
  import opened Resequencer

  const NFQ_SIZ: nat := 256

  datatype Verdict = Verdict(id: nat, accept: bool)

  datatype Ruling = Ruling(flow: Flow, verdicts: seq<Verdict>)

  /** expected_next is only ever raised, in the unsigned order (nfqueue.c:197-198, 370-371). */
  function Raise(e: int, x: int): int { if x > e then x else e }

  /** How many segments the loop of nfqueue.c:202-206 releases. */
  function Ready(e: int, buf: seq<Seg>): (k: nat)
    ensures k <= |buf|
    decreases buf
  {
    if buf == [] || buf[0].num != e then 0 else 1 + Ready(Raise(e, End(Wrapped, buf[0])), buf[1..])
  }

  function Raised(e: int, buf: seq<Seg>): int
    decreases buf
  {
    if buf == [] then e else Raised(Raise(e, End(Wrapped, buf[0])), buf[1..])
  }

  function Accepts(buf: seq<Seg>): seq<Verdict> {
    if buf == [] then [] else [Verdict(buf[0].id, true)] + Accepts(buf[1..])
  }

  /** send_packet_at on the first k segments (nfqueue.c:358-378). */
  function Flush(f: Flow, k: nat): Ruling
    requires k <= |f.buf|
  {
    Ruling(Flow(Raised(f.expected, f.buf[..k]), f.buf[k..]), Accepts(f.buf[..k]))
  }

  /** insert_or_send_packet (nfqueue.c:299-356): of two segments with one number the smaller or older is dropped. */
  function Keep(f: Flow, s: Seg, i: nat): Ruling
    requires i <= |f.buf|
  {
    Ruling(f.(buf := Place(f.buf, s, i)),
           if !Hit(f.buf, s.num, i) then []
           else [Verdict(if f.buf[i].size > s.size then s.id else f.buf[i].id, false)])
  }

  function Joined(vs: seq<Verdict>, r: Ruling): Ruling { r.(verdicts := vs + r.verdicts) }

  function Goal(f: Flow): Flow { if |f.buf| < NFQ_SIZ then f else Flush(f, 1).flow }

  /** expected_next after a packet that passes (nfqueue.c:195-198). */
  function Ahead(f: Flow, p: Packet): int {
    if p.syn then Norm(Wrapped, p.seg.num + 1) else Raise(f.expected, End(Wrapped, p.seg))
  }

  /** nfqueue.c:187-276. */
  function Rule(f: Flow, p: Packet, i: nat): Ruling
    requires i <= |Goal(f).buf|
  {
    if Le(Wrapped, p.seg.num, f.expected) then
      var e := Ahead(f, p);
      Joined([Verdict(p.seg.id, true)], Flush(f.(expected := e), Ready(e, f.buf)))
    else if |f.buf| < NFQ_SIZ then Keep(f, p.seg, i)
    else if f.buf[0].num <= p.seg.num then Joined(Flush(f, 1).verdicts, Keep(Flush(f, 1).flow, p.seg, i))
    else Ruling(f, [Verdict(p.seg.id, true)])
  }

  // ----- what every step keeps of the buffer

  ghost predicate Sorted(f: Flow) { |f.buf| <= NFQ_SIZ && Ordered(Wrapped, f.buf) }

  lemma RuleSorted(f: Flow, p: Packet, i: nat)
    requires Sorted(f) && Slot(Wrapped, Goal(f).buf, p.seg.num, i)
    ensures Sorted(Rule(f, p, i).flow)
  {
    PlaceOrdered(Wrapped, Goal(f).buf, p.seg, i);
  }

  lemma {:induction false} RaisedUp(e: int, buf: seq<Seg>)
    ensures Raised(e, buf) >= e
    decreases buf
  {
    if buf != [] {
      RaisedUp(Raise(e, End(Wrapped, buf[0])), buf[1..]);
    }
  }

  /** Unlike the counter's, this expected_next only grows as an unsigned number, unless a SYN passes. */
  lemma RuleRaises(f: Flow, p: Packet, i: nat)
    requires i <= |Goal(f).buf| && !(p.syn && Le(Wrapped, p.seg.num, f.expected))
    ensures Rule(f, p, i).flow.expected >= f.expected
  {
    if Le(Wrapped, p.seg.num, f.expected) {
      RaisedUp(Ahead(f, p), f.buf[..Ready(Ahead(f, p), f.buf)]);
    } else if |f.buf| >= NFQ_SIZ {
      RaisedUp(f.expected, f.buf[..1]);
    }
  }

  lemma {:induction false} ReadyStops(e: int, buf: seq<Seg>)
    ensures var k := Ready(e, buf); k < |buf| ==> buf[k].num != Raised(e, buf[..k])
    decreases buf
  {
    if buf != [] && buf[0].num == e {
      var e', k := Raise(e, End(Wrapped, buf[0])), Ready(e, buf);
      ReadyStops(e', buf[1..]);
      assert buf[..k][1..] == buf[1..][..k - 1];
    }
  }

  /** After a packet passed, the segment expected next is not at the front of the buffer. */
  lemma RuleDrains(f: Flow, p: Packet, i: nat)
    requires i <= |Goal(f).buf| && Le(Wrapped, p.seg.num, f.expected)
    ensures var r := Rule(f, p, i).flow; r.buf != [] ==> r.buf[0].num != r.expected
  {
    ReadyStops(Ahead(f, p), f.buf);
  }

  // ----- conservation of packet ids: how often an id is held, judged or received

  function Once(a: nat, b: nat): nat { if a == b then 1 else 0 }

  function Kept(buf: seq<Seg>, id: nat): nat { if buf == [] then 0 else Once(buf[0].id, id) + Kept(buf[1..], id) }

  function Judged(vs: seq<Verdict>, id: nat): nat { if vs == [] then 0 else Once(vs[0].id, id) + Judged(vs[1..], id) }

  lemma {:induction false} KeptConcat(a: seq<Seg>, b: seq<Seg>, id: nat)
    ensures Kept(a + b, id) == Kept(a, id) + Kept(b, id)
  {
    if a == [] {
      assert a + b == b;
    } else {
      assert (a + b)[1..] == a[1..] + b;
      KeptConcat(a[1..], b, id);
    }
  }

  lemma {:induction false} JudgedConcat(a: seq<Verdict>, b: seq<Verdict>, id: nat)
    ensures Judged(a + b, id) == Judged(a, id) + Judged(b, id)
  {
    if a == [] {
      assert a + b == b;
    } else {
      assert (a + b)[1..] == a[1..] + b;
      JudgedConcat(a[1..], b, id);
    }
  }

  lemma KeptAround(a: seq<Seg>, s: Seg, b: seq<Seg>, id: nat)
    ensures Kept(a + [s] + b, id) == Kept(a, id) + Once(s.id, id) + Kept(b, id)
  {
    KeptConcat(a + [s], b, id);
    KeptConcat(a, [s], id);
  }

  lemma {:induction false} AcceptsKept(buf: seq<Seg>, id: nat)
    ensures Judged(Accepts(buf), id) == Kept(buf, id)
  {
    if buf != [] {
      AcceptsKept(buf[1..], id);
    }
  }

  /** An id that was held before or has come in is judged or held afterwards, as often. */
  predicate Conserves(before: Flow, inward: nat, r: Ruling, id: nat) {
    Kept(before.buf, id) + inward == Judged(r.verdicts, id) + Kept(r.flow.buf, id)
  }

  lemma FlushConserves(f: Flow, k: nat, id: nat)
    requires k <= |f.buf|
    ensures Conserves(f, 0, Flush(f, k), id)
  {
    assert f.buf == f.buf[..k] + f.buf[k..];
    KeptConcat(f.buf[..k], f.buf[k..], id);
    AcceptsKept(f.buf[..k], id);
  }

  lemma KeepConserves(f: Flow, s: Seg, i: nat, id: nat)
    requires i <= |f.buf|
    ensures Conserves(f, Once(s.id, id), Keep(f, s, i), id)
  {
    var b := f.buf;
    if !Hit(b, s.num, i) {
      assert b == b[..i] + b[i..];
      KeptConcat(b[..i], b[i..], id);
      KeptAround(b[..i], s, b[i..], id);
    } else {
      assert b == b[..i] + [b[i]] + b[i + 1..];
      assert b[i := s] == b[..i] + [s] + b[i + 1..];
      KeptAround(b[..i], b[i], b[i + 1..], id);
      KeptAround(b[..i], s, b[i + 1..], id);
    }
  }

  lemma RuleConserves(f: Flow, p: Packet, i: nat, id: nat)
    requires i <= |Goal(f).buf|
    ensures Conserves(f, Once(p.seg.id, id), Rule(f, p, i), id)
  {
    if Le(Wrapped, p.seg.num, f.expected) {
      var g := f.(expected := Ahead(f, p));
      FlushConserves(g, Ready(g.expected, f.buf), id);
      JudgedConcat([Verdict(p.seg.id, true)], Flush(g, Ready(g.expected, f.buf)).verdicts, id);
    } else if |f.buf| < NFQ_SIZ {
      KeepConserves(f, p.seg, i, id);
    } else if f.buf[0].num <= p.seg.num {
      FlushConserves(f, 1, id);
      KeepConserves(Flush(f, 1).flow, p.seg, i, id);
      JudgedConcat(Flush(f, 1).verdicts, Keep(Flush(f, 1).flow, p.seg, i).verdicts, id);
    }
  }

  // ----- all flows

  /** A packet for flow j (|flows| for a new one), or the timeout of flow j (nfqueue.c:380-403). */
  datatype Event = Arrive(j: nat, p: Packet, i: nat) | Expire(j: nat)

  datatype Queue = Queue(flows: seq<Flow>, verdicts: seq<Verdict>)

  function FlowOf(q: Queue, e: Event): Flow
    requires e.j < |q.flows| || e.Arrive?
  {
    if e.j < |q.flows| then q.flows[e.j] else Fresh(e.p)
  }

  predicate Possible(q: Queue, e: Event) {
    if e.Expire? then e.j < |q.flows| else e.j <= |q.flows| && e.i <= |Goal(FlowOf(q, e)).buf|
  }

  function Left(q: Queue, e: Event): seq<Flow>
    requires e.j <= |q.flows|
  {
    q.flows[..e.j]
  }

  function Right(q: Queue, e: Event): seq<Flow> { if e.j < |q.flows| then q.flows[e.j + 1..] else [] }

  function After(q: Queue, e: Event): Queue
    requires Possible(q, e)
  {
    var f := FlowOf(q, e);
    if e.Expire? then Queue(Left(q, e) + Right(q, e), q.verdicts + Flush(f, |f.buf|).verdicts)
    else
      var r := Rule(f, e.p, e.i);
      Queue(Left(q, e) + [r.flow] + Right(q, e), q.verdicts + r.verdicts)
  }

  function Held(flows: seq<Flow>, id: nat): nat {
    if flows == [] then 0 else Kept(flows[0].buf, id) + Held(flows[1..], id)
  }

  lemma {:induction false} HeldConcat(a: seq<Flow>, b: seq<Flow>, id: nat)
    ensures Held(a + b, id) == Held(a, id) + Held(b, id)
  {
    if a == [] {
      assert a + b == b;
    } else {
      assert (a + b)[1..] == a[1..] + b;
      HeldConcat(a[1..], b, id);
    }
  }

  lemma HeldAround(a: seq<Flow>, f: Flow, b: seq<Flow>, id: nat)
    ensures Held(a + [f] + b, id) == Held(a, id) + Kept(f.buf, id) + Held(b, id)
  {
    HeldConcat(a + [f], b, id);
    HeldConcat(a, [f], id);
  }

  lemma SplitHeld(q: Queue, e: Event, id: nat)
    requires Possible(q, e)
    ensures Held(q.flows, id) == Held(Left(q, e), id) + Kept(FlowOf(q, e).buf, id) + Held(Right(q, e), id)
  {
    if e.j < |q.flows| {
      assert q.flows == Left(q, e) + [q.flows[e.j]] + Right(q, e);
      HeldAround(Left(q, e), q.flows[e.j], Right(q, e), id);
    } else {
      assert q.flows == Left(q, e);
    }
  }

  function Inward(e: Event, id: nat): nat { if e.Arrive? then Once(e.p.seg.id, id) else 0 }

  function Known(q: Queue, id: nat): nat { Judged(q.verdicts, id) + Held(q.flows, id) }

  lemma StepConserves(q: Queue, e: Event, id: nat)
    requires Possible(q, e)
    ensures Known(After(q, e), id) == Known(q, id) + Inward(e, id)
  {
    var f := FlowOf(q, e);
    SplitHeld(q, e, id);
    if e.Expire? {
      FlushConserves(f, |f.buf|, id);
      HeldConcat(Left(q, e), Right(q, e), id);
      JudgedConcat(q.verdicts, Flush(f, |f.buf|).verdicts, id);
    } else {
      var r := Rule(f, e.p, e.i);
      RuleConserves(f, e.p, e.i, id);
      HeldAround(Left(q, e), r.flow, Right(q, e), id);
      JudgedConcat(q.verdicts, r.verdicts, id);
    }
  }

  ghost predicate Runs(q: Queue, es: seq<Event>)
    decreases es
  {
    es != [] ==> Possible(q, es[0]) && Runs(After(q, es[0]), es[1..])
  }

  ghost function Last(q: Queue, es: seq<Event>): Queue
    requires Runs(q, es)
    decreases es
  {
    if es == [] then q else Last(After(q, es[0]), es[1..])
  }

  function Received(es: seq<Event>, id: nat): nat {
    if es == [] then 0 else Inward(es[0], id) + Received(es[1..], id)
  }

  lemma {:induction false} RunConserves(q: Queue, es: seq<Event>, id: nat)
    requires Runs(q, es)
    ensures Known(Last(q, es), id) == Known(q, id) + Received(es, id)
    decreases es
  {
    if es != [] {
      StepConserves(q, es[0], id);
      RunConserves(After(q, es[0]), es[1..], id);
    }
  }

  /** At every point of every run, an id received once has had one verdict or is held by one node, never both, and an
      id not received has neither. */
  lemma OneVerdict(es: seq<Event>, id: nat)
    requires Runs(Queue([], []), es)
    ensures var q := Last(Queue([], []), es); Judged(q.verdicts, id) + Held(q.flows, id) == Received(es, id)
  {
    RunConserves(Queue([], []), es, id);
  }
}
