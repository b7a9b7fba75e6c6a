/** In a window of less than 2^31 the 32-bit resequencer does what the unbounded one does. */
module SequenceWindow {
  import opened SerialNumber
  import opened Resequencer

  function Wrap(s: Seg): Seg { s.(num := Norm(Wrapped, s.num)) }

  function WrapAll(buf: seq<Seg>): (r: seq<Seg>)
    ensures |r| == |buf| && forall j :: 0 <= j < |buf| ==> r[j] == Wrap(buf[j])
  {
    seq(|buf|, j requires 0 <= j < |buf| => Wrap(buf[j]))
  }

  function WrapFlow(f: Flow): Flow { Flow(Norm(Wrapped, f.expected), WrapAll(f.buf)) }

  function WrapPacket(p: Packet): Packet { p.(seg := Wrap(p.seg)) }

  function WrapResult(r: Result): Result { r.(flow := WrapFlow(r.flow), out := WrapAll(r.out)) }

  predicate Inside(lo: int, x: int) { lo <= x < lo + TWO31 }

  /** The values expected_next takes during the drain loop. */
  predicate DrainInside(lo: int, e: int, buf: seq<Seg>)
    decreases buf
  {
    Inside(lo, e) && (buf != [] && buf[0].num <= e ==> DrainInside(lo, End(Exact, buf[0]), buf[1..]))
  }

  ghost predicate BufInside(lo: int, buf: seq<Seg>) { forall j :: 0 <= j < |buf| ==> Inside(lo, buf[j].num) }

  /** Stored and expected positions lie in the window that starts at lo. */
  ghost predicate Window(lo: int, f: Flow, p: Packet) {
    && Inside(lo, f.expected) && BufInside(lo, f.buf) && Inside(lo, p.seg.num)
    && (p.seg.num <= f.expected ==> DrainInside(lo, Next(Exact, p), f.buf))
  }

  lemma NormAdd(x: int, n: int)
    ensures Norm(Wrapped, Norm(Wrapped, x) + n) == Norm(Wrapped, x + n)
  {
    Split(x);
    Split(x % TWO32 + n);
    var k := x / TWO32 + (x % TWO32 + n) / TWO32;
    assert U32(x + n + TWO32 * -k);
    ModSmall(x + n, -k);
  }

  lemma {:induction false} DueWrap(lo: int, e: int, buf: seq<Seg>)
    requires DrainInside(lo, e, buf) && BufInside(lo, buf)
    ensures Due(Wrapped, Norm(Wrapped, e), WrapAll(buf)) == Due(Exact, e, buf)
    decreases buf
  {
    if buf != [] {
      WindowOrder(buf[0].num, e);
      if buf[0].num <= e {
        NormAdd(buf[0].num, buf[0].size);
        assert WrapAll(buf)[1..] == WrapAll(buf[1..]);
        DueWrap(lo, End(Exact, buf[0]), buf[1..]);
      }
    }
  }

  lemma AfterWrap(e: int, buf: seq<Seg>, k: nat)
    requires k <= |buf|
    ensures After(Wrapped, Norm(Wrapped, e), WrapAll(buf), k) == Norm(Wrapped, After(Exact, e, buf, k))
  {
    if k > 0 {
      NormAdd(buf[k - 1].num, buf[k - 1].size);
    }
  }

  /** The descent ends in the same places. */
  lemma SlotWrap(lo: int, buf: seq<Seg>, n: int, i: nat)
    requires BufInside(lo, buf) && Inside(lo, n)
    ensures Slot(Wrapped, WrapAll(buf), Norm(Wrapped, n), i) <==> Slot(Exact, buf, n, i)
    ensures Hit(WrapAll(buf), Norm(Wrapped, n), i) <==> Hit(buf, n, i)
  {
    if 0 < i <= |buf| {
      WindowOrder(buf[i - 1].num, n);
    }
    if i < |buf| {
      WindowOrder(n, buf[i].num);
    }
  }

  lemma PlaceWrap(lo: int, buf: seq<Seg>, s: Seg, i: nat)
    requires BufInside(lo, buf) && Inside(lo, s.num) && i <= |buf|
    ensures Place(WrapAll(buf), Wrap(s), i) == WrapAll(Place(buf, s, i))
  {
    SlotWrap(lo, buf, s.num, i);
  }

  lemma StoreWrap(lo: int, f: Flow, s: Seg, i: nat, out: seq<Seg>)
    requires BufInside(lo, f.buf) && Inside(lo, s.num) && i <= |f.buf|
    ensures Store(WrapFlow(f), Wrap(s), i, WrapAll(out)) == WrapResult(Store(f, s, i, out))
  {
    SlotWrap(lo, f.buf, s.num, i);
    PlaceWrap(lo, f.buf, s, i);
  }

  lemma DropWrap(f: Flow)
    requires f.buf != []
    ensures Drop1(Wrapped, WrapFlow(f)) == WrapFlow(Drop1(Exact, f))
  {
    NormAdd(f.buf[0].num, f.buf[0].size);
    assert WrapAll(f.buf)[1..] == WrapAll(f.buf[1..]);
  }

  lemma NextWrap(p: Packet)
    ensures Next(Wrapped, WrapPacket(p)) == Norm(Wrapped, Next(Exact, p))
  {
    NormAdd(p.seg.num, 1);
    NormAdd(p.seg.num, p.seg.size);
  }

  lemma PassWrap(lo: int, f: Flow, e: int)
    requires BufInside(lo, f.buf) && DrainInside(lo, e, f.buf)
    ensures Pass(Wrapped, WrapFlow(f), Norm(Wrapped, e)) == WrapResult(Pass(Exact, f, e))
  {
    DueWrap(lo, e, f.buf);
    var k := Due(Exact, e, f.buf);
    AfterWrap(e, f.buf, k);
    assert WrapAll(f.buf)[k..] == WrapAll(f.buf[k..]);
    assert WrapAll(f.buf)[..k] == WrapAll(f.buf[..k]);
  }

  /** The packet is not stored into a full buffer whose first key has wrapped apart from it. */
  predicate Same(f: Flow, p: Packet) {
    p.seg.num <= f.expected || |f.buf| < FBUF_SIZ || f.buf[0].num / TWO32 == p.seg.num / TWO32
  }

  /** One step of the 32-bit resequencer is the wrapped step of the unbounded one, exactly unless the unsigned
      comparison of reorder_counter.c:178 meets numbers that have wrapped apart. */
  lemma StepWrap(lo: int, f: Flow, p: Packet, i: nat)
    requires Window(lo, f, p) && i <= |Target(Exact, f).buf|
    ensures Step(Wrapped, WrapFlow(f), WrapPacket(p), i) == WrapResult(Step(Exact, f, p, i)) <==> Same(f, p)
  {
    WindowOrder(p.seg.num, f.expected);
    if p.seg.num <= f.expected {
      NextWrap(p);
      PassWrap(lo, f, Next(Exact, p));
    } else {
      if |f.buf| < FBUF_SIZ {
        StoreWrap(lo, f, p.seg, i, []);
      } else {
        FullWrap(lo, f, p, i);
      }
    }
  }

  lemma FullWrap(lo: int, f: Flow, p: Packet, i: nat)
    requires Window(lo, f, p) && p.seg.num > f.expected && |f.buf| >= FBUF_SIZ && i < |f.buf|
    ensures Step(Wrapped, WrapFlow(f), WrapPacket(p), i) == WrapResult(Step(Exact, f, p, i)) <==> Same(f, p)
  {
    WindowOrder(p.seg.num, f.expected);
    RawOrder(f.buf[0].num, p.seg.num);
    var out := [f.buf[0]];
    DropWrap(f);
    StoreWrap(lo, Drop1(Exact, f), p.seg, i, out);
    assert WrapAll(out) == [Wrap(f.buf[0])];
    assert |WrapAll([])| == 0;
  }

  /** Such numbers exist: a full buffer just below 2^32 and a packet just above. */
  function Filled(k: nat): Flow { Flow(TWO32 - 2000, seq(k, (j: nat) => Seg(TWO32 - 1500 + j, 1, 0))) }

  const BEYOND: Packet := Packet(Seg(TWO32, 1, 0), false)

  lemma WrappedApart()
    ensures var f, p := Filled(FBUF_SIZ), BEYOND;
      && Window(TWO32 - 2001, f, p) && Good(Exact, f)
      && Legal(Exact, f, p, 1023) && Legal(Wrapped, WrapFlow(f), WrapPacket(p), 1023)
      && Step(Wrapped, WrapFlow(f), WrapPacket(p), 1023) != WrapResult(Step(Exact, f, p, 1023))
      && Step(Wrapped, WrapFlow(f), WrapPacket(p), 1023).flow != WrapFlow(Step(Exact, f, p, 1023).flow)
  {
    var f, p := Filled(FBUF_SIZ), BEYOND;
    assert f.buf[0].num / TWO32 == 0;
    assert p.seg.num / TWO32 == 1;
    LegalWrap(TWO32 - 2001, f, p, 1023);
    StepWrap(TWO32 - 2001, f, p, 1023);
  }

  lemma LegalWrap(lo: int, f: Flow, p: Packet, i: nat)
    requires Window(lo, f, p)
    ensures Legal(Wrapped, WrapFlow(f), WrapPacket(p), i) <==> Legal(Exact, f, p, i)
  {
    if |f.buf| >= FBUF_SIZ {
      DropWrap(f);
    }
    SlotWrap(lo, Target(Exact, f).buf, p.seg.num, i);
  }

  lemma {:induction false} AfterInside(lo: int, e: int, buf: seq<Seg>)
    requires DrainInside(lo, e, buf)
    ensures Inside(lo, After(Exact, e, buf, Due(Exact, e, buf)))
    decreases buf
  {
    if buf != [] && buf[0].num <= e {
      AfterInside(lo, End(Exact, buf[0]), buf[1..]);
    }
  }

  /** After the drain loop every key that is left is after expected_next, by the 32-bit comparison too. */
  lemma NothingDue(lo: int, f: Flow, p: Packet, i: nat, j: nat)
    requires Window(lo, f, p) && Good(Exact, f) && Legal(Exact, f, p, i) && Step(Exact, f, p, i).passed
    requires j < |Step(Exact, f, p, i).flow.buf|
    ensures var r := Step(Wrapped, WrapFlow(f), WrapPacket(p), i).flow;
      j < |r.buf| && Lt(Wrapped, r.expected, r.buf[j].num)
  {
    var r := Step(Exact, f, p, i).flow;
    StepWrap(lo, f, p, i);
    DrainedAhead(f, p, i, j);
    AfterInside(lo, Next(Exact, p), f.buf);
    WindowOrder(r.expected, r.buf[j].num);
  }

  // ----- runs

  /** A packet, and where the descent for it ends. */
  datatype Arrival = Arrival(p: Packet, i: nat)

  /** Everything released, in order, and what reorder_count gained. */
  datatype Trace = Trace(flow: Flow, out: seq<Seg>, grew: nat)

  ghost predicate LegalRun(w: Arith, f: Flow, run: seq<Arrival>)
    decreases run
  {
    run != [] ==> Legal(w, f, run[0].p, run[0].i) && LegalRun(w, Step(w, f, run[0].p, run[0].i).flow, run[1..])
  }

  function Released(r: Result, p: Packet): seq<Seg> { (if r.passed then [p.seg] else []) + r.out }

  ghost function Run(w: Arith, f: Flow, run: seq<Arrival>): Trace
    requires LegalRun(w, f, run)
    decreases run
  {
    if run == [] then Trace(f, [], 0)
    else
      var r := Step(w, f, run[0].p, run[0].i);
      var rest := Run(w, r.flow, run[1..]);
      Trace(rest.flow, Released(r, run[0].p) + rest.out, r.grew + rest.grew)
  }

  function WrapRun(run: seq<Arrival>): (r: seq<Arrival>)
    ensures |r| == |run| && forall j :: 0 <= j < |run| ==> r[j] == Arrival(WrapPacket(run[j].p), run[j].i)
  {
    seq(|run|, j requires 0 <= j < |run| => Arrival(WrapPacket(run[j].p), run[j].i))
  }

  function WrapTrace(t: Trace): Trace { Trace(WrapFlow(t.flow), WrapAll(t.out), t.grew) }

  /** Every step has its window; the windows may slide. */
  ghost predicate Windows(f: Flow, run: seq<Arrival>, los: seq<int>)
    decreases run
  {
    run != [] ==>
      && los != [] && Window(los[0], f, run[0].p) && Same(f, run[0].p) && run[0].i <= |Target(Exact, f).buf|
      && Windows(Step(Exact, f, run[0].p, run[0].i).flow, run[1..], los[1..])
  }

  lemma ReleasedWrap(r: Result, p: Packet, t: Trace)
    ensures Released(WrapResult(r), WrapPacket(p)) + WrapAll(t.out) == WrapAll(Released(r, p) + t.out)
  {
  }

  /** Whole runs: same branches, same buffers, same releases, same count. */
  lemma {:induction false} RunWrap(f: Flow, run: seq<Arrival>, los: seq<int>)
    requires Windows(f, run, los)
    ensures LegalRun(Wrapped, WrapFlow(f), WrapRun(run)) <==> LegalRun(Exact, f, run)
    ensures LegalRun(Exact, f, run) ==> Run(Wrapped, WrapFlow(f), WrapRun(run)) == WrapTrace(Run(Exact, f, run))
    decreases run
  {
    if run != [] {
      var p, i := run[0].p, run[0].i;
      LegalWrap(los[0], f, p, i);
      StepWrap(los[0], f, p, i);
      assert WrapRun(run)[1..] == WrapRun(run[1..]);
      var r := Step(Exact, f, p, i);
      RunWrap(r.flow, run[1..], los[1..]);
      if LegalRun(Exact, f, run) {
        ReleasedWrap(r, p, Run(Exact, r.flow, run[1..]));
      }
    }
  }

  // ----- a run that reaches such a buffer

  const OPENING: Packet := Packet(Seg(TWO32 - 2001, 1, 0), false)

  function Further(k: nat): Packet { Packet(Seg(TWO32 - 1500 + k, 1, 0), false) }

  /** What comes when k segments are stored. */
  function Filling(k: nat): seq<Arrival>
    requires k <= FBUF_SIZ
    decreases FBUF_SIZ - k
  {
    if k == FBUF_SIZ then [Arrival(BEYOND, 1023)] else [Arrival(Further(k), k)] + Filling(k + 1)
  }

  lemma FillStep(k: nat)
    requires k < FBUF_SIZ
    ensures Legal(Exact, Filled(k), Further(k), k) && Step(Exact, Filled(k), Further(k), k).flow == Filled(k + 1)
    ensures Legal(Wrapped, WrapFlow(Filled(k)), WrapPacket(Further(k)), k)
    ensures Step(Wrapped, WrapFlow(Filled(k)), WrapPacket(Further(k)), k).flow == WrapFlow(Filled(k + 1))
  {
    var f, p := Filled(k), Further(k);
    assert Window(TWO32 - 2001, f, p);
    LegalWrap(TWO32 - 2001, f, p, k);
    StepWrap(TWO32 - 2001, f, p, k);
    assert Place(f.buf, p.seg, k) == Filled(k + 1).buf;
  }

  /** The 32-bit flow at the end is not the wrapped unbounded one. */
  ghost predicate Apart(f: Flow, g: Flow, run: seq<Arrival>) {
    && LegalRun(Exact, f, run) && LegalRun(Wrapped, g, WrapRun(run))
    && Run(Wrapped, g, WrapRun(run)).flow != WrapFlow(Run(Exact, f, run).flow)
  }

  lemma {:induction false} FillsApart(k: nat)
    requires k <= FBUF_SIZ
    ensures Apart(Filled(k), WrapFlow(Filled(k)), Filling(k))
    decreases FBUF_SIZ - k
  {
    var run := Filling(k);
    if k == FBUF_SIZ {
      WrappedApart();
      assert run[1..] == [] && WrapRun(run)[1..] == [];
    } else {
      FillStep(k);
      FillsApart(k + 1);
      assert run[1..] == Filling(k + 1) && WrapRun(run)[1..] == WrapRun(Filling(k + 1));
    }
  }

  lemma OpensApart(rest: seq<Arrival>)
    requires Apart(Filled(0), WrapFlow(Filled(0)), rest)
    ensures Apart(Fresh(OPENING), Fresh(WrapPacket(OPENING)), [Arrival(OPENING, 0)] + rest)
  {
    var run := [Arrival(OPENING, 0)] + rest;
    assert run[1..] == rest && WrapRun(run)[1..] == WrapRun(rest);
    assert Step(Exact, Fresh(OPENING), OPENING, 0).flow == Filled(0);
    assert Step(Wrapped, Fresh(WrapPacket(OPENING)), WrapPacket(OPENING), 0).flow == WrapFlow(Filled(0));
  }

  /** There is a run from a new flow on which the two differ. */
  lemma RunApart() returns (run: seq<Arrival>)
    ensures run != [] && Apart(Fresh(run[0].p), Fresh(WrapPacket(run[0].p)), run)
  {
    var rest := Filling(0);
    FillsApart(0);
    OpensApart(rest);
    run := [Arrival(OPENING, 0)] + rest;
  }
}
