/**
 The order of the verdicts of nfqueue.c. Its expected_next is raised by an unsigned comparison (nfqueue.c:197, 370), so
 a stream is accepted in stream order if its segments start in one block of 2^32 numbers, and otherwise it gets stuck.
 */
module VerdictOrder {
  import opened SerialNumber
  import opened Resequencer
  import opened SequenceWindow
  import opened StreamOrder
  import opened Verdicts

  /** The verdicts that accept segments a, a + 1, ..., b - 1. */
  function Accepted(a: nat, b: nat): (r: seq<Verdict>)
    requires a <= b
    ensures |r| == b - a && forall j :: 0 <= j < |r| ==> r[j] == Verdict(a + j, true)
  {
    seq(b - a, (j: nat) => Verdict(a + j, true))
  }

  lemma AcceptedJoin(a: nat, b: nat, c: nat)
    requires a <= b <= c
    ensures Accepted(a, b) + Accepted(b, c) == Accepted(a, c)
  {
  }

  ghost predicate LegalRules(f: Flow, run: seq<Arrival>)
    decreases run
  {
    run != [] ==>
      Slot(Wrapped, Goal(f).buf, run[0].p.seg.num, run[0].i) && LegalRules(Rule(f, run[0].p, run[0].i).flow, run[1..])
  }

  /** A whole run of one flow, and its verdicts. */
  ghost function Rules(f: Flow, run: seq<Arrival>): Ruling
    requires LegalRules(f, run)
    decreases run
  {
    if run == [] then Ruling(f, [])
    else
      var r := Rule(f, run[0].p, run[0].i);
      Joined(r.verdicts, Rules(r.flow, run[1..]))
  }

  /** The first segment that the raise has to get past: a SYN sets expected_next outright. */
  function First(s: Stream): nat { if s.syn && |s.sizes| > 1 then 1 else 0 }

  /** Up to c the segments, but for a SYN, start in one block of 2^32 numbers. */
  predicate Level(s: Stream, c: nat) {
    First(s) <= c < |s.sizes| < |s.pos| && s.pos[First(s)] / TWO32 == s.pos[c] / TWO32
  }

  /** All of them do. */
  predicate OneBlock(s: Stream) { |s.sizes| > 0 && Level(s, |s.sizes| - 1) }

  /** m is the first missing segment and h waits; expected_next matters only while something is missing. */
  ghost predicate Stands(s: Stream, m: nat, h: seq<nat>, f: Flow)
    requires Contiguous(s) && m <= |s.sizes| && Indices(s, h)
  {
    f.buf == WrapAll(Segments(s, h)) && (m < |s.sizes| ==> f.expected == Norm(Wrapped, s.pos[m]))
  }

  // ----- the raise

  lemma BlockBetween(a: int, b: int, c: int)
    requires a <= b <= c && a / TWO32 == c / TWO32
    ensures a / TWO32 == b / TWO32
  {
  }

  /** Inside the block expected_next goes from segment to segment. */
  lemma RaiseNext(s: Stream, m: nat, c: nat)
    requires Contiguous(s) && Level(s, c) && First(s) <= m < c
    ensures Raise(Norm(Wrapped, s.pos[m]), Norm(Wrapped, s.pos[m + 1])) == Norm(Wrapped, s.pos[m + 1])
  {
    SameBlock(s, m, c);
    SameBlock(s, m + 1, c);
    Positions(s, m);
    Positions(s, m + 1);
    PosIncreases(s, m, m + 1);
    RawOrder(s.pos[m], s.pos[m + 1]);
  }

  lemma SameBlock(s: Stream, m: nat, c: nat)
    requires Contiguous(s) && Level(s, c) && First(s) <= m <= c
    ensures s.pos[m] / TWO32 == s.pos[First(s)] / TWO32
  {
    if First(s) < m {
      PosIncreases(s, First(s), m);
    }
    if m < c {
      PosIncreases(s, m, c);
    }
    BlockBetween(s.pos[First(s)], s.pos[m], s.pos[c]);
  }

  /** Across a block boundary it stays. */
  lemma RaiseStays(a: int, b: int)
    requires a < b && Near(a, b) && a / TWO32 != b / TWO32
    ensures Norm(Wrapped, b) < Norm(Wrapped, a) && Raise(Norm(Wrapped, a), Norm(Wrapped, b)) == Norm(Wrapped, a)
  {
    RawOrder(a, b);
    RawOrder(b, a);
  }

  lemma EndOf(s: Stream, k: nat)
    requires Contiguous(s) && k < |s.sizes| && !(k == 0 && s.syn)
    ensures End(Wrapped, Wrap(Segment(s, k))) == Norm(Wrapped, s.pos[k + 1])
  {
    assert Touches(s, k);
    NormAdd(s.pos[k], s.sizes[k]);
  }

  // ----- the missing segment releases itself and its successors

  lemma {:induction false} ReadyFirst(e: int, b: seq<Seg>, j: nat)
    requires b != [] && b[0].num == e && j < |b|
    ensures var e' := Raise(e, End(Wrapped, b[0]));
      Ready(e, b) == 1 + Ready(e', b[1..]) && Raised(e, b[..j + 1]) == Raised(e', b[1..][..j])
  {
    assert b[..j + 1][1..] == b[1..][..j];
  }

  /** The release stops before the edge, or the edge is the end. */
  predicate BeforeEdge(s: Stream, m: nat, c: nat) { m <= c || c + 1 == |s.sizes| }

  lemma {:induction false} ReadyFollows(s: Stream, m: nat, h: seq<nat>, e: int, c: nat)
    requires Contiguous(s) && Level(s, c) && 0 < m <= |s.sizes| && Indices(s, h) && Increasing(h)
    requires (forall j :: 0 <= j < |h| ==> m <= h[j]) && (m <= c ==> e == Norm(Wrapped, s.pos[m]))
    requires BeforeEdge(s, m + Follows(m, h), c)
    ensures var j, b := Follows(m, h), WrapAll(Segments(s, h));
      && m + j <= |s.sizes| && Ready(e, b) == j
      && (m + j <= c ==> Raised(e, b[..j]) == Norm(Wrapped, s.pos[m + j]))
    decreases h
  {
    if h != [] {
      Positions(s, m);
      Positions(s, h[0]);
      WindowOrder(s.pos[h[0]], s.pos[m]);
      if h[0] == m {
        var b, e' := WrapAll(Segments(s, h)), Raise(e, Norm(Wrapped, s.pos[m + 1]));
        EndOf(s, m);
        if m < c {
          RaiseNext(s, m, c);
        }
        assert b[1..] == WrapAll(Segments(s, h[1..]));
        ReadyFollows(s, m + 1, h[1..], e', c);
        ReadyFirst(e, b, Follows(m + 1, h[1..]));
      } else {
        PosIncreases(s, m, h[0]);
      }
    }
  }

  lemma AheadNext(s: Stream, m: nat, f: Flow, c: nat)
    requires Contiguous(s) && Level(s, c) && m < c && f.expected == Norm(Wrapped, s.pos[m])
    ensures Ahead(f, WrapPacket(PacketOf(s, m))) == Norm(Wrapped, s.pos[m + 1])
  {
    assert Touches(s, m);
    NormAdd(s.pos[m], 1);
    if !(m == 0 && s.syn) {
      EndOf(s, m);
      RaiseNext(s, m, c);
    }
  }

  lemma {:induction false} AcceptsRange(s: Stream, h: seq<nat>, m: nat)
    requires Indices(s, h) && h == Range(m, m + |h|)
    ensures Accepts(WrapAll(Segments(s, h))) == Accepted(m, m + |h|)
    decreases h
  {
    if h != [] {
      var b := WrapAll(Segments(s, h));
      assert b[1..] == WrapAll(Segments(s, h[1..]));
      assert h[1..] == Range(m + 1, m + 1 + |h[1..]|);
      AcceptsRange(s, h[1..], m + 1);
    }
  }

  /** Where the flow stands after it, and what it accepts. */
  ghost predicate Passes(s: Stream, m: nat, r: Ruling, m': nat, h': seq<nat>)
    requires Contiguous(s) && m <= m' <= |s.sizes| && Indices(s, h')
  {
    Stands(s, m', h', r.flow) && r.verdicts == Accepted(m, m')
  }

  lemma PassFirst(s: Stream, m: nat, g: Ruling, m': nat, h': seq<nat>)
    requires Contiguous(s) && m < m' <= |s.sizes| && Indices(s, h') && Passes(s, m + 1, g, m', h')
    ensures Passes(s, m, Joined([Verdict(m, true)], g), m', h')
  {
    AcceptedJoin(m, m + 1, m');
    assert Accepted(m, m + 1) == [Verdict(m, true)];
  }

  lemma {:induction false} SegmentsSplit(s: Stream, h: seq<nat>, j: nat)
    requires Indices(s, h) && j <= |h|
    ensures WrapAll(Segments(s, h))[..j] == WrapAll(Segments(s, h[..j]))
    ensures WrapAll(Segments(s, h))[j..] == WrapAll(Segments(s, h[j..]))
  {
  }

  lemma {:induction false} FlushRange(s: Stream, m: nat, h: seq<nat>, f: Flow, j: nat)
    requires Indices(s, h) && f.buf == WrapAll(Segments(s, h)) && j <= |h| && h[..j] == Range(m, m + j)
    ensures Flush(f, j).verdicts == Accepted(m, m + j) && Flush(f, j).flow.buf == WrapAll(Segments(s, h[j..]))
  {
    SegmentsSplit(s, h, j);
    AcceptsRange(s, h[..j], m);
  }

  lemma {:induction false} FlushDue(s: Stream, m: nat, h: seq<nat>, f: Flow, c: nat)
    requires Shape(s, m, h) && Level(s, c) && m <= c && f.buf == WrapAll(Segments(s, h))
    requires BeforeEdge(s, Gone(m, h, m), c) && (m < c ==> f.expected == Norm(Wrapped, s.pos[m + 1]))
    ensures var m', h' := Gone(m, h, m), Still(m, h, m, 0);
      m < m' <= |s.sizes| && Passes(s, m + 1, Flush(f, Ready(f.expected, f.buf)), m', h')
  {
    var j := Follows(m + 1, h);
    ReadyFollows(s, m + 1, h, f.expected, c);
    FollowsRange(m + 1, h);
    FlushRange(s, m + 1, h, f, j);
  }

  lemma RulePass(f: Flow, p: Packet, i: nat)
    requires p.seg.num == f.expected && i <= |Goal(f).buf|
    ensures var g := f.(expected := Ahead(f, p));
      Rule(f, p, i) == Joined([Verdict(p.seg.id, true)], Flush(g, Ready(g.expected, g.buf)))
  {
  }

  lemma {:induction false} RuleDue(s: Stream, m: nat, h: seq<nat>, f: Flow, i: nat, c: nat)
    requires Shape(s, m, h) && Level(s, c) && m <= c && Stands(s, m, h, f) && i <= |Goal(f).buf|
    requires BeforeEdge(s, Gone(m, h, m), c)
    ensures var m', h' := Gone(m, h, m), Still(m, h, m, 0);
      m < m' <= |s.sizes| && Passes(s, m, Rule(f, WrapPacket(PacketOf(s, m)), i), m', h')
  {
    var p := WrapPacket(PacketOf(s, m));
    var g := f.(expected := Ahead(f, p));
    if m < c {
      AheadNext(s, m, f, c);
    }
    FlushDue(s, m, h, g, c);
    RulePass(f, p, i);
    PassFirst(s, m, Flush(g, Ready(g.expected, g.buf)), Gone(m, h, m), Still(m, h, m, 0));
  }

  // ----- a segment ahead of the gap is kept

  lemma {:induction false} PlacedEarly(s: Stream, m: nat, h: seq<nat>, k: nat, i: nat)
    requires Shape(s, m, h) && m < k < |s.sizes| && k !in h
    requires Slot(Wrapped, WrapAll(Segments(s, h)), Norm(Wrapped, s.pos[k]), i)
    ensures i <= |h| && Shape(s, m, With(h, k, i)) && !Hit(WrapAll(Segments(s, h)), Norm(Wrapped, s.pos[k]), i)
    ensures Place(WrapAll(Segments(s, h)), Wrap(Segment(s, k)), i) == WrapAll(Segments(s, With(h, k, i)))
  {
    WindowShape(s, m, h, k);
    SlotWrap(s.pos[0], Segments(s, h), s.pos[k], i);
    SlotIncreasing(s, h, k, i);
    ShapeStored(s, m, h, k, i);
    PlaceWrap(s.pos[0], Segments(s, h), Segment(s, k), i);
    StoreEarly(s, m, h, k, i);
  }

  lemma {:induction false} NotDue(s: Stream, m: nat, k: nat)
    requires Contiguous(s) && m < k < |s.sizes|
    ensures !Le(Wrapped, Norm(Wrapped, s.pos[k]), Norm(Wrapped, s.pos[m]))
  {
    Positions(s, m);
    Positions(s, k);
    PosIncreases(s, m, k);
    WindowOrder(s.pos[k], s.pos[m]);
  }

  lemma {:induction false} RuleEarly(s: Stream, m: nat, h: seq<nat>, f: Flow, k: nat, i: nat)
    requires Shape(s, m, h) && m < k < |s.sizes| && k !in h && |h| < NFQ_SIZ && Stands(s, m, h, f)
    requires Slot(Wrapped, Goal(f).buf, Norm(Wrapped, s.pos[k]), i)
    ensures i <= |h| && Shape(s, m, With(h, k, i))
    ensures Passes(s, m, Rule(f, WrapPacket(PacketOf(s, k)), i), m, With(h, k, i))
  {
    NotDue(s, m, k);
    PlacedEarly(s, m, h, k, i);
    assert Rule(f, WrapPacket(PacketOf(s, k)), i) == Keep(f, Wrap(Segment(s, k)), i);
  }

  // ----- the run

  /** What is still to come is accepted from m on, and nothing stays held. */
  ghost predicate Whole(s: Stream, m: nat, r: Ruling)
    requires m <= |s.sizes|
  {
    r.verdicts == Accepted(m, |s.sizes|) && r.flow.buf == []
  }

  lemma {:induction false} ArrivalsStep(s: Stream, order: seq<nat>, slots: seq<nat>, t: nat)
    requires Indices(s, order) && t < |order| == |slots|
    ensures var run := WrapRun(Arrivals(s, order[t..], slots[t..]));
      && run[0] == Arrival(WrapPacket(PacketOf(s, order[t])), slots[t])
      && run[1..] == WrapRun(Arrivals(s, order[t + 1..], slots[t + 1..]))
  {
  }

  lemma {:induction false} RulesFrom(s: Stream, order: seq<nat>, slots: seq<nat>, t: nat, m: nat, h: seq<nat>, f: Flow)
    requires t <= |order| == |slots| && Shape(s, m, h) && OneBlock(s) && Stands(s, m, h, f) && Seen(order[..t], m, h)
    requires Permutation(order, |s.sizes|) && Roomy(order, NFQ_SIZ)
    requires LegalRules(f, WrapRun(Arrivals(s, order[t..], slots[t..])))
    ensures Whole(s, m, Rules(f, WrapRun(Arrivals(s, order[t..], slots[t..]))))
    decreases |order| - t, 1
  {
    if t == |order| {
      assert order[..t] == order;
      Complete(s, order, m, h);
    } else {
      NotYet(order, |s.sizes|, t, m, h);
      if order[t] == m {
        RulesDue(s, order, slots, t, m, h, f);
      } else {
        RulesEarly(s, order, slots, t, m, h, f);
      }
    }
  }

  lemma {:induction false} RulesDue(s: Stream, order: seq<nat>, slots: seq<nat>, t: nat, m: nat, h: seq<nat>, f: Flow)
    requires t < |order| == |slots| && Shape(s, m, h) && OneBlock(s) && Stands(s, m, h, f) && Seen(order[..t], m, h)
    requires Permutation(order, |s.sizes|) && Roomy(order, NFQ_SIZ) && order[t] == m
    requires LegalRules(f, WrapRun(Arrivals(s, order[t..], slots[t..])))
    ensures Whole(s, m, Rules(f, WrapRun(Arrivals(s, order[t..], slots[t..]))))
    decreases |order| - t, 0
  {
    var m' := Gone(m, h, m);
    NotYet(order, |s.sizes|, t, m, h);
    ArrivalsStep(s, order, slots, t);
    SeenDue(order[..t], m, h);
    ShapeDue(s, m, h);
    RuleDue(s, m, h, f, slots[t], |s.sizes| - 1);
    RulesFrom(s, order, slots, t + 1, m', Still(m, h, m, 0), Rule(f, WrapPacket(PacketOf(s, m)), slots[t]).flow);
    AcceptedJoin(m, m', |s.sizes|);
  }

  lemma {:induction false} RulesEarly(s: Stream, order: seq<nat>, slots: seq<nat>, t: nat, m: nat, h: seq<nat>, f: Flow)
    requires t < |order| == |slots| && Shape(s, m, h) && OneBlock(s) && Stands(s, m, h, f) && Seen(order[..t], m, h)
    requires Permutation(order, |s.sizes|) && Roomy(order, NFQ_SIZ) && m < order[t]
    requires LegalRules(f, WrapRun(Arrivals(s, order[t..], slots[t..])))
    ensures Whole(s, m, Rules(f, WrapRun(Arrivals(s, order[t..], slots[t..]))))
    decreases |order| - t, 0
  {
    var k, i := order[t], slots[t];
    NotYet(order, |s.sizes|, t, m, h);
    ArrivalsStep(s, order, slots, t);
    RoomAt(order, NFQ_SIZ, t, m, h);
    RuleEarly(s, m, h, f, k, i);
    SeenEarly(order[..t], m, h, k, i);
    RulesFrom(s, order, slots, t + 1, m, With(h, k, i), Rule(f, WrapPacket(PacketOf(s, k)), i).flow);
    AcceptedJoin(m, m, |s.sizes|);
  }

  /** For every arrival order that begins with the first segment and never makes more than NFQ_SIZ wait, every segment
      of a stream in one block is accepted, in stream order, and none stays held. */
  lemma {:induction false} AcceptedInOrder(s: Stream, order: seq<nat>, slots: seq<nat>)
    requires Contiguous(s) && OneBlock(s) && 0 < |order| == |slots| && order[0] == 0
    requires Permutation(order, |s.sizes|) && Roomy(order, NFQ_SIZ)
    requires LegalRules(Fresh(WrapPacket(PacketOf(s, order[0]))), WrapRun(Arrivals(s, order, slots)))
    ensures var r := Rules(Fresh(WrapPacket(PacketOf(s, order[0]))), WrapRun(Arrivals(s, order, slots)));
      r.verdicts == Accepted(0, |s.sizes|) && r.flow.buf == []
  {
    assert order[0..] == order && slots[0..] == slots;
    RulesFrom(s, order, slots, 0, 0, [], Fresh(WrapPacket(PacketOf(s, 0))));
  }

  // ----- a stream that crosses a block boundary

  /** Nothing in the buffer can raise e. */
  ghost predicate Low(buf: seq<Seg>, e: int) { forall j :: 0 <= j < |buf| ==> End(Wrapped, buf[j]) <= e }

  ghost predicate Stuck(f: Flow, e: int) { f.expected == e && f.buf != [] && Low(f.buf, e) }

  lemma RuleStuck(f: Flow, e: int, p: Packet, i: nat)
    requires (Stuck(f, e) || f == Flow(e, [])) && !Le(Wrapped, p.seg.num, e) && End(Wrapped, p.seg) <= e
    requires i <= |Goal(f).buf|
    ensures Stuck(Rule(f, p, i).flow, e)
  {
    if |f.buf| >= NFQ_SIZ {
      var b := f.buf[..1];
      assert b[1..] == [] && Raised(e, b) == Raised(Raise(e, End(Wrapped, b[0])), b[1..]);
    }
  }

  lemma BeyondBlock(s: Stream, c: nat, k: nat)
    requires Contiguous(s) && c < k < |s.sizes| && s.pos[c] / TWO32 != s.pos[c + 1] / TWO32
    ensures !Le(Wrapped, Norm(Wrapped, s.pos[k]), Norm(Wrapped, s.pos[c]))
    ensures End(Wrapped, Wrap(Segment(s, k))) <= Norm(Wrapped, s.pos[c])
  {
    NotDue(s, c, k);
    Positions(s, c);
    Positions(s, k + 1);
    PosIncreases(s, c, k + 1);
    PosIncreases(s, c, c + 1);
    EndOf(s, k);
    PosIncreases(s, c + 1, k + 1);
    BlockAfter(s.pos[c], s.pos[c + 1], s.pos[k + 1]);
    RaiseStays(s.pos[c], s.pos[k + 1]);
  }

  lemma BlockAfter(a: int, b: int, c: int)
    requires a <= b <= c && a / TWO32 != b / TWO32
    ensures a / TWO32 != c / TWO32
  {
  }

  /** Segment c is the last of its block, and not the last of the stream. */
  predicate Edge(s: Stream, c: nat) { Level(s, c) && c + 1 < |s.sizes| && s.pos[c] / TWO32 != s.pos[c + 1] / TWO32 }

  lemma {:induction false} EdgeFrom(s: Stream, k: nat) returns (c: nat)
    requires Contiguous(s) && !OneBlock(s) && Level(s, k)
    ensures Edge(s, c)
    decreases |s.sizes| - k
  {
    if s.pos[k] / TWO32 == s.pos[k + 1] / TWO32 {
      c := EdgeFrom(s, k + 1);
    } else {
      c := k;
    }
  }

  /** The release reaches the edge: it stops there, and so does expected_next. */
  lemma {:induction false} ReadyJams(s: Stream, m: nat, h: seq<nat>, e: int, c: nat)
    requires Contiguous(s) && Edge(s, c) && 0 < m <= c + 1 && Indices(s, h) && Increasing(h)
    requires (forall j :: 0 <= j < |h| ==> m <= h[j]) && c + 1 - m <= Follows(m, h)
    requires e == Norm(Wrapped, s.pos[if m <= c then m else c])
    ensures var j, b := c + 1 - m, WrapAll(Segments(s, h));
      Ready(e, b) == j && Raised(e, b[..j]) == Norm(Wrapped, s.pos[c])
    decreases h
  {
    if h != [] {
      Positions(s, c);
      Positions(s, h[0]);
      WindowOrder(s.pos[h[0]], s.pos[c]);
      if m > c {
        PosIncreases(s, c, h[0]);
      } else {
        var b := WrapAll(Segments(s, h));
        NextAtEdge(s, m, c);
        assert b[1..] == WrapAll(Segments(s, h[1..]));
        ReadyJams(s, m + 1, h[1..], Raise(e, Norm(Wrapped, s.pos[m + 1])), c);
        ReadyFirst(e, b, c - m);
      }
    }
  }

  /** Up to the edge expected_next goes on; at the edge it stays. */
  lemma {:induction false} NextAtEdge(s: Stream, m: nat, c: nat)
    requires Contiguous(s) && Edge(s, c) && First(s) <= m <= c && !(m == 0 && s.syn)
    ensures End(Wrapped, Wrap(Segment(s, m))) == Norm(Wrapped, s.pos[m + 1])
    ensures Raise(Norm(Wrapped, s.pos[m]), Norm(Wrapped, s.pos[m + 1]))
         == Norm(Wrapped, s.pos[if m < c then m + 1 else c])
  {
    EndOf(s, m);
    if m < c {
      RaiseNext(s, m, c);
    } else {
      Positions(s, c);
      Positions(s, c + 1);
      PosIncreases(s, c, c + 1);
      RaiseStays(s.pos[c], s.pos[c + 1]);
    }
  }

  lemma {:induction false} AheadJams(s: Stream, m: nat, f: Flow, c: nat)
    requires Contiguous(s) && Edge(s, c) && m <= c && f.expected == Norm(Wrapped, s.pos[m])
    ensures Ahead(f, WrapPacket(PacketOf(s, m))) == Norm(Wrapped, s.pos[if m < c then m + 1 else c])
  {
    if m < c {
      AheadNext(s, m, f, c);
    } else {
      NextAtEdge(s, m, c);
    }
  }

  /** What stays in the buffer lies beyond the edge. */
  ghost predicate Jammed(s: Stream, c: nat, f: Flow)
    requires c < |s.pos|
  {
    f.expected == Norm(Wrapped, s.pos[c]) && Low(f.buf, f.expected)
  }

  ghost predicate Beyond(h: seq<nat>, c: nat) { forall j :: 0 <= j < |h| ==> c < h[j] }

  lemma {:induction false} LowBeyond(s: Stream, c: nat, h: seq<nat>)
    requires Contiguous(s) && Edge(s, c) && Indices(s, h) && Beyond(h, c)
    ensures Low(WrapAll(Segments(s, h)), Norm(Wrapped, s.pos[c]))
  {
    forall j | 0 <= j < |h|
      ensures End(Wrapped, WrapAll(Segments(s, h))[j]) <= Norm(Wrapped, s.pos[c])
    {
      BeyondBlock(s, c, h[j]);
    }
  }

  lemma {:induction false} RuleJams(s: Stream, m: nat, h: seq<nat>, f: Flow, i: nat, c: nat)
    requires Shape(s, m, h) && Edge(s, c) && m <= c < Gone(m, h, m) && Stands(s, m, h, f) && i <= |Goal(f).buf|
    ensures var r := Rule(f, WrapPacket(PacketOf(s, m)), i).flow; Jammed(s, c, r) && (c + 1 in h ==> r.buf != [])
  {
    var p, j := WrapPacket(PacketOf(s, m)), c - m;
    AheadJams(s, m, f, c);
    ReadyJams(s, m + 1, h, Ahead(f, p), c);
    RulePass(f, p, i);
    FollowsRange(m + 1, h);
    SegmentsSplit(s, h, j);
    BeyondRest(m, h, c);
    LowBeyond(s, c, h[j..]);
  }

  /** Of what waits, exactly the part up to the edge was released. */
  lemma {:induction false} BeyondRest(m: nat, h: seq<nat>, c: nat)
    requires Increasing(h) && (forall j :: 0 <= j < |h| ==> m < h[j]) && m <= c < Gone(m, h, m)
    ensures c - m <= |h| && Beyond(h[c - m..], c) && (c + 1 in h ==> h[c - m..] != [])
  {
    FollowsRange(m + 1, h);
    var n := c - m;
    if n > 0 {
      assert h[..Follows(m + 1, h)][n - 1] == c;
    }
    if c + 1 in h {
      SplitIn(h, n, c + 1);
      assert n > 0 ==> forall j :: 0 <= j < n ==> h[..n][j] <= c;
    }
  }

  /** From there on nothing passes, and once something is held something stays held. */
  lemma {:induction false} JammedFrom(s: Stream, c: nat, order: seq<nat>, slots: seq<nat>, f: Flow)
    requires Contiguous(s) && Edge(s, c) && |order| == |slots| && Jammed(s, c, f)
    requires Indices(s, order) && Beyond(order, c) && (f.buf == [] ==> order != [])
    requires LegalRules(f, WrapRun(Arrivals(s, order, slots)))
    ensures Rules(f, WrapRun(Arrivals(s, order, slots))).flow.buf != []
    decreases order
  {
    if order != [] {
      var k, e := order[0], Norm(Wrapped, s.pos[c]);
      var p := WrapPacket(PacketOf(s, k));
      assert order[0..] == order && slots[0..] == slots;
      ArrivalsStep(s, order, slots, 0);
      BeyondBlock(s, c, k);
      assert f.buf == [] ==> f == Flow(e, []);
      RuleStuck(f, e, p, slots[0]);
      JammedFrom(s, c, order[1..], slots[1..], Rule(f, p, slots[0]).flow);
    }
  }

  /** A stream with an edge, in any order: when the segment before the edge has passed, the rest is held. */
  lemma {:induction false} JamsFrom(s: Stream, order: seq<nat>, slots: seq<nat>, t: nat, m: nat, h: seq<nat>, f: Flow,
                                    c: nat)
    requires t <= |order| == |slots| && Shape(s, m, h) && Edge(s, c) && m <= c && Stands(s, m, h, f)
    requires Seen(order[..t], m, h) && Permutation(order, |s.sizes|) && Roomy(order, NFQ_SIZ)
    requires LegalRules(f, WrapRun(Arrivals(s, order[t..], slots[t..])))
    ensures Rules(f, WrapRun(Arrivals(s, order[t..], slots[t..]))).flow.buf != []
    decreases |order| - t, 1
  {
    if t == |order| {
      assert order[..t] == order;
      Complete(s, order, m, h);
    } else {
      NotYet(order, |s.sizes|, t, m, h);
      if order[t] != m {
        JamsEarly(s, order, slots, t, m, h, f, c);
      } else if Gone(m, h, m) <= c {
        JamsLater(s, order, slots, t, m, h, f, c);
      } else {
        JamsNow(s, order, slots, t, m, h, f, c);
      }
    }
  }

  lemma {:induction false} JamsEarly(s: Stream, order: seq<nat>, slots: seq<nat>, t: nat, m: nat, h: seq<nat>, f: Flow,
                                     c: nat)
    requires t < |order| == |slots| && Shape(s, m, h) && Edge(s, c) && m <= c && Stands(s, m, h, f)
    requires Seen(order[..t], m, h) && Permutation(order, |s.sizes|) && Roomy(order, NFQ_SIZ) && m < order[t]
    requires LegalRules(f, WrapRun(Arrivals(s, order[t..], slots[t..])))
    ensures Rules(f, WrapRun(Arrivals(s, order[t..], slots[t..]))).flow.buf != []
    decreases |order| - t, 0
  {
    var k, i := order[t], slots[t];
    NotYet(order, |s.sizes|, t, m, h);
    ArrivalsStep(s, order, slots, t);
    RoomAt(order, NFQ_SIZ, t, m, h);
    RuleEarly(s, m, h, f, k, i);
    SeenEarly(order[..t], m, h, k, i);
    JamsFrom(s, order, slots, t + 1, m, With(h, k, i), Rule(f, WrapPacket(PacketOf(s, k)), i).flow, c);
  }

  lemma {:induction false} JamsLater(s: Stream, order: seq<nat>, slots: seq<nat>, t: nat, m: nat, h: seq<nat>, f: Flow,
                                     c: nat)
    requires t < |order| == |slots| && Shape(s, m, h) && Edge(s, c) && m <= c && Stands(s, m, h, f)
    requires Seen(order[..t], m, h) && Permutation(order, |s.sizes|) && Roomy(order, NFQ_SIZ)
    requires order[t] == m && Gone(m, h, m) <= c
    requires LegalRules(f, WrapRun(Arrivals(s, order[t..], slots[t..])))
    ensures Rules(f, WrapRun(Arrivals(s, order[t..], slots[t..]))).flow.buf != []
    decreases |order| - t, 0
  {
    var g := Rule(f, WrapPacket(PacketOf(s, m)), slots[t]).flow;
    NotYet(order, |s.sizes|, t, m, h);
    ArrivalsStep(s, order, slots, t);
    SeenDue(order[..t], m, h);
    ShapeDue(s, m, h);
    RuleDue(s, m, h, f, slots[t], c);
    JamsFrom(s, order, slots, t + 1, Gone(m, h, m), Still(m, h, m, 0), g, c);
  }

  lemma {:induction false} JamsNow(s: Stream, order: seq<nat>, slots: seq<nat>, t: nat, m: nat, h: seq<nat>, f: Flow,
                                   c: nat)
    requires t < |order| == |slots| && Shape(s, m, h) && Edge(s, c) && m <= c && Stands(s, m, h, f)
    requires Seen(order[..t], m, h) && Permutation(order, |s.sizes|) && Roomy(order, NFQ_SIZ)
    requires order[t] == m && Gone(m, h, m) > c
    requires LegalRules(f, WrapRun(Arrivals(s, order[t..], slots[t..])))
    ensures Rules(f, WrapRun(Arrivals(s, order[t..], slots[t..]))).flow.buf != []
    decreases |order| - t, 0
  {
    NotYet(order, |s.sizes|, t, m, h);
    ArrivalsStep(s, order, slots, t);
    RuleJams(s, m, h, f, slots[t], c);
    AllBeyond(s, order, t, m, h, c);
    JammedFrom(s, c, order[t + 1..], slots[t + 1..], Rule(f, WrapPacket(PacketOf(s, m)), slots[t]).flow);
  }

  /** When the edge is reached, what has not arrived is beyond it. */
  lemma {:induction false} AllBeyond(s: Stream, order: seq<nat>, t: nat, m: nat, h: seq<nat>, c: nat)
    requires t < |order| && Permutation(order, |s.sizes|) && Seen(order[..t], m, h) && order[t] == m && Increasing(h)
    requires (forall j :: 0 <= j < |h| ==> m < h[j]) && m <= c < Gone(m, h, m) && c + 1 < |s.sizes|
    ensures Beyond(order[t + 1..], c) && (c + 1 !in h ==> order[t + 1..] != [])
  {
    SeenDue(order[..t], m, h);
    var arrived := order[..t] + [m];
    forall j | t < j < |order|
      ensures c < order[j]
    {
      assert order[j] !in arrived;
    }
    if c + 1 !in h {
      assert c + 1 !in arrived && c + 1 in order;
      assert order == order[..t] + [m] + order[t + 1..];
    }
  }

  /** For every arrival order that begins with the first segment and never makes more than NFQ_SIZ wait, nothing stays
      held at the end if and only if the stream starts all its segments, but for a SYN, in one block. */
  lemma {:induction false} HeldExactly(s: Stream, order: seq<nat>, slots: seq<nat>)
    requires Contiguous(s) && 0 < |order| == |slots| && order[0] == 0
    requires Permutation(order, |s.sizes|) && Roomy(order, NFQ_SIZ)
    requires LegalRules(Fresh(WrapPacket(PacketOf(s, order[0]))), WrapRun(Arrivals(s, order, slots)))
    ensures Rules(Fresh(WrapPacket(PacketOf(s, order[0]))), WrapRun(Arrivals(s, order, slots))).flow.buf == []
       <==> OneBlock(s)
  {
    if OneBlock(s) {
      AcceptedInOrder(s, order, slots);
    } else {
      var c := EdgeFrom(s, First(s));
      assert order[0..] == order && slots[0..] == slots;
      JamsFrom(s, order, slots, 0, 0, [], Fresh(WrapPacket(PacketOf(s, 0))), c);
    }
  }

  /** In particular for a stream that arrives in order. */
  lemma {:induction false} InOrderExactly(s: Stream, slots: seq<nat>)
    requires Contiguous(s) && |slots| == |s.sizes|
    requires LegalRules(Fresh(WrapPacket(PacketOf(s, 0))), WrapRun(Arrivals(s, Range(0, |s.sizes|), slots)))
    ensures Rules(Fresh(WrapPacket(PacketOf(s, 0))), WrapRun(Arrivals(s, Range(0, |s.sizes|), slots))).flow.buf == []
       <==> OneBlock(s)
  {
    NoneWaits(|s.sizes|);
    HeldExactly(s, Range(0, |s.sizes|), slots);
  }

  /** Such a stream: 20 bytes from 2^32 - 10 on and 20 more. The second segment, number 10, is held. */
  lemma StuckExample()
    ensures var s := Stream([TWO32 - 10, TWO32 + 10, TWO32 + 30], [20, 20], false);
      var first, second := WrapPacket(PacketOf(s, 0)), WrapPacket(PacketOf(s, 1));
      && Contiguous(s) && !OneBlock(s) && second == Packet(Seg(10, 20, 1), false)
      && Rule(Fresh(first), first, 0) == Ruling(Flow(TWO32 - 10, []), [Verdict(0, true)])
      && Rule(Flow(TWO32 - 10, []), second, 0) == Ruling(Flow(TWO32 - 10, [Seg(10, 20, 1)]), [])
  {
    var s := Stream([TWO32 - 10, TWO32 + 10, TWO32 + 30], [20, 20], false);
    assert Touches(s, 0) && Touches(s, 1);
    RaiseStays(s.pos[0], s.pos[1]);
  }

  lemma NoneWaits(n: nat)
    ensures Permutation(Range(0, n), n) && Roomy(Range(0, n), NFQ_SIZ)
  {
    forall k | 0 <= k < n
      ensures k in Range(0, n)
    {
      RangeIn(0, n, k);
    }
    forall t | 0 <= t <= n
      ensures |Waiting(Range(0, n)[..t])| <= NFQ_SIZ
    {
      assert Range(0, n)[..t] == Range(0, t);
      assert Waiting(Range(0, t)) == {} by {
        forall k: nat, j: nat | k in Range(0, t) && j < k
          ensures j in Range(0, t)
        {
          RangeIn(0, t, k);
          RangeIn(0, t, j);
        }
      }
    }
  }
}
