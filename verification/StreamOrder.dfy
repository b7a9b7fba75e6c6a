/** A stream whose segments arrive in any order leaves the resequencer in stream order. */
module StreamOrder {
  import opened SerialNumber
  import opened Resequencer
  import opened SequenceWindow

  /** Segment k covers pos[k] up to pos[k + 1]. Only the first may be a SYN, which takes one number. */
  datatype Stream = Stream(pos: seq<int>, sizes: seq<nat>, syn: bool)

  predicate Touches(s: Stream, k: nat)
    requires k < |s.sizes| < |s.pos|
  {
    && s.pos[k + 1] == s.pos[k] + (if k == 0 && s.syn then 1 else s.sizes[k])
    && s.pos[k] < s.pos[k + 1]
  }

  ghost predicate Contiguous(s: Stream) {
    && |s.sizes| > 0 && |s.pos| == |s.sizes| + 1
    && (forall k :: 0 <= k < |s.sizes| ==> Touches(s, k))
    && s.pos[|s.sizes|] < s.pos[0] + TWO31
  }

  function Segment(s: Stream, k: nat): Seg
    requires k < |s.sizes| < |s.pos|
  {
    Seg(s.pos[k], s.sizes[k], k)
  }

  function PacketOf(s: Stream, k: nat): Packet
    requires k < |s.sizes| < |s.pos|
  {
    Packet(Segment(s, k), k == 0 && s.syn)
  }

  ghost predicate Indices(s: Stream, h: seq<nat>) {
    |s.sizes| < |s.pos| && forall j :: 0 <= j < |h| ==> h[j] < |s.sizes|
  }

  function Segments(s: Stream, h: seq<nat>): (r: seq<Seg>)
    requires Indices(s, h)
    ensures |r| == |h| && forall j :: 0 <= j < |h| ==> r[j] == Segment(s, h[j])
  {
    seq(|h|, j requires 0 <= j < |h| => Segment(s, h[j]))
  }

  /** a, a + 1, ..., b - 1 */
  function Range(a: nat, b: nat): (r: seq<nat>)
    requires a <= b
    ensures |r| == b - a && forall j :: 0 <= j < |r| ==> r[j] == a + j
  {
    seq(b - a, j => a + j)
  }

  // ----- what the arrival order alone says

  /** Some segment before k has not arrived. */
  ghost predicate Early(k: nat, arrived: seq<nat>) { exists j: nat :: j < k && j !in arrived }

  /** How many segments arrived before some earlier segment. */
  ghost function EarlyCount(order: seq<nat>): nat {
    if order == [] then 0
    else
      var t := |order| - 1;
      EarlyCount(order[..t]) + (if Early(order[t], order[..t]) then 1 else 0)
  }

  ghost function Waiting(arrived: seq<nat>): set<nat> { set k | k in arrived && Early(k, arrived) }

  /** Every segment arrives, once. */
  ghost predicate Permutation(order: seq<nat>, n: nat) {
    && (forall j :: 0 <= j < |order| ==> order[j] < n)
    && (forall i, j :: 0 <= i < j < |order| ==> order[i] != order[j])
    && (forall k :: 0 <= k < n ==> k in order)
  }

  /** At no moment more than `limit` segments have to wait. */
  ghost predicate Roomy(order: seq<nat>, limit: nat) {
    forall t :: 0 <= t <= |order| ==> |Waiting(order[..t])| <= limit
  }

  function Arrivals(s: Stream, order: seq<nat>, slots: seq<nat>): (r: seq<Arrival>)
    requires Indices(s, order) && |slots| == |order|
    ensures |r| == |order| && forall j :: 0 <= j < |order| ==> r[j] == Arrival(PacketOf(s, order[j]), slots[j])
  {
    seq(|order|, j requires 0 <= j < |order| => Arrival(PacketOf(s, order[j]), slots[j]))
  }

  // ----- the state

  ghost predicate Increasing(h: seq<nat>) { forall i, j :: 0 <= i < j < |h| ==> h[i] < h[j] }

  /** m is the first missing segment, and h waits. */
  ghost predicate Shape(s: Stream, m: nat, h: seq<nat>) {
    Contiguous(s) && m <= |s.sizes| && Indices(s, h) && Increasing(h) && forall j :: 0 <= j < |h| ==> m < h[j]
  }

  /** What has arrived is what was released and what waits. */
  ghost predicate Seen(arrived: seq<nat>, m: nat, h: seq<nat>) { forall k: nat :: k in arrived <==> k < m || k in h }

  ghost function FlowAt(s: Stream, m: nat, h: seq<nat>): Flow
    requires Contiguous(s) && m <= |s.sizes| && Indices(s, h)
  {
    Flow(s.pos[m], Segments(s, h))
  }

  lemma {:induction false} PosIncreases(s: Stream, a: nat, b: nat)
    requires Contiguous(s) && a < b <= |s.sizes|
    ensures s.pos[a] < s.pos[b]
    decreases b
  {
    assert Touches(s, b - 1);
    if a + 1 < b {
      PosIncreases(s, a, b - 1);
    }
  }

  ghost function Elements(h: seq<nat>): set<nat> { set k | k in h }

  lemma {:induction false} Distinct(h: seq<nat>)
    requires Increasing(h)
    ensures |Elements(h)| == |h|
  {
    if h != [] {
      var t := |h| - 1;
      var h', k := h[..t], h[t];
      Distinct(h');
      assert h == h' + [k];
      assert Elements(h) == Elements(h') + {k};
      assert k !in h';
    }
  }

  lemma WaitingSeen(arrived: seq<nat>, m: nat, h: seq<nat>)
    requires Seen(arrived, m, h) && Increasing(h) && forall j :: 0 <= j < |h| ==> m < h[j]
    ensures |Waiting(arrived)| == |h|
  {
    assert m !in arrived;
    forall k: nat
      ensures k in Waiting(arrived) <==> k in h
    {
    }
    assert Waiting(arrived) == Elements(h);
    Distinct(h);
  }

  // ----- a segment ahead of the gap is stored

  function With(h: seq<nat>, k: nat, i: nat): seq<nat>
    requires i <= |h|
  {
    h[..i] + [k] + h[i..]
  }

  lemma InsertIncreasing(h: seq<nat>, k: nat, i: nat)
    requires Increasing(h) && i <= |h| && (i > 0 ==> h[i - 1] < k) && (i < |h| ==> k < h[i])
    ensures Increasing(With(h, k, i))
  {
    assert forall j :: 0 <= j < i ==> h[j] < k;
    assert forall j :: i <= j < |h| ==> k < h[j];
  }

  lemma SlotIncreasing(s: Stream, h: seq<nat>, k: nat, i: nat)
    requires Contiguous(s) && Indices(s, h) && Increasing(h) && k < |s.sizes| && k !in h
    requires Slot(Exact, Segments(s, h), s.pos[k], i)
    ensures i <= |h| && !Hit(Segments(s, h), s.pos[k], i) && Increasing(With(h, k, i))
  {
    forall j | 0 <= j < |h|
      ensures s.pos[h[j]] < s.pos[k] <==> h[j] < k
      ensures s.pos[h[j]] != s.pos[k]
    {
      if h[j] < k {
        PosIncreases(s, h[j], k);
      } else {
        PosIncreases(s, k, h[j]);
      }
    }
    InsertIncreasing(h, k, i);
  }

  lemma WithIn(h: seq<nat>, k: nat, i: nat)
    requires i <= |h|
    ensures forall l :: l in With(h, k, i) <==> l in h || l == k
  {
    assert h == h[..i] + h[i..];
  }

  lemma ShapeStored(s: Stream, m: nat, h: seq<nat>, k: nat, i: nat)
    requires Shape(s, m, h) && m < k < |s.sizes| && i <= |h| && Increasing(With(h, k, i))
    ensures Shape(s, m, With(h, k, i))
  {
    WithIn(h, k, i);
    var h' := With(h, k, i);
    forall j | 0 <= j < |h'|
      ensures m < h'[j] < |s.sizes|
    {
      assert h'[j] in h';
    }
  }

  lemma StoreEarly(s: Stream, m: nat, h: seq<nat>, k: nat, i: nat)
    requires Contiguous(s) && m <= |s.sizes| && Indices(s, h) && k < |s.sizes| && i <= |h|
    requires !Hit(Segments(s, h), s.pos[k], i)
    ensures Indices(s, With(h, k, i))
    ensures Store(FlowAt(s, m, h), Segment(s, k), i, []) == Result(FlowAt(s, m, With(h, k, i)), [], false, 1)
  {
    assert Place(Segments(s, h), Segment(s, k), i) == Segments(s, With(h, k, i));
  }

  lemma StepEarly(s: Stream, m: nat, h: seq<nat>, k: nat, i: nat)
    requires Shape(s, m, h) && m < k < |s.sizes| && k !in h && |h| < FBUF_SIZ
    requires Legal(Exact, FlowAt(s, m, h), PacketOf(s, k), i)
    ensures i <= |h| && Shape(s, m, With(h, k, i))
    ensures Step(Exact, FlowAt(s, m, h), PacketOf(s, k), i) == Result(FlowAt(s, m, With(h, k, i)), [], false, 1)
  {
    PosIncreases(s, m, k);
    SlotIncreasing(s, h, k, i);
    ShapeStored(s, m, h, k, i);
    StoreEarly(s, m, h, k, i);
  }

  // ----- the missing segment releases itself and its successors

  /** The prefix of h that continues m. */
  function Follows(m: nat, h: seq<nat>): (j: nat)
    ensures j <= |h|
    decreases h
  {
    if h == [] || h[0] != m then 0 else 1 + Follows(m + 1, h[1..])
  }

  lemma {:induction false} FollowsRange(m: nat, h: seq<nat>)
    requires Increasing(h) && forall j :: 0 <= j < |h| ==> m <= h[j]
    ensures var j := Follows(m, h);
      h[..j] == Range(m, m + j) && forall i :: j <= i < |h| ==> m + j < h[i]
    decreases h
  {
    if h != [] && h[0] == m {
      FollowsRange(m + 1, h[1..]);
      var j := Follows(m + 1, h[1..]);
      assert h[..j + 1] == [h[0]] + h[1..][..j];
    }
  }

  lemma AfterStep(e: int, b: seq<Seg>, k: nat)
    requires k < |b|
    ensures After(Exact, e, b, k + 1) == After(Exact, End(Exact, b[0]), b[1..], k)
  {
  }

  lemma {:induction false} DueFollows(s: Stream, m: nat, h: seq<nat>)
    requires Contiguous(s) && 0 < m <= |s.sizes| && Indices(s, h) && Increasing(h)
    requires forall j :: 0 <= j < |h| ==> m <= h[j]
    ensures var j := Follows(m, h);
      && m + j <= |s.sizes| && Due(Exact, s.pos[m], Segments(s, h)) == j
      && After(Exact, s.pos[m], Segments(s, h), j) == s.pos[m + j]
    decreases h
  {
    if h != [] {
      if h[0] == m {
        var b := Segments(s, h);
        assert Touches(s, m);
        assert End(Exact, b[0]) == s.pos[m + 1];
        assert b[1..] == Segments(s, h[1..]);
        DueFollows(s, m + 1, h[1..]);
        AfterStep(s.pos[m], b, Follows(m + 1, h[1..]));
      } else {
        PosIncreases(s, m, h[0]);
      }
    }
  }

  lemma ShapeDue(s: Stream, m: nat, h: seq<nat>)
    requires Shape(s, m, h) && m < |s.sizes|
    ensures var j := Follows(m + 1, h); Shape(s, m + 1 + j, h[j..]) && h[..j] == Range(m + 1, m + 1 + j)
  {
    var j := Follows(m + 1, h);
    FollowsRange(m + 1, h);
    if j > 0 {
      assert h[..j][j - 1] == m + j;
    }
    ShapeRest(s, m, h, m + 1 + j, j);
  }

  lemma ShapeRest(s: Stream, m: nat, h: seq<nat>, m': nat, j: nat)
    requires Shape(s, m, h) && m' <= |s.sizes| && j <= |h| && forall i :: j <= i < |h| ==> m' < h[i]
    ensures Shape(s, m', h[j..])
  {
  }

  lemma PassDue(s: Stream, m: nat, h: seq<nat>)
    requires Contiguous(s) && m < |s.sizes| && Indices(s, h) && Increasing(h) && forall j :: 0 <= j < |h| ==> m < h[j]
    ensures var j := Follows(m + 1, h);
      && m + 1 + j <= |s.sizes|
      && Pass(Exact, FlowAt(s, m, h), s.pos[m + 1])
         == Result(FlowAt(s, m + 1 + j, h[j..]), Segments(s, h[..j]), true, 0)
  {
    var j := Follows(m + 1, h);
    DueFollows(s, m + 1, h);
    assert Segments(s, h)[j..] == Segments(s, h[j..]);
    assert Segments(s, h)[..j] == Segments(s, h[..j]);
  }

  lemma StepDue(s: Stream, m: nat, h: seq<nat>, i: nat)
    requires Shape(s, m, h) && m < |s.sizes| && i <= |Target(Exact, FlowAt(s, m, h)).buf|
    ensures var j := Follows(m + 1, h);
      && m + 1 + j <= |s.sizes|
      && Step(Exact, FlowAt(s, m, h), PacketOf(s, m), i)
         == Result(FlowAt(s, m + 1 + j, h[j..]), Segments(s, h[..j]), true, 0)
  {
    PassDue(s, m, h);
    assert Touches(s, m);
    assert Next(Exact, PacketOf(s, m)) == s.pos[m + 1];
  }

  // ----- the run

  lemma {:induction false} DrainStage(s: Stream, m: nat, h: seq<nat>)
    requires Contiguous(s) && 0 < m <= |s.sizes| && Indices(s, h) && forall j :: 0 <= j < |h| ==> m <= h[j]
    requires Increasing(h)
    ensures DrainInside(s.pos[0], s.pos[m], Segments(s, h))
    decreases h
  {
    Positions(s, m);
    if h != [] {
      if h[0] == m {
        assert Touches(s, m);
        assert Segments(s, h)[1..] == Segments(s, h[1..]);
        DrainStage(s, m + 1, h[1..]);
      } else {
        PosIncreases(s, m, h[0]);
      }
    }
  }

  lemma Positions(s: Stream, k: nat)
    requires Contiguous(s) && k <= |s.sizes|
    ensures Inside(s.pos[0], s.pos[k])
  {
    if k > 0 {
      PosIncreases(s, 0, k);
    }
    if k < |s.sizes| {
      PosIncreases(s, k, |s.sizes|);
    }
  }

  lemma WindowShape(s: Stream, m: nat, h: seq<nat>, k: nat)
    requires Shape(s, m, h) && m <= k < |s.sizes|
    ensures Window(s.pos[0], FlowAt(s, m, h), PacketOf(s, k))
  {
    Positions(s, m);
    Positions(s, k);
    forall j | 0 <= j < |h|
      ensures Inside(s.pos[0], Segments(s, h)[j].num)
    {
      Positions(s, h[j]);
    }
    if k == m {
      assert Touches(s, m);
      DrainStage(s, m + 1, h);
    } else {
      PosIncreases(s, m, k);
    }
  }

  lemma EarlyNext(order: seq<nat>, t: nat)
    requires t < |order|
    ensures EarlyCount(order[..t + 1]) == EarlyCount(order[..t]) + (if Early(order[t], order[..t]) then 1 else 0)
  {
    assert order[..t + 1][..t] == order[..t];
  }

  lemma RangeJoin(s: Stream, a: nat, b: nat, c: nat)
    requires Contiguous(s) && a <= b <= c <= |s.sizes|
    ensures WrapAll(Segments(s, Range(a, b))) + WrapAll(Segments(s, Range(b, c))) == WrapAll(Segments(s, Range(a, c)))
  {
  }

  lemma RangeCons(s: Stream, m: nat, h: seq<nat>)
    requires Contiguous(s) && Indices(s, h) && m + 1 + |h| <= |s.sizes| && h == Range(m + 1, m + 1 + |h|)
    ensures [Wrap(Segment(s, m))] + WrapAll(Segments(s, h)) == WrapAll(Segments(s, Range(m, m + 1 + |h|)))
  {
  }

  /** Where segment k takes the state: it releases itself and its successors, or it waits. */
  ghost function Gone(m: nat, h: seq<nat>, k: nat): nat { if k == m then m + 1 + Follows(m + 1, h) else m }

  ghost function Still(m: nat, h: seq<nat>, k: nat, i: nat): seq<nat>
    requires k != m ==> i <= |h|
  {
    if k == m then h[Follows(m + 1, h)..] else With(h, k, i)
  }

  // what the arrivals alone tell

  lemma SplitIn(h: seq<nat>, j: nat, k: nat)
    requires j <= |h|
    ensures k in h <==> k in h[..j] || k in h[j..]
  {
    assert h == h[..j] + h[j..];
  }

  lemma RangeIn(a: nat, b: nat, k: nat)
    requires a <= b
    ensures k in Range(a, b) <==> a <= k < b
  {
    if a <= k < b {
      assert Range(a, b)[k - a] == k;
    }
  }

  lemma SeenDue(arrived: seq<nat>, m: nat, h: seq<nat>)
    requires Seen(arrived, m, h) && Increasing(h) && forall j :: 0 <= j < |h| ==> m < h[j]
    ensures Seen(arrived + [m], Gone(m, h, m), Still(m, h, m, 0)) && !Early(m, arrived)
  {
    FollowsRange(m + 1, h);
    SeenReleased(arrived, m, h, Follows(m + 1, h));
  }

  lemma SeenReleased(arrived: seq<nat>, m: nat, h: seq<nat>, j: nat)
    requires Seen(arrived, m, h) && j <= |h| && h[..j] == Range(m + 1, m + 1 + j)
    ensures Seen(arrived + [m], m + 1 + j, h[j..]) && !Early(m, arrived)
  {
    forall k: nat
      ensures k in arrived + [m] <==> k < m + 1 + j || k in h[j..]
    {
      SplitIn(h, j, k);
      RangeIn(m + 1, m + 1 + j, k);
    }
  }

  lemma SeenEarly(arrived: seq<nat>, m: nat, h: seq<nat>, k: nat, i: nat)
    requires Seen(arrived, m, h) && m < k && i <= |h| && forall j :: 0 <= j < |h| ==> m < h[j]
    ensures Seen(arrived + [k], m, With(h, k, i)) && Early(k, arrived)
  {
    WithIn(h, k, i);
    assert m !in arrived;
  }

  lemma Bigger(a: set<nat>, b: set<nat>, k: nat)
    requires a <= b && k in b && k !in a
    ensures |a| < |b|
  {
    assert b == a + {k} + (b - a - {k});
  }

  lemma RoomAt(order: seq<nat>, limit: nat, t: nat, m: nat, h: seq<nat>)
    requires t < |order| && Roomy(order, limit) && m < order[t] && order[t] !in order[..t]
    requires Seen(order[..t], m, h) && Increasing(h) && forall j :: 0 <= j < |h| ==> m < h[j]
    ensures |h| < limit
  {
    var arrived, k := order[..t], order[t];
    WaitingSeen(arrived, m, h);
    assert order[..t + 1] == arrived + [k];
    assert m !in arrived + [k];
    forall l | l in Waiting(arrived) + {k}
      ensures l in Waiting(arrived + [k])
    {
      assert m < l;
    }
    Bigger(Waiting(arrived), Waiting(arrived + [k]), k);
  }

  // what the resequencer does

  /** One step in 32 bits: the flow after it, what it releases, and what it counts. */
  ghost predicate Moves(s: Stream, m: nat, h: seq<nat>, k: nat, i: nat, m': nat, h': seq<nat>)
    requires Contiguous(s) && m <= m' <= |s.sizes| && Indices(s, h) && Indices(s, h') && k < |s.sizes|
    requires i <= |Target(Wrapped, WrapFlow(FlowAt(s, m, h))).buf|
  {
    var p := WrapPacket(PacketOf(s, k));
    var r := Step(Wrapped, WrapFlow(FlowAt(s, m, h)), p, i);
    && r.flow == WrapFlow(FlowAt(s, m', h')) && Released(r, p) == WrapAll(Segments(s, Range(m, m')))
    && r.grew == if k == m then 0 else 1
  }

  lemma MoveDue(s: Stream, m: nat, h: seq<nat>, i: nat)
    requires Shape(s, m, h) && m < |s.sizes| && i <= |Target(Wrapped, WrapFlow(FlowAt(s, m, h))).buf|
    ensures var m', h' := Gone(m, h, m), Still(m, h, m, i); m < m' && Shape(s, m', h') && Moves(s, m, h, m, i, m', h')
  {
    ShapeDue(s, m, h);
    WrapDue(s, m, h, i);
    RangeCons(s, m, h[..Follows(m + 1, h)]);
  }

  lemma WrapDue(s: Stream, m: nat, h: seq<nat>, i: nat)
    requires Shape(s, m, h) && m < |s.sizes| && i <= |Target(Wrapped, WrapFlow(FlowAt(s, m, h))).buf|
    ensures var j := Follows(m + 1, h);
      && m + 1 + j <= |s.sizes|
      && Step(Wrapped, WrapFlow(FlowAt(s, m, h)), WrapPacket(PacketOf(s, m)), i)
         == Result(WrapFlow(FlowAt(s, m + 1 + j, h[j..])), WrapAll(Segments(s, h[..j])), true, 0)
  {
    WindowShape(s, m, h, m);
    StepDue(s, m, h, i);
    StepWrap(s.pos[0], FlowAt(s, m, h), PacketOf(s, m), i);
  }

  lemma MoveEarly(s: Stream, m: nat, h: seq<nat>, k: nat, i: nat)
    requires Shape(s, m, h) && m < k < |s.sizes| && k !in h && |h| < FBUF_SIZ
    requires Legal(Wrapped, WrapFlow(FlowAt(s, m, h)), WrapPacket(PacketOf(s, k)), i)
    ensures i <= |h| && Shape(s, m, With(h, k, i)) && Moves(s, m, h, k, i, m, With(h, k, i))
  {
    WindowShape(s, m, h, k);
    LegalWrap(s.pos[0], FlowAt(s, m, h), PacketOf(s, k), i);
    StepEarly(s, m, h, k, i);
    StepWrap(s.pos[0], FlowAt(s, m, h), PacketOf(s, k), i);
  }

  lemma NotYet(order: seq<nat>, n: nat, t: nat, m: nat, h: seq<nat>)
    requires Permutation(order, n) && t < |order| && Seen(order[..t], m, h)
    ensures m <= order[t] < n && order[t] !in order[..t] && order[t] !in h && order[..t + 1] == order[..t] + [order[t]]
  {
    assert order[t] !in order[..t];
  }

  lemma Complete(s: Stream, order: seq<nat>, m: nat, h: seq<nat>)
    requires Shape(s, m, h) && Seen(order, m, h) && Permutation(order, |s.sizes|)
    ensures m == |s.sizes| && h == []
  {
    Missing(s, m, h);
    assert m < |s.sizes| ==> m in order;
  }

  lemma Missing(s: Stream, m: nat, h: seq<nat>)
    requires Shape(s, m, h)
    ensures (h == [] || m < |s.sizes|) && m !in h
  {
    assert h != [] ==> h[0] < |s.sizes|;
  }

  /** The run from a stage on, in 32 bits. */
  lemma {:induction false} RunFrom(s: Stream, order: seq<nat>, slots: seq<nat>, t: nat, m: nat, h: seq<nat>)
    requires t <= |order| == |slots| && Shape(s, m, h) && Seen(order[..t], m, h)
    requires Permutation(order, |s.sizes|) && Roomy(order, FBUF_SIZ)
    requires LegalRun(Wrapped, WrapFlow(FlowAt(s, m, h)), WrapRun(Arrivals(s, order[t..], slots[t..])))
    ensures var r := Run(Wrapped, WrapFlow(FlowAt(s, m, h)), WrapRun(Arrivals(s, order[t..], slots[t..])));
      && r.out == WrapAll(Segments(s, Range(m, |s.sizes|))) && r.flow.buf == []
      && EarlyCount(order[..t]) + r.grew == EarlyCount(order)
    decreases |order| - t, 1
  {
    if t == |order| {
      assert order[..t] == order;
      Complete(s, order, m, h);
    } else {
      var k, i := order[t], slots[t];
      NotYet(order, |s.sizes|, t, m, h);
      if k == m {
        SeenDue(order[..t], m, h);
        MoveDue(s, m, h, i);
      } else {
        RoomAt(order, FBUF_SIZ, t, m, h);
        MoveEarly(s, m, h, k, i);
        SeenEarly(order[..t], m, h, k, i);
      }
      RunStep(s, order, slots, t, m, h, Gone(m, h, k), Still(m, h, k, i));
    }
  }

  lemma {:induction false} RunStep(s: Stream, order: seq<nat>, slots: seq<nat>, t: nat, m: nat, h: seq<nat>,
                                   m': nat, h': seq<nat>)
    requires t < |order| == |slots| && Shape(s, m, h) && Permutation(order, |s.sizes|) && Roomy(order, FBUF_SIZ)
    requires LegalRun(Wrapped, WrapFlow(FlowAt(s, m, h)), WrapRun(Arrivals(s, order[t..], slots[t..])))
    requires m <= m' && Shape(s, m', h') && Seen(order[..t + 1], m', h')
    requires slots[t] <= |Target(Wrapped, WrapFlow(FlowAt(s, m, h))).buf| && Moves(s, m, h, order[t], slots[t], m', h')
    requires Early(order[t], order[..t]) <==> order[t] != m
    ensures var r := Run(Wrapped, WrapFlow(FlowAt(s, m, h)), WrapRun(Arrivals(s, order[t..], slots[t..])));
      && r.out == WrapAll(Segments(s, Range(m, |s.sizes|))) && r.flow.buf == []
      && EarlyCount(order[..t]) + r.grew == EarlyCount(order)
    decreases |order| - t, 0
  {
    var run := WrapRun(Arrivals(s, order[t..], slots[t..]));
    assert run[1..] == WrapRun(Arrivals(s, order[t + 1..], slots[t + 1..]));
    EarlyNext(order, t);
    RunFrom(s, order, slots, t + 1, m', h');
    RangeJoin(s, m, m', |s.sizes|);
  }

  /** For every arrival order that begins with the first segment and never makes more than FBUF_SIZ wait, the 32-bit
      resequencer releases the whole stream in stream order, ends empty, and has counted exactly the segments that
      arrived before some earlier one. */
  lemma InStreamOrder(s: Stream, order: seq<nat>, slots: seq<nat>)
    requires Contiguous(s) && Permutation(order, |s.sizes|) && Roomy(order, FBUF_SIZ) && 0 < |order| == |slots|
    requires order[0] == 0
    requires LegalRun(Wrapped, Fresh(WrapPacket(PacketOf(s, order[0]))), WrapRun(Arrivals(s, order, slots)))
    ensures var r := Run(Wrapped, Fresh(WrapPacket(PacketOf(s, order[0]))), WrapRun(Arrivals(s, order, slots)));
      && r.out == WrapAll(Segments(s, Range(0, |s.sizes|))) && r.flow.buf == [] && r.grew == EarlyCount(order)
  {
    assert order[0..] == order && slots[0..] == slots;
    assert WrapFlow(FlowAt(s, 0, [])) == Fresh(WrapPacket(PacketOf(s, 0)));
    RunFrom(s, order, slots, 0, 0, []);
  }
}
