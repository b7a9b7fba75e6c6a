/** The lowest-first resequencing buffer of one flow, as a sorted sequence (reorder_counter.c:112-192). */
module Resequencer {
  import opened SerialNumber

  const FBUF_SIZ: nat := 1024

  /** struct rc_flowdata. `id` says which arrival it came from. */
  datatype Seg = Seg(num: int, size: nat, id: nat)

  datatype Packet = Packet(seg: Seg, syn: bool)

  /** `buf` is what the tree holds, in order. */
  datatype Flow = Flow(expected: int, buf: seq<Seg>)

  /** A flow is created by its first packet (reorder_counter.c:72-77, 91-97). */
  function Fresh(p: Packet): Flow { Flow(p.seg.num, []) }

  /** One packet handled: what left the buffer, whether the packet itself passed, and how far reorder_count went up. */
  datatype Result = Result(flow: Flow, out: seq<Seg>, passed: bool, grew: nat)

  function End(w: Arith, s: Seg): int { Norm(w, s.num + s.size) }

  /** expected_next after a packet that passes (reorder_counter.c:118-121). */
  function Next(w: Arith, p: Packet): int { if p.syn then Norm(w, p.seg.num + 1) else End(w, p.seg) }

  /** How many buffered segments the loop of reorder_counter.c:123-131 releases. */
  function Due(w: Arith, expected: int, buf: seq<Seg>): (k: nat)
    ensures k <= |buf|
    decreases buf
  {
    if buf == [] || !Le(w, buf[0].num, expected) then 0 else 1 + Due(w, End(w, buf[0]), buf[1..])
  }

  /** expected_next once the first k segments are released. */
  function After(w: Arith, expected: int, buf: seq<Seg>, k: nat): int
    requires k <= |buf|
  {
    if k == 0 then expected else End(w, buf[k - 1])
  }

  /** Where the descent of reorder_counter.c:204-222 can end: at a segment with this number, or in a gap. */
  ghost predicate Slot(w: Arith, buf: seq<Seg>, n: int, i: nat) {
    && i <= |buf|
    && ((i < |buf| && buf[i].num == n)
        || ((i > 0 ==> Lt(w, buf[i - 1].num, n)) && (i < |buf| ==> Lt(w, n, buf[i].num))))
  }

  /** Some place is always right: the descent cannot fail. */
  lemma {:induction false} SlotExists(buf: seq<Seg>, num: int, k: nat) returns (i: nat)
    requires U32(num) && k <= |buf| && (k > 0 ==> Lt(Wrapped, buf[k - 1].num, num))
    requires forall j :: 0 <= j < |buf| ==> U32(buf[j].num)
    ensures Slot(Wrapped, buf, num, i)
    decreases |buf| - k
  {
    i := k;
    if k < |buf| {
      Comparable(num, buf[k].num);
      if Lt(Wrapped, buf[k].num, num) {
        i := SlotExists(buf, num, k + 1);
      }
    }
  }

  predicate Hit(buf: seq<Seg>, n: int, i: nat) { i < |buf| && buf[i].num == n }

  /** insert_or_send_packet: of two segments with one number the larger or newer stays. */
  function Place(buf: seq<Seg>, s: Seg, i: nat): seq<Seg>
    requires i <= |buf|
  {
    if Hit(buf, s.num, i) then (if buf[i].size > s.size then buf else buf[i := s]) else buf[..i] + [s] + buf[i..]
  }

  function Store(f: Flow, s: Seg, i: nat, out: seq<Seg>): Result
    requires i <= |f.buf|
  {
    Result(f.(buf := Place(f.buf, s, i)), out, false, if Hit(f.buf, s.num, i) then 0 else 1)
  }

  function Drop1(w: Arith, f: Flow): Flow
    requires f.buf != []
  {
    Flow(End(w, f.buf[0]), f.buf[1..])
  }

  /** The flow the packet is stored into, if it is stored. */
  function Target(w: Arith, f: Flow): Flow {
    if |f.buf| < FBUF_SIZ then f else Drop1(w, f)
  }

  ghost predicate Legal(w: Arith, f: Flow, p: Packet, i: nat) {
    Slot(w, Target(w, f).buf, p.seg.num, i)
  }

  /** The packet passes, and with it what it was waited for (reorder_counter.c:112-137). */
  function Pass(w: Arith, f: Flow, e: int): Result {
    var k := Due(w, e, f.buf);
    Result(Flow(After(w, e, f.buf, k), f.buf[k..]), f.buf[..k], true, 0)
  }

  function Step(w: Arith, f: Flow, p: Packet, i: nat): Result
    requires i <= |Target(w, f).buf|
  {
    if Le(w, p.seg.num, f.expected) then Pass(w, f, Next(w, p))
    else if |f.buf| < FBUF_SIZ then Store(f, p.seg, i, [])
    else if f.buf[0].num <= p.seg.num then Store(Drop1(w, f), p.seg, i, [f.buf[0]])
    else Result(f, [], false, 0)
  }

  // ----- what every run keeps, whatever the sequence numbers

  ghost predicate Ordered(w: Arith, buf: seq<Seg>) {
    forall j :: 0 < j < |buf| ==> Lt(w, buf[j - 1].num, buf[j].num)
  }

  ghost predicate Good(w: Arith, f: Flow) { |f.buf| <= FBUF_SIZ && Ordered(w, f.buf) }

  lemma PlaceOrdered(w: Arith, buf: seq<Seg>, s: Seg, i: nat)
    requires Ordered(w, buf) && Slot(w, buf, s.num, i)
    ensures Ordered(w, Place(buf, s, i))
  {
    var b := Place(buf, s, i);
    forall j | 0 < j < |b|
      ensures Lt(w, b[j - 1].num, b[j].num)
    {
    }
  }

  /** What was stored, and the segment itself, is still covered: by a segment of the same number at least as long. */
  lemma NothingLost(buf: seq<Seg>, s: Seg, i: nat, x: Seg)
    requires i <= |buf| && (x in buf || x == s)
    ensures exists y :: y in Place(buf, s, i) && y.num == x.num && y.size >= x.size
  {
    var b := Place(buf, s, i);
    if Hit(buf, s.num, i) {
      assert b[i] in b && b[i].num == s.num && b[i].size >= s.size && b[i].size >= buf[i].size;
      if x in buf {
        var j :| 0 <= j < |buf| && buf[j] == x;
        assert b[j] in b;
      }
    } else {
      assert s in b && (x in buf ==> x in buf[..i] || x in buf[i..]);
    }
  }

  /** Neighbours stay in serial order without any window assumption, because only the first node is ever released; the
      bound is kept; and what the counter gains is what the buffer gains and what left it. */
  lemma StepGood(w: Arith, f: Flow, p: Packet, i: nat)
    requires Good(w, f) && Legal(w, f, p, i)
    ensures var r := Step(w, f, p, i);
      Good(w, r.flow) && |r.flow.buf| + |r.out| == |f.buf| + r.grew
  {
    if Le(w, p.seg.num, f.expected) {
      PassGood(w, f, Next(w, p));
    } else {
      PlaceOrdered(w, Target(w, f).buf, p.seg, i);
    }
  }

  lemma PassGood(w: Arith, f: Flow, e: int)
    requires Good(w, f)
    ensures var r := Pass(w, f, e); Good(w, r.flow) && |r.flow.buf| + |r.out| == |f.buf|
  {
  }

  /** In a window the buffer is sorted outright, and after the drain loop every remaining key is after expected_next. */
  lemma {:induction false} Sorted(buf: seq<Seg>, i: nat, j: nat)
    requires Ordered(Exact, buf) && i < j < |buf|
    ensures buf[i].num < buf[j].num
  {
    if i + 1 < j {
      Sorted(buf, i, j - 1);
    }
  }

  lemma {:induction false} DueStops(w: Arith, e: int, buf: seq<Seg>)
    ensures var k := Due(w, e, buf); k < |buf| ==> !Le(w, buf[k].num, After(w, e, buf, k))
    decreases buf
  {
    if buf != [] && Le(w, buf[0].num, e) {
      DueStops(w, End(w, buf[0]), buf[1..]);
    }
  }

  lemma DrainedAhead(f: Flow, p: Packet, i: nat, j: nat)
    requires Good(Exact, f) && Legal(Exact, f, p, i) && Step(Exact, f, p, i).passed
    requires j < |Step(Exact, f, p, i).flow.buf|
    ensures var r := Step(Exact, f, p, i).flow; r.expected < r.buf[j].num
  {
    DueStops(Exact, Next(Exact, p), f.buf);
    StepGood(Exact, f, p, i);
    if j > 0 {
      Sorted(Step(Exact, f, p, i).flow.buf, 0, j);
    }
  }

  // ----- what one packet does, apart from how it is computed

  /** expected_next is where the segment that left last ends, modulo 2^32 if numbers wrap; it stays if none left. */
  lemma ExpectedIs(w: Arith, f: Flow, p: Packet, i: nat)
    requires i <= |Target(w, f).buf|
    ensures var r := Step(w, f, p, i);
      && (r.out != [] ==> r.flow.expected == Norm(w, r.out[|r.out| - 1].num + r.out[|r.out| - 1].size))
      && (r.out == [] && r.passed ==> r.flow.expected == Norm(w, p.seg.num + if p.syn then 1 else p.seg.size))
      && (r.out == [] && !r.passed ==> r.flow.expected == f.expected)
  {
  }

  /** Segment j starts no later than where the one before it ends, or than e if it is the first. */
  predicate Adjoins(w: Arith, e: int, buf: seq<Seg>, j: nat)
    requires j < |buf|
  {
    Le(w, buf[j].num, if j == 0 then e else Norm(w, buf[j - 1].num + buf[j - 1].size))
  }

  ghost predicate Chained(w: Arith, e: int, buf: seq<Seg>, k: nat)
    requires k <= |buf|
  {
    forall j :: 0 <= j < k ==> Adjoins(w, e, buf, j)
  }

  lemma ChainedTail(w: Arith, e: int, buf: seq<Seg>, k: nat)
    requires 0 < k <= |buf| && Le(w, buf[0].num, e)
    ensures Chained(w, e, buf, k) <==> Chained(w, End(w, buf[0]), buf[1..], k - 1)
  {
    forall j | 0 <= j < |buf| - 1
      ensures Adjoins(w, e, buf, j + 1) == Adjoins(w, End(w, buf[0]), buf[1..], j)
    {
    }
    if Chained(w, End(w, buf[0]), buf[1..], k - 1) {
      forall j | 0 <= j < k
        ensures Adjoins(w, e, buf, j)
      {
        if j > 0 {
          assert Adjoins(w, End(w, buf[0]), buf[1..], j - 1);
        }
      }
    }
  }

  lemma {:induction false} DueIs(w: Arith, e: int, buf: seq<Seg>, k: nat)
    requires k <= |buf|
    ensures k <= Due(w, e, buf) <==> Chained(w, e, buf, k)
    decreases buf
  {
    if k > 0 {
      if Le(w, buf[0].num, e) {
        DueIs(w, End(w, buf[0]), buf[1..], k - 1);
        ChainedTail(w, e, buf, k);
      } else {
        assert !Adjoins(w, e, buf, 0);
      }
    }
  }

  /** A packet passes exactly if its number is not after expected_next. With it leaves the longest chain of held
      segments that it is followed by, and the others stay. */
  lemma PassIs(w: Arith, f: Flow, p: Packet, i: nat)
    requires i <= |Target(w, f).buf|
    ensures var r := Step(w, f, p, i);
      && (r.passed <==> Le(w, p.seg.num, f.expected))
      && (r.passed ==> r.grew == 0 && r.out + r.flow.buf == f.buf)
  {
  }

  lemma LeavesIs(w: Arith, f: Flow, p: Packet, i: nat, k: nat)
    requires i <= |Target(w, f).buf| && k <= |f.buf| && Le(w, p.seg.num, f.expected)
    ensures k <= |Step(w, f, p, i).out|
      <==> Chained(w, Norm(w, p.seg.num + if p.syn then 1 else p.seg.size), f.buf, k)
  {
    var e := Next(w, p);
    assert e == Norm(w, p.seg.num + if p.syn then 1 else p.seg.size);
    DueIs(w, e, f.buf, k);
    assert |Step(w, f, p, i).out| == Due(w, e, f.buf);
  }

  /** A packet after expected_next. The lowest segment leaves exactly if the buffer is full and its number is no larger
      as an unsigned number; if it is larger, the packet is forgotten. Otherwise the packet is held at place i: the
      counter goes up if that is a new number, and of two segments with one number the packet stays unless shorter. */
  lemma StoreIs(w: Arith, f: Flow, p: Packet, i: nat)
    requires i <= |Target(w, f).buf| && !Le(w, p.seg.num, f.expected)
    ensures var r, full := Step(w, f, p, i), |f.buf| >= FBUF_SIZ;
      if full && p.seg.num < f.buf[0].num then r.flow == f && r.out == [] && r.grew == 0
      else
        var rest := if full then f.buf[1..] else f.buf;
        && r.out == (if full then [f.buf[0]] else [])
        && r.flow.buf[..i] == rest[..i] && i < |r.flow.buf|
        && if i < |rest| && rest[i].num == p.seg.num
           then
             && r.grew == 0 && r.flow.buf[i + 1..] == rest[i + 1..]
             && r.flow.buf[i] == if rest[i].size <= p.seg.size then p.seg else rest[i]
           else r.grew == 1 && r.flow.buf[i + 1..] == rest[i..] && r.flow.buf[i] == p.seg
  {
  }

  // ----- all flows

  /** Every flow's state, rc.reorder_count, and how many segments have left the buffers. */
  datatype Counter = Counter(flows: seq<Flow>, count: nat, released: nat)

  /** A packet for flow j; j == |flows| is a flow not seen before. */
  datatype Input = Input(j: nat, p: Packet, i: nat)

  function FlowFor(c: Counter, e: Input): Flow { if e.j < |c.flows| then c.flows[e.j] else Fresh(e.p) }

  function Left(c: Counter, e: Input): seq<Flow>
    requires e.j <= |c.flows|
  {
    c.flows[..e.j]
  }

  function Right(c: Counter, e: Input): seq<Flow> { if e.j < |c.flows| then c.flows[e.j + 1..] else [] }

  ghost predicate Possible(w: Arith, c: Counter, e: Input) { e.j <= |c.flows| && Legal(w, FlowFor(c, e), e.p, e.i) }

  function Handle(w: Arith, c: Counter, e: Input): Counter
    requires e.j <= |c.flows| && e.i <= |Target(w, FlowFor(c, e)).buf|
  {
    var r := Step(w, FlowFor(c, e), e.p, e.i);
    Counter(Left(c, e) + [r.flow] + Right(c, e), c.count + r.grew, c.released + |r.out|)
  }

  function Held(flows: seq<Flow>): nat { if flows == [] then 0 else |flows[0].buf| + Held(flows[1..]) }

  lemma {:induction false} HeldConcat(a: seq<Flow>, b: seq<Flow>)
    ensures Held(a + b) == Held(a) + Held(b)
  {
    if a == [] {
      assert a + b == b;
    } else {
      assert (a + b)[1..] == a[1..] + b;
      HeldConcat(a[1..], b);
    }
  }

  lemma HeldReplace(a: seq<Flow>, f: Flow, b: seq<Flow>)
    ensures Held(a + [f] + b) == Held(a) + |f.buf| + Held(b)
  {
    HeldConcat(a + [f], b);
    HeldConcat(a, [f]);
  }

  /** No buffer is ever over-full or out of order, and the counter is what is held plus what was released. */
  ghost predicate Accounted(w: Arith, c: Counter) {
    (forall j :: 0 <= j < |c.flows| ==> Good(w, c.flows[j])) && c.count == Held(c.flows) + c.released
  }

  lemma SplitHeld(c: Counter, e: Input)
    requires e.j <= |c.flows|
    ensures Held(c.flows) == Held(Left(c, e)) + |FlowFor(c, e).buf| + Held(Right(c, e))
  {
    if e.j < |c.flows| {
      assert c.flows == Left(c, e) + [c.flows[e.j]] + Right(c, e);
      HeldReplace(Left(c, e), c.flows[e.j], Right(c, e));
    } else {
      assert c.flows == Left(c, e);
    }
  }

  lemma HandleAccounted(w: Arith, c: Counter, e: Input)
    requires Accounted(w, c) && Possible(w, c, e)
    ensures Accounted(w, Handle(w, c, e))
  {
    var f := FlowFor(c, e);
    assert Good(w, f);
    StepGood(w, f, e.p, e.i);
    SplitHeld(c, e);
    HeldReplace(Left(c, e), Step(w, f, e.p, e.i).flow, Right(c, e));
  }

  ghost predicate Runs(w: Arith, c: Counter, es: seq<Input>)
    decreases es
  {
    es != [] ==> Possible(w, c, es[0]) && Runs(w, Handle(w, c, es[0]), es[1..])
  }

  ghost function Last(w: Arith, c: Counter, es: seq<Input>): Counter
    requires Runs(w, c, es)
    decreases es
  {
    if es == [] then c else Last(w, Handle(w, c, es[0]), es[1..])
  }

  lemma {:induction false} AlwaysAccounted(w: Arith, c: Counter, es: seq<Input>)
    requires Accounted(w, c) && Runs(w, c, es)
    ensures Accounted(w, Last(w, c, es))
    decreases es
  {
    if es != [] {
      HandleAccounted(w, c, es[0]);
      AlwaysAccounted(w, Handle(w, c, es[0]), es[1..]);
    }
  }
}
