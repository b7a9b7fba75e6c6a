/**
 Which packets nfqueue.c drops (nfqueue.c:299-356), and what the others do to expected_next. A packet is dropped exactly
 if it is superseded: another segment with its number, at least as long, is held in its stead. All others are accepted.
 */
module Drops {
  import opened SerialNumber
  import opened Verdicts
  import Resequencer

  type Seg = Resequencer.Seg
  type Packet = Resequencer.Packet
  type Flow = Resequencer.Flow

  // ----- one packet

  /** No two segments belong to one packet id. */
  ghost predicate Distinct(buf: seq<Seg>) {
    forall i, j :: 0 <= i < j < |buf| ==> buf[i].id != buf[j].id
  }

  /** The packet is to be held: it is after expected_next, and the buffer has room or makes room. */
  predicate Holds(f: Flow, p: Packet) {
    !Le(Wrapped, p.seg.num, f.expected) && (|f.buf| < NFQ_SIZ || f.buf[0].num <= p.seg.num)
  }

  /** What is left of the buffer for a packet that is to be held. */
  function Others(f: Flow): seq<Seg> { if |f.buf| < NFQ_SIZ then f.buf else f.buf[1..] }

  /** s is no longer held, and a segment with its number that is at least as long is. */
  ghost predicate Replaced(s: Seg, buf: seq<Seg>) {
    s !in buf && exists y :: y in buf && y.num == s.num && y.size >= s.size
  }

  /** The packet is to be held, and s is the packet or has its number, and gives way to the other of the two. */
  ghost predicate Superseded(f: Flow, p: Packet, i: nat, s: Seg)
    requires i <= |Goal(f).buf|
  {
    Holds(f, p) && s in Others(f) + [p.seg] && s.num == p.seg.num && Replaced(s, Rule(f, p, i).flow.buf)
  }

  lemma {:induction false} AllAccepted(buf: seq<Seg>, v: Verdict)
    requires v in Accepts(buf)
    ensures v.accept
  {
    if v != Verdict(buf[0].id, true) {
      AllAccepted(buf[1..], v);
    }
  }

  /** If there is no segment of this number at the place, none is superseded. */
  lemma NewNumber(buf: seq<Seg>, p: Seg, i: nat, s: Seg)
    requires i <= |buf| && !Resequencer.Hit(buf, p.num, i) && s in buf + [p]
    ensures s in Resequencer.Place(buf, p, i)
  {
    assert buf == buf[..i] + buf[i..];
  }

  /** The one that gives way: the segment at the place, unless it is longer than the packet. */
  function Loser(buf: seq<Seg>, p: Seg, i: nat): Seg
    requires i < |buf|
  {
    if buf[i].size > p.size then p else buf[i]
  }

  lemma LoserGone(buf: seq<Seg>, p: Seg, i: nat)
    requires i < |buf| && buf[i].num == p.num && Distinct(buf + [p])
    ensures Replaced(Loser(buf, p, i), Resequencer.Place(buf, p, i))
  {
    var b, x, all := Resequencer.Place(buf, p, i), Loser(buf, p, i), buf + [p];
    forall j | 0 <= j < |b|
      ensures b[j] != x
    {
      assert all[j] == buf[j] && all[i] == buf[i] && all[|buf|] == p;
    }
    assert b[i] in b && b[i].num == x.num && b[i].size >= x.size;
  }

  lemma OthersStay(buf: seq<Seg>, p: Seg, i: nat, s: Seg)
    requires i < |buf| && buf[i].num == p.num && s in buf + [p] && s != Loser(buf, p, i)
    ensures s in Resequencer.Place(buf, p, i)
  {
    var b := Resequencer.Place(buf, p, i);
    if s == p {
      assert b[i] == p;
    } else {
      var j :| 0 <= j < |buf| && buf[j] == s;
      assert b[j] == s;
    }
  }

  lemma SameId(all: seq<Seg>, s: Seg, t: Seg)
    requires Distinct(all) && s in all && t in all && s.id == t.id
    ensures s == t
  {
  }

  lemma DistinctTail(buf: seq<Seg>, p: Seg)
    requires buf != [] && Distinct(buf + [p])
    ensures Distinct(buf[1..] + [p])
  {
    assert buf[1..] + [p] == (buf + [p])[1..];
  }

  /** What a held packet does to the rest of the buffer: the loser is dropped and nothing else is. */
  lemma KeepDrops(f: Flow, p: Seg, i: nat, s: Seg)
    requires i <= |f.buf| && Distinct(f.buf + [p]) && s in f.buf + [p]
    ensures Verdict(s.id, false) in Keep(f, p, i).verdicts <==>
      s.num == p.num && Replaced(s, Keep(f, p, i).flow.buf)
  {
    if !Resequencer.Hit(f.buf, p.num, i) {
      NewNumber(f.buf, p, i, s);
    } else {
      var x := Loser(f.buf, p, i);
      LoserGone(f.buf, p, i);
      assert f.buf[i] in f.buf + [p] && p in f.buf + [p];
      if s == x {
        assert Keep(f, p, i).verdicts[0] == Verdict(s.id, false);
      } else {
        OthersStay(f.buf, p, i, s);
        if s.id == x.id {
          SameId(f.buf + [p], s, x);
        }
      }
    }
  }

  /** A packet, one that has come in or one that is held, is dropped exactly if it is superseded. */
  lemma DropsExactly(f: Flow, p: Packet, i: nat, s: Seg)
    requires i <= |Goal(f).buf| && Distinct(f.buf + [p.seg]) && s in f.buf + [p.seg]
    ensures Verdict(s.id, false) in Rule(f, p, i).verdicts <==> Superseded(f, p, i, s)
  {
    if Le(Wrapped, p.seg.num, f.expected) {
      var e := Ahead(f, p);
      if Verdict(s.id, false) in Rule(f, p, i).verdicts {
        AllAccepted(f.buf[..Ready(e, f.buf)], Verdict(s.id, false));
      }
    } else if |f.buf| < NFQ_SIZ {
      KeepDrops(f, p.seg, i, s);
    } else if f.buf[0].num <= p.seg.num {
      FullDrops(f, p, i, s);
    }
  }

  lemma FullDrops(f: Flow, p: Packet, i: nat, s: Seg)
    requires i <= |Goal(f).buf| && Distinct(f.buf + [p.seg]) && s in f.buf + [p.seg]
    requires Holds(f, p) && |f.buf| >= NFQ_SIZ
    ensures Verdict(s.id, false) in Rule(f, p, i).verdicts <==> Superseded(f, p, i, s)
  {
    var g := Flush(f, 1).flow;
    assert f.buf[..1] == [f.buf[0]] && Accepts([f.buf[0]][1..]) == [];
    assert Rule(f, p, i).verdicts == [Verdict(f.buf[0].id, true)] + Keep(g, p.seg, i).verdicts;
    assert g.buf == f.buf[1..] == Others(f);
    DistinctTail(f.buf, p.seg);
    if s in g.buf + [p.seg] {
      KeepDrops(g, p.seg, i, s);
    } else if Verdict(s.id, false) in Keep(g, p.seg, i).verdicts {
      assert s == f.buf[0];
      var x := Loser(g.buf, p.seg, i);
      assert x in f.buf + [p.seg];
      SameId(f.buf + [p.seg], s, x);
    }
  }

  // ----- ids, counted

  lemma {:induction false} KeptPart(buf: seq<Seg>, j: nat)
    requires j < |buf|
    ensures Kept(buf, buf[j].id) >= 1
  {
    if j > 0 {
      KeptPart(buf[1..], j - 1);
    }
  }

  lemma {:induction false} KeptPair(buf: seq<Seg>, i: nat, j: nat)
    requires i < j < |buf| && buf[i].id == buf[j].id
    ensures Kept(buf, buf[i].id) >= 2
  {
    if i > 0 {
      KeptPair(buf[1..], i - 1, j - 1);
    } else {
      KeptPart(buf[1..], j - 1);
    }
  }

  lemma {:induction false} KeptWhere(buf: seq<Seg>, id: nat) returns (s: Seg)
    requires Kept(buf, id) >= 1
    ensures s in buf && s.id == id
  {
    s := buf[0];
    if s.id != id {
      s := KeptWhere(buf[1..], id);
    }
  }

  lemma {:induction false} JudgedPart(vs: seq<Verdict>, v: Verdict)
    requires v in vs
    ensures Judged(vs, v.id) >= 1
  {
    if v != vs[0] {
      JudgedPart(vs[1..], v);
    }
  }

  lemma {:induction false} JudgedPair(vs: seq<Verdict>, id: nat)
    requires Verdict(id, true) in vs && Verdict(id, false) in vs
    ensures Judged(vs, id) >= 2
  {
    if vs[0] == Verdict(id, true) {
      JudgedPart(vs[1..], Verdict(id, false));
    } else if vs[0] == Verdict(id, false) {
      JudgedPart(vs[1..], Verdict(id, true));
    } else {
      JudgedPair(vs[1..], id);
    }
  }

  lemma {:induction false} JudgedWhich(vs: seq<Verdict>, id: nat)
    requires Judged(vs, id) >= 1
    ensures Verdict(id, true) in vs || Verdict(id, false) in vs
  {
    if vs[0].id != id {
      JudgedWhich(vs[1..], id);
    }
  }

  // ----- whole runs

  /** This event supersedes the packet with this id. */
  ghost predicate Supersedes(q: Queue, e: Event, id: nat)
    requires Possible(q, e)
  {
    e.Arrive? && exists s: Seg :: s.id == id && Superseded(FlowOf(q, e), e.p, e.i, s)
  }

  ghost predicate SupersededIn(q: Queue, es: seq<Event>, id: nat)
    requires Runs(q, es)
    decreases es
  {
    es != [] && (Supersedes(q, es[0], id) || SupersededIn(After(q, es[0]), es[1..], id))
  }

  /** No id is known twice, nor will be. */
  ghost predicate Unique(q: Queue, es: seq<Event>) {
    forall id :: Known(q, id) + Received(es, id) <= 1
  }

  lemma DistinctCounted(all: seq<Seg>)
    requires forall id :: Kept(all, id) <= 1
    ensures Distinct(all)
  {
    forall i, j | 0 <= i < j < |all|
      ensures all[i].id != all[j].id
    {
      if all[i].id == all[j].id {
        KeptPair(all, i, j);
      }
    }
  }

  lemma DistinctHere(q: Queue, e: Event)
    requires e.Arrive? && Possible(q, e) && forall id :: Known(q, id) + Inward(e, id) <= 1
    ensures Distinct(FlowOf(q, e).buf + [e.p.seg])
  {
    var buf := FlowOf(q, e).buf;
    forall id
      ensures Kept(buf + [e.p.seg], id) <= 1
    {
      KeptConcat(buf, [e.p.seg], id);
      SplitHeld(q, e, id);
      assert Known(q, id) + Inward(e, id) <= 1;
      assert Kept([e.p.seg], id) == Once(e.p.seg.id, id);
    }
    DistinctCounted(buf + [e.p.seg]);
  }

  /** The id of a verdict is that of the packet or of a held segment. */
  lemma OfSegment(f: Flow, p: Packet, i: nat, v: Verdict) returns (s: Seg)
    requires i <= |Goal(f).buf| && v in Rule(f, p, i).verdicts
    ensures s in f.buf + [p.seg] && s.id == v.id
  {
    JudgedPart(Rule(f, p, i).verdicts, v);
    RuleConserves(f, p, i, v.id);
    if p.seg.id == v.id {
      s := p.seg;
    } else {
      s := KeptWhere(f.buf, v.id);
    }
  }

  lemma ArriveDrops(q: Queue, e: Event, id: nat)
    requires e.Arrive? && Possible(q, e) && forall x :: Known(q, x) + Inward(e, x) <= 1
    ensures Verdict(id, false) in Rule(FlowOf(q, e), e.p, e.i).verdicts <==> Supersedes(q, e, id)
  {
    var f := FlowOf(q, e);
    DistinctHere(q, e);
    if Verdict(id, false) in Rule(f, e.p, e.i).verdicts {
      var s := OfSegment(f, e.p, e.i, Verdict(id, false));
      DropsExactly(f, e.p, e.i, s);
    }
    if Supersedes(q, e, id) {
      var s: Seg :| s.id == id && Superseded(f, e.p, e.i, s);
      DropsExactly(f, e.p, e.i, s);
    }
  }

  lemma StepDrops(q: Queue, e: Event, id: nat)
    requires Possible(q, e) && forall x :: Known(q, x) + Inward(e, x) <= 1
    ensures Verdict(id, false) in After(q, e).verdicts <==> Verdict(id, false) in q.verdicts || Supersedes(q, e, id)
  {
    if e.Arrive? {
      ArriveDrops(q, e, id);
    } else {
      var f := FlowOf(q, e);
      if Verdict(id, false) in Flush(f, |f.buf|).verdicts {
        AllAccepted(f.buf[..|f.buf|], Verdict(id, false));
      }
    }
  }

  lemma UniqueStep(q: Queue, es: seq<Event>)
    requires es != [] && Possible(q, es[0]) && Unique(q, es)
    ensures Unique(After(q, es[0]), es[1..])
  {
    forall id
      ensures Known(After(q, es[0]), id) + Received(es[1..], id) <= 1
    {
      StepConserves(q, es[0], id);
      assert Known(q, id) + Received(es, id) <= 1;
    }
  }

  lemma {:induction false} RunDrops(q: Queue, es: seq<Event>, id: nat)
    requires Runs(q, es) && Unique(q, es)
    ensures Verdict(id, false) in Last(q, es).verdicts <==> Verdict(id, false) in q.verdicts || SupersededIn(q, es, id)
    decreases es
  {
    if es != [] {
      forall x
        ensures Known(q, x) + Inward(es[0], x) <= 1
      {
        assert Known(q, x) + Received(es, x) <= 1;
      }
      StepDrops(q, es[0], id);
      UniqueStep(q, es);
      RunDrops(After(q, es[0]), es[1..], id);
    }
  }

  /** At every point of every run in which no id comes twice, the dropped packets are exactly those that were
      superseded, and none of them is also accepted or held. The accepted ones are the others no longer held. */
  lemma DroppedExactly(es: seq<Event>, id: nat)
    requires Runs(Queue([], []), es) && forall x :: Received(es, x) <= 1
    ensures var q, gone := Last(Queue([], []), es), SupersededIn(Queue([], []), es, id);
      && (Verdict(id, false) in q.verdicts <==> gone)
      && (gone ==> Verdict(id, true) !in q.verdicts && Held(q.flows, id) == 0)
      && (Verdict(id, true) in q.verdicts <==> Received(es, id) == 1 && !gone && Held(q.flows, id) == 0)
  {
    var q := Last(Queue([], []), es);
    RunDrops(Queue([], []), es, id);
    OneVerdict(es, id);
    assert Received(es, id) <= 1;
    if Verdict(id, false) in q.verdicts {
      JudgedPart(q.verdicts, Verdict(id, false));
    }
    if Verdict(id, true) in q.verdicts {
      JudgedPart(q.verdicts, Verdict(id, true));
    }
    if Verdict(id, true) in q.verdicts && Verdict(id, false) in q.verdicts {
      JudgedPair(q.verdicts, id);
    }
    if Judged(q.verdicts, id) >= 1 {
      JudgedWhich(q.verdicts, id);
    }
  }

  // ----- expected_next

  /** The largest number, unsigned, among e and the ends of the segments. */
  ghost predicate Largest(x: int, e: int, buf: seq<Seg>) {
    && x >= e && (forall s :: s in buf ==> x >= (s.num + s.size) % TWO32)
    && (x == e || exists s :: s in buf && x == (s.num + s.size) % TWO32)
  }

  lemma {:induction false} RaisedIs(e: int, buf: seq<Seg>)
    ensures Largest(Raised(e, buf), e, buf)
    decreases buf
  {
    if buf != [] {
      var e', x := Raise(e, Resequencer.End(Wrapped, buf[0])), Raised(e, buf);
      RaisedIs(e', buf[1..]);
      assert x != e' ==> exists s :: s in buf[1..] && x == (s.num + s.size) % TWO32;
    }
  }

  lemma {:induction false} AcceptsAt(buf: seq<Seg>, j: nat)
    requires j < |buf|
    ensures |Accepts(buf)| == |buf| && Accepts(buf)[j] == Verdict(buf[j].id, true)
  {
    if |buf| > 1 {
      AcceptsAt(buf[1..], if j > 0 then j - 1 else 0);
    }
  }

  lemma {:induction false} ReadyInTurn(e: int, buf: seq<Seg>, j: nat)
    requires j < Ready(e, buf)
    ensures buf[j].num == Raised(e, buf[..j])
    decreases buf
  {
    if j > 0 {
      ReadyInTurn(Raise(e, Resequencer.End(Wrapped, buf[0])), buf[1..], j - 1);
      assert buf[..j][1..] == buf[1..][..j - 1];
    }
  }

  /** Where the numbers go on from, once the packet has passed: a SYN sets it, any other packet can only raise it. */
  ghost predicate Reached(x: int, f: Flow, p: Packet, buf: seq<Seg>) {
    if p.syn then Largest(x, (p.seg.num + 1) % TWO32, buf) else Largest(x, f.expected, [p.seg] + buf)
  }

  lemma ReachedIs(f: Flow, p: Packet, buf: seq<Seg>)
    ensures Reached(Raised(Ahead(f, p), buf), f, p, buf)
  {
    RaisedIs(Ahead(f, p), buf);
    var x := Raised(Ahead(f, p), buf);
    assert p.seg in [p.seg] + buf && forall s :: s in buf ==> s in [p.seg] + buf;
  }

  /** A packet that is not after expected_next is accepted first, and then the held segments, as long as each is in turn
      the one expected next. */
  lemma PassesIs(f: Flow, p: Packet, i: nat) returns (k: nat)
    requires i <= |Goal(f).buf| && Le(Wrapped, p.seg.num, f.expected)
    ensures var r := Rule(f, p, i);
      && k <= |f.buf| && r.flow.buf == f.buf[k..] && Reached(r.flow.expected, f, p, f.buf[..k])
      && (k < |f.buf| ==> f.buf[k].num != r.flow.expected)
      && |r.verdicts| == 1 + k && r.verdicts[0] == Verdict(p.seg.id, true)
      && forall j :: 0 <= j < k ==>
           r.verdicts[1 + j] == Verdict(f.buf[j].id, true) && Reached(f.buf[j].num, f, p, f.buf[..j])
  {
    var e := Ahead(f, p);
    k := Ready(e, f.buf);
    ReadyStops(e, f.buf);
    ReachedIs(f, p, f.buf[..k]);
    assert k == 0 ==> Accepts(f.buf[..k]) == [];
    forall j | 0 <= j < k
      ensures |Accepts(f.buf[..k])| == k && Accepts(f.buf[..k])[j] == Verdict(f.buf[j].id, true)
      ensures Reached(f.buf[j].num, f, p, f.buf[..j])
    {
      AcceptsAt(f.buf[..k], j);
      ReadyInTurn(e, f.buf, j);
      ReachedIs(f, p, f.buf[..j]);
    }
  }

  /** The state after a packet that does not pass. If the buffer is full and its lowest number is larger, the packet is
      accepted out of turn and nothing changes. Otherwise it is held at place i, in the stead of a segment of the same
      number there unless that is longer; a full buffer first lets its lowest segment go. */
  lemma HeldIs(f: Flow, p: Packet, i: nat)
    requires i <= |Goal(f).buf| && !Le(Wrapped, p.seg.num, f.expected)
    ensures var r, full := Rule(f, p, i), |f.buf| >= NFQ_SIZ;
      if !Holds(f, p) then r.flow == f && r.verdicts == [Verdict(p.seg.id, true)]
      else
        var rest := Others(f);
        && (full ==> r.verdicts != [] && r.verdicts[0] == Verdict(f.buf[0].id, true))
        && Largest(r.flow.expected, f.expected, if full then [f.buf[0]] else [])
        && r.flow.buf[..i] == rest[..i] && i < |r.flow.buf|
        && if i < |rest| && rest[i].num == p.seg.num
           then
             && r.flow.buf[i + 1..] == rest[i + 1..]
             && r.flow.buf[i] == if rest[i].size <= p.seg.size then p.seg else rest[i]
           else r.flow.buf[i + 1..] == rest[i..] && r.flow.buf[i] == p.seg
  {
    if Holds(f, p) && |f.buf| >= NFQ_SIZ {
      assert f.buf[..1] == [f.buf[0]];
      RaisedIs(f.expected, [f.buf[0]]);
    }
  }
}
