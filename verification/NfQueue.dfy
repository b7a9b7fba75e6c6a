/** nfq_cb below its early returns, and empty_and_destroy_buf up to the unlinking (nfqueue.c:187-276, 299-388). */
module NfQueue {
  import opened SerialNumber
  import opened Resequencer
  import opened Verdicts
  import opened FlowBufs

  /** nfq_set_verdict as a log. */
  class Handle {
    var verdicts: seq<Verdict>
  }

  lemma FlushOne(f: Flow)
    requires f.buf != []
    ensures Flush(f, 1)
         == Ruling(Flow(Raise(f.expected, End(Wrapped, f.buf[0])), f.buf[1..]), [Verdict(f.buf[0].id, true)])
  {
    var b := f.buf[..1];
    assert b[1..] == [] && Raised(f.expected, b) == Raised(Raise(f.expected, End(Wrapped, b[0])), b[1..]);
    assert Accepts(b) == [Verdict(b[0].id, true)] + Accepts(b[1..]);
  }

  lemma FlushTurn(f: Flow, k: nat, vs: seq<Verdict>)
    requires k < |f.buf|
    ensures var g := Flush(f, 1);
      Joined(vs, Flush(f, k + 1)) == Joined(vs + g.verdicts, Flush(g.flow, k))
  {
    FlushOne(f);
    var g, b := Flush(f, 1), f.buf[..k + 1];
    assert b[1..] == g.flow.buf[..k];
    assert Raised(f.expected, b) == Raised(g.flow.expected, b[1..]);
    assert f.buf[k + 1..] == f.buf[1..][k..];
    assert vs + Accepts(b) == (vs + g.verdicts) + Accepts(b[1..]);
  }

  lemma JoinedTwice(vs: seq<Verdict>, a: seq<Verdict>, r: Ruling)
    ensures Joined(vs, Joined(a, r)) == Joined(vs + a, r)
  {
    assert vs + (a + r.verdicts) == (vs + a) + r.verdicts;
  }

  lemma FlushNone(f: Flow, vs: seq<Verdict>)
    ensures Joined(vs, Flush(f, 0)) == Ruling(f, vs)
  {
    assert f.buf[0..] == f.buf && vs + [] == vs;
  }

  /** insert_or_send_packet (nfqueue.c:299-356); `answer` is what nfq_set_verdict returns. */
  method InsertOrSend(f: FlowBuf, q: Handle, s: Seg, answer: int) returns (ret: int, ghost i: nat)
    requires f.Valid() && U32(s.num)
    modifies f`size, f`expected, f`entry, f`flow, f.root, f.root.repr, q
    ensures f.Valid() && fresh(f.root.repr - old(f.root.repr)) && Slot(Wrapped, old(f.flow).buf, s.num, i)
    ensures Ruling(f.flow, q.verdicts) == Joined(old(q.verdicts), Keep(old(f.flow), s, i))
    ensures ret == if Hit(old(f.flow).buf, s.num, i) then answer else 0
  {
    var parent, left, found;
    ghost var x;
    parent, left, found, x, i := f.Descend(s.num);
    if found != null {
      var curr := f.entry[found];
      if curr.size > s.size {
        q.verdicts := q.verdicts + [Verdict(s.id, false)];
      } else {
        f.Overwrite(found, s, i);
        q.verdicts := q.verdicts + [Verdict(curr.id, false)];
      }
      ret := answer;
    } else {
      f.Link(s, parent, left, x, i);
      assert q.verdicts + [] == q.verdicts;
      ret := 0;
    }
  }

  /** send_packet_at on the first node (nfqueue.c:358-378). */
  method SendPacketAt(f: FlowBuf, q: Handle, node: Link)
    requires f.Valid() && f.Holds(node, 0)
    modifies f`size, f`expected, f`entry, f`flow, f.root, f.root.repr, q
    ensures f.Valid() && f.root.repr <= old(f.root.repr)
    ensures Ruling(f.flow, q.verdicts) == Joined(old(q.verdicts), Flush(old(f.flow), 1))
  {
    f.Numbers();
    var s := f.entry[node];
    FlushOne(f.flow);
    q.verdicts := q.verdicts + [Verdict(s.id, true)];
    var e := (s.num + s.size) % TWO32;
    f.Unlink(node, if e > f.expected then e else f.expected);
  }

  /** The loop of nfqueue.c:202-206. */
  method Drain(f: FlowBuf, q: Handle)
    requires f.Valid()
    modifies f`size, f`expected, f`entry, f`flow, f.root, f.root.repr, q
    ensures f.Valid() && f.root.repr <= old(f.root.repr)
    ensures Ruling(f.flow, q.verdicts)
         == Joined(old(q.verdicts), Flush(old(f.flow), Ready(old(f.flow.expected), old(f.flow.buf))))
  {
    ghost var r := Joined(q.verdicts, Flush(f.flow, Ready(f.flow.expected, f.flow.buf)));
    var node := f.First();
    f.Numbers();
    while node != null && f.entry[node].num == f.expected
      invariant f.Valid() && f.root.repr <= old(f.root.repr) && f.flow.expected == f.expected
      invariant if f.flow.buf == [] then node == null else node != null && f.Holds(node, 0)
      invariant Joined(q.verdicts, Flush(f.flow, Ready(f.flow.expected, f.flow.buf))) == r
      decreases |f.flow.buf|
    {
      ReadyTurn(f.flow, q.verdicts);
      SendPacketAt(f, q, node);
      node := f.First();
      f.Numbers();
    }
    FlushNone(f.flow, q.verdicts);
  }

  lemma ReadyTurn(f: Flow, vs: seq<Verdict>)
    requires f.buf != [] && f.buf[0].num == f.expected
    ensures var g := Flush(f, 1);
      Joined(vs, Flush(f, Ready(f.expected, f.buf)))
        == Joined(vs + g.verdicts, Flush(g.flow, Ready(g.flow.expected, g.flow.buf)))
  {
    FlushOne(f);
    FlushTurn(f, Ready(Raise(f.expected, End(Wrapped, f.buf[0])), f.buf[1..]), vs);
  }

  ghost function All(vs: seq<Verdict>, f: Flow): Ruling { Joined(vs, Flush(f, |f.buf|)) }

  /** The drain loop of empty_and_destroy_buf (nfqueue.c:382-388): nothing stays held. */
  method Empty(f: FlowBuf, q: Handle)
    requires f.Valid()
    modifies f`size, f`expected, f`entry, f`flow, f.root, f.root.repr, q
    ensures f.Valid() && f.root.repr <= old(f.root.repr) && f.flow.buf == []
    ensures Ruling(f.flow, q.verdicts) == All(old(q.verdicts), old(f.flow))
  {
    ghost var r := All(q.verdicts, f.flow);
    var node := f.First();
    while node != null
      invariant f.Valid() && f.root.repr <= old(f.root.repr)
      invariant if f.flow.buf == [] then node == null else node != null && f.Holds(node, 0)
      invariant All(q.verdicts, f.flow) == r
      decreases |f.flow.buf|
    {
      FlushTurn(f.flow, |f.flow.buf| - 1, q.verdicts);
      FlushOne(f.flow);
      SendPacketAt(f, q, node);
      node := f.First();
    }
    FlushNone(f.flow, q.verdicts);
  }

  /** Some place is always right. */
  lemma AnySlot(f: Flow, num: int) returns (i: nat)
    requires U32(num) && forall j :: 0 <= j < |f.buf| ==> U32(f.buf[j].num)
    ensures Slot(Wrapped, Goal(f).buf, num, i)
  {
    i := SlotExists(Goal(f).buf, num, 0);
  }

  /** A packet at or before expected_next (nfqueue.c:187-212). */
  method Pass(f: FlowBuf, q: Handle, p: Packet)
    requires f.Valid() && U32(p.seg.num) && Le(Wrapped, p.seg.num, f.flow.expected)
    modifies f`size, f`expected, f`entry, f`flow, f.root, f.root.repr, q
    ensures f.Valid() && f.root.repr <= old(f.root.repr)
    ensures Ruling(f.flow, q.verdicts) == Joined(old(q.verdicts), Rule(old(f.flow), p, 0))
  {
    f.Numbers();
    ghost var e0 := Ahead(f.flow, p);
    JoinedTwice(q.verdicts, [Verdict(p.seg.id, true)], Flush(f.flow.(expected := e0), Ready(e0, f.flow.buf)));
    q.verdicts := q.verdicts + [Verdict(p.seg.id, true)];
    var e := (p.seg.num + p.seg.size) % TWO32;
    f.Expect(if p.syn then (p.seg.num + 1) % TWO32 else if e > f.expected then e else f.expected);
    Drain(f, q);
  }

  /** A packet ahead of expected_next that finds the buffer full (nfqueue.c:244-269). */
  method Full(f: FlowBuf, q: Handle, p: Packet, answer: int) returns (ghost i: nat)
    requires f.Valid() && U32(p.seg.num) && !Le(Wrapped, p.seg.num, f.flow.expected) && |f.flow.buf| >= NFQ_SIZ
    modifies f`size, f`expected, f`entry, f`flow, f.root, f.root.repr, q
    ensures f.Valid() && fresh(f.root.repr - old(f.root.repr)) && Slot(Wrapped, Goal(old(f.flow)).buf, p.seg.num, i)
    ensures Ruling(f.flow, q.verdicts) == Joined(old(q.verdicts), Rule(old(f.flow), p, i))
  {
    f.Numbers();
    var first := f.First();
    if f.entry[first].num <= p.seg.num {
      ghost var g := Flush(f.flow, 1);
      SendPacketAt(f, q, first);
      var _, j := InsertOrSend(f, q, p.seg, answer);
      i := j;
      JoinedTwice(old(q.verdicts), g.verdicts, Keep(g.flow, p.seg, i));
    } else {
      i := AnySlot(f.flow, p.seg.num);
      q.verdicts := q.verdicts + [Verdict(p.seg.id, true)];
    }
  }

  /** What nfq_cb returns, where nfq_set_verdict returns `answer`. */
  ghost function Returns(f: Flow, p: Packet, i: nat, answer: int): int {
    if Le(Wrapped, p.seg.num, f.expected) then 1
    else if |f.buf| >= NFQ_SIZ then -1
    else if Hit(f.buf, p.seg.num, i) then answer else 0
  }

  /** The rest of nfq_cb once the flow is found (nfqueue.c:187-276). */
  method HandlePacket(f: FlowBuf, q: Handle, p: Packet, answer: int) returns (ret: int, ghost i: nat)
    requires f.Valid() && U32(p.seg.num)
    modifies f`size, f`expected, f`entry, f`flow, f.root, f.root.repr, q
    ensures f.Valid() && fresh(f.root.repr - old(f.root.repr)) && Slot(Wrapped, Goal(old(f.flow)).buf, p.seg.num, i)
    ensures Ruling(f.flow, q.verdicts) == Joined(old(q.verdicts), Rule(old(f.flow), p, i))
    ensures ret == Returns(old(f.flow), p, i, answer)
  {
    f.Numbers();
    if Lt(Wrapped, p.seg.num, f.expected) || p.seg.num == f.expected {
      i := AnySlot(f.flow, p.seg.num);
      Pass(f, q, p);
      ret := 1;
    } else if f.size < NFQ_SIZ {
      ret, i := InsertOrSend(f, q, p.seg, answer);
    } else {
      i := Full(f, q, p, answer);
      ret := -1;
    }
  }
}
