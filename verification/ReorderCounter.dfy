/** rc_handle_packet and its helpers on the heap (reorder_counter.c:101-259). */
module ReorderCounter {
  import opened SerialNumber
  import opened Resequencer
  import opened FlowBufs

  /** struct rc_config, without the flow table. */
  class RcConfig {
    var reorderCount: nat
  }

  /** Some place is always right. */
  lemma AnySlot(f: Flow, num: int) returns (i: nat)
    requires U32(num) && forall j :: 0 <= j < |f.buf| ==> U32(f.buf[j].num)
    ensures Slot(Wrapped, Target(Wrapped, f).buf, num, i)
  {
    i := SlotExists(Target(Wrapped, f).buf, num, 0);
  }

  /** One turn of the drain loop. */
  lemma PassTurn(f: Flow, out: seq<Seg>)
    requires f.buf != [] && Le(Wrapped, f.buf[0].num, f.expected)
    ensures var g := Drop1(Wrapped, f);
      Rest(g, out + [f.buf[0]]) == Rest(f, out)
  {
    var g := Drop1(Wrapped, f);
    var k := Due(Wrapped, g.expected, g.buf);
    assert Due(Wrapped, f.expected, f.buf) == k + 1;
    assert f.buf[1..][k..] == f.buf[k + 1..];
    assert out + f.buf[..k + 1] == (out + [f.buf[0]]) + f.buf[1..][..k];
  }

  lemma NextU32(p: Packet)
    ensures U32(Next(Wrapped, p))
  {
    NormU32(p.seg.num + 1);
    NormU32(p.seg.num + p.seg.size);
  }

  lemma PassStart(f: Flow, e: int)
    ensures var r := Pass(Wrapped, f, e); Rest(f.(expected := e), []) == (r.flow, r.out)
  {
    var r := Pass(Wrapped, f, e);
    assert [] + r.out == r.out;
  }

  lemma PassOver(f: Flow, out: seq<Seg>)
    requires f.buf == [] || !Le(Wrapped, f.buf[0].num, f.expected)
    ensures Rest(f, out) == (f, out)
  {
    assert out + [] == out && f.buf[0..] == f.buf;
  }

  /** Where the drain loop ends that has released `out` and stands at f. */
  ghost function Rest(f: Flow, out: seq<Seg>): (Flow, seq<Seg>) {
    var r := Pass(Wrapped, f, f.expected);
    (r.flow, out + r.out)
  }

  /** insert_or_send_packet (reorder_counter.c:195-239). */
  method InsertOrSend(f: FlowBuf, rc: RcConfig, s: Seg) returns (ghost i: nat)
    requires f.Valid() && U32(s.num)
    modifies f`size, f`expected, f`entry, f`flow, f.root, f.root.repr, rc
    ensures f.Valid() && fresh(f.root.repr - old(f.root.repr)) && Slot(Wrapped, old(f.flow).buf, s.num, i)
    ensures var r := Store(old(f.flow), s, i, []);
      f.flow == r.flow && rc.reorderCount == old(rc.reorderCount) + r.grew
  {
    var parent, left, found;
    ghost var x;
    parent, left, found, x, i := f.Descend(s.num);
    if found != null {
      if f.entry[found].size > s.size {
      } else {
        f.Overwrite(found, s, i);
      }
    } else {
      f.Link(s, parent, left, x, i);
      rc.reorderCount := rc.reorderCount + 1;
    }
  }

  /** send_packet_at on the first node (reorder_counter.c:248-259). */
  method SendPacketAt(f: FlowBuf, node: Link)
    requires f.Valid() && f.Holds(node, 0)
    modifies f`size, f`expected, f`entry, f`flow, f.root, f.root.repr
    ensures f.Valid() && f.root.repr <= old(f.root.repr) && f.flow == Drop1(Wrapped, old(f.flow))
  {
    var s := f.entry[node];
    NormU32(s.num + s.size);
    f.Unlink(node, Norm(Wrapped, s.num + s.size));
  }

  /** The drain loop (reorder_counter.c:123-131). */
  method Drain(f: FlowBuf) returns (ghost out: seq<Seg>)
    requires f.Valid()
    modifies f`size, f`expected, f`entry, f`flow, f.root, f.root.repr
    ensures f.Valid() && f.root.repr <= old(f.root.repr)
    ensures Rest(old(f.flow), []) == (f.flow, out)
  {
    out := [];
    var node := f.First();
    f.Numbers();
    while node != null && (Lt(Wrapped, f.entry[node].num, f.expected) || f.entry[node].num == f.expected)
      invariant f.Valid() && f.root.repr <= old(f.root.repr) && f.flow.expected == f.expected
      invariant if f.flow.buf == [] then node == null else node != null && f.Holds(node, 0)
      invariant Rest(f.flow, out) == Rest(old(f.flow), [])
      decreases |f.flow.buf|
    {
      PassTurn(f.flow, out);
      out := out + [f.flow.buf[0]];
      SendPacketAt(f, node);
      node := f.First();
      f.Numbers();
    }
    PassOver(f.flow, out);
  }

  /** A packet ahead of expected_next that finds the buffer full (reorder_counter.c:169-190). */
  method Full(f: FlowBuf, rc: RcConfig, p: Packet) returns (ghost i: nat, ghost out: seq<Seg>)
    requires f.Valid() && U32(p.seg.num) && !Le(Wrapped, p.seg.num, f.flow.expected) && |f.flow.buf| >= FBUF_SIZ
    modifies f`size, f`expected, f`entry, f`flow, f.root, f.root.repr, rc
    ensures f.Valid() && fresh(f.root.repr - old(f.root.repr)) && Legal(Wrapped, old(f.flow), p, i)
    ensures var r := Step(Wrapped, old(f.flow), p, i);
      f.flow == r.flow && rc.reorderCount == old(rc.reorderCount) + r.grew && out == r.out && !r.passed
  {
    f.Numbers();
    var first := f.First();
    if f.entry[first].num <= p.seg.num {
      out := [f.flow.buf[0]];
      SendPacketAt(f, first);
      i := InsertOrSend(f, rc, p.seg);
    } else {
      out := [];
      i := AnySlot(f.flow, p.seg.num);
    }
  }

  /** rc_handle_packet from the flow on (reorder_counter.c:112-192). */
  method HandlePacket(f: FlowBuf, rc: RcConfig, p: Packet) returns (ret: int, ghost i: nat, ghost out: seq<Seg>)
    requires f.Valid() && U32(p.seg.num)
    modifies f`size, f`expected, f`entry, f`flow, f.root, f.root.repr, rc
    ensures f.Valid() && fresh(f.root.repr - old(f.root.repr)) && Legal(Wrapped, old(f.flow), p, i)
    ensures var r := Step(Wrapped, old(f.flow), p, i);
      && f.flow == r.flow && rc.reorderCount == old(rc.reorderCount) + r.grew && out == r.out
      && ret == if r.passed then 1 else if |old(f.flow).buf| < FBUF_SIZ then 0 else -1
  {
    f.Numbers();
    if Lt(Wrapped, p.seg.num, f.expected) || p.seg.num == f.expected {
      i := AnySlot(f.flow, p.seg.num);
      out := PassPacket(f, p);
      ret := 1;
    } else if f.size < FBUF_SIZ {
      out := [];
      i := InsertOrSend(f, rc, p.seg);
      ret := 0;
    } else {
      i, out := Full(f, rc, p);
      ret := -1;
    }
  }

  /** A packet at or before expected_next (reorder_counter.c:118-131). */
  method PassPacket(f: FlowBuf, p: Packet) returns (ghost out: seq<Seg>)
    requires f.Valid() && U32(p.seg.num)
    modifies f`size, f`expected, f`entry, f`flow, f.root, f.root.repr
    ensures f.Valid() && f.root.repr <= old(f.root.repr)
    ensures var r := Pass(Wrapped, old(f.flow), Next(Wrapped, p)); (f.flow, out) == (r.flow, r.out)
  {
    NextU32(p);
    var e := Next(Wrapped, p);
    PassStart(f.flow, e);
    f.Expect(e);
    out := Drain(f);
  }
}
