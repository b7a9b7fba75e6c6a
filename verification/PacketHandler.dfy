/** rc_handle_packet from the ports on (reorder_counter.c:63-192): the flow table and the flows together. */
module PacketHandler {
  import opened SerialNumber
  import opened Resequencer
  import opened FlowBufs
  import opened FlowTables
  import opened ReorderCounter
  import NfQueue
  import Verdicts

  /** Every flow is sound, and no two share memory. */
  ghost predicate Sound(flows: set<FlowBuf>)
    reads flows, set b | b in flows :: b.root, set b, n | b in flows && n in b.root.repr :: n
  {
    && (forall b :: b in flows ==> b.Valid())
    && (forall b, c :: b in flows && c in flows && b != c ==> b.root != c.root && b.root.repr !! c.root.repr)
  }

  /** Finding the flow, or making one, disturbs no other. */
  method Locate(table: FlowTable, sport: nat, dport: nat, p: Packet) returns (b: FlowBuf)
    requires table.Valid() && Sound(table.repr) && sport < PORTS && U32(p.seg.num)
    modifies table, table.heads, table.repr`next
    ensures table.Valid() && Sound(table.repr) && table.repr == old(table.repr) + {b}
    ensures (sport, dport) in table.table && table.table[(sport, dport)] == b
    ensures b in old(table.repr) || (fresh(b) && fresh(b.root) && b.root.repr == {})
    ensures if (sport, dport) in old(table.table) then b in old(table.repr) else fresh(b) && b.flow == Fresh(p)
  {
    b := table.FindOrCreate(sport, dport, p.seg.num);
  }

  /** What rc_handle_packet returns. */
  ghost function Answer(f: Flow, p: Packet, i: nat): int
    requires Legal(Wrapped, f, p, i)
  {
    if Step(Wrapped, f, p, i).passed then 1 else if |f.buf| < FBUF_SIZ then 0 else -1
  }

  /** Serving one flow disturbs no other. */
  method Serve(ghost flows: set<FlowBuf>, b: FlowBuf, rc: RcConfig, p: Packet) returns (ret: int, ghost i: nat)
    requires Sound(flows) && b in flows && U32(p.seg.num)
    modifies b`size, b`expected, b`entry, b`flow, b.root, b.root.repr, rc
    ensures Sound(flows) && Legal(Wrapped, old(b.flow), p, i)
    ensures forall c :: c in flows && c != b ==> c.flow == old(c.flow)
    ensures b.flow == Step(Wrapped, old(b.flow), p, i).flow
    ensures rc.reorderCount == old(rc.reorderCount) + Step(Wrapped, old(b.flow), p, i).grew
    ensures ret == Answer(old(b.flow), p, i)
  {
    ghost var out;
    ret, i, out := HandlePacket(b, rc, p);
  }

  /** The packet goes to the flow of its ports, created if there was none; every other flow stays as it is. */
  method Receive(table: FlowTable, rc: RcConfig, sport: nat, dport: nat, p: Packet)
    returns (ret: int, b: FlowBuf, ghost f: Flow, ghost i: nat)
    requires table.Valid() && Sound(table.repr) && sport < PORTS && U32(p.seg.num)
    modifies table, table.heads, table.repr, rc
    modifies set b | b in table.repr :: b.root, set b, n | b in table.repr && n in b.root.repr :: n
    ensures table.Valid() && Sound(table.repr)
    ensures (sport, dport) in table.table && table.table[(sport, dport)] == b && table.repr == old(table.repr) + {b}
    ensures if (sport, dport) in old(table.table) then b in old(table.repr) && f == old(b.flow)
            else b !in old(table.repr) && f == Fresh(p)
    ensures forall c :: c in old(table.repr) && c != b ==> c.flow == old(c.flow)
    ensures Legal(Wrapped, f, p, i) && b.flow == Step(Wrapped, f, p, i).flow
    ensures rc.reorderCount == old(rc.reorderCount) + Step(Wrapped, f, p, i).grew && ret == Answer(f, p, i)
  {
    b := Locate(table, sport, dport, p);
    f := b.flow;
    ret, i := Serve(table.repr, b, rc, p);
  }

  // ----- the flows in the table as the machines of Resequencer and Verdicts see them

  /** Every flow of the set, once. */
  ghost predicate Listed(order: seq<FlowBuf>, flows: set<FlowBuf>) {
    flows == (set b | b in order) && forall i, j :: 0 <= i < j < |order| ==> order[i] != order[j]
  }

  ghost function FlowsOf(order: seq<FlowBuf>): (r: seq<Flow>)
    reads order
    ensures |r| == |order| && forall i :: 0 <= i < |order| ==> r[i] == order[i].flow
  {
    seq(|order|, i requires 0 <= i < |order| reads order => order[i].flow)
  }

  /** Where flow b is, or is put. */
  ghost function IndexOf(order: seq<FlowBuf>, b: FlowBuf): (j: nat)
    ensures j <= |order| && (j < |order| ==> order[j] == b) && (j == |order| <==> b !in order)
  {
    if order == [] || order[0] == b then 0 else 1 + IndexOf(order[1..], b)
  }

  ghost function With(order: seq<FlowBuf>, b: FlowBuf): seq<FlowBuf> { if b in order then order else order + [b] }

  lemma WithListed(order: seq<FlowBuf>, flows: set<FlowBuf>, b: FlowBuf)
    requires Listed(order, flows)
    ensures Listed(With(order, b), flows + {b}) && |With(order, b)| == if b in order then |order| else |order| + 1
    ensures var order' := With(order, b);
      forall i :: 0 <= i < |order'| ==> order'[i] == if i == IndexOf(order, b) then b else order[i]
  {
  }

  /** One flow has changed, or is new, and the others have not. */
  lemma OnlyThis(fs: seq<Flow>, fs': seq<Flow>, j: nat)
    requires j <= |fs| && |fs'| == if j < |fs| then |fs| else |fs| + 1
    requires forall i :: 0 <= i < |fs'| && i != j ==> fs'[i] == fs[i]
    ensures fs' == fs[..j] + [fs'[j]] + (if j < |fs| then fs[j + 1..] else [])
  {
  }

  lemma CountStep(c: Counter, e: Input, f: Flow, fs': seq<Flow>)
    requires Accounted(Wrapped, c) && e.j <= |c.flows| && f == FlowFor(c, e) && Legal(Wrapped, f, e.p, e.i)
    requires |fs'| == if e.j < |c.flows| then |c.flows| else |c.flows| + 1
    requires fs'[e.j] == Step(Wrapped, f, e.p, e.i).flow
    requires forall i :: 0 <= i < |fs'| && i != e.j ==> fs'[i] == c.flows[i]
    ensures Possible(Wrapped, c, e) && Accounted(Wrapped, Handle(Wrapped, c, e)) && Handle(Wrapped, c, e).flows == fs'
    ensures Handle(Wrapped, c, e).count == c.count + Step(Wrapped, f, e.p, e.i).grew
  {
    OnlyThis(c.flows, fs', e.j);
    HandleAccounted(Wrapped, c, e);
  }

  /** Every packet is one step of the machine that AlwaysAccounted is about: so over every run reorder_count is what the
      flows of the table hold and what was released, and no flow exceeds FBUF_SIZ. */
  method Count(table: FlowTable, rc: RcConfig, sport: nat, dport: nat, p: Packet, ghost order: seq<FlowBuf>,
               ghost released: nat) returns (ret: int, ghost order': seq<FlowBuf>, ghost e: Input)
    requires table.Valid() && Sound(table.repr) && sport < PORTS && U32(p.seg.num) && Listed(order, table.repr)
    requires Accounted(Wrapped, Counter(FlowsOf(order), rc.reorderCount, released))
    modifies table, table.heads, table.repr, rc
    modifies set b | b in table.repr :: b.root, set b, n | b in table.repr && n in b.root.repr :: n
    ensures table.Valid() && Sound(table.repr) && Listed(order', table.repr) && e.p == p
    ensures var c := old(Counter(FlowsOf(order), rc.reorderCount, released));
      && Possible(Wrapped, c, e)
      && var c' := Handle(Wrapped, c, e);
      && c'.flows == FlowsOf(order') && c'.count == rc.reorderCount && Accounted(Wrapped, c')
  {
    ghost var c := Counter(FlowsOf(order), rc.reorderCount, released);
    var b;
    ghost var f, i;
    ret, b, f, i := Receive(table, rc, sport, dport, p);
    order', e := With(order, b), Input(IndexOf(order, b), p, i);
    WithListed(order, old(table.repr), b);
    assert f == FlowFor(c, e);
    CountStep(c, e, f, FlowsOf(order'));
  }

  /** Emptying one flow disturbs no other. */
  method Discharge(ghost flows: set<FlowBuf>, q: NfQueue.Handle, b: FlowBuf)
    requires Sound(flows) && b in flows
    modifies b`size, b`expected, b`entry, b`flow, b.root, b.root.repr, q
    ensures Sound(flows) && forall c :: c in flows && c != b ==> c.flow == old(c.flow)
    ensures b.flow.buf == [] && Verdicts.Ruling(b.flow, q.verdicts) == NfQueue.All(old(q.verdicts), old(b.flow))
  {
    NfQueue.Empty(b, q);
  }

  /** Taking a flow out of the table disturbs none. */
  method Forget(table: FlowTable, b: FlowBuf)
    requires table.Valid() && Sound(table.repr) && b.sport < PORTS
    requires (b.sport, b.dport) in table.table && table.table[(b.sport, b.dport)] == b
    modifies table, table.heads, table.repr`next, table.repr`prev
    ensures table.Valid() && table.table == old(table.table) - {(b.sport, b.dport)}
    ensures table.repr == old(table.repr) - {b}
    ensures Sound(old(table.repr))
  {
    table.Remove(b);
  }

  /** empty_and_destroy_buf (nfqueue.c:380-403): the flow gives up every packet it holds, and is gone from the table. */
  method EmptyAndDestroy(table: FlowTable, q: NfQueue.Handle, b: FlowBuf)
    requires table.Valid() && Sound(table.repr) && b.sport < PORTS
    requires b in table.repr && (b.sport, b.dport) in table.table && table.table[(b.sport, b.dport)] == b
    modifies b`size, b`expected, b`entry, b`flow, b.root, b.root.repr, q
    modifies table, table.heads, table.repr`next, table.repr`prev
    ensures table.Valid() && table.table == old(table.table) - {(b.sport, b.dport)}
    ensures table.repr == old(table.repr) - {b}
    ensures Sound(old(table.repr)) && forall c :: c in table.repr ==> c.flow == old(c.flow)
    ensures b.flow.buf == [] && Verdicts.Ruling(b.flow, q.verdicts) == NfQueue.All(old(q.verdicts), old(b.flow))
  {
    Discharge(table.repr, q, b);
    Forget(table, b);
  }

  // ----- the same for nfqueue.c

  /** Judging a packet of one flow disturbs no other. */
  method ServeVerdict(ghost flows: set<FlowBuf>, b: FlowBuf, q: NfQueue.Handle, p: Packet, answer: int)
    returns (ret: int, ghost i: nat)
    requires Sound(flows) && b in flows && U32(p.seg.num)
    modifies b`size, b`expected, b`entry, b`flow, b.root, b.root.repr, q
    ensures Sound(flows) && Slot(Wrapped, Verdicts.Goal(old(b.flow)).buf, p.seg.num, i)
    ensures forall c :: c in flows && c != b ==> c.flow == old(c.flow)
    ensures Verdicts.Ruling(b.flow, q.verdicts) == Verdicts.Joined(old(q.verdicts), Verdicts.Rule(old(b.flow), p, i))
    ensures ret == NfQueue.Returns(old(b.flow), p, i, answer)
  {
    ret, i := NfQueue.HandlePacket(b, q, p, answer);
  }

  lemma JudgeStep(q: Verdicts.Queue, e: Verdicts.Event, f: Flow, fs': seq<Flow>)
    requires e.Arrive? && e.j <= |q.flows| && f == Verdicts.FlowOf(q, e) && e.i <= |Verdicts.Goal(f).buf|
    requires |fs'| == if e.j < |q.flows| then |q.flows| else |q.flows| + 1
    requires fs'[e.j] == Verdicts.Rule(f, e.p, e.i).flow
    requires forall i :: 0 <= i < |fs'| && i != e.j ==> fs'[i] == q.flows[i]
    ensures Verdicts.Possible(q, e)
    ensures Verdicts.After(q, e) == Verdicts.Queue(fs', q.verdicts + Verdicts.Rule(f, e.p, e.i).verdicts)
  {
    OnlyThis(q.flows, fs', e.j);
  }

  /** nfq_cb from the ports on (nfqueue.c:130-276), for one flow. */
  method ReceiveVerdict(table: FlowTable, q: NfQueue.Handle, sport: nat, dport: nat, p: Packet, answer: int)
    returns (ret: int, b: FlowBuf, ghost f: Flow, ghost i: nat)
    requires table.Valid() && Sound(table.repr) && sport < PORTS && U32(p.seg.num)
    modifies table, table.heads, table.repr, q
    modifies set b | b in table.repr :: b.root, set b, n | b in table.repr && n in b.root.repr :: n
    ensures table.Valid() && Sound(table.repr)
    ensures (sport, dport) in table.table && table.table[(sport, dport)] == b && table.repr == old(table.repr) + {b}
    ensures if (sport, dport) in old(table.table) then b in old(table.repr) && f == old(b.flow)
            else b !in old(table.repr) && f == Fresh(p)
    ensures forall c :: c in old(table.repr) && c != b ==> c.flow == old(c.flow)
    ensures Slot(Wrapped, Verdicts.Goal(f).buf, p.seg.num, i) && ret == NfQueue.Returns(f, p, i, answer)
    ensures Verdicts.Ruling(b.flow, q.verdicts) == Verdicts.Joined(old(q.verdicts), Verdicts.Rule(f, p, i))
  {
    b := Locate(table, sport, dport, p);
    f := b.flow;
    ret, i := ServeVerdict(table.repr, b, q, p, answer);
  }

  /** Every packet is one step of the machine that OneVerdict is about. */
  method Judge(table: FlowTable, q: NfQueue.Handle, sport: nat, dport: nat, p: Packet, answer: int,
               ghost order: seq<FlowBuf>) returns (ret: int, ghost order': seq<FlowBuf>, ghost e: Verdicts.Event)
    requires table.Valid() && Sound(table.repr) && sport < PORTS && U32(p.seg.num) && Listed(order, table.repr)
    modifies table, table.heads, table.repr, q
    modifies set b | b in table.repr :: b.root, set b, n | b in table.repr && n in b.root.repr :: n
    ensures table.Valid() && Sound(table.repr) && Listed(order', table.repr) && e.Arrive? && e.p == p
    ensures var v := old(Verdicts.Queue(FlowsOf(order), q.verdicts));
      Verdicts.Possible(v, e) && Verdicts.Queue(FlowsOf(order'), q.verdicts) == Verdicts.After(v, e)
  {
    ghost var v := Verdicts.Queue(FlowsOf(order), q.verdicts);
    var b;
    ghost var f, i;
    ret, b, f, i := ReceiveVerdict(table, q, sport, dport, p, answer);
    order', e := With(order, b), Verdicts.Arrive(IndexOf(order, b), p, i);
    WithListed(order, old(table.repr), b);
    assert f == Verdicts.FlowOf(v, e);
    JudgeStep(v, e, f, FlowsOf(order'));
  }

  lemma CutListed(order: seq<FlowBuf>, flows: set<FlowBuf>, j: nat)
    requires Listed(order, flows) && j < |order|
    ensures var order' := order[..j] + order[j + 1..];
      && Listed(order', flows - {order[j]})
      && forall i :: 0 <= i < |order'| ==> order'[i] == order[if i < j then i else i + 1]
  {
    var order' := order[..j] + order[j + 1..];
    assert order == order[..j] + [order[j]] + order[j + 1..];
    assert (set b | b in order') == flows - {order[j]};
  }

  lemma ExpireStep(q: Verdicts.Queue, j: nat, fs': seq<Flow>)
    requires j < |q.flows| == |fs'| + 1 && forall i :: 0 <= i < |fs'| ==> fs'[i] == q.flows[if i < j then i else i + 1]
    ensures Verdicts.Possible(q, Verdicts.Expire(j))
    ensures Verdicts.After(q, Verdicts.Expire(j)) == Verdicts.Queue(fs', NfQueue.All(q.verdicts, q.flows[j]).verdicts)
  {
    assert fs' == q.flows[..j] + q.flows[j + 1..];
  }

  /** A timeout (nfqueue.c:278-297, 380-403) is one, too. */
  method Expire(table: FlowTable, q: NfQueue.Handle, b: FlowBuf, ghost order: seq<FlowBuf>)
    returns (ghost order': seq<FlowBuf>, ghost e: Verdicts.Event)
    requires table.Valid() && Sound(table.repr) && b.sport < PORTS && Listed(order, table.repr)
    requires b in table.repr && (b.sport, b.dport) in table.table && table.table[(b.sport, b.dport)] == b
    modifies b`size, b`expected, b`entry, b`flow, b.root, b.root.repr, q
    modifies table, table.heads, table.repr`next, table.repr`prev
    ensures table.Valid() && Sound(old(table.repr)) && table.repr == old(table.repr) - {b} && Listed(order', table.repr)
    ensures var v := old(Verdicts.Queue(FlowsOf(order), q.verdicts));
      && e == Verdicts.Expire(IndexOf(order, b)) && Verdicts.Possible(v, e)
      && Verdicts.Queue(FlowsOf(order'), q.verdicts) == Verdicts.After(v, e)
  {
    ghost var v, j := Verdicts.Queue(FlowsOf(order), q.verdicts), IndexOf(order, b);
    order', e := order[..j] + order[j + 1..], Verdicts.Expire(j);
    CutListed(order, table.repr, j);
    EmptyAndDestroy(table, q, b);
    ghost var fs := FlowsOf(order');
    forall i | 0 <= i < |fs|
      ensures fs[i] == v.flows[if i < j then i else i + 1]
    {
      assert order'[i] in table.repr;
    }
    ExpireStep(v, j, fs);
  }
}
