/** reorder_buf: per source port, a linked chain of flows (reorder_counter.c:68-99, nfqueue.c:137-174, 390-399). */
module FlowTables {
  import opened SerialNumber
  import opened Resequencer
  import opened FlowBufs

  const PORTS: nat := 65536

  type Chain = seq<FlowBuf>

  type Table = map<(nat, nat), FlowBuf>

  function At(c: Chain, i: int): FlowBuf? { if 0 <= i < |c| then c[i] else null }

  ghost predicate LinkedAt(repr: set<FlowBuf>, c: Chain, i: int)
    requires 0 <= i < |c|
    reads repr`next, repr`prev
  {
    c[i] in repr && c[i].next == At(c, i + 1) && c[i].prev == At(c, i - 1)
  }

  /** Linked both ways, from the head on. */
  ghost predicate Linked(repr: set<FlowBuf>, head: FlowBuf?, c: Chain)
    reads repr`next, repr`prev
  {
    head == At(c, 0) && forall i :: 0 <= i < |c| ==> LinkedAt(repr, c, i)
  }

  /** The flows of one source port, with each destination port once; so no flow is there twice. */
  ghost predicate OfPort(c: Chain, s: nat) {
    && (forall i :: 0 <= i < |c| ==> c[i].sport == s)
    && (forall i, j :: 0 <= i < j < |c| ==> c[i].dport != c[j].dport)
  }

  /** The table holds the flows of chain c, and no others of port s. */
  ghost predicate Means(c: Chain, s: nat, t: Table) {
    && (forall i :: 0 <= i < |c| ==> (s, c[i].dport) in t && t[(s, c[i].dport)] == c[i])
    && (forall d :: (s, d) in t ==> t[(s, d)] in c && t[(s, d)].dport == d)
  }

  lemma Cut(c: Chain, s: nat, t: Table, k: nat)
    requires OfPort(c, s) && Means(c, s, t) && k < |c|
    ensures var c' := c[..k] + c[k + 1..]; OfPort(c', s) && Means(c', s, t - {(s, c[k].dport)})
  {
    var c' := c[..k] + c[k + 1..];
    assert c == c[..k] + [c[k]] + c[k + 1..];
    forall i | 0 <= i < |c'|
      ensures c'[i] == c[if i < k then i else i + 1]
    {
    }
  }

  lemma CutOther(c: Chain, p: nat, t: Table, key: (nat, nat))
    requires Means(c, p, t) && p != key.0
    ensures Means(c, p, t - {key})
  {
  }

  class FlowTable {
    const heads: array<FlowBuf?>
    ghost var chains: seq<Chain>
    ghost var repr: set<FlowBuf>

    /** What the chains mean. */
    ghost var table: Table

    ghost predicate Valid()
      reads this, heads, repr`next, repr`prev
    {
      heads.Length == |chains| == PORTS && forall s :: 0 <= s < PORTS ==> ValidAt(s)
    }

    ghost predicate ValidAt(s: nat)
      requires heads.Length == |chains| == PORTS && s < PORTS
      reads this, heads, repr`next, repr`prev
    {
      Linked(repr, heads[s], chains[s]) && OfPort(chains[s], s) && Means(chains[s], s, table)
    }

    constructor ()
      ensures Valid() && table == map[] && repr == {} && fresh(heads)
    {
      heads := new FlowBuf?[PORTS](_ => null);
      chains, repr, table := seq(PORTS, _ => []), {}, map[];
    }

    /** The chain walk of reorder_counter.c:80-89. */
    method Find(sport: nat, dport: nat) returns (b: FlowBuf?, tail: FlowBuf?)
      requires Valid() && sport < PORTS
      ensures b == if (sport, dport) in table then table[(sport, dport)] else null
      ensures b != null ==> b in repr
      ensures b == null ==> tail == At(chains[sport], |chains[sport]| - 1)
    {
      ghost var c, i := chains[sport], 0;
      assert ValidAt(sport);
      var curr := heads[sport];
      b, tail := null, curr;
      while curr != null
        invariant 0 <= i <= |c| && curr == At(c, i) && tail == At(c, if i == 0 then 0 else i - 1)
        invariant forall j :: 0 <= j < i ==> c[j].dport != dport
        decreases |c| - i
      {
        assert LinkedAt(repr, c, i);
        if curr.dport == dport {
          b := curr;
          return;
        }
        tail := curr;
        curr := curr.next;
        i := i + 1;
      }
    }

    /** The flow of a packet, created if it is new (reorder_counter.c:68-99). */
    method FindOrCreate(sport: nat, dport: nat, seq0: int) returns (b: FlowBuf)
      requires Valid() && sport < PORTS && U32(seq0)
      modifies this, heads, repr`next
      ensures Valid() && (sport, dport) in table && b == table[(sport, dport)] && repr == old(repr) + {b}
      ensures (sport, dport) in old(table) ==> table == old(table) && b in old(repr)
      ensures (sport, dport) !in old(table) ==>
        && fresh(b) && fresh(b.root) && b.root.repr == {} && b.Valid() && b.flow == Flow(seq0, [])
        && table == old(table)[(sport, dport) := b]
    {
      var found, tail := Find(sport, dport);
      if found != null {
        return found;
      }
      b := new FlowBuf(sport, dport, seq0);
      Append(b, tail);
    }

    method Append(b: FlowBuf, tail: FlowBuf?)
      requires Valid() && b !in repr && b.sport < PORTS && b.next == null && b.prev == null
      requires (b.sport, b.dport) !in table && tail == At(chains[b.sport], |chains[b.sport]| - 1)
      modifies this, heads, repr`next, b`prev
      ensures Valid() && table == old(table)[(b.sport, b.dport) := b] && repr == old(repr) + {b}
    {
      ghost var s, c, r := b.sport, chains[b.sport], repr;
      assert ValidAt(s);
      b.prev := tail;
      if tail == null {
        heads[b.sport] := b;
      } else {
        assert LinkedAt(repr, c, |c| - 1);
        tail.next := b;
      }
      chains, repr, table := chains[s := c + [b]], repr + {b}, table[(s, b.dport) := b];
      forall p | 0 <= p < PORTS
        ensures ValidAt(p)
      {
        assert old(ValidAt(p));
        ghost var c' := chains[p];
        forall i | 0 <= i < |c'|
          ensures LinkedAt(repr, c', i)
        {
          if p != s {
            assert old(LinkedAt(repr, c', i)) && c'[i].sport != s;
          } else if i < |c| {
            assert old(LinkedAt(repr, c, i));
          }
        }
      }
    }

    /** Taking a flow out (nfqueue.c:390-399). */
    method Remove(b: FlowBuf)
      requires Valid() && (b.sport, b.dport) in table && table[(b.sport, b.dport)] == b && b.sport < PORTS
      modifies this, heads, repr`next, repr`prev
      ensures Valid() && table == old(table) - {(b.sport, b.dport)} && repr == old(repr) - {b}
    {
      ghost var s, c := b.sport, chains[b.sport];
      assert ValidAt(s);
      ghost var k :| 0 <= k < |c| && c[k] == b;
      Bypass(b, c, k);
      chains, table, repr := chains[s := c[..k] + c[k + 1..]], table - {(s, b.dport)}, repr - {b};
      Cut(c, s, old(table), k);
      forall p | 0 <= p < PORTS
        ensures ValidAt(p)
      {
        assert old(ValidAt(p));
        ghost var c' := chains[p];
        if p != s {
          CutOther(c', p, old(table), (s, b.dport));
          forall i | 0 <= i < |c'|
            ensures LinkedAt(repr, c', i)
          {
            assert old(LinkedAt(repr, c', i)) && c'[i].sport != s;
          }
        }
      }
    }

    /** The pointer writes: what is left of the chain is linked again, and other chains are not touched. */
    method Bypass(b: FlowBuf, ghost c: Chain, ghost k: nat)
      requires b.sport < heads.Length && Linked(repr, heads[b.sport], c) && OfPort(c, b.sport) && k < |c| && c[k] == b
      modifies heads, repr`next, repr`prev
      ensures Linked(repr - {b}, heads[b.sport], c[..k] + c[k + 1..])
      ensures forall p :: 0 <= p < heads.Length && p != b.sport ==> heads[p] == old(heads[p])
      ensures forall n :: n in repr && n.sport != b.sport ==> n.next == old(n.next) && n.prev == old(n.prev)
    {
      assert LinkedAt(repr, c, k);
      var prev, next := b.prev, b.next;
      if prev != null {
        assert LinkedAt(repr, c, k - 1);
        prev.next := next;
      } else {
        heads[b.sport] := next;
      }
      if next != null {
        assert old(LinkedAt(repr, c, k + 1));
        next.prev := prev;
      }
      ghost var c' := c[..k] + c[k + 1..];
      AtCut(c, k, 0);
      forall i | 0 <= i < |c'|
        ensures LinkedAt(repr - {b}, c', i)
      {
        var j := if i < k then i else i + 1;
        assert old(LinkedAt(repr, c, j));
        AtCut(c, k, i);
      }
    }
  }

  lemma AtCut(c: Chain, k: nat, i: int)
    requires k < |c|
    ensures var c' := c[..k] + c[k + 1..];
      At(c', i) == if i < k then At(c, i) else At(c, i + 1)
    ensures var c' := c[..k] + c[k + 1..];
      At(c', i + 1) == (if i + 1 < k then At(c, i + 1) else At(c, i + 2))
      && At(c', i - 1) == if i - 1 < k then At(c, i - 1) else At(c, i)
  {
  }
}
