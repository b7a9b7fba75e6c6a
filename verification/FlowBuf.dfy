/** One flow's buffer on the heap: struct rc_flowbuf and struct nfq_flowbuf over the red-black tree. */
module FlowBufs {
  import opened Basics
  import opened RbTree
  import opened RbMemory
  import opened RbRoots
  import opened SerialNumber
  import opened Resequencer
  import RbInsert
  import RbErase
  import RbFacts
  import RbWalk

  type Link = RbNode<()>

  /** container_of: the rc_flowdata or nfq_flowdata that each node is embedded in. */
  type Entries = map<Link, Seg>

  ghost predicate Known(d: Entries,
                        order: seq<Link>) { forall j :: 0 <= j < |order| ==> order[j] in d && U32(d[order[j]].num) }

  ghost function Contents(d: Entries, order: seq<Link>): (r: seq<Seg>)
    requires Known(d, order)
    ensures |r| == |order| && forall j :: 0 <= j < |order| ==> r[j] == d[order[j]]
  {
    seq(|order|, j requires 0 <= j < |order| => d[order[j]])
  }

  ghost predicate Unique(order: seq<Link>) { forall a, b :: 0 <= a < b < |order| ==> order[a] != order[b] }

  lemma ContentsInserted(d: Entries, order: seq<Link>, order': seq<Link>, i: nat, n: Link, s: Seg)
    requires Known(d, order) && n !in order && U32(s.num) && RbInsert.InsertedAt(order, order', i, n)
    ensures Known(d[n := s], order')
    ensures Contents(d[n := s], order') == Contents(d, order)[..i] + [s] + Contents(d, order)[i..]
  {
    var d' := d[n := s];
    forall j | 0 <= j < |order'|
      ensures order'[j] in d' && d'[order'[j]] == (Contents(d, order)[..i] + [s] + Contents(d, order)[i..])[j]
    {
      if j < i {
        assert order'[j] == order[j];
      } else if j > i {
        assert order'[j] == order[j - 1];
      }
    }
  }

  lemma ContentsUpdated(d: Entries, order: seq<Link>, i: nat, s: Seg)
    requires Known(d, order) && i < |order| && U32(s.num)
    requires Unique(order)
    ensures Known(d[order[i] := s], order) && Contents(d[order[i] := s], order) == Contents(d, order)[i := s]
  {
  }

  lemma ContentsRemoved(d: Entries, order: seq<Link>, order': seq<Link>)
    requires Known(d, order) && order != [] && order' == order[1..]
    ensures Known(d, order') && Contents(d, order') == Contents(d, order)[1..]
  {
  }

  // ----- the descent

  /** The hole of x lies between numbers before and after num. */
  ghost predicate Between(d: Entries, x: Ctx<()>, num: int) {
    var b, a := Before(x), RbTree.After(x);
    && (b != [] ==> b[|b| - 1] in d && Lt(Wrapped, d[b[|b| - 1]].num, num))
    && (a != [] ==> a[0] in d && Lt(Wrapped, num, d[a[0]].num))
  }

  lemma SlotGap(d: Entries, x: Ctx<()>, num: int)
    requires var order := Inorder(Plug(x, Leaf)); Known(d, order) && Between(d, x, num)
    ensures var order := Inorder(Plug(x, Leaf)); var i := |Before(x)|;
      Slot(Wrapped, Contents(d, order), num, i) && !Hit(Contents(d, order), num, i)
  {
    InorderPlug(x, Leaf);
  }

  lemma SlotHit(d: Entries, x: Ctx<()>, t: Tree<()>, num: int)
    requires var order := Inorder(Plug(x, t)); Known(d, order) && t.Node? && t.n in d && d[t.n].num == num
    ensures var order := Inorder(Plug(x, t)); var i := |Before(x)| + |Inorder(t.left)|;
      i < |order| && order[i] == t.n && Slot(Wrapped, Contents(d, order), num, i)
  {
    InorderPlug(x, t);
    RbWalk.SplitAround(Before(x), Inorder(t.left), t.n, Inorder(t.right), RbTree.After(x));
  }

  lemma GoLeft(d: Entries, x: Ctx<()>, t: Tree<()>, num: int)
    requires Between(d, x, num) && t.Node? && t.n in d && Lt(Wrapped, num, d[t.n].num)
    ensures Between(d, InL(x, t.n, t.color, t.aug, t.right), num)
  {
  }

  lemma GoRight(d: Entries, x: Ctx<()>, t: Tree<()>, num: int)
    requires Between(d, x, num) && t.Node? && t.n in d && Lt(Wrapped, d[t.n].num, num)
    ensures Between(d, InR(x, t.left, t.n, t.color, t.aug), num)
  {
  }

  class FlowBuf {
    const sport: nat
    const dport: nat
    var prev: FlowBuf?
    var next: FlowBuf?
    var size: nat
    var expected: int
    const root: RbRoot<()>
    var entry: Entries
    ghost var flow: Flow

    constructor (sport: nat, dport: nat, seq0: int)
      requires U32(seq0)
      ensures Valid() && flow == Flow(seq0, []) && this.sport == sport && this.dport == dport
      ensures prev == null && next == null && fresh(root) && root.repr == {}
    {
      this.sport, this.dport, prev, next := sport, dport, null, null;
      size, expected, entry, flow := 0, seq0, map[], Flow(seq0, []);
      root := new RbRoot<()>();
    }

    /** The invariant. It is written so that a proof meets Represents only where it says Open. */
    ghost predicate Valid()
      reads this`size, this`expected, this`entry, this`flow, root, root.repr
    {
      forall o :: Open(o) ==> Represents()
    }

    ghost predicate Represents()
      reads this`size, this`expected, this`entry, this`flow, root, root.repr
    {
      && root.Valid() && size == |Inorder(root.tree)| && Known(entry, Inorder(root.tree)) && U32(expected)
      && flow == Flow(expected, Contents(entry, Inorder(root.tree)))
    }

    /** n is the node of flow.buf[i]. */
    ghost predicate Holds(n: Link, i: nat)
      reads this, root
    {
      i < |Inorder(root.tree)| && n == Inorder(root.tree)[i] && n in entry && i < |flow.buf| && entry[n] == flow.buf[i]
    }

    /** An empty child slot, with i nodes before it. */
    ghost predicate Vacant(x: Ctx<()>, parent: RbNode?<()>, left: bool, i: nat)
      reads root
    {
      root.tree == Plug(x, Leaf) && parent == Parent(x) && (parent != null ==> left == x.InL?) && i == |Before(x)|
    }

    /** Where a segment with this number goes (reorder_counter.c:199-222). */
    method Descend(num: int)
        returns (parent: RbNode?<()>, left: bool, found: RbNode?<()>, ghost x: Ctx<()>, ghost i: nat)
      requires Valid() && U32(num)
      ensures Slot(Wrapped, flow.buf, num, i)
      ensures found != null ==> Holds(found, i) && flow.buf[i].num == num
      ensures found == null ==> !Hit(flow.buf, num, i) && Vacant(x, parent, left, i)
    {
      ghost var t;
      parent, left, found, x, t := Search(num);
      assert Open(0);
      if found != null {
        SlotHit(entry, x, t, num);
        i := |Before(x)| + |Inorder(t.left)|;
      } else {
        SlotGap(entry, x, num);
        i := |Before(x)|;
      }
    }

    /** The loop: down to the number itself, or to an empty slot between what is before and after it. */
    method Search(num: int)
        returns (parent: RbNode?<()>, left: bool, found: RbNode?<()>, ghost x: Ctx<()>, ghost t: Tree<()>)
      requires Valid() && U32(num)
      ensures Plug(x, t) == root.tree
      ensures found != null ==> t.Node? && t.n == found && found in entry && entry[found].num == num
      ensures found == null ==>
        t.Leaf? && Between(entry, x, num) && parent == Parent(x) && (parent != null ==> left == x.InL?)
    {
      assert Open(0);
      var cur := root.node;
      parent, left, found := null, false, null;
      x, t := Top, root.tree;
      while cur != null
        invariant root.At(x, t) && Plug(x, t) == root.tree && cur == Root(t)
        invariant parent == Parent(x) && (parent != null ==> left == x.InL?) && Between(entry, x, num)
        decreases t
      {
        NodeFocus(Snapshot(root.repr), root.ranks, root.node, x, t);
        InTree(x, t);
        parent := cur;
        if Lt(Wrapped, num, entry[cur].num) {
          ghost var y := InL(x, t.n, t.color, t.aug, t.right);
          Climb(Snapshot(root.repr), root.ranks, root.node, y, t.left);
          GoLeft(entry, x, t, num);
          cur, left, x, t := cur.left, true, y, t.left;
        } else if Lt(Wrapped, entry[cur].num, num) {
          ghost var y := InR(x, t.left, t.n, t.color, t.aug);
          Climb(Snapshot(root.repr), root.ranks, root.node, y, t.right);
          GoRight(entry, x, t, num);
          cur, left, x, t := cur.right, false, y, t.right;
        } else {
          Comparable(num, entry[cur].num);
          found := cur;
          return;
        }
      }
    }

    lemma InTree(x: Ctx<()>, t: Tree<()>)
      requires Valid() && Plug(x, t) == root.tree && t.Node?
      ensures t.n in entry && U32(entry[t.n].num)
    {
      assert Open(0);
      InorderPlug(x, t);
      RbWalk.SplitAround(Before(x), Inorder(t.left), t.n, Inorder(t.right), RbTree.After(x));
    }

    /** No node is in the tree twice. */
    lemma Distinct()
      requires Valid()
      ensures Unique(Inorder(root.tree)) && forall n :: n in Inorder(root.tree) ==> n in root.repr
    {
      assert Open(0);
      var k := root.ranks;
      assert Rep(Snapshot(root.repr), k, root.tree, null, Lo(k, Top), Hi(k, Top));
      RbFacts.RanksIncrease(Snapshot(root.repr), k, root.tree, null, Lo(k, Top), Hi(k, Top));
    }

    lemma Numbers()
      requires Valid()
      ensures U32(flow.expected) && flow.expected == expected && |flow.buf| == size
      ensures forall j :: 0 <= j < |flow.buf| ==> U32(flow.buf[j].num)
    {
      assert Open(0);
    }

    /** rb_first */
    method First() returns (n: RbNode?<()>)
      requires Valid()
      ensures if flow.buf == [] then n == null else n != null && Holds(n, 0)
    {
      assert Open(0);
      n := RbWalk.First(root);
    }

    /** A new node at the place Descend found (reorder_counter.c:226-234). */
    method Link(s: Seg, parent: RbNode?<()>, left: bool, ghost x: Ctx<()>, ghost i: nat)
      requires Valid() && U32(s.num) && Vacant(x, parent, left, i)
      modifies this`size, this`expected, this`entry, this`flow, root, root.repr
      ensures Valid() && fresh(root.repr - old(root.repr)) && i <= |old(flow).buf|
      ensures flow == old(flow).(buf := old(flow).buf[..i] + [s] + old(flow).buf[i..])
    {
      assert Open(0);
      Distinct();
      ghost var order := Inorder(root.tree);
      var node := new RbNode<()>(());
      RbInsert.LinkAndInsert(node, parent, left, root, x);
      ContentsInserted(entry, order, Inorder(root.tree), i, node, s);
      Write(size + 1, expected, entry[node := s]);
    }

    /** expected_next, rb_erase of the first node, and size-- (reorder_counter.c:253-257). */
    method Unlink(node: Link, next: int)
      requires Valid() && Holds(node, 0) && U32(next)
      modifies this`size, this`expected, this`entry, this`flow, root, root.repr
      ensures Valid() && root.repr <= old(root.repr) && flow == Flow(next, old(flow).buf[1..])
    {
      assert Open(0);
      Distinct();
      ghost var order := Inorder(root.tree);
      ghost var i := RbErase.EraseNode(node, root);
      assert i == 0;
      ContentsRemoved(entry, order, Inorder(root.tree));
      Write(size - 1, next, entry);
    }

    /** curr takes over the newer segment (reorder_counter.c:218). */
    method Overwrite(node: Link, s: Seg, ghost i: nat)
      requires Valid() && Holds(node, i) && U32(s.num)
      modifies this`size, this`expected, this`entry, this`flow
      ensures Valid() && flow == old(flow).(buf := old(flow).buf[i := s])
    {
      assert Open(0);
      Distinct();
      ContentsUpdated(entry, Inorder(root.tree), i, s);
      Write(size, expected, entry[node := s]);
    }

    method Expect(next: int)
      requires Valid() && U32(next)
      modifies this`size, this`expected, this`entry, this`flow
      ensures Valid() && flow == old(flow).(expected := next)
    {
      assert Open(0);
      Write(size, next, entry);
    }

    /** The fields beside the tree. */
    method Write(size: nat, expected: int, entry: Entries)
      requires root.Valid() && size == |Inorder(root.tree)| && Known(entry, Inorder(root.tree)) && U32(expected)
      modifies this`size, this`expected, this`entry, this`flow
      ensures Valid() && flow == Flow(expected, Contents(entry, Inorder(root.tree)))
    {
      this.size, this.expected, this.entry := size, expected, entry;
      flow := Flow(expected, Contents(entry, Inorder(root.tree)));
    }
  }
}
