/**
 Erasing a node with two children, where the successor is further down (rbtree_augmented.h:186-230). The values below
 the successor's new place are brought up to date while it is only half linked in.
 */
module RbRelocate {
  import opened Basics
  import opened RbTree
  import opened RbMemory
  import opened RbRoots
  import opened RbSplice
  import opened RbPropagate

  // ----- the leftmost node of a subtree

  ghost function MinTree<A>(t: Tree<A>): Tree<A>
    requires t.Node?
    ensures MinTree(t).Node? && MinTree(t).left.Leaf?
  {
    if t.left.Leaf? then t else MinTree(t.left)
  }

  /** Where the leftmost node of t is, when t is in the hole of x. */
  ghost function MinCtx<A>(x: Ctx<A>, t: Tree<A>): Ctx<A>
    requires t.Node?
    decreases t
  {
    if t.left.Leaf? then x else MinCtx(InL(x, t.n, t.color, t.aug, t.right), t.left)
  }

  /** t with its leftmost subtree replaced. */
  ghost function PutMin<A>(t: Tree<A>, s: Tree<A>): Tree<A>
    requires t.Node?
  {
    if t.left.Leaf? then s else t.(left := PutMin(t.left, s))
  }

  lemma {:induction false} PlugMin<A>(x: Ctx<A>, t: Tree<A>, s: Tree<A>)
    requires t.Node?
    ensures Plug(MinCtx(x, t), s) == Plug(x, PutMin(t, s)) && PutMin(t, MinTree(t)) == t
    decreases t
  {
    if t.left.Node? {
      PlugMin(InL(x, t.n, t.color, t.aug, t.right), t.left, s);
    }
  }

  /** t with its leftmost subtree replaced by u and the values above it computed afresh. */
  ghost function FreshMin<A>(f: Computer<A>, t: Tree<A>, u: Tree<A>): Tree<A>
    requires t.Node?
  {
    if t.left.Leaf? then u else Fresh(f, t.(left := FreshMin(f, t.left, u)))
  }

  ghost predicate OffSpine<A>(t: Tree<A>, n: RbNode?<A>)
    requires t.Node?
  {
    t.left.Node? ==> t.n != n && OffSpine(t.left, n)
  }

  lemma {:induction false} RecomputeMin<A>(f: Computer<A>, b: Ctx<A>, t: Tree<A>, stop: RbNode?<A>, u: Tree<A>)
    requires t.Node? && OffSpine(t, stop)
    ensures var t' := FreshMin(f, t, u);
      Plug(Recomputed(f, MinCtx(b, t), stop, Aug(u)), u) == Plug(Recomputed(f, b, stop, Aug(t')), t')
    decreases t
  {
    if t.left.Node? {
      RecomputeMin(f, InL(b, t.n, t.color, t.aug, t.right), t.left, stop, u);
    }
  }

  /** do { ... } while (tmp) (rbtree_augmented.h:200-204) */
  method FindSuccessor<A>(child: RbNode<A>, root: RbRoot<A>, ghost x: Ctx<A>, ghost r: Tree<A>)
      returns (parent: RbNode<A>, successor: RbNode<A>)
    requires root.At(x, r) && r.Node? && r.n == child && r.left.Node?
    ensures var z := MinCtx(x, r); z.InL? && z.n == parent && MinTree(r).n == successor && root.At(z, MinTree(r))
  {
    parent, successor := child, child.left;
    var tmp := successor.left;
    ghost var y, s := InL(x, r.n, r.color, r.aug, r.right), r.left;
    Climb(Snapshot(root.repr), root.ranks, root.node, y, s);
    while tmp != null
      invariant root.At(y, s) && s.Node? && y.InL? && y.n == parent && s.n == successor && Root(s.left) == tmp
      invariant MinCtx(y, s) == MinCtx(x, r) && MinTree(s) == MinTree(r)
      decreases s
    {
      y, s := InL(y, s.n, s.color, s.aug, s.right), s.left;
      Climb(Snapshot(root.repr), root.ranks, root.node, y, s);
      parent := successor;
      successor := tmp;
      tmp := tmp.left;
    }
  }

  lemma RefocusMin<A>(m: Mem<A>, k: Ranks<A>, root: RbNode?<A>, b: Ctx<A>, t: Tree<A>, u: Tree<A>)
    requires t.Node?
    ensures Focus(m, k, root, MinCtx(b, t), u) <==> Focus(m, k, root, b, PutMin(t, u))
  {
    PlugMin(b, t, u);
    Refocus(m, k, root, MinCtx(b, t), u);
    Refocus(m, k, root, b, PutMin(t, u));
  }

  /** The tree when t's top has been replaced by the leftmost node of its right subtree. */
  ghost function Hole<A>(x: Ctx<A>, t: Tree<A>, n: RbNode<A>): Ctx<A>
    requires t.Node? && t.right.Node?
  {
    MinCtx(InR(x, t.left, n, t.color, t.aug), t.right)
  }

  lemma RefocusHole<A>(m: Mem<A>, k: Ranks<A>, root: RbNode?<A>, x: Ctx<A>, t: Tree<A>, n: RbNode<A>, u: Tree<A>)
    requires t.Node? && t.right.Node?
    ensures Focus(m, k, root, Hole(x, t, n), u) <==> Focus(m, k, root, x, t.(n := n, right := PutMin(t.right, u)))
  {
    var b := InR(x, t.left, n, t.color, t.aug);
    RefocusMin(m, k, root, b, t.right, u);
    Climb(m, k, root, b, PutMin(t.right, u));
  }

  lemma {:induction false} SpineUpToDate<A>(f: Computer<A>, b: Ctx<A>, t: Tree<A>, stop: RbNode<A>)
    requires t.Node? && t.left.Node? && Augmented(f, t) && UpToDate(f, b, stop, Some(t.aug)) && Above(b, stop)
    requires OffSpine(t, stop)
    ensures var z := MinCtx(b, t); !z.Top? && z.n != stop && UpToDate(f, z.up, stop, Some(z.aug)) && Above(z.up, stop)
    decreases t
  {
    if t.left.left.Node? {
      SpineUpToDate(f, InL(b, t.n, t.color, t.aug, t.right), t.left, stop);
    }
  }

  /** Propagate starts one level above the hole. */
  lemma Settled<A>(f: Computer<A>, m: Mem<A>, k: Ranks<A>, root: RbNode?<A>, z: Ctx<A>, u: Tree<A>, stop: RbNode?<A>)
    requires !z.Top? && z.n != stop
    requires Focus(m, k, root, Recomputed(f, z.up, stop, Aug(Fresh(f, Up(z, u)))), Fresh(f, Up(z, u)))
    ensures Focus(m, k, root, Recomputed(f, z, stop, Aug(u)), u)
  {
    Climb(m, k, root, Recomputed(f, z, stop, Aug(u)), u);
  }

  lemma {:induction false} MinCtxParent<A>(b: Ctx<A>, b': Ctx<A>, t: Tree<A>)
    requires t.Node? && t.left.Node?
    ensures MinCtx(b, t).InL? && MinCtx(b', t).InL? && MinCtx(b, t).n == MinCtx(b', t).n
    decreases t
  {
    if t.left.left.Node? {
      MinCtxParent(InL(b, t.n, t.color, t.aug, t.right), InL(b', t.n, t.color, t.aug, t.right), t.left);
    }
  }

  lemma HoleParent<A>(x: Ctx<A>, t: Tree<A>, n: RbNode<A>)
    requires t.Node? && t.right.Node? && t.right.left.Node?
    ensures Parent(Hole(x, t, n)) == Parent(Hole(x, t, t.n))
  {
    MinCtxParent(InR(x, t.left, n, t.color, t.aug), InR(x, t.left, t.n, t.color, t.aug), t.right);
  }

  lemma {:induction false} OffSpineNull<A>(t: Tree<A>)
    requires t.Node?
    ensures OffSpine(t, null)
  {
    if t.left.Node? {
      OffSpineNull(t.left);
    }
  }

  // ----- the half-linked state

  /** m after rbtree_augmented.h:205-208 is the tree v without the successor s, except that the top of the right subtree
      already points up at s, and that child2 still does so. */
  ghost predicate HalfLinked<A>(m: Mem<A>, v: Mem<A>, child: RbNode<A>, child2: RbNode?<A>, s: RbNode<A>) {
    && m.Keys == v.Keys + {s} && s !in v && m[s].right == child
    && child in v && child != child2 && m[child] == v[child].(parent := s)
    && (child2 != null ==> child2 in v && m[child2] == v[child2].(parent := s, color := m[child2].color))
    && forall n {:trigger m[n]} {:trigger v[n]} :: n in v && n !in {child, child2} ==> m[n] == v[n]
  }

  /** What is left when s, parent's left child, is gone and its subtree is black in its place. */
  ghost function Without<A>(m: Mem<A>, s: RbNode<A>, parent: RbNode<A>, child2: RbNode?<A>): Mem<A>
    requires parent in m && (child2 != null ==> child2 in m)
  {
    var v := (m - {s})[parent := m[parent].(left := child2)];
    if child2 == null then v else v[child2 := m[child2].(parent := parent, color := Black)]
  }

  /** The four writes of rbtree_augmented.h:206-210. */
  ghost predicate HalfWritten<A>(m: Mem<A>, m': Mem<A>, child: RbNode<A>, parent: RbNode<A>, s: RbNode<A>, a: A)
    requires child in m && parent in m && s in m
  {
    && m'.Keys == m.Keys && Untouched(m, m', {child, parent, s}) && m'[s] == m[s].(right := child, aug := a)
    && if child == parent then m'[child] == m[child].(left := m[s].right, parent := s)
       else m'[child] == m[child].(parent := s) && m'[parent] == m[parent].(left := m[s].right)
  }

  lemma HalfView<A>(m: Mem<A>, m': Mem<A>, child: RbNode<A>, parent: RbNode<A>, s: RbNode<A>, a: A)
    requires child in m && parent in m && s in m && s !in {child, parent} && HalfWritten(m, m', child, parent, s, a)
    requires var c2 := m[s].right; c2 != null ==> c2 in m && c2 !in {child, parent, s} && m[c2].parent == s
    ensures HalfLinked(m', Without(m, s, parent, m[s].right), child, m[s].right, s)
  {
  }

  method HalfLinkPointers<A>(node: RbNode<A>, child: RbNode<A>, parent: RbNode<A>, successor: RbNode<A>,
                             root: RbRoot<A>)
    requires node in root.repr && child in root.repr && parent in root.repr && successor in root.repr
    requires successor !in {child, parent, node}
    modifies root.repr
    ensures HalfWritten(old(Snapshot(root.repr)), Snapshot(root.repr), child, parent, successor, old(node.aug))
  {
    var child2 := successor.right;
    parent.left := child2;
    successor.right := child;
    child.parent := successor;
    successor.aug := node.aug;
  }

  /** The hole lies between c and the top of t in the order of ranks. */
  lemma {:induction false} MinBounds<A>(m: Mem<A>, k: Ranks<A>, root: RbNode?<A>, c: Ctx<A>, t: Tree<A>, u: Tree<A>)
    requires t.Node? && t.left.Node? && Focus(m, k, root, c, PutMin(t, u))
    ensures var z := MinCtx(c, t); t.n in k && Lo(k, z) == Lo(k, c) && Hi(k, z) <= k[t.n] < Hi(k, c)
    decreases t
  {
    var c' := InL(c, t.n, t.color, t.aug, t.right);
    Climb(m, k, root, c', PutMin(t.left, u));
    if t.left.left.Node? {
      MinBounds(m, k, root, c', t.left, u);
    }
  }

  /** The top of what is in the hole is none of the nodes around node, child and their parent. */
  lemma HoleApart<A>(m: Mem<A>, k: Ranks<A>, root: RbNode?<A>, x: Ctx<A>, t: Tree<A>, u: Tree<A>)
    requires t.Node? && t.right.Node? && t.right.left.Node? && Focus(m, k, root, Hole(x, t, t.n), u) && u.Node?
    ensures u.n !in {t.n, Root(t.left), t.right.n, Parent(x)}
  {
    var b := InR(x, t.left, t.n, t.color, t.aug);
    RefocusMin(m, k, root, b, t.right, u);
    MinBounds(m, k, root, b, t.right, u);
  }

  /** The nodes that the writes touch, before they do. */
  lemma HalfReady<A>(m: Mem<A>, k: Ranks<A>, root: RbNode?<A>, x: Ctx<A>, t: Tree<A>)
    requires Focus(m, k, root, x, t) && t.Node? && t.right.Node? && t.right.left.Node?
    ensures var z, s, child := Hole(x, t, t.n), MinTree(t.right), t.right.n;
      && Focus(m, k, root, z, s) && z.InL? && {t.n, child, z.n, s.n} <= m.Keys && s.n !in {t.n, child, z.n}
      && m[s.n].right == Root(s.right) && m[t.n].aug == t.aug
      && (s.right.Node? ==> s.right.n in m && s.right.n !in {child, z.n, s.n} && m[s.right.n].parent == s.n)
  {
    var b, r := InR(x, t.left, t.n, t.color, t.aug), t.right;
    var z, s := Hole(x, t, t.n), MinTree(r);
    PlugMin(b, r, s);
    RefocusHole(m, k, root, x, t, t.n, s);
    Climb(m, k, root, b, r);
    MinBounds(m, k, root, b, r, s);
    MinCtxParent(b, b, r);
    assert Rep(m, k, s.right, s.n, k[s.n], Hi(k, z));
  }

  method HalfLink<A>(node: RbNode<A>, child: RbNode<A>, parent: RbNode<A>, successor: RbNode<A>, root: RbRoot<A>,
                     ghost x: Ctx<A>, ghost t: Tree<A>) returns (child2: RbNode?<A>, ghost v: Mem<A>)
    requires root.At(x, t) && t.Node? && t.n == node && t.right.Node? && t.right.n == child && t.right.left.Node?
    requires parent == Parent(Hole(x, t, node)) && successor == MinTree(t.right).n
    modifies root.repr
    ensures Focus(v, root.ranks, root.node, Hole(x, t, node), Painted(MinTree(t.right).right, Black))
    ensures HalfLinked(Snapshot(root.repr), v, child, child2, successor) && child2 == Root(MinTree(t.right).right)
    ensures successor in root.repr && successor.aug == t.aug
  {
    ghost var m, k, z, s := Snapshot(root.repr), root.ranks, Hole(x, t, node), MinTree(t.right);
    HalfReady(m, k, root.node, x, t);
    child2, v := successor.right, Without(m, successor, parent, successor.right);
    HalfLinkPointers(node, child, parent, successor, root);
    HalfView(m, Snapshot(root.repr), child, parent, successor, t.aug);
    assert Rep(m, k, s.right, successor, k[successor], Hi(k, z));
    SpliceTree(m, v, k, root.node, root.node, z, successor, s.right, Black, k[successor], Hi(k, z));
  }

  // ----- the way up in that state

  lemma {:induction false} SpineTrail<A>(m: Mem<A>, v: Mem<A>, k: Ranks<A>, root: RbNode?<A>, c: Ctx<A>, t: Tree<A>,
                                         u: Tree<A>,
                                         node: RbNode<A>, child: RbNode<A>, s: RbNode<A>)
    requires HalfLinked(m, v, child, Root(u), s) && node in k && child in k
    requires t.Node? && t.left.Node? && Focus(v, k, root, c, PutMin(t, u)) && !c.Top? && k[node] <= Lo(k, c)
    requires if c.n == node then t.n == child else Hi(k, c) <= k[child] && c.n in v && Trail(m, c.up, c.n, node, s)
    ensures var z := MinCtx(c, t); !z.Top? && Trail(m, z.up, z.n, node, s)
    decreases t
  {
    var c' := InL(c, t.n, t.color, t.aug, t.right);
    Climb(v, k, root, c', PutMin(t.left, u));
    MinBounds(v, k, root, c, t, u);
    RefocusMin(v, k, root, c, t, u);
    assert t.n != Root(u);
    assert Trail(m, c, t.n, node, s);
    if t.left.left.Node? {
      SpineTrail(m, v, k, root, c', t.left, u, node, child, s);
    }
  }

  lemma HalfAlias<A>(m: Mem<A>, v: Mem<A>, child: RbNode<A>, child2: RbNode?<A>, s: RbNode<A>)
    requires HalfLinked(m, v, child, child2, s)
    ensures Alias(m, v)
  {
  }

  lemma HalfKept<A>(m: Mem<A>, m': Mem<A>, v: Mem<A>, v': Mem<A>, child: RbNode<A>, child2: RbNode?<A>, s: RbNode<A>)
    requires HalfLinked(m, v, child, child2, s) && Reaugmented(m, m', v.Keys) && Reaugmented(v, v', v.Keys)
    requires Alias(m', v')
    ensures HalfLinked(m', v', child, child2, s) && m'[s] == m[s]
  {
  }

  /** propagate(parent, successor) (rbtree_augmented.h:211), in the half-linked state. */
  method PropagateSpine<A(==)>(f: Computer<A>, parent: RbNode<A>, successor: RbNode<A>, root: RbRoot<A>,
                               ghost v: Mem<A>, ghost x: Ctx<A>, ghost t: Tree<A>, ghost u: Tree<A>)
      returns (ghost v': Mem<A>)
    requires t.Node? && t.right.Node? && t.right.left.Node? && Augmented(f, t.right) && OffSpine(t.right, t.n)
    requires Focus(v, root.ranks, root.node, Hole(x, t, t.n), u) && Parent(Hole(x, t, t.n)) == parent
    requires HalfLinked(Snapshot(root.repr), v, t.right.n, Root(u), successor)
    modifies root.repr
    ensures Focus(v', root.ranks, root.node, x, t.(right := FreshMin(f, t.right, u)))
    ensures HalfLinked(Snapshot(root.repr), v', t.right.n, Root(u), successor) && Reaugmented(v, v', v.Keys)
    ensures successor.aug == old(successor.aug)
  {
    ghost var z, b, r, m := Hole(x, t, t.n), InR(x, t.left, t.n, t.color, t.aug), t.right, Snapshot(root.repr);
    SpineUpToDate(f, b, r, t.n);
    RefocusMin(v, root.ranks, root.node, b, r, u);
    SpineTrail(m, v, root.ranks, root.node, b, r, u, t.n, r.n, successor);
    HalfAlias(m, v, r.n, Root(u), successor);
    Climb(v, root.ranks, root.node, z, u);
    v' := PropagateTo(f, parent, successor, root, t.n, v, z.up, Up(z, u));
    HalfKept(m, Snapshot(root.repr), v, v', r.n, Root(u), successor);
    Settled(f, v', root.ranks, root.node, z, u, t.n);
    RecomputeMin(f, b, r, t.n, u);
    Refocus(v', root.ranks, root.node, Recomputed(f, z, t.n, Aug(u)), u);
    Refocus(v', root.ranks, root.node, b, FreshMin(f, r, u));
    Climb(v', root.ranks, root.node, b, FreshMin(f, r, u));
  }

  // ----- the successor in its place

  /** Everything is in place for s to be linked in for the top of t. */
  ghost predicate Ready<A>(m: Mem<A>, v: Mem<A>, k: Ranks<A>, root: RbNode?<A>, x: Ctx<A>, t: Tree<A>,
                           p: RbNode<A>, child2: RbNode?<A>, s: RbNode<A>)
  {
    forall o :: Open(o) ==>
      && Focus(v, k, root, x, t) && t.Node? && t.left.Node? && t.right.Node? && HalfLinked(m, v, t.right.n, child2, s)
      && m[s].aug == t.aug
      && (child2 != null ==>
          child2 !in {t.n, t.left.n, t.right.n, Parent(x)} && v[child2].parent == p && v[child2].color == Black)
  }

  lemma SeatReady<A>(m: Mem<A>, v: Mem<A>, k: Ranks<A>, root: RbNode?<A>, x: Ctx<A>, t: Tree<A>,
                     p: RbNode<A>, child2: RbNode?<A>, s: RbNode<A>)
    requires Ready(m, v, k, root, x, t, p, child2, s)
    ensures t.Node? && CanSeat(m, t.n, s, child2)
  {
    assert Open(0);
    ReplaceReady(v, k, root, x, t);
  }

  lemma SeatedReplaced<A>(m: Mem<A>, m': Mem<A>, v: Mem<A>, k: Ranks<A>, root: RbNode?<A>, root': RbNode?<A>,
                          x: Ctx<A>, t: Tree<A>, p: RbNode<A>, child2: RbNode?<A>, s: RbNode<A>)
    requires Ready(m, v, k, root, x, t, p, child2, s)
    requires t.Node? && t.n in m && s in m && Seated(m, m', root, root', t.n, s, p, child2)
    ensures t.n in v && Replaced(v, m' - {t.n}, root, root', t.n, s) && m'[s].aug == t.aug
  {
    assert Open(0);
    ReplaceReady(v, k, root, x, t);
  }

  lemma SeatedTree<A>(m: Mem<A>, m': Mem<A>, v: Mem<A>, k: Ranks<A>, root: RbNode?<A>, root': RbNode?<A>,
                      x: Ctx<A>, t: Tree<A>, p: RbNode<A>, child2: RbNode?<A>, s: RbNode<A>)
    requires Ready(m, v, k, root, x, t, p, child2, s)
    requires t.Node? && t.n in m && s in m && Seated(m, m', root, root', t.n, s, p, child2)
    ensures t.n in k && Focus(m' - {t.n}, k[s := k[t.n]], root', x, t.(n := s))
  {
    assert Open(0);
    SeatedReplaced(m, m', v, k, root, root', x, t, p, child2, s);
    ReplaceTree(v, m' - {t.n}, k, root, root', x, t, s);
  }

  /** rbtree_augmented.h:214-230 */
  method LinkUp<A>(node: RbNode<A>, parent: RbNode<A>, successor: RbNode<A>, child2: RbNode?<A>, root: RbRoot<A>,
                   ghost v: Mem<A>, ghost x: Ctx<A>, ghost t: Tree<A>)
    requires t.Node? && t.n == node
    requires Ready(Snapshot(root.repr), v, root.ranks, root.node, x, t, parent, child2, successor)
    modifies root`node, root`repr, root`ranks, root.repr
    ensures root.At(x, t.(n := successor)) && root.repr == old(root.repr) - {node}
  {
    ghost var m, k := Snapshot(root.repr), root.ranks;
    SeatReady(m, v, k, root.node, x, t, parent, child2, successor);
    Seat(node, successor, parent, child2, root);
    SeatedTree(m, Snapshot(root.repr), v, k, old(root.node), root.node, x, t, parent, child2, successor);
    Drop(root, node, k[successor := k[node]], x, t.(n := successor));
  }

  /** Case 3 after the successor is found (rbtree_augmented.h:205-230), in the order of the C code. */
  method Relocate<A(==)>(f: Computer<A>, node: RbNode<A>, child: RbNode<A>, parent: RbNode<A>, successor: RbNode<A>,
                         root: RbRoot<A>, ghost x: Ctx<A>, ghost t: Tree<A>)
    requires root.At(x, t) && t.Node? && t.n == node && t.left.Node?
    requires t.right.Node? && t.right.n == child && t.right.left.Node? && Augmented(f, t.right)
    requires parent == Parent(Hole(x, t, node)) && successor == MinTree(t.right).n
    modifies root`node, root`repr, root`ranks, root.repr
    ensures var u := Painted(MinTree(t.right).right, Black);
      root.At(x, Node(t.left, successor, t.color, t.aug, FreshMin(f, t.right, u)))
    ensures root.repr == old(root.repr) - {node}
  {
    ghost var u := Painted(MinTree(t.right).right, Black);
    SpineBelow(Snapshot(root.repr), root.ranks, root.node, x, t);
    ghost var v;
    var child2;
    child2, v := HalfLink(node, child, parent, successor, root, x, t);
    if child2 != null {
      HoleApart(v, root.ranks, root.node, x, t, u);
    }
    ghost var v' := PropagateSpine(f, parent, successor, root, v, x, t, u);
    LinkUp(node, parent, successor, child2, root, v', x, t.(right := FreshMin(f, t.right, u)));
  }

  lemma {:induction false} OffSpineAbove<A>(m: Mem<A>, k: Ranks<A>, t: Tree<A>, p: RbNode?<A>, lo: real, hi: real,
                                            n: RbNode<A>)
    requires Rep(m, k, t, p, lo, hi) && t.Node? && n in k && k[n] <= lo
    ensures OffSpine(t, n)
  {
    if t.left.Node? {
      OffSpineAbove(m, k, t.left, t.n, lo, k[t.n], n);
    }
  }

  lemma SpineBelow<A>(m: Mem<A>, k: Ranks<A>, root: RbNode?<A>, x: Ctx<A>, t: Tree<A>)
    requires Focus(m, k, root, x, t) && t.Node? && t.right.Node?
    ensures OffSpine(t.right, t.n)
  {
    OffSpineAbove(m, k, t.right, t.n, k[t.n], Hi(k, x), t.n);
  }
}
