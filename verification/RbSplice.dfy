/** Taking a node out of a tree in memory, and putting one node in another's place. */
module RbSplice {
  import opened RbTree
  import opened RbMemory
  import opened RbRoots

  lemma {:induction false} Widen<A>(m: Mem<A>, k: Ranks<A>, t: Tree<A>, p: RbNode?<A>, lo: real, hi: real, lo': real,
                                    hi': real)
    requires Rep(m, k, t, p, lo, hi) && lo' <= lo && hi <= hi'
    ensures Rep(m, k, t, p, lo', hi')
  {
    if t.Node? {
      Widen(m, k, t.left, t.n, lo, k[t.n], lo', k[t.n]);
      Widen(m, k, t.right, t.n, k[t.n], hi, k[t.n], hi');
    }
  }

  function Painted<A>(t: Tree<A>, c: Color): Tree<A> { if t.Leaf? then t else t.(color := c) }

  /** n, whose only subtree is t, is taken out: t comes in its place with colour c. */
  ghost predicate Spliced<A>(m: Mem<A>, m': Mem<A>, root: RbNode?<A>, root': RbNode?<A>,
                             n: RbNode<A>, child: RbNode?<A>, q: RbNode?<A>, c: Color)
  {
    && Untouched(m, m', {n, child, q})
    && (child != null ==> child in m && child in m' && m'[child] == m[child].(parent := q, color := c))
    && if q == null then root' == child else root' == root && q in m && q in m' && m'[q] == Swap(m[q], n, child)
  }

  lemma SpliceTree<A>(m: Mem<A>, m': Mem<A>, k: Ranks<A>, root: RbNode?<A>, root': RbNode?<A>, x: Ctx<A>,
                      n: RbNode<A>, t: Tree<A>, c: Color, lo: real, hi: real)
    requires RepCtx(m, k, root, x, n) && Within(k, n, Lo(k, x), Hi(k, x))
    requires Rep(m, k, t, n, lo, hi) && Lo(k, x) <= lo && hi <= Hi(k, x) && !Within(k, n, lo, hi)
    requires Spliced(m, m', root, root', n, Root(t), Parent(x), c)
    ensures Focus(m', k, root', x, Painted(t, c))
  {
    var w := {n, Root(t), Parent(x)};
    if t.Node? {
      Frame(m, m', w, k, t.left, t.n, lo, k[t.n]);
      Frame(m, m', w, k, t.right, t.n, k[t.n], hi);
    }
    assert Rep(m', k, Painted(t, c), Parent(x), lo, hi);
    Widen(m', k, Painted(t, c), Parent(x), lo, hi, Lo(k, x), Hi(k, x));
    ReplaceHole(m, m', w, k, root, root', x, n, Root(t));
  }

  // ----- new ranks for nodes that are not in memory

  ghost predicate SameRanks<A>(m: Mem<A>, k: Ranks<A>, k': Ranks<A>) {
    forall n {:trigger n in m} :: n in m && n in k ==> n in k' && k'[n] == k[n]
  }

  lemma {:induction false} RepRanks<A>(m: Mem<A>, k: Ranks<A>, k': Ranks<A>, t: Tree<A>, p: RbNode?<A>, lo: real,
                                       hi: real)
    requires Rep(m, k, t, p, lo, hi) && SameRanks(m, k, k')
    ensures Rep(m, k', t, p, lo, hi)
  {
    if t.Node? {
      RepRanks(m, k, k', t.left, t.n, lo, k[t.n]);
      RepRanks(m, k, k', t.right, t.n, k[t.n], hi);
    }
  }

  lemma {:induction false} RepCtxRanks<A>(m: Mem<A>, k: Ranks<A>, k': Ranks<A>, root: RbNode?<A>, x: Ctx<A>,
                                          hole: RbNode?<A>)
    requires RepCtx(m, k, root, x, hole) && SameRanks(m, k, k')
    ensures RepCtx(m, k', root, x, hole) && Lo(k', x) == Lo(k, x) && Hi(k', x) == Hi(k, x)
  {
    match x
    case Top =>
    case InL(up, n, c, a, r) =>
      RepCtxRanks(m, k, k', root, up, n);
      RepRanks(m, k, k', r, n, k[n], Hi(k, up));
    case InR(up, l, n, c, a) =>
      RepCtxRanks(m, k, k', root, up, n);
      RepRanks(m, k, k', l, n, Lo(k, up), k[n]);
  }

  // ----- a new leaf

  /** The empty child at the hole becomes v. */
  lemma FillHole<A>(m: Mem<A>, m': Mem<A>, k: Ranks<A>, root: RbNode?<A>, root': RbNode?<A>, x: Ctx<A>, v: RbNode<A>)
    requires RepCtx(m, k, root, x, null) && Within(k, v, Lo(k, x), Hi(k, x)) && Untouched(m, m', {v, Parent(x)})
    requires if x.Top? then root' == v
             else root' == root && x.n in m && x.n in m'
                  && m'[x.n] == if x.InL? then m[x.n].(left := v) else m[x.n].(right := v)
    ensures RepCtx(m', k, root', x, v)
  {
    var w := {v, Parent(x)};
    match x
    case Top =>
    case InL(up, n, c, a, r) =>
      Frame(m, m', w, k, r, n, k[n], Hi(k, up));
      FrameCtx(m, m', w, k, root, up, n);
    case InR(up, l, n, c, a) =>
      Frame(m, m', w, k, l, n, Lo(k, up), k[n]);
      FrameCtx(m, m', w, k, root, up, n);
  }

  lemma LinkTree<A>(m: Mem<A>, m': Mem<A>, k: Ranks<A>, root: RbNode?<A>, root': RbNode?<A>, x: Ctx<A>, v: RbNode<A>,
                    r: real)
    requires Focus(m, k, root, x, Leaf) && v !in m && Lo(k, x) < r < Hi(k, x) && Untouched(m, m', {v, Parent(x)})
    requires v in m' && m'[v] == Cell(null, null, Parent(x), Red, m'[v].aug)
    requires if x.Top? then root' == v
             else root' == root && x.n in m && x.n in m'
                  && m'[x.n] == if x.InL? then m[x.n].(left := v) else m[x.n].(right := v)
    ensures Focus(m', k[v := r], root', x, Node(Leaf, v, Red, m'[v].aug, Leaf))
  {
    RepCtxRanks(m, k, k[v := r], root, x, null);
    FillHole(m, m', k[v := r], root, root', x, v);
  }

  // ----- one node for another

  /** v stands where o stood. */
  ghost predicate Replaced<A>(m: Mem<A>, m': Mem<A>, root: RbNode?<A>, root': RbNode?<A>, o: RbNode<A>, v: RbNode<A>)
    requires o in m
  {
    var l, r, q := m[o].left, m[o].right, m[o].parent;
    && Untouched(m, m', {o, v, l, r, q}) && v in m' && m'[v] == m[o].(aug := m'[v].aug)
    && (l != null ==> l in m && l in m' && m'[l] == m[l].(parent := v))
    && (r != null ==> r in m && r in m' && m'[r] == m[r].(parent := v))
    && if q == null then root' == v else root' == root && q in m && q in m' && m'[q] == Swap(m[q], o, v)
  }

  lemma ReplaceTree<A>(m: Mem<A>, m': Mem<A>, k: Ranks<A>, root: RbNode?<A>, root': RbNode?<A>, x: Ctx<A>, t: Tree<A>,
                       v: RbNode<A>)
    requires Focus(m, k, root, x, t) && t.Node? && v !in m && Replaced(m, m', root, root', t.n, v)
    ensures Focus(m', k[v := k[t.n]], root', x, t.(n := v, aug := m'[v].aug))
  {
    var o, l, r, k' := t.n, t.left, t.right, k[v := k[t.n]];
    RepCtxRanks(m, k, k', root, x, o);
    RepRanks(m, k, k', l, o, Lo(k, x), k[o]);
    RepRanks(m, k, k', r, o, k[o], Hi(k, x));
    var w := {o, v, Root(l), Root(r), Parent(x)};
    Reparent(m, m', w, k', l, o, v, Lo(k, x), k[o]);
    Reparent(m, m', w, k', r, o, v, k[o], Hi(k, x));
    ReplaceHole(m, m', w, k', root, root', x, o, v);
  }

  /** o's right child s, which has no left child, comes in o's place; its subtree becomes black. */
  ghost predicate Promoted<A>(m: Mem<A>, m': Mem<A>, root: RbNode?<A>, root': RbNode?<A>, o: RbNode<A>, s: RbNode<A>)
    requires o in m && s in m
  {
    var l, r, q := m[o].left, m[s].right, m[o].parent;
    && Untouched(m, m', {o, s, l, r, q}) && s in m' && m'[s] == m[o].(right := r)
    && (l != null ==> l in m && l in m' && m'[l] == m[l].(parent := s))
    && (r != null ==> r in m && r in m' && m'[r] == m[r].(color := Black))
    && if q == null then root' == s else root' == root && q in m && q in m' && m'[q] == Swap(m[q], o, s)
  }

  lemma PromoteTree<A>(m: Mem<A>, m': Mem<A>, k: Ranks<A>, root: RbNode?<A>, root': RbNode?<A>, x: Ctx<A>, t: Tree<A>)
    requires Focus(m, k, root, x, t) && t.Node? && t.right.Node? && t.right.left.Leaf?
    requires t.n in m && t.right.n in m && Promoted(m, m', root, root', t.n, t.right.n)
    ensures var s := t.right; Focus(m', k, root', x, Node(t.left, s.n, t.color, t.aug, Painted(s.right, Black)))
  {
    var o, l, s, r := t.n, t.left, t.right, t.right.right;
    assert Rep(m, k, s, o, k[o], Hi(k, x));
    assert Rep(m, k, r, s.n, k[s.n], Hi(k, x));
    var w := {o, s.n, Root(l), Root(r), Parent(x)};
    Reparent(m, m', w, k, l, o, s.n, Lo(k, x), k[o]);
    Widen(m', k, l, s.n, Lo(k, x), k[o], Lo(k, x), k[s.n]);
    if r.Node? {
      Frame(m, m', w, k, r.left, r.n, k[s.n], k[r.n]);
      Frame(m, m', w, k, r.right, r.n, k[r.n], Hi(k, x));
    }
    ReplaceHole(m, m', w, k, root, root', x, o, s.n);
  }

  // ----- the pointer writes

  /** __rb_erase_augmented, Case 1 (rbtree_augmented.h:143-166): node has at most one child. */
  method TakeOut<A>(node: RbNode<A>, child: RbNode?<A>, root: RbRoot<A>, ghost x: Ctx<A>, ghost t: Tree<A>)
    requires root.At(x, t) && t.Node? && t.n == node
    requires (t.left.Leaf? && child == Root(t.right)) || (t.right.Leaf? && child == Root(t.left))
    modifies root`node, root`repr, root.repr
    ensures root.At(x, Painted(if t.left.Leaf? then t.right else t.left, t.color))
    ensures root.repr == old(root.repr) - {node}
  {
    ghost var m, k, c := Snapshot(root.repr), root.ranks, if t.left.Leaf? then t.right else t.left;
    assert Rep(m, k, t.left, node, Lo(k, x), k[node]) && Rep(m, k, t.right, node, k[node], Hi(k, x));
    var parent, color := node.parent, node.color;
    ChangeChild(node, child, parent, root);
    if child != null {
      child.parent, child.color := parent, color;
    }
    root.repr := root.repr - {node};
    ghost var m' := Snapshot(root.repr);
    assert Spliced(m, m', old(root.node), root.node, node, Root(c), Parent(x), t.color);
    if t.left.Leaf? {
      SpliceTree(m, m', k, old(root.node), root.node, x, node, c, t.color, k[node], Hi(k, x));
    } else {
      SpliceTree(m, m', k, old(root.node), root.node, x, node, c, t.color, Lo(k, x), k[node]);
    }
  }

  lemma ReplaceReady<A>(m: Mem<A>, k: Ranks<A>, root: RbNode?<A>, x: Ctx<A>, t: Tree<A>)
    requires Focus(m, k, root, x, t) && t.Node?
    ensures var l, r, q := Root(t.left), Root(t.right), Parent(x);
      && t.n in m && m[t.n] == Cell(l, r, q, t.color, t.aug)
      && (l != null ==> l in m && l !in {t.n, r, q}) && (r != null ==> r in m && r !in {t.n, q})
      && (q != null ==> q in m && q != t.n)
  {
    assert Rep(m, k, t.left, t.n, Lo(k, x), k[t.n]) && Rep(m, k, t.right, t.n, k[t.n], Hi(k, x));
  }

  /** The nodes around o point at v instead. */
  ghost predicate Redirected<A>(m: Mem<A>, m': Mem<A>, root: RbNode?<A>, root': RbNode?<A>, o: RbNode<A>, v: RbNode<A>)
    requires o in m
  {
    var l, r, q := m[o].left, m[o].right, m[o].parent;
    && m'.Keys == m.Keys && m'[o] == m[o] && Untouched(m, m', {l, r, q})
    && (l != null ==> l in m && m'[l] == m[l].(parent := v)) && (r != null ==> r in m && m'[r] == m[r].(parent := v))
    && if q == null then root' == v else root' == root && q in m && m'[q] == Swap(m[q], o, v)
  }

  /** rbtree.c:522-527 */
  method RedirectTo<A>(victim: RbNode<A>, new_: RbNode<A>, root: RbRoot<A>)
    requires victim in root.repr && new_ !in root.repr
    requires var l, r, q := victim.left, victim.right, victim.parent;
      (l != null ==> l in root.repr && l !in {victim, r, q}) && (r != null ==> r in root.repr && r !in {victim, q})
      && (q != null ==> q in root.repr && q != victim)
    modifies root`node, root.repr
    ensures Redirected(old(Snapshot(root.repr)), Snapshot(root.repr), old(root.node), root.node, victim, new_)
  {
    var parent := victim.parent;
    ChangeChild(victim, new_, parent, root);
    if victim.left != null {
      victim.left.parent := new_;
    }
    if victim.right != null {
      victim.right.parent := new_;
    }
  }

  lemma RedirectedReplaced<A>(m: Mem<A>, m1: Mem<A>, root: RbNode?<A>, root': RbNode?<A>, o: RbNode<A>, v: RbNode<A>,
                              a: A)
    requires o in m && v !in m && Redirected(m, m1, root, root', o, v)
    requires m[o].left != o && m[o].right != o && m[o].parent != o
    ensures Replaced(m, (m1 - {o})[v := m1[o].(aug := a)], root, root', o, v)
  {
  }

  /** `*new = *victim` (rbtree.c:530) */
  method CopyNode<A>(victim: RbNode<A>, new_: RbNode<A>, root: RbRoot<A>)
    requires victim in root.repr && new_ !in root.repr
    modifies root`repr, new_
    ensures root.repr == old(root.repr) - {victim} + {new_}
    ensures var m := old(Snapshot(root.repr));
      Snapshot(root.repr) == (m - {victim})[new_ := m[victim].(aug := old(new_.aug))]
  {
    new_.left, new_.right, new_.parent, new_.color := victim.left, victim.right, victim.parent, victim.color;
    root.repr := root.repr - {victim} + {new_};
  }

  method ReplacePointers<A>(victim: RbNode<A>, new_: RbNode<A>, root: RbRoot<A>)
    requires victim in root.repr && new_ !in root.repr
    requires var l, r, q := victim.left, victim.right, victim.parent;
      (l != null ==> l in root.repr && l !in {victim, r, q}) && (r != null ==> r in root.repr && r !in {victim, q})
      && (q != null ==> q in root.repr && q != victim)
    modifies root`node, root`repr, root.repr, new_
    ensures root.repr == old(root.repr) - {victim} + {new_} && new_.aug == old(new_.aug)
    ensures Replaced(old(Snapshot(root.repr)), Snapshot(root.repr), old(root.node), root.node, victim, new_)
  {
    RedirectTo(victim, new_, root);
    RedirectedReplaced(old(Snapshot(root.repr)), Snapshot(root.repr), old(root.node), root.node,
                       victim, new_, new_.aug);
    CopyNode(victim, new_, root);
  }

  method ReplaceAt<A>(victim: RbNode<A>, new_: RbNode<A>, root: RbRoot<A>, ghost x: Ctx<A>, ghost t: Tree<A>)
    requires root.At(x, t) && t.Node? && t.n == victim && new_ !in root.repr
    modifies root`node, root`repr, root`ranks, root.repr, new_
    ensures root.At(x, t.(n := new_, aug := old(new_.aug)))
    ensures root.repr == old(root.repr) - {victim} + {new_}
  {
    ghost var m, k := Snapshot(root.repr), root.ranks;
    ReplaceReady(m, k, root.node, x, t);
    ReplacePointers(victim, new_, root);
    ReplaceTree(m, Snapshot(root.repr), k, old(root.node), root.node, x, t, new_);
    root.ranks := k[new_ := k[victim]];
  }

  lemma ReplaceMiddle<T>(a: seq<T>, b: seq<T>, n: T, c: seq<T>, d: seq<T>, v: T)
    ensures var s, i := a + (b + [n] + c) + d, |a| + |b|; s[i] == n && s[i := v] == a + (b + [v] + c) + d
  {
    var p, q := a + b, c + d;
    assert a + (b + [n] + c) + d == p + [n] + q && a + (b + [v] + c) + d == p + [v] + q;
  }

  lemma RenamedOrder<A>(x: Ctx<A>, t: Tree<A>, v: RbNode<A>, a: A)
    requires t.Node?
    ensures var s, i := Inorder(Plug(x, t)), |Before(x)| + |Inorder(t.left)|;
      i < |s| && s[i] == t.n && Inorder(Plug(x, t.(n := v, aug := a))) == s[i := v]
  {
    InorderPlug(x, t);
    InorderPlug(x, t.(n := v, aug := a));
    ReplaceMiddle(Before(x), Inorder(t.left), t.n, Inorder(t.right), After(x), v);
  }

  lemma RenamedColors<A>(x: Ctx<A>, t: Tree<A>, v: RbNode<A>, a: A)
    requires RedBlack(Plug(x, t)) && t.Node?
    ensures RedBlack(Plug(x, t.(n := v, aug := a)))
  {
    PlugRedBlack(x, t);
    PlugRedBlack(x, t.(n := v, aug := a));
  }

  /** rb_replace_node (rbtree.c:517-531): the tree is valid again, with the new node in the victim's place. */
  method ReplaceNode<A>(victim: RbNode<A>, new_: RbNode<A>, root: RbRoot<A>) returns (ghost i: nat)
    requires root.Valid() && victim in Inorder(root.tree) && new_ !in root.repr
    modifies root, root.repr, new_
    ensures root.Valid() && root.repr == old(root.repr) - {victim} + {new_}
    ensures var s := old(Inorder(root.tree)); i < |s| && s[i] == victim && Inorder(root.tree) == s[i := new_]
  {
    ghost var x, t, a := PathTo(Top, root.tree, victim), SubtreeAt(root.tree, victim), new_.aug;
    PathFinds(Top, root.tree, victim);
    Refocus(Snapshot(root.repr), root.ranks, root.node, x, t);
    RenamedOrder(x, t, new_, a);
    RenamedColors(x, t, new_, a);
    i := |Before(x)| + |Inorder(t.left)|;
    ReplaceAt(victim, new_, root, x, t);
    Finish(root, x, t.(n := new_, aug := a));
  }

  // ----- a successor takes a node's place

  /** The writes of rbtree_augmented.h:214-230: s takes o's left child, parent and colour, and c2 goes black below p. */
  ghost predicate Seated<A>(m: Mem<A>, m': Mem<A>, root: RbNode?<A>, root': RbNode?<A>, o: RbNode<A>, s: RbNode<A>,
                            p: RbNode<A>, c2: RbNode?<A>)
    requires o in m && s in m
  {
    var l, q := m[o].left, m[o].parent;
    && m'.Keys == m.Keys && Untouched(m, m', {s, l, q, c2})
    && m'[s] == m[s].(left := l, parent := q, color := m[o].color)
    && (l != null ==> l in m && m'[l] == m[l].(parent := s))
    && (c2 != null ==> c2 in m && m'[c2] == m[c2].(parent := p, color := Black))
    && if q == null then root' == s else root' == root && q in m && m'[q] == Swap(m[q], o, s)
  }

  ghost predicate CanSeat<A>(m: Mem<A>, o: RbNode<A>, s: RbNode<A>, c2: RbNode?<A>) {
    && o in m && s in m && o != s
    && var l, q := m[o].left, m[o].parent;
      && l != null && l in m && l !in {o, s, c2, q}
      && (c2 != null ==> c2 in m && c2 !in {o, s, q}) && (q != null ==> q in m && q !in {o, s})
  }

  method TakeOver<A>(node: RbNode<A>, successor: RbNode<A>, root: RbRoot<A>, ghost p: RbNode<A>)
    requires CanSeat(Snapshot(root.repr), node, successor, null)
    modifies root`node, root.repr
    ensures Seated(old(Snapshot(root.repr)), Snapshot(root.repr), old(root.node), root.node, node, successor, p, null)
  {
    var tmp := node.left;
    successor.left := tmp;
    tmp.parent := successor;
    var parent, color := node.parent, node.color;
    ChangeChild(node, successor, parent, root);
    successor.parent, successor.color := parent, color;
  }

  lemma SeatedBoth<A>(m: Mem<A>, m1: Mem<A>, root: RbNode?<A>, root': RbNode?<A>, o: RbNode<A>, s: RbNode<A>,
                      p: RbNode<A>, c2: RbNode<A>)
    requires CanSeat(m, o, s, c2) && Seated(m, m1, root, root', o, s, p, null)
    ensures c2 in m1 && Seated(m, m1[c2 := m1[c2].(parent := p, color := Black)], root, root', o, s, p, c2)
  {
  }

  /** rb_set_parent_color */
  method PaintBelow<A>(n: RbNode<A>, p: RbNode<A>, c: Color, root: RbRoot<A>)
    requires n in root.repr
    modifies root.repr
    ensures var m := old(Snapshot(root.repr)); Snapshot(root.repr) == m[n := m[n].(parent := p, color := c)]
  {
    n.parent, n.color := p, c;
  }

  method Seat<A>(node: RbNode<A>, successor: RbNode<A>, parent: RbNode<A>, child2: RbNode?<A>, root: RbRoot<A>)
    requires CanSeat(Snapshot(root.repr), node, successor, child2)
    modifies root`node, root.repr
    ensures Seated(old(Snapshot(root.repr)), Snapshot(root.repr), old(root.node), root.node,
                   node, successor, parent, child2)
  {
    TakeOver(node, successor, root, parent);
    if child2 != null {
      SeatedBoth(old(Snapshot(root.repr)), Snapshot(root.repr), old(root.node), root.node,
                 node, successor, parent, child2);
      PaintBelow(child2, parent, Black, root);
    }
  }

  ghost predicate CanPromote<A>(m: Mem<A>, n: RbNode<A>, s: RbNode<A>) {
    s in m && CanSeat(m, n, s, m[s].right) && (m[s].right != null ==> m[m[s].right].parent == s)
  }

  method PromotePointers<A>(node: RbNode<A>, successor: RbNode<A>, root: RbRoot<A>)
    requires CanPromote(Snapshot(root.repr), node, successor)
    modifies root`node, root.repr
    ensures Promoted(old(Snapshot(root.repr)), Snapshot(root.repr), old(root.node), root.node, node, successor)
  {
    var child2 := successor.right;
    successor.aug := node.aug;
    Seat(node, successor, successor, child2, root);
  }

  lemma PromoteReady<A>(m: Mem<A>, k: Ranks<A>, root: RbNode?<A>, x: Ctx<A>, t: Tree<A>)
    requires Focus(m, k, root, x, t) && t.Node? && t.left.Node? && t.right.Node?
    ensures CanPromote(m, t.n, t.right.n)
  {
    var s, r := t.right, t.right.right;
    assert Rep(m, k, t.left, t.n, Lo(k, x), k[t.n]) && Rep(m, k, s, t.n, k[t.n], Hi(k, x));
    assert Rep(m, k, r, s.n, k[s.n], Hi(k, x));
  }

  lemma PromotedDrop<A>(m: Mem<A>, m': Mem<A>, k: Ranks<A>, root: RbNode?<A>, root': RbNode?<A>, x: Ctx<A>, t: Tree<A>)
    requires Focus(m, k, root, x, t) && t.Node? && t.right.Node? && t.right.left.Leaf? && CanPromote(m, t.n, t.right.n)
    requires Promoted(m, m', root, root', t.n, t.right.n)
    ensures Focus(m' - {t.n}, k, root', x, Node(t.left, t.right.n, t.color, t.aug, Painted(t.right.right, Black)))
  {
    assert Promoted(m, m' - {t.n}, root, root', t.n, t.right.n);
    PromoteTree(m, m' - {t.n}, k, root, root', x, t);
  }

  /** Case 2 (rbtree_augmented.h:171-184, 214-230): the successor is node's right child. */
  method Promote<A>(node: RbNode<A>, successor: RbNode<A>, root: RbRoot<A>, ghost x: Ctx<A>, ghost t: Tree<A>)
    requires root.At(x, t) && t.Node? && t.n == node && t.left.Node? && t.right.Node? && t.right.n == successor
    requires t.right.left.Leaf?
    modifies root`node, root`repr, root`ranks, root.repr
    ensures root.At(x, Node(t.left, successor, t.color, t.aug, Painted(t.right.right, Black)))
    ensures root.repr == old(root.repr) - {node}
  {
    ghost var m := Snapshot(root.repr);
    PromoteReady(m, root.ranks, root.node, x, t);
    PromotePointers(node, successor, root);
    PromotedDrop(m, Snapshot(root.repr), root.ranks, old(root.node), root.node, x, t);
    Drop(root, node, root.ranks, x, Node(t.left, successor, t.color, t.aug, Painted(t.right.right, Black)));
  }

  /** rb_link_node (rbtree.h:90-97), `rb_link` being parent's left or right child or the root. */
  method LinkNode<A>(node: RbNode<A>, parent: RbNode?<A>, left: bool, root: RbRoot<A>, ghost x: Ctx<A>)
    requires root.At(x, Leaf) && parent == Parent(x) && (parent != null ==> left == x.InL?) && node !in root.repr
    modifies root`node, root`repr, root`ranks, root.repr, node
    ensures root.At(x, Node(Leaf, node, Red, old(node.aug), Leaf)) && root.repr == old(root.repr) + {node}
  {
    ghost var m, k := Snapshot(root.repr), root.ranks;
    ghost var r := (Lo(k, x) + Hi(k, x)) / 2.0;
    node.parent, node.color := parent, Red;
    node.left, node.right := null, null;
    if parent == null {
      root.node := node;
    } else if left {
      parent.left := node;
    } else {
      parent.right := node;
    }
    root.repr, root.ranks := root.repr + {node}, k[node := r];
    LinkTree(m, Snapshot(root.repr), k, old(root.node), root.node, x, node, r);
  }
}
