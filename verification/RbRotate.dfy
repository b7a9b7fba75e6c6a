/**
 The rotations of rbtree.c. The C code writes each one out where it is used; here the
 lines shared by all of them are TurnRight/TurnLeft (child pointers, and the parent
 of the subtree that changes hands) and RotateSetParents.
 */
module RbRotate {
  import opened RbTree
  import opened RbMemory
  import opened RbRoots

  /** rbtree_augmented.h:82-89 */
  method AugmentRotate<A>(f: Computer<A>, o: RbNode<A>, n: RbNode<A>)
    requires o != n && o.left != o && o.right != o
    modifies {o, n}`aug
    ensures n.aug == old(o.aug) && o.aug == Compute(f, Stored(o.left), o, Stored(o.right))
  {
    n.aug := o.aug;
    o.aug := Compute(f, Stored(o.left), o, Stored(o.right));
  }

  ghost predicate CanTurn<A>(m: Mem<A>, o: RbNode<A>, n: RbNode<A>, b: RbNode?<A>, c: RbNode?<A>) {
    && o in m && n in m && o != n && c !in {o, n}
    && (b != null ==> b in m && b !in {o, n, c}) && (c != null ==> c in m)
  }

  /** The child pointers of a right rotation of n over o, the parent of the subtree that
      changes hands (and its colour, in the cases that write it), and augment_rotate. */
  method TurnRight<A>(f: Computer<A>, o: RbNode<A>, n: RbNode<A>, blacken: bool, root: RbRoot<A>)
    requires {o, n} <= root.repr && CanTurn(Snapshot(root.repr), o, n, n.right, o.right)
    requires blacken && n.right != null ==> n.right.color.Black?
    modifies root.repr
    ensures Turned(f, true, old(Snapshot(root.repr)), Snapshot(root.repr), o, n, old(n.right))
  {
    var tmp := n.right;
    o.left := tmp;
    n.right := o;
    if tmp != null {
      tmp.parent := o;
      if blacken {
        tmp.color := Black;
      }
    }
    AugmentRotate(f, o, n);
  }

  method TurnLeft<A>(f: Computer<A>, o: RbNode<A>, n: RbNode<A>, blacken: bool, root: RbRoot<A>)
    requires {o, n} <= root.repr && CanTurn(Snapshot(root.repr), o, n, n.left, o.left)
    requires blacken && n.left != null ==> n.left.color.Black?
    modifies root.repr
    ensures Turned(f, false, old(Snapshot(root.repr)), Snapshot(root.repr), o, n, old(n.left))
  {
    var tmp := n.left;
    o.right := tmp;
    n.left := o;
    if tmp != null {
      tmp.parent := o;
      if blacken {
        tmp.color := Black;
      }
    }
    AugmentRotate(f, o, n);
  }

  lemma TurnRightReady<A>(m: Mem<A>, k: Ranks<A>, lo: real, hi: real, a: Tree<A>, n: RbNode<A>, b: Tree<A>,
                          o: RbNode<A>, c: Tree<A>)
    requires Within(k, o, lo, hi) && o in m && Rep(m, k, c, o, k[o], hi) && Fork(m, k, a, n, b, lo, k[o])
    ensures CanTurn(m, o, n, Root(b), Root(c))
    ensures b.Node? ==> m[b.n].color == b.color
  {
  }

  lemma TurnLeftReady<A>(m: Mem<A>, k: Ranks<A>, lo: real, hi: real, a: Tree<A>, o: RbNode<A>, b: Tree<A>, n: RbNode<A>,
                         c: Tree<A>)
    requires Within(k, o, lo, hi) && o in m && Rep(m, k, a, o, lo, k[o]) && Fork(m, k, b, n, c, k[o], hi)
    ensures CanTurn(m, o, n, Root(b), Root(a))
    ensures b.Node? ==> m[b.n].color == b.color
  {
  }

  // ----- single rotations

  /** n is to rise over o. The pointers o.left, n.parent and n's colour are not said:
      they are stale when another rotation has just been made below. */
  ghost predicate OpenRight<A>(m: Mem<A>, k: Ranks<A>, root: RbNode?<A>, up: Ctx<A>,
                               a: Tree<A>, n: RbNode<A>, b: Tree<A>, o: RbNode<A>, c: Tree<A>) {
    && RepCtx(m, k, root, up, o) && Within(k, o, Lo(k, up), Hi(k, up))
    && o in m && m[o].parent == Parent(up) && m[o].right == Root(c) && Rep(m, k, c, o, k[o], Hi(k, up))
    && Fork(m, k, a, n, b, Lo(k, up), k[o])
  }

  ghost predicate OpenLeft<A>(m: Mem<A>, k: Ranks<A>, root: RbNode?<A>, up: Ctx<A>,
                              a: Tree<A>, o: RbNode<A>, b: Tree<A>, n: RbNode<A>, c: Tree<A>) {
    && RepCtx(m, k, root, up, o) && Within(k, o, Lo(k, up), Hi(k, up))
    && o in m && m[o].parent == Parent(up) && m[o].left == Root(a) && Rep(m, k, a, o, Lo(k, up), k[o])
    && Fork(m, k, b, n, c, k[o], Hi(k, up))
  }

  method RotateRight<A>(f: Computer<A>, o: RbNode<A>, n: RbNode<A>, blacken: bool, root: RbRoot<A>, d: Color,
                        ghost up: Ctx<A>, ghost a: Tree<A>, ghost b: Tree<A>, ghost c: Tree<A>)
    requires OpenRight(Snapshot(root.repr), root.ranks, root.node, up, a, n, b, o, c)
    requires blacken ==> !IsRed(b)
    modifies root`node, root.repr
    ensures root.At(up, Node(a, n, old(o.color), old(o.aug), Node(b, o, d, Compute(f, Aug(b), o, Aug(c)), c)))
  {
    ghost var m, k := Snapshot(root.repr), root.ranks;
    TurnRightReady(m, k, Lo(k, up), Hi(k, up), a, n, b, o, c);
    TurnRight(f, o, n, blacken, root);
    ghost var m1 := Snapshot(root.repr);
    TurnRightTree(f, m, m1, k, Lo(k, up), Hi(k, up), a, n, b, o, c);
    FrameCtx(m, m1, {o, n, Root(b)}, k, root.node, up, o);
    RotateSetParents(o, n, root, d);
    RaiseRightTree(m1, Snapshot(root.repr), k, old(root.node), root.node, up, a, n, b, o, c, d);
  }

  method RotateLeft<A>(f: Computer<A>, o: RbNode<A>, n: RbNode<A>, blacken: bool, root: RbRoot<A>, d: Color,
                       ghost up: Ctx<A>, ghost a: Tree<A>, ghost b: Tree<A>, ghost c: Tree<A>)
    requires OpenLeft(Snapshot(root.repr), root.ranks, root.node, up, a, o, b, n, c)
    requires blacken ==> !IsRed(b)
    modifies root`node, root.repr
    ensures root.At(up, Node(Node(a, o, d, Compute(f, Aug(a), o, Aug(b)), b), n, old(o.color), old(o.aug), c))
  {
    ghost var m, k := Snapshot(root.repr), root.ranks;
    TurnLeftReady(m, k, Lo(k, up), Hi(k, up), a, o, b, n, c);
    TurnLeft(f, o, n, blacken, root);
    ghost var m1 := Snapshot(root.repr);
    TurnLeftTree(f, m, m1, k, Lo(k, up), Hi(k, up), a, o, b, n, c);
    FrameCtx(m, m1, {o, n, Root(b)}, k, root.node, up, o);
    RotateSetParents(o, n, root, d);
    RaiseLeftTree(m1, Snapshot(root.repr), k, old(root.node), root.node, up, a, o, b, n, c, d);
  }

  // ----- the inner half of a double rotation

  /** p is o's left child and n is p's right child. The pointer o.left is not said. */
  ghost predicate BentRight<A>(m: Mem<A>, k: Ranks<A>, root: RbNode?<A>, up: Ctx<A>,
                               a: Tree<A>, p: RbNode<A>, b: Tree<A>, n: RbNode<A>,
                               c: Tree<A>, o: RbNode<A>, d: Tree<A>)
  {
    && RepCtx(m, k, root, up, o) && Within(k, o, Lo(k, up), Hi(k, up))
    && o in m && m[o].parent == Parent(up) && m[o].right == Root(d) && Rep(m, k, d, o, k[o], Hi(k, up))
    && p in m && Within(k, p, Lo(k, up), k[o]) && m[p].left == Root(a) && Rep(m, k, a, p, Lo(k, up), k[p])
    && Fork(m, k, b, n, c, k[p], k[o])
  }

  /** As OpenRight, but the parent and colour of n's left child p are not said either. */
  ghost predicate LooseRight<A>(m: Mem<A>, k: Ranks<A>, root: RbNode?<A>, up: Ctx<A>,
                                a: Tree<A>, p: RbNode<A>, b: Tree<A>, n: RbNode<A>,
                                c: Tree<A>, o: RbNode<A>, d: Tree<A>)
  {
    && RepCtx(m, k, root, up, o) && Within(k, o, Lo(k, up), Hi(k, up))
    && o in m && m[o].parent == Parent(up) && m[o].right == Root(d) && Rep(m, k, d, o, k[o], Hi(k, up))
    && n in m && Within(k, n, Lo(k, up), k[o]) && m[n].left == p && m[n].right == Root(c) && Rep(m, k, c, n, k[n], k[o])
    && Fork(m, k, a, p, b, Lo(k, up), k[n])
  }

  lemma StraightenRight<A>(f: Computer<A>, m: Mem<A>, m': Mem<A>, k: Ranks<A>, root: RbNode?<A>, up: Ctx<A>,
                           a: Tree<A>, p: RbNode<A>, b: Tree<A>, n: RbNode<A>, c: Tree<A>, o: RbNode<A>, d: Tree<A>)
    requires BentRight(m, k, root, up, a, p, b, n, c, o, d) && Turned(f, false, m, m', p, n, Root(b))
    ensures LooseRight(m', k, root, up, a, p, b, n, c, o, d)
    ensures m'[p].aug == Compute(f, Aug(a), p, Aug(b)) && m'[o] == m[o]
  {
    var w := {p, n, Root(b)};
    TurnLeftTree(f, m, m', k, Lo(k, up), k[o], a, p, b, n, c);
    Frame(m, m', w, k, d, o, k[o], Hi(k, up));
    FrameCtx(m, m', w, k, root, up, o);
  }

  lemma HangRight<A>(m: Mem<A>, m': Mem<A>, k: Ranks<A>, root: RbNode?<A>, up: Ctx<A>, h: Color,
                     a: Tree<A>, p: RbNode<A>, b: Tree<A>, n: RbNode<A>, c: Tree<A>, o: RbNode<A>, d: Tree<A>)
    requires LooseRight(m, k, root, up, a, p, b, n, c, o, d)
    requires Untouched(m, m', {p}) && p in m' && m'[p] == m[p].(parent := n, color := h)
    ensures OpenRight(m', k, root, up, Node(a, p, h, m[p].aug, b), n, c, o, d)
    ensures m'[o] == m[o]
  {
    var w := {p};
    Frame(m, m', w, k, a, p, Lo(k, up), k[p]);
    Frame(m, m', w, k, b, p, k[p], k[n]);
    Frame(m, m', w, k, c, n, k[n], k[o]);
    Frame(m, m', w, k, d, o, k[o], Hi(k, up));
    FrameCtx(m, m', w, k, root, up, o);
  }

  /** p is o's right child and n is p's left child. The pointer o.right is not said. */
  ghost predicate BentLeft<A>(m: Mem<A>, k: Ranks<A>, root: RbNode?<A>, up: Ctx<A>,
                              d: Tree<A>, o: RbNode<A>, c: Tree<A>, n: RbNode<A>,
                              b: Tree<A>, p: RbNode<A>, a: Tree<A>)
  {
    && RepCtx(m, k, root, up, o) && Within(k, o, Lo(k, up), Hi(k, up))
    && o in m && m[o].parent == Parent(up) && m[o].left == Root(d) && Rep(m, k, d, o, Lo(k, up), k[o])
    && p in m && Within(k, p, k[o], Hi(k, up)) && m[p].right == Root(a) && Rep(m, k, a, p, k[p], Hi(k, up))
    && Fork(m, k, c, n, b, k[o], k[p])
  }

  ghost predicate LooseLeft<A>(m: Mem<A>, k: Ranks<A>, root: RbNode?<A>, up: Ctx<A>,
                               d: Tree<A>, o: RbNode<A>, c: Tree<A>, n: RbNode<A>,
                               b: Tree<A>, p: RbNode<A>, a: Tree<A>)
  {
    && RepCtx(m, k, root, up, o) && Within(k, o, Lo(k, up), Hi(k, up))
    && o in m && m[o].parent == Parent(up) && m[o].left == Root(d) && Rep(m, k, d, o, Lo(k, up), k[o])
    && n in m && Within(k, n, k[o], Hi(k, up)) && m[n].right == p && m[n].left == Root(c) && Rep(m, k, c, n, k[o], k[n])
    && Fork(m, k, b, p, a, k[n], Hi(k, up))
  }

  lemma StraightenLeft<A>(f: Computer<A>, m: Mem<A>, m': Mem<A>, k: Ranks<A>, root: RbNode?<A>, up: Ctx<A>,
                          d: Tree<A>, o: RbNode<A>, c: Tree<A>, n: RbNode<A>, b: Tree<A>, p: RbNode<A>, a: Tree<A>)
    requires BentLeft(m, k, root, up, d, o, c, n, b, p, a) && Turned(f, true, m, m', p, n, Root(b))
    ensures LooseLeft(m', k, root, up, d, o, c, n, b, p, a)
    ensures m'[p].aug == Compute(f, Aug(b), p, Aug(a)) && m'[o] == m[o]
  {
    var w := {p, n, Root(b)};
    TurnRightTree(f, m, m', k, k[o], Hi(k, up), c, n, b, p, a);
    Frame(m, m', w, k, d, o, Lo(k, up), k[o]);
    FrameCtx(m, m', w, k, root, up, o);
  }

  lemma HangLeft<A>(m: Mem<A>, m': Mem<A>, k: Ranks<A>, root: RbNode?<A>, up: Ctx<A>, h: Color,
                    d: Tree<A>, o: RbNode<A>, c: Tree<A>, n: RbNode<A>, b: Tree<A>, p: RbNode<A>, a: Tree<A>)
    requires LooseLeft(m, k, root, up, d, o, c, n, b, p, a)
    requires Untouched(m, m', {p}) && p in m' && m'[p] == m[p].(parent := n, color := h)
    ensures OpenLeft(m', k, root, up, d, o, c, n, Node(b, p, h, m[p].aug, a))
    ensures m'[o] == m[o]
  {
    var w := {p};
    Frame(m, m', w, k, a, p, k[p], Hi(k, up));
    Frame(m, m', w, k, b, p, k[n], k[p]);
    Frame(m, m', w, k, c, n, k[o], k[n]);
    Frame(m, m', w, k, d, o, Lo(k, up), k[o]);
    FrameCtx(m, m', w, k, root, up, o);
  }

  // ----- opening a tree that is whole

  lemma FocusOpenRight<A>(m: Mem<A>, k: Ranks<A>, root: RbNode?<A>, up: Ctx<A>, t: Tree<A>)
    requires Focus(m, k, root, up, t) && t.Node? && t.left.Node?
    ensures var p := t.left; OpenRight(m, k, root, up, p.left, p.n, p.right, t.n, t.right)
    ensures t.n in m && t.left.n in m && m[t.n].color == t.color && m[t.n].aug == t.aug
  {
    assert Rep(m, k, t.left, t.n, Lo(k, up), k[t.n]);
  }

  lemma FocusOpenLeft<A>(m: Mem<A>, k: Ranks<A>, root: RbNode?<A>, up: Ctx<A>, t: Tree<A>)
    requires Focus(m, k, root, up, t) && t.Node? && t.right.Node?
    ensures var p := t.right; OpenLeft(m, k, root, up, t.left, t.n, p.left, p.n, p.right)
    ensures t.n in m && t.right.n in m && m[t.n].color == t.color && m[t.n].aug == t.aug
  {
    assert Rep(m, k, t.right, t.n, k[t.n], Hi(k, up));
  }

  lemma OpenBentRight<A>(m: Mem<A>, k: Ranks<A>, root: RbNode?<A>, up: Ctx<A>,
                         a: Tree<A>, p: RbNode<A>, b: Tree<A>, o: RbNode<A>, c: Tree<A>)
    requires OpenRight(m, k, root, up, a, p, b, o, c) && b.Node?
    ensures BentRight(m, k, root, up, a, p, b.left, b.n, b.right, o, c)
  {
  }

  lemma OpenBentLeft<A>(m: Mem<A>, k: Ranks<A>, root: RbNode?<A>, up: Ctx<A>,
                        a: Tree<A>, o: RbNode<A>, b: Tree<A>, p: RbNode<A>, c: Tree<A>)
    requires OpenLeft(m, k, root, up, a, o, b, p, c) && b.Node?
    ensures BentLeft(m, k, root, up, a, o, b.left, b.n, b.right, p, c)
  {
  }

  lemma BentRightStale<A>(m: Mem<A>, m': Mem<A>, k: Ranks<A>, root: RbNode?<A>, up: Ctx<A>,
                          a: Tree<A>, p: RbNode<A>, b: Tree<A>, n: RbNode<A>, c: Tree<A>, o: RbNode<A>, d: Tree<A>)
    requires BentRight(m, k, root, up, a, p, b, n, c, o, d)
    requires Untouched(m, m', {o}) && o in m' && m'[o] == m[o].(left := m'[o].left)
    ensures BentRight(m', k, root, up, a, p, b, n, c, o, d)
  {
    var w := {o};
    Frame(m, m', w, k, a, p, Lo(k, up), k[p]);
    Frame(m, m', w, k, b, n, k[p], k[n]);
    Frame(m, m', w, k, c, n, k[n], k[o]);
    Frame(m, m', w, k, d, o, k[o], Hi(k, up));
    FrameCtx(m, m', w, k, root, up, o);
  }

  lemma BentLeftStale<A>(m: Mem<A>, m': Mem<A>, k: Ranks<A>, root: RbNode?<A>, up: Ctx<A>,
                         d: Tree<A>, o: RbNode<A>, c: Tree<A>, n: RbNode<A>, b: Tree<A>, p: RbNode<A>, a: Tree<A>)
    requires BentLeft(m, k, root, up, d, o, c, n, b, p, a)
    requires Untouched(m, m', {o}) && o in m' && m'[o] == m[o].(right := m'[o].right)
    ensures BentLeft(m', k, root, up, d, o, c, n, b, p, a)
  {
    var w := {o};
    Frame(m, m', w, k, a, p, k[p], Hi(k, up));
    Frame(m, m', w, k, b, n, k[n], k[p]);
    Frame(m, m', w, k, c, n, k[o], k[n]);
    Frame(m, m', w, k, d, o, Lo(k, up), k[o]);
    FrameCtx(m, m', w, k, root, up, o);
  }
}
