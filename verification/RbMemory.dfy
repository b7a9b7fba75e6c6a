/**
 When a set of linked nodes in memory holds a tree: every node points at its
 children and at its parent, and has the colour and stored value the tree says.
 The rank of a node, a number strictly between those of its neighbours, says where a
 node is in the order; subtrees occupy disjoint intervals of ranks, so a write to one
 node leaves every subtree whose interval does not hold its rank alone.
 */
module RbMemory {
  import opened Basics
  import opened RbTree

  datatype Cell<A> = Cell(left: RbNode?<A>, right: RbNode?<A>, parent: RbNode?<A>, color: Color, aug: A)

  type Mem<A> = map<RbNode<A>, Cell<A>>
  type Ranks<A> = map<RbNode<A>, real>

  ghost function Snapshot<A>(s: set<RbNode<A>>): (m: Mem<A>)
    reads s
    ensures m.Keys == s
  {
    map n | n in s :: Cell(n.left, n.right, n.parent, n.color, n.aug)
  }

  function Root<A>(t: Tree<A>): RbNode?<A> { if t.Leaf? then null else t.n }

  function Parent<A>(x: Ctx<A>): RbNode?<A> { if x.Top? then null else x.n }

  ghost predicate Within<A>(k: Ranks<A>, n: RbNode<A>, lo: real, hi: real) {
    n in k && lo < k[n] < hi
  }

  ghost predicate Rep<A>(m: Mem<A>, k: Ranks<A>, t: Tree<A>, p: RbNode?<A>, lo: real, hi: real) {
    match t
    case Leaf => lo < hi
    case Node(l, n, c, a, r) =>
      && n in m && m[n] == Cell(Root(l), Root(r), p, c, a) && Within(k, n, lo, hi)
      && Rep(m, k, l, n, lo, k[n]) && Rep(m, k, r, n, k[n], hi)
  }

  /** The interval of ranks left for the hole. */
  ghost function Lo<A>(k: Ranks<A>, x: Ctx<A>): real {
    match x
    case Top => 0.0
    case InL(up, _, _, _, _) => Lo(k, up)
    case InR(_, _, n, _, _) => if n in k then k[n] else 0.0
  }

  ghost function Hi<A>(k: Ranks<A>, x: Ctx<A>): real {
    match x
    case Top => 1.0
    case InL(_, n, _, _, _) => if n in k then k[n] else 1.0
    case InR(up, _, _, _, _) => Hi(k, up)
  }

  /** The context is in memory, with `hole` as the child pointer (or root) at the hole. */
  ghost predicate RepCtx<A>(m: Mem<A>, k: Ranks<A>, root: RbNode?<A>, x: Ctx<A>, hole: RbNode?<A>) {
    match x
    case Top => root == hole
    case InL(up, n, c, a, r) =>
      && n in m && m[n] == Cell(hole, Root(r), Parent(up), c, a) && Within(k, n, Lo(k, up), Hi(k, up))
      && Rep(m, k, r, n, k[n], Hi(k, up)) && RepCtx(m, k, root, up, n)
    case InR(up, l, n, c, a) =>
      && n in m && m[n] == Cell(Root(l), hole, Parent(up), c, a) && Within(k, n, Lo(k, up), Hi(k, up))
      && Rep(m, k, l, n, Lo(k, up), k[n]) && RepCtx(m, k, root, up, n)
  }

  /** Memory holds Plug(x, t). */
  ghost predicate Focus<A>(m: Mem<A>, k: Ranks<A>, root: RbNode?<A>, x: Ctx<A>, t: Tree<A>) {
    && Rep(m, k, t, Parent(x), Lo(k, x), Hi(k, x))
    && RepCtx(m, k, root, x, Root(t))
  }

  /** What the code finds in the node it is at. */
  lemma NodeFocus<A>(m: Mem<A>, k: Ranks<A>, root: RbNode?<A>, x: Ctx<A>, t: Tree<A>)
    requires Focus(m, k, root, x, t) && t.Node?
    ensures t.n in m && m[t.n] == Cell(Root(t.left), Root(t.right), Parent(x), t.color, t.aug)
    ensures t.left.Node? ==> t.left.n in m && m[t.left.n].aug == t.left.aug
    ensures t.right.Node? ==> t.right.n in m && m[t.right.n].aug == t.right.aug
  {
    assert Rep(m, k, t.left, t.n, Lo(k, x), k[t.n]) && Rep(m, k, t.right, t.n, k[t.n], Hi(k, x));
  }

  /** Moving the focus between a node and its parent. */
  lemma Climb<A>(m: Mem<A>, k: Ranks<A>, root: RbNode?<A>, x: Ctx<A>, t: Tree<A>)
    requires !x.Top?
    ensures Focus(m, k, root, x, t) <==> Focus(m, k, root, x.up, Up(x, t))
  {
  }

  lemma {:induction false} Refocus<A>(m: Mem<A>, k: Ranks<A>, root: RbNode?<A>, x: Ctx<A>, t: Tree<A>)
    ensures Focus(m, k, root, x, t) <==> Focus(m, k, root, Top, Plug(x, t))
    decreases x
  {
    match x
    case Top =>
    case InL(up, n, c, a, r) => Refocus(m, k, root, up, Node(t, n, c, a, r));
    case InR(up, l, n, c, a) => Refocus(m, k, root, up, Node(l, n, c, a, t));
  }

  // ----- writes elsewhere

  ghost predicate Untouched<A>(m: Mem<A>, m': Mem<A>, w: set<RbNode?<A>>) {
    forall n {:trigger m'[n]} {:trigger n in m'} :: n in m && n !in w ==> n in m' && m'[n] == m[n]
  }

  ghost predicate Outside<A>(k: Ranks<A>, w: set<RbNode?<A>>, but: RbNode?<A>, lo: real, hi: real) {
    forall n: RbNode<A> {:trigger n in w} :: n in w && n != but ==> !Within(k, n, lo, hi)
  }

  lemma {:induction false} Frame<A>(m: Mem<A>, m': Mem<A>, w: set<RbNode?<A>>, k: Ranks<A>,
                                    t: Tree<A>, p: RbNode?<A>, lo: real, hi: real)
    requires Rep(m, k, t, p, lo, hi) && Untouched(m, m', w) && Outside(k, w, null, lo, hi)
    ensures Rep(m', k, t, p, lo, hi)
  {
    if t.Node? {
      assert t.n in m';
      Frame(m, m', w, k, t.left, t.n, lo, k[t.n]);
      Frame(m, m', w, k, t.right, t.n, k[t.n], hi);
    }
  }

  /** n has the subtrees l and r; its own parent, colour and stored value are not said. */
  ghost predicate Fork<A>(m: Mem<A>, k: Ranks<A>, l: Tree<A>, n: RbNode<A>, r: Tree<A>, lo: real, hi: real) {
    && n in m && m[n].left == Root(l) && m[n].right == Root(r) && Within(k, n, lo, hi)
    && Rep(m, k, l, n, lo, k[n]) && Rep(m, k, r, n, k[n], hi)
  }

  /** Only the top node of t is written, and only its parent. */
  lemma Reparent<A>(m: Mem<A>, m': Mem<A>, w: set<RbNode?<A>>, k: Ranks<A>,
                    t: Tree<A>, p: RbNode?<A>, p': RbNode?<A>, lo: real, hi: real)
    requires Rep(m, k, t, p, lo, hi) && Untouched(m, m', w) && Outside(k, w, Root(t), lo, hi)
    requires t.Node? ==> t.n in m' && m'[t.n] == m[t.n].(parent := p')
    ensures Rep(m', k, t, p', lo, hi)
  {
    if t.Node? {
      Frame(m, m', w, k, t.left, t.n, lo, k[t.n]);
      Frame(m, m', w, k, t.right, t.n, k[t.n], hi);
    }
  }

  /** Writes inside the hole, and the child pointer at the hole itself. */
  lemma {:induction false} FrameCtx<A>(m: Mem<A>, m': Mem<A>, w: set<RbNode?<A>>, k: Ranks<A>,
                                       root: RbNode?<A>, x: Ctx<A>, hole: RbNode?<A>)
    requires RepCtx(m, k, root, x, hole) && Untouched(m, m', w)
    requires forall n: RbNode<A> {:trigger n in w} :: n in w ==> Within(k, n, Lo(k, x), Hi(k, x))
    ensures RepCtx(m', k, root, x, hole)
  {
    match x
    case Top =>
    case InL(up, n, c, a, r) =>
      assert n in m';
      Frame(m, m', w, k, r, n, k[n], Hi(k, up));
      FrameCtx(m, m', w, k, root, up, n);
    case InR(up, l, n, c, a) =>
      assert n in m';
      Frame(m, m', w, k, l, n, Lo(k, up), k[n]);
      FrameCtx(m, m', w, k, root, up, n);
  }

  ghost function Swap<A>(c: Cell<A>, o: RbNode<A>, n: RbNode?<A>): Cell<A> {
    if c.left == o then c.(left := n) else c.(right := n)
  }

  /** __rb_change_child: the child `hole` becomes `hole'`. */
  lemma ReplaceHole<A>(m: Mem<A>, m': Mem<A>, w: set<RbNode?<A>>, k: Ranks<A>, root: RbNode?<A>, root': RbNode?<A>,
                       x: Ctx<A>, hole: RbNode<A>, hole': RbNode?<A>)
    requires RepCtx(m, k, root, x, hole) && Untouched(m, m', w) && Within(k, hole, Lo(k, x), Hi(k, x))
    requires forall n: RbNode<A> {:trigger n in w} :: n in w ==> n == Parent(x) || Within(k, n, Lo(k, x), Hi(k, x))
    requires if x.Top? then root' == hole' else root' == root && x.n in m' && m'[x.n] == Swap(m[x.n], hole, hole')
    ensures RepCtx(m', k, root', x, hole')
  {
    match x
    case Top =>
    case InL(up, n, c, a, r) =>
      Frame(m, m', w, k, r, n, k[n], Hi(k, up));
      FrameCtx(m, m', w, k, root, up, n);
    case InR(up, l, n, c, a) =>
      Frame(m, m', w, k, l, n, Lo(k, up), k[n]);
      FrameCtx(m, m', w, k, root, up, n);
  }

  // ----- rotations

  ghost function StoredIn<A>(m: Mem<A>, n: RbNode?<A>): Option<A> {
    if n == null || n !in m then None else Some(m[n].aug)
  }

  /** o hands the subtree with top b over from n, and becomes n's child; n takes o's
      stored value. `left` says that n was o's left child. */
  ghost predicate Turned<A>(f: Computer<A>, left: bool, m: Mem<A>, m': Mem<A>, o: RbNode<A>, n: RbNode<A>,
                            b: RbNode?<A>)
    requires o in m && n in m
  {
    && m'.Keys == m.Keys && Untouched(m, m', {o, n, b})
    && m'[o] == (if left then m[o].(left := b, aug := m'[o].aug) else m[o].(right := b, aug := m'[o].aug))
    && m'[n] == (if left then m[n].(right := o, aug := m[o].aug) else m[n].(left := o, aug := m[o].aug))
    && m'[o].aug == Compute(f, StoredIn(m', m'[o].left), o, StoredIn(m', m'[o].right))
    && (b != null ==> b in m && m'[b] == m[b].(parent := o))
  }

  lemma TurnRightTree<A>(f: Computer<A>, m: Mem<A>, m': Mem<A>, k: Ranks<A>, lo: real, hi: real,
                         a: Tree<A>, n: RbNode<A>, b: Tree<A>, o: RbNode<A>, c: Tree<A>)
    requires Within(k, o, lo, hi) && o in m && m[o].right == Root(c) && Rep(m, k, c, o, k[o], hi)
    requires Fork(m, k, a, n, b, lo, k[o])
    requires Turned(f, true, m, m', o, n, Root(b))
    ensures Rep(m', k, a, n, lo, k[n]) && m'[n] == m[n].(right := o, aug := m[o].aug)
    ensures Fork(m', k, b, o, c, k[n], hi)
    ensures m'[o] == m[o].(left := Root(b), aug := Compute(f, Aug(b), o, Aug(c)))
  {
    var w := {o, n, Root(b)};
    Frame(m, m', w, k, a, n, lo, k[n]);
    Reparent(m, m', w, k, b, n, o, k[n], k[o]);
    Frame(m, m', w, k, c, o, k[o], hi);
  }

  lemma TurnLeftTree<A>(f: Computer<A>, m: Mem<A>, m': Mem<A>, k: Ranks<A>, lo: real, hi: real,
                        a: Tree<A>, o: RbNode<A>, b: Tree<A>, n: RbNode<A>, c: Tree<A>)
    requires Within(k, o, lo, hi) && o in m && m[o].left == Root(a) && Rep(m, k, a, o, lo, k[o])
    requires Fork(m, k, b, n, c, k[o], hi)
    requires Turned(f, false, m, m', o, n, Root(b))
    ensures Rep(m', k, c, n, k[n], hi) && m'[n] == m[n].(left := o, aug := m[o].aug)
    ensures Fork(m', k, a, o, b, lo, k[n])
    ensures m'[o] == m[o].(right := Root(b), aug := Compute(f, Aug(a), o, Aug(b)))
  {
    var w := {o, n, Root(b)};
    Frame(m, m', w, k, a, o, lo, k[o]);
    Reparent(m, m', w, k, b, n, o, k[o], k[n]);
    Frame(m, m', w, k, c, n, k[n], hi);
  }

  /** __rb_rotate_set_parents (rbtree.c:74-82). */
  ghost predicate Raised<A>(m: Mem<A>, m': Mem<A>, root: RbNode?<A>, root': RbNode?<A>, o: RbNode<A>, n: RbNode<A>,
                            c: Color)
    requires o in m && n in m
  {
    var q := m[o].parent;
    && m'.Keys == m.Keys && Untouched(m, m', {o, n, q})
    && m'[n] == m[n].(parent := q, color := m[o].color)
    && m'[o] == m[o].(parent := n, color := c)
    && if q == null then root' == n else root' == root && q in m && m'[q] == Swap(m[q], o, n)
  }

  lemma RaiseRightTree<A>(m: Mem<A>, m': Mem<A>, k: Ranks<A>, root: RbNode?<A>, root': RbNode?<A>, up: Ctx<A>,
                          a: Tree<A>, n: RbNode<A>, b: Tree<A>, o: RbNode<A>, c: Tree<A>, d: Color)
    requires RepCtx(m, k, root, up, o) && o in m && m[o].parent == Parent(up)
    requires Within(k, o, Lo(k, up), Hi(k, up)) && Within(k, n, Lo(k, up), k[o])
    requires n in m && m[n].left == Root(a) && m[n].right == o && Rep(m, k, a, n, Lo(k, up), k[n])
    requires Fork(m, k, b, o, c, k[n], Hi(k, up))
    requires Raised(m, m', root, root', o, n, d)
    ensures Focus(m', k, root', up, Node(a, n, m[o].color, m[n].aug, Node(b, o, d, m[o].aug, c)))
  {
    var w := {o, n, Parent(up)};
    Frame(m, m', w, k, a, n, Lo(k, up), k[n]);
    Frame(m, m', w, k, b, o, k[n], k[o]);
    Frame(m, m', w, k, c, o, k[o], Hi(k, up));
    ReplaceHole(m, m', w, k, root, root', up, o, n);
  }

  lemma RaiseLeftTree<A>(m: Mem<A>, m': Mem<A>, k: Ranks<A>, root: RbNode?<A>, root': RbNode?<A>, up: Ctx<A>,
                         a: Tree<A>, o: RbNode<A>, b: Tree<A>, n: RbNode<A>, c: Tree<A>, d: Color)
    requires RepCtx(m, k, root, up, o) && o in m && m[o].parent == Parent(up)
    requires Within(k, o, Lo(k, up), Hi(k, up)) && Within(k, n, k[o], Hi(k, up))
    requires n in m && m[n].right == Root(c) && m[n].left == o && Rep(m, k, c, n, k[n], Hi(k, up))
    requires Fork(m, k, a, o, b, Lo(k, up), k[n])
    requires Raised(m, m', root, root', o, n, d)
    ensures Focus(m', k, root', up, Node(Node(a, o, d, m[o].aug, b), n, m[o].color, m[n].aug, c))
  {
    var w := {o, n, Parent(up)};
    Frame(m, m', w, k, a, o, Lo(k, up), k[o]);
    Frame(m, m', w, k, b, o, k[o], k[n]);
    Frame(m, m', w, k, c, n, k[n], Hi(k, up));
    ReplaceHole(m, m', w, k, root, root', up, o, n);
  }
}
