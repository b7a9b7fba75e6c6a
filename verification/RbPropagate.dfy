/** The propagate callback of RB_DECLARE_CALLBACKS (rbtree_augmented.h:61-74). */
module RbPropagate {
  import opened Basics
  import opened RbTree
  import opened RbMemory
  import opened RbRoots

  /** The context with every value from the hole up to `stop` computed afresh, when the
      subtree in the hole has value s. There is no early exit here. */
  ghost function Recomputed<A>(f: Computer<A>, x: Ctx<A>, stop: RbNode?<A>, s: Option<A>): Ctx<A> {
    if x.Top? || x.n == stop then x
    else
      var a := if x.InL? then Compute(f, s, x.n, Aug(x.right)) else Compute(f, Aug(x.left), x.n, s);
      if x.InL? then InL(Recomputed(f, x.up, stop, Some(a)), x.n, x.color, a, x.right)
      else InR(Recomputed(f, x.up, stop, Some(a)), x.left, x.n, x.color, a)
  }

  /** Up to `stop`, every stored value is the one its children give. */
  ghost predicate UpToDate<A>(f: Computer<A>, x: Ctx<A>, stop: RbNode?<A>, s: Option<A>) {
    !x.Top? && x.n != stop ==>
      && x.aug == (if x.InL? then Compute(f, s, x.n, Aug(x.right)) else Compute(f, Aug(x.left), x.n, s))
      && UpToDate(f, x.up, stop, Some(x.aug))
  }

  lemma {:induction false} RecomputedSame<A>(f: Computer<A>, x: Ctx<A>, stop: RbNode?<A>, s: Option<A>)
    requires UpToDate(f, x, stop, s)
    ensures Recomputed(f, x, stop, s) == x
  {
    if !x.Top? && x.n != stop {
      RecomputedSame(f, x.up, stop, Some(x.aug));
    }
  }

  function Fresh<A>(f: Computer<A>, t: Tree<A>): Tree<A>
    requires t.Node?
  {
    t.(aug := Compute(f, Aug(t.left), t.n, Aug(t.right)))
  }

  /** `stop` is null or one of the nodes above the hole. */
  ghost predicate Above<A>(x: Ctx<A>, stop: RbNode?<A>) {
    stop != null ==> !x.Top? && (x.n == stop || Above(x.up, stop))
  }

  ghost function Whole<A>(f: Computer<A>, x: Ctx<A>, stop: RbNode?<A>, t: Tree<A>): Tree<A>
    requires t.Node?
  {
    Plug(Recomputed(f, x, stop, Aug(Fresh(f, t))), Fresh(f, t))
  }

  lemma WholeStep<A>(f: Computer<A>, x: Ctx<A>, stop: RbNode?<A>, t: Tree<A>)
    requires t.Node? && UpToDate(f, x, stop, Some(t.aug))
    ensures t == Fresh(f, t) || x.Top? || x.n == stop ==> Whole(f, x, stop, t) == Plug(x, Fresh(f, t))
    ensures !x.Top? && x.n != stop ==>
      Whole(f, x, stop, t) == Whole(f, x.up, stop, Up(x, Fresh(f, t))) && UpToDate(f, x.up, stop, Some(Up(x, t).aug))
  {
    if t == Fresh(f, t) {
      RecomputedSame(f, x, stop, Aug(t));
    }
  }

  // ----- the loop, on a tree whose parent pointers may be halfway to a new shape

  /** Only stored values changed, and only in nodes of w. */
  ghost predicate Reaugmented<A>(m: Mem<A>, m': Mem<A>, w: set<RbNode<A>>) {
    && m'.Keys == m.Keys
    && forall n {:trigger m'[n]} :: n in m ==> m'[n] == m[n].(aug := m'[n].aug) && (n !in w ==> m'[n] == m[n])
  }

  /** The tree in v has its children and stored values where m has them. Parents and colours may differ. */
  ghost predicate Alias<A>(m: Mem<A>, v: Mem<A>) {
    forall n {:trigger v[n]} {:trigger n in v} :: n in v ==>
      n in m && (m[n].left, m[n].right, m[n].aug) == (v[n].left, v[n].right, v[n].aug)
  }

  /** From n the parent pointers in m lead up the path of x; from below `top` they lead to `stop`. */
  ghost predicate Trail<A>(m: Mem<A>, x: Ctx<A>, n: RbNode<A>, top: RbNode?<A>, stop: RbNode?<A>) {
    n in m && if x.Top? || x.n == top then m[n].parent == stop
              else m[n].parent == x.n && x.n != stop && Trail(m, x.up, x.n, top, stop)
  }

  lemma {:induction false} TrailKept<A>(m: Mem<A>, m': Mem<A>, w: set<RbNode<A>>, x: Ctx<A>, n: RbNode<A>,
                                        top: RbNode?<A>, stop: RbNode?<A>)
    requires Trail(m, x, n, top, stop) && Reaugmented(m, m', w)
    ensures Trail(m', x, n, top, stop)
  {
    if !x.Top? && x.n != top {
      TrailKept(m, m', w, x.up, x.n, top, stop);
    }
  }

  /** In a tree with all its parent pointers the way up is there. */
  lemma {:induction false} TrailOf<A>(m: Mem<A>, k: Ranks<A>, root: RbNode?<A>, x: Ctx<A>, t: Tree<A>, stop: RbNode?<A>)
    requires Focus(m, k, root, x, t) && t.Node? && Above(x, stop)
    ensures Trail(m, x, t.n, stop, stop)
    decreases x
  {
    NodeFocus(m, k, root, x, t);
    if !x.Top? && x.n != stop {
      Climb(m, k, root, x, t);
      TrailOf(m, k, root, x.up, Up(x, t), stop);
    }
  }

  lemma Restored<A>(f: Computer<A>, v: Mem<A>, v': Mem<A>, k: Ranks<A>, root: RbNode?<A>, x: Ctx<A>, t: Tree<A>)
    requires Focus(v, k, root, x, t) && t.Node? && t.n in v && v' == v[t.n := v[t.n].(aug := Fresh(f, t).aug)]
    ensures Focus(v', k, root, x, Fresh(f, t))
  {
    Frame(v, v', {t.n}, k, t.left, t.n, Lo(k, x), k[t.n]);
    Frame(v, v', {t.n}, k, t.right, t.n, k[t.n], Hi(k, x));
    FrameCtx(v, v', {t.n}, k, root, x, t.n);
  }

  /** The body of the loop (rbtree_augmented.h:67-72). */
  method Refresh<A(==)>(f: Computer<A>, rb: RbNode<A>, root: RbRoot<A>, ghost v: Mem<A>, ghost x: Ctx<A>,
                        ghost t: Tree<A>)
      returns (same: bool, parent: RbNode?<A>, ghost v': Mem<A>)
    requires Focus(v, root.ranks, root.node, x, t) && Alias(Snapshot(root.repr), v) && t.Node? && t.n == rb
    modifies root.repr
    ensures Focus(v', root.ranks, root.node, x, Fresh(f, t)) && Alias(Snapshot(root.repr), v')
    ensures Reaugmented(v, v', v.Keys) && Reaugmented(old(Snapshot(root.repr)), Snapshot(root.repr), v.Keys)
    ensures same == (t == Fresh(f, t)) && parent == old(rb.parent)
  {
    NodeFocus(v, root.ranks, root.node, x, t);
    var augmented := Compute(f, Stored(rb.left), rb, Stored(rb.right));
    same, parent, v' := rb.aug == augmented, rb.parent, v;
    if !same {
      rb.aug := augmented;
      v' := v[rb := v[rb].(aug := augmented)];
      Restored(f, v, v', root.ranks, root.node, x, t);
    }
  }

  /** The early break is sound: the result is that of recomputing all the way to `top`. */
  method PropagateTo<A(==)>(f: Computer<A>, n: RbNode<A>, stop: RbNode?<A>, root: RbRoot<A>, ghost top: RbNode?<A>,
                            ghost v0: Mem<A>, ghost x0: Ctx<A>, ghost t0: Tree<A>) returns (ghost v: Mem<A>)
    requires Focus(v0, root.ranks, root.node, x0, t0) && t0.Node? && t0.n == n && n != stop && Above(x0, top)
    requires Alias(Snapshot(root.repr), v0) && Trail(Snapshot(root.repr), x0, n, top, stop)
    requires UpToDate(f, x0, top, Some(t0.aug))
    modifies root.repr
    ensures Focus(v, root.ranks, root.node, Recomputed(f, x0, top, Aug(Fresh(f, t0))), Fresh(f, t0))
    ensures Alias(Snapshot(root.repr), v)
    ensures Reaugmented(v0, v, v0.Keys) && Reaugmented(old(Snapshot(root.repr)), Snapshot(root.repr), v0.Keys)
  {
    var rb: RbNode?<A> := n;
    ghost var x, t := x0, t0;
    v := v0;
    while rb != stop
      invariant Focus(v, root.ranks, root.node, x, t) && t.Node? && Alias(Snapshot(root.repr), v)
      invariant Reaugmented(v0, v, v0.Keys) && Reaugmented(old(Snapshot(root.repr)), Snapshot(root.repr), v0.Keys)
      invariant if rb == stop then Whole(f, x0, top, t0) == Plug(x, t)
                else rb == t.n && Above(x, top) && UpToDate(f, x, top, Some(t.aug))
                     && Whole(f, x0, top, t0) == Whole(f, x, top, t)
      invariant rb != stop ==> Trail(Snapshot(root.repr), x, t.n, top, stop)
      decreases rb != stop, x
    {
      WholeStep(f, x, top, t);
      ghost var m := Snapshot(root.repr);
      var same, parent;
      same, parent, v := Refresh(f, rb, root, v, x, t);
      TrailKept(m, Snapshot(root.repr), v0.Keys, x, t.n, top, stop);
      t := Fresh(f, t);
      if same {
        break;
      }
      rb := parent;
      if rb != stop {
        Climb(v, root.ranks, root.node, x, t);
        x, t := x.up, Up(x, t);
      }
    }
    Refocus(v, root.ranks, root.node, x, t);
    Refocus(v, root.ranks, root.node, Recomputed(f, x0, top, Aug(Fresh(f, t0))), Fresh(f, t0));
  }

  /** On a tree that is linked throughout. */
  method Propagate<A(==)>(f: Computer<A>, n: RbNode<A>, stop: RbNode?<A>, root: RbRoot<A>, ghost x: Ctx<A>,
                          ghost t: Tree<A>)
    requires root.At(x, t) && t.Node? && t.n == n && n != stop && Above(x, stop)
    requires UpToDate(f, x, stop, Some(t.aug))
    modifies root.repr
    ensures root.At(Recomputed(f, x, stop, Aug(Fresh(f, t))), Fresh(f, t))
  {
    ghost var m := Snapshot(root.repr);
    TrailOf(m, root.ranks, root.node, x, t, stop);
    ghost var v := PropagateTo(f, n, stop, root, stop, m, x, t);
    assert v == Snapshot(root.repr);
  }

  // ----- what recomputing keeps and what it makes true

  lemma {:induction false} RecomputedShape<A>(f: Computer<A>, x: Ctx<A>, stop: RbNode?<A>, s: Option<A>, h: nat)
    ensures var x' := Recomputed(f, x, stop, s);
      && x'.Top? == x.Top? && (!x.Top? ==> x'.n == x.n) && RedParent(x') == RedParent(x)
      && Before(x') == Before(x) && After(x') == After(x) && Fits(x', h) == Fits(x, h)
  {
    if !x.Top? && x.n != stop {
      var a := if x.InL? then Compute(f, s, x.n, Aug(x.right)) else Compute(f, Aug(x.left), x.n, s);
      RecomputedShape(f, x.up, stop, Some(a), h + Count(x.color));
    }
  }

  /** Every subtree off the path is up to date. */
  ghost predicate SidesAugmented<A>(f: Computer<A>, x: Ctx<A>) {
    !x.Top? ==> Augmented(f, if x.InL? then x.right else x.left) && SidesAugmented(f, x.up)
  }

  lemma {:induction false} RecomputedFits<A>(f: Computer<A>, x: Ctx<A>, s: Option<A>)
    requires SidesAugmented(f, x)
    ensures AugFits(f, Recomputed(f, x, null, s), s)
  {
    if !x.Top? {
      var a := if x.InL? then Compute(f, s, x.n, Aug(x.right)) else Compute(f, Aug(x.left), x.n, s);
      RecomputedFits(f, x.up, Some(a));
    }
  }

  lemma {:induction false} AugFitsParts<A>(f: Computer<A>, x: Ctx<A>, s: Option<A>)
    ensures AugFits(f, x, s) <==> SidesAugmented(f, x) && UpToDate(f, x, null, s)
  {
    if !x.Top? {
      AugFitsParts(f, x.up, Some(x.aug));
    }
  }
}
