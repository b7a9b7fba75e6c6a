/** __rb_erase_augmented and rb_erase (rbtree_augmented.h:134-236, rbtree.c:410-416). */
module RbErase {
  import opened Basics
  import opened RbTree
  import opened RbMemory
  import opened RbRoots
  import opened RbSplice
  import opened RbPropagate
  import opened RbRelocate
  import opened RbEraseColor
  import RbInsert

  // ----- the tree after the node is out

  /** The tree, but for the black node that is missing above u when `short`. */
  ghost predicate Erased<A>(f: Computer<A>, z: Ctx<A>, u: Tree<A>, short: bool, order: seq<RbNode<A>>) {
    && Inorder(Plug(z, u)) == order && Augmented(f, u) && AugFits(f, z, Aug(u))
    && if short then u.Leaf? && Short(f, z, u) else RedBlack(Plug(z, u))
  }

  lemma OnlyChildColors<A>(s: Tree<A>, u0: Tree<A>)
    requires Colored(s) && s.Node?
    requires (s.left.Leaf? && u0 == s.right) || (s.right.Leaf? && u0 == s.left)
    ensures u0.Node? ==> s.color.Black? && IsRed(u0)
    ensures var u := Painted(u0, Black);
      && Colored(u) && !IsRed(u) && BlackHeight(s) == (if u0.Leaf? then Count(s.color) else BlackHeight(u))
  {
  }

  /** A node s with no more than one child, u0, is taken out of the place z. */
  lemma TakenOut<A>(f: Computer<A>, z: Ctx<A>, s: Tree<A>, u0: Tree<A>)
    requires Colored(s) && Fits(z, BlackHeight(s)) && s.Node?
    requires (s.left.Leaf? && u0 == s.right) || (s.right.Leaf? && u0 == s.left)
    requires Augmented(f, u0) && SidesAugmented(f, z)
    ensures var u := Painted(u0, Black);
      Erased(f, Recomputed(f, z, null, Aug(u)), u, u0.Leaf? && s.color.Black? && !z.Top?,
             Before(z) + Inorder(u0) + After(z))
  {
    var u := Painted(u0, Black);
    var z' := Recomputed(f, z, null, Aug(u));
    OnlyChildColors(s, u0);
    if u0.Node? {
      RecolorKeeps(f, u0, Black);
    }
    RecomputedShape(f, z, null, Aug(u), BlackHeight(s));
    RecomputedFits(f, z, Aug(u));
    PlugRedBlack(z', u);
    InorderPlug(z', u);
  }

  /** The place of the leftmost node of t keeps its colours when a node above it is renamed. */
  lemma {:induction false} MinCtxShape<A>(f: Computer<A>, b: Ctx<A>, b': Ctx<A>, t: Tree<A>)
    requires t.Node? && Augmented(f, t) && b.Top? == b'.Top? && RedParent(b) == RedParent(b')
    requires forall h :: Fits(b, h) == Fits(b', h)
    ensures var z, z' := MinCtx(b, t), MinCtx(b', t);
      && (forall h :: Fits(z, h) == Fits(z', h)) && z.Top? == z'.Top? && RedParent(z) == RedParent(z')
      && Before(z) == Before(b) && Inorder(MinTree(t)) + After(z) == Inorder(t) + After(b)
      && Augmented(f, MinTree(t)) && (SidesAugmented(f, b) ==> SidesAugmented(f, z))
    decreases t
  {
    if t.left.Node? {
      var c, c' := InL(b, t.n, t.color, t.aug, t.right), InL(b', t.n, t.color, t.aug, t.right);
      MinCtxShape(f, c, c', t.left);
      assert Inorder(t.left) + After(c) == Inorder(t) + After(b);
    }
  }

  /** Cases 2 and 3 on the tree: t's top is out, and its successor s is in its place. */
  lemma SuccessorTakesOver<A>(f: Computer<A>, x: Ctx<A>, t: Tree<A>)
    requires RedBlack(Plug(x, t)) && Augmented(f, Plug(x, t)) && t.Node? && t.right.Node?
    ensures var s := MinTree(t.right); var z, u := Hole(x, t, s.n), Painted(s.right, Black);
      Erased(f, Recomputed(f, z, null, Aug(u)), u, u.Leaf? && s.color.Black? && !z.Top?,
             Before(x) + (Inorder(t.left) + Inorder(t.right)) + After(x))
  {
    var s := MinTree(t.right);
    var b, b' := InR(x, t.left, s.n, t.color, t.aug), InR(x, t.left, t.n, t.color, t.aug);
    PlugAugmented(f, x, t);
    AugFitsParts(f, x, Some(t.aug));
    MinCtxShape(f, b, b', t.right);
    assert Fits(Hole(x, t, s.n), BlackHeight(s)) && Colored(s) by {
      PlugMin(b', t.right, s);
      PlugRedBlack(MinCtx(b', t.right), s);
    }
    TakenOut(f, Hole(x, t, s.n), s, s.right);
    SuccessorOrder(Before(x), Inorder(t.left), s.n, Inorder(s.right), After(Hole(x, t, s.n)),
                   Inorder(t.right), After(x));
  }

  lemma SuccessorOrder<T>(a: seq<T>, b: seq<T>, n: T, c: seq<T>, d: seq<T>, e: seq<T>, g: seq<T>)
    requires ([] + [n] + c) + d == e + g
    ensures (a + b + [n]) + c + d == a + (b + e) + g
  {
    assert (a + b + [n]) + c + d == a + b + (([] + [n] + c) + d);
  }

  // ----- __rb_erase_augmented

  /** Case 1 (rbtree_augmented.h:143-166, 234). */
  method EraseOneChild<A(==)>(f: Computer<A>, node: RbNode<A>, root: RbRoot<A>, ghost x: Ctx<A>, ghost t: Tree<A>)
      returns (rebalance: RbNode?<A>, ghost u: Tree<A>)
    requires root.At(x, t) && t.Node? && t.n == node && Colored(t) && UpToDate(f, x, null, Some(t.aug))
    requires t.left.Leaf? || t.right.Leaf?
    modifies root`node, root`repr, root.repr
    ensures u == Painted(if t.left.Leaf? then t.right else t.left, Black)
    ensures root.At(Recomputed(f, x, null, Aug(u)), u) && root.repr == old(root.repr) - {node}
    ensures rebalance == if u.Leaf? && t.color.Black? then Parent(x) else null
  {
    NodeFocus(Snapshot(root.repr), root.ranks, root.node, x, t);
    ghost var u0 := if t.left.Leaf? then t.right else t.left;
    OnlyChildColors(t, u0);
    u := Painted(u0, Black);
    var child, tmp, parent, black := node.right, node.left, node.parent, node.color.Black?;
    if tmp == null {
      TakeOut(node, child, root, x, t);
      rebalance := if child == null && black then parent else null;
    } else {
      TakeOut(node, tmp, root, x, t);
      rebalance := null;
    }
    assert Painted(u0, t.color) == u;
    if parent != null {
      Climb(Snapshot(root.repr), root.ranks, root.node, x, u);
      Propagate(f, parent, null, root, x.up, Up(x, u));
      Settled(f, Snapshot(root.repr), root.ranks, root.node, x, u, null);
    }
  }

  /** Case 3 (rbtree_augmented.h:186-230). */
  method EraseFar<A(==)>(f: Computer<A>, node: RbNode<A>, child: RbNode<A>, root: RbRoot<A>, ghost x: Ctx<A>,
                         ghost t: Tree<A>) returns (rebalance: RbNode?<A>, successor: RbNode<A>)
    requires root.At(x, t) && t.Node? && t.n == node && Augmented(f, t) && t.left.Node?
    requires t.right.Node? && t.right.n == child && t.right.left.Node?
    modifies root`node, root`repr, root`ranks, root.repr
    ensures var s := MinTree(t.right); var u := Painted(s.right, Black);
      && successor == s.n && root.At(x, Node(t.left, s.n, t.color, t.aug, FreshMin(f, t.right, u)))
      && rebalance == if u.Leaf? && s.color.Black? then Parent(Hole(x, t, s.n)) else null
    ensures root.repr == old(root.repr) - {node}
  {
    ghost var s, r, b := MinTree(t.right), t.right, InR(x, t.left, t.n, t.color, t.aug);
    Climb(Snapshot(root.repr), root.ranks, root.node, b, r);
    var parent;
    parent, successor := FindSuccessor(child, root, b, r);
    NodeFocus(Snapshot(root.repr), root.ranks, root.node, MinCtx(b, r), s);
    rebalance := if successor.right == null && successor.color.Black? then parent else null;
    HoleParent(x, t, s.n);
    Relocate(f, node, child, parent, successor, root, x, t);
  }

  /** Cases 2 and 3 (rbtree_augmented.h:167-234). */
  method EraseTwoChildren<A(==)>(f: Computer<A>, node: RbNode<A>, root: RbRoot<A>, ghost x: Ctx<A>, ghost t: Tree<A>)
      returns (rebalance: RbNode?<A>)
    requires root.At(x, t) && t.Node? && t.n == node && Augmented(f, t) && UpToDate(f, x, null, Some(t.aug))
    requires t.left.Node? && t.right.Node?
    modifies root`node, root`repr, root`ranks, root.repr
    ensures var s := MinTree(t.right); var z, u := Hole(x, t, s.n), Painted(s.right, Black);
      && root.At(Recomputed(f, z, null, Aug(u)), u)
      && rebalance == if u.Leaf? && s.color.Black? then Parent(z) else null
    ensures root.repr == old(root.repr) - {node}
  {
    ghost var s, r := MinTree(t.right), t.right;
    ghost var u := Painted(s.right, Black);
    ghost var b := InR(x, t.left, t.n, t.color, t.aug);
    NodeFocus(Snapshot(root.repr), root.ranks, root.node, x, t);
    Climb(Snapshot(root.repr), root.ranks, root.node, b, r);
    NodeFocus(Snapshot(root.repr), root.ranks, root.node, b, r);
    var child := node.right;
    var successor := child;
    var tmp := child.left;
    if tmp == null {
      rebalance := if successor.right == null && successor.color.Black? then successor else null;
      Promote(node, successor, root, x, t);
    } else {
      rebalance, successor := EraseFar(f, node, child, root, x, t);
    }
    PropagateTop(f, successor, root, x, t, u);
  }

  /** propagate(successor, NULL) (rbtree_augmented.h:231-234). */
  method PropagateTop<A(==)>(f: Computer<A>, successor: RbNode<A>, root: RbRoot<A>, ghost x: Ctx<A>, ghost t: Tree<A>,
                             ghost u: Tree<A>)
    requires t.Node? && t.right.Node? && UpToDate(f, x, null, Some(t.aug))
    requires root.At(x, Node(t.left, successor, t.color, t.aug, FreshMin(f, t.right, u)))
    modifies root.repr
    ensures root.At(Recomputed(f, Hole(x, t, successor), null, Aug(u)), u)
  {
    ghost var t', b := FreshMin(f, t.right, u), InR(x, t.left, successor, t.color, t.aug);
    Propagate(f, successor, null, root, x, Up(b, t'));
    Settled(f, Snapshot(root.repr), root.ranks, root.node, b, t', null);
    OffSpineNull(t.right);
    RecomputeMin(f, b, t.right, null, u);
    Refocus(Snapshot(root.repr), root.ranks, root.node, Recomputed(f, b, null, Aug(t')), t');
    Refocus(Snapshot(root.repr), root.ranks, root.node, Recomputed(f, Hole(x, t, successor), null, Aug(u)), u);
  }

  /** __rb_erase_augmented (rbtree_augmented.h:134-236): rebalance is null unless a black node is missing. */
  method EraseAugmented<A(==)>(f: Computer<A>, node: RbNode<A>, root: RbRoot<A>, ghost x: Ctx<A>, ghost t: Tree<A>)
      returns (rebalance: RbNode?<A>, ghost z: Ctx<A>, ghost u: Tree<A>)
    requires root.At(x, t) && t.Node? && t.n == node && RedBlack(Plug(x, t)) && Augmented(f, Plug(x, t))
    modifies root`node, root`repr, root`ranks, root.repr
    ensures root.At(z, u) && root.repr == old(root.repr) - {node}
    ensures Erased(f, z, u, rebalance != null, Before(x) + (Inorder(t.left) + Inorder(t.right)) + After(x))
    ensures rebalance != null ==> rebalance == Parent(z)
  {
    PlugAugmented(f, x, t);
    AugFitsParts(f, x, Some(t.aug));
    PlugRedBlack(x, t);
    NodeFocus(Snapshot(root.repr), root.ranks, root.node, x, t);
    if node.left == null || node.right == null {
      ghost var u0 := if t.left.Leaf? then t.right else t.left;
      TakenOut(f, x, t, u0);
      assert Inorder(u0) == Inorder(t.left) + Inorder(t.right);
      rebalance, u := EraseOneChild(f, node, root, x, t);
      z := Recomputed(f, x, null, Aug(u));
      RecomputedShape(f, x, null, Aug(u), 0);
    } else {
      SuccessorTakesOver(f, x, t);
      ghost var s := MinTree(t.right);
      u := Painted(s.right, Black);
      z := Recomputed(f, Hole(x, t, s.n), null, Aug(u));
      RecomputedShape(f, Hole(x, t, s.n), null, Aug(u), 0);
      rebalance := EraseTwoChildren(f, node, root, x, t);
    }
  }

  // ----- rb_erase_augmented

  ghost predicate RemovedAt<T>(s: seq<T>, s': seq<T>, i: nat, n: T) {
    i < |s| && s[i] == n && s' == s[..i] + s[i + 1..]
  }

  lemma RemoveMiddle<T>(a: seq<T>, b: seq<T>, n: T, c: seq<T>, d: seq<T>)
    ensures RemovedAt(a + (b + [n] + c) + d, a + (b + c) + d, |a| + |b|, n)
  {
    var p, q := a + b, c + d;
    assert a + (b + [n] + c) + d == p + [n] + q;
    assert a + (b + c) + d == p + q;
    assert (p + [n] + q)[..|p|] == p && (p + [n] + q)[|p| + 1..] == q;
  }

  lemma RemovedOrder<A>(x: Ctx<A>, t: Tree<A>) returns (i: nat)
    requires t.Node?
    ensures RemovedAt(Inorder(Plug(x, t)), Before(x) + (Inorder(t.left) + Inorder(t.right)) + After(x), i, t.n)
  {
    InorderPlug(x, t);
    RemoveMiddle(Before(x), Inorder(t.left), t.n, Inorder(t.right), After(x));
    i := |Before(x)| + |Inorder(t.left)|;
  }

  /** rbtree_augmented.h:238-245; with the dummy callbacks, rb_erase (rbtree.c:410-416). */
  method Erase<A(==, !new)>(f: Computer<A>, node: RbNode<A>, root: RbRoot<A>) returns (ghost i: nat)
    requires root.Valid() && Augmented(f, root.tree) && OrderOnly(f, root.repr) && node in Inorder(root.tree)
    modifies root, root.repr
    ensures root.Valid() && Augmented(f, root.tree) && root.repr == old(root.repr) - {node}
    ensures RemovedAt(old(Inorder(root.tree)), Inorder(root.tree), i, node)
  {
    ghost var x, t := PathTo(Top, root.tree, node), SubtreeAt(root.tree, node);
    PathFinds(Top, root.tree, node);
    Refocus(Snapshot(root.repr), root.ranks, root.node, x, t);
    i := RemovedOrder(x, t);
    var rebalance;
    ghost var z, u;
    rebalance, z, u := EraseAugmented(f, node, root, x, t);
    if rebalance != null {
      EraseColor(f, rebalance, root, z, u);
    } else {
      PlugAugmented(f, z, u);
      Finish(root, z, u);
    }
  }

  /** rb_erase (rbtree.c:410-416). */
  method EraseNode(node: RbNode<()>, root: RbRoot<()>) returns (ghost i: nat)
    requires root.Valid() && node in Inorder(root.tree)
    modifies root, root.repr
    ensures root.Valid() && root.repr == old(root.repr) - {node}
    ensures RemovedAt(old(Inorder(root.tree)), Inorder(root.tree), i, node)
  {
    RbInsert.DummyAugmented(root.tree);
    RbInsert.DummyOrderOnly(root.repr);
    i := Erase(RbInsert.Dummy, node, root);
  }
}
