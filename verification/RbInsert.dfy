/** __rb_insert (rbtree.c:84-209) and rb_link_node (rbtree.h:90-97). */
module RbInsert {
  import opened Basics
  import opened RbTree
  import opened RbMemory
  import opened RbRoots
  import opened RbRotate
  import opened RbSplice

  /** Case 1 (rbtree.c:108-128, 174-182): both children of g are red. */
  method ColorFlip<A>(parent: RbNode<A>, tmp: RbNode<A>, gparent: RbNode<A>, root: RbRoot<A>, ghost up: Ctx<A>,
                      ghost g: Tree<A>)
    requires root.At(up, g) && g.Node? && g.n == gparent
    requires g.left.Node? && g.right.Node? && {g.left.n, g.right.n} == {parent, tmp}
    modifies root.repr
    ensures root.At(up, Flipped(g))
  {
    ghost var left := g.left.n == parent;
    ghost var xp := if left then InL(up, g.n, g.color, g.aug, g.right) else InR(up, g.left, g.n, g.color, g.aug);
    ghost var p, u := if left then g.left else g.right, if left then g.right else g.left;
    ghost var p' := p.(color := Black);
    ghost var xt := if left then InR(up, p', g.n, g.color, g.aug) else InL(up, g.n, g.color, g.aug, p');
    Climb(Snapshot(root.repr), root.ranks, root.node, xp, p);
    Recolor(parent, Black, root, xp, p);
    Climb(Snapshot(root.repr), root.ranks, root.node, xp, p');
    Climb(Snapshot(root.repr), root.ranks, root.node, xt, u);
    Recolor(tmp, Black, root, xt, u);
    Climb(Snapshot(root.repr), root.ranks, root.node, xt, u.(color := Black));
    Recolor(gparent, Red, root, up, Up(xt, u.(color := Black)));
  }

  /** Case 2 (rbtree.c:130-154): node, the right child of parent, takes its place. */
  method Case2Left<A>(f: Computer<A>, node: RbNode<A>, parent: RbNode<A>, root: RbRoot<A>, ghost up: Ctx<A>,
                      ghost a: Tree<A>, ghost b: Tree<A>, ghost c: Tree<A>, ghost g: RbNode<A>, ghost u: Tree<A>)
    requires BentRight(Snapshot(root.repr), root.ranks, root.node, up, a, parent, b, node, c, g, u)
    requires !IsRed(b)
    modifies root.repr
    ensures OpenRight(Snapshot(root.repr), root.ranks, root.node, up,
                      Node(a, parent, Red, Compute(f, Aug(a), parent, Aug(b)), b), node, c, g, u)
    ensures Snapshot(root.repr)[g] == old(Snapshot(root.repr))[g]
  {
    ghost var m, k := Snapshot(root.repr), root.ranks;
    TurnLeftReady(m, k, Lo(k, up), k[g], a, parent, b, node, c);
    TurnLeft(f, parent, node, true, root);
    ghost var m1 := Snapshot(root.repr);
    StraightenRight(f, m, m1, k, root.node, up, a, parent, b, node, c, g, u);
    PaintBelow(parent, node, Red, root);
    HangRight(m1, Snapshot(root.repr), k, root.node, up, Red, a, parent, b, node, c, g, u);
  }

  method Case2Right<A>(f: Computer<A>, node: RbNode<A>, parent: RbNode<A>, root: RbRoot<A>, ghost up: Ctx<A>,
                       ghost u: Tree<A>, ghost g: RbNode<A>, ghost c: Tree<A>, ghost b: Tree<A>, ghost a: Tree<A>)
    requires BentLeft(Snapshot(root.repr), root.ranks, root.node, up, u, g, c, node, b, parent, a)
    requires !IsRed(b)
    modifies root.repr
    ensures OpenLeft(Snapshot(root.repr), root.ranks, root.node, up, u, g, c, node,
                     Node(b, parent, Red, Compute(f, Aug(b), parent, Aug(a)), a))
    ensures Snapshot(root.repr)[g] == old(Snapshot(root.repr))[g]
  {
    ghost var m, k := Snapshot(root.repr), root.ranks;
    TurnRightReady(m, k, k[g], Hi(k, up), c, node, b, parent, a);
    TurnRight(f, parent, node, true, root);
    ghost var m1 := Snapshot(root.repr);
    StraightenLeft(f, m, m1, k, root.node, up, u, g, c, node, b, parent, a);
    PaintBelow(parent, node, Red, root);
    HangLeft(m1, Snapshot(root.repr), k, root.node, up, Red, u, g, c, node, b, parent, a);
  }

  // ----- the rotation cases, whole

  /** A black node t with a red child whose own red child is the only thing wrong. */
  ghost predicate RedRed<A>(f: Computer<A>, t: Tree<A>, p: Tree<A>, u: Tree<A>) {
    && t.Node? && t.color.Black? && IsRed(p) && !IsRed(u) && Colored(u)
    && Colored(p.left) && Colored(p.right) && IsRed(p.left) != IsRed(p.right)
    && BlackHeight(p.left) == BlackHeight(p.right) == BlackHeight(u)
    && Augmented(f, t)
  }

  ghost predicate Fixed<A>(f: Computer<A>, t: Tree<A>, t': Tree<A>) {
    && Colored(t') && !IsRed(t') && BlackHeight(t') == BlackHeight(t)
    && Augmented(f, t') && Aug(t') == Aug(t) && Inorder(t') == Inorder(t)
  }

  ghost function LeftFix<A>(f: Computer<A>, t: Tree<A>): Tree<A>
    requires t.Node? && RedRed(f, t, t.left, t.right)
  {
    if IsRed(t.left.left) then RotR(f, t, Red) else RotR(f, t.(left := RotL(f, t.left, Red)), Red)
  }

  ghost function RightFix<A>(f: Computer<A>, t: Tree<A>): Tree<A>
    requires t.Node? && RedRed(f, t, t.right, t.left)
  {
    if IsRed(t.right.right) then RotL(f, t, Red) else RotL(f, t.(right := RotR(f, t.right, Red)), Red)
  }

  lemma LeftFixed<A(!new)>(f: Computer<A>, s: set<RbNode<A>>, t: Tree<A>)
    requires t.Node? && RedRed(f, t, t.left, t.right) && OrderOnly(f, s)
    requires t.n in s && t.left.n in s && (t.left.right.Node? ==> t.left.right.n in s)
    ensures Fixed(f, t, LeftFix(f, t))
  {
    if IsRed(t.left.left) {
      RotRInorder(f, t, Red);
      RotRAugmented(f, s, t, Red);
    } else {
      var t1 := t.(left := RotL(f, t.left, Red));
      RotLInorder(f, t.left, Red);
      RotLAugmented(f, s, t.left, Red);
      RotRInorder(f, t1, Red);
      RotRAugmented(f, s, t1, Red);
    }
  }

  lemma RightFixed<A(!new)>(f: Computer<A>, s: set<RbNode<A>>, t: Tree<A>)
    requires t.Node? && RedRed(f, t, t.right, t.left) && OrderOnly(f, s)
    requires t.n in s && t.right.n in s && (t.right.left.Node? ==> t.right.left.n in s)
    ensures Fixed(f, t, RightFix(f, t))
  {
    if IsRed(t.right.right) {
      RotLInorder(f, t, Red);
      RotLAugmented(f, s, t, Red);
    } else {
      var t1 := t.(right := RotR(f, t.right, Red));
      RotRInorder(f, t.right, Red);
      RotRAugmented(f, s, t.right, Red);
      RotLInorder(f, t1, Red);
      RotLAugmented(f, s, t1, Red);
    }
  }

  /** Cases 2 and 3 when parent is gparent's left child (rbtree.c:130-171). */
  method FixLeft<A(!new)>(f: Computer<A>, node: RbNode<A>, parent: RbNode<A>, gparent: RbNode<A>, root: RbRoot<A>,
                          ghost up: Ctx<A>, ghost t: Tree<A>)
    requires root.At(up, t) && t.Node? && t.n == gparent && RedRed(f, t, t.left, t.right) && t.left.n == parent
    requires node == Root(if IsRed(t.left.left) then t.left.left else t.left.right)
    modifies root`node, root.repr
    ensures root.At(up, LeftFix(f, t))
  {
    ghost var m, k, p, u := Snapshot(root.repr), root.ranks, t.left, t.right;
    FocusOpenRight(m, k, root.node, up, t);
    var tmp := parent.right;
    if node == tmp {
      ghost var b := p.right;
      OpenBentRight(m, k, root.node, up, p.left, parent, b, gparent, u);
      Case2Left(f, node, parent, root, up, p.left, b.left, b.right, gparent, u);
      RotateRight(f, gparent, node, true, root, Red, up,
                  Node(p.left, parent, Red, Compute(f, Aug(p.left), parent, Aug(b.left)), b.left), b.right, u);
    } else {
      RotateRight(f, gparent, parent, true, root, Red, up, p.left, p.right, u);
    }
  }

  /** Cases 2 and 3 when parent is gparent's right child (rbtree.c:184-206). */
  method FixRight<A(!new)>(f: Computer<A>, node: RbNode<A>, parent: RbNode<A>, gparent: RbNode<A>, root: RbRoot<A>,
                           ghost up: Ctx<A>, ghost t: Tree<A>)
    requires root.At(up, t) && t.Node? && t.n == gparent && RedRed(f, t, t.right, t.left) && t.right.n == parent
    requires node == Root(if IsRed(t.right.right) then t.right.right else t.right.left)
    modifies root`node, root.repr
    ensures root.At(up, RightFix(f, t))
  {
    ghost var m, k, p, u := Snapshot(root.repr), root.ranks, t.right, t.left;
    FocusOpenLeft(m, k, root.node, up, t);
    var tmp := parent.left;
    if node == tmp {
      ghost var b := p.left;
      OpenBentLeft(m, k, root.node, up, u, gparent, b, parent, p.right);
      Case2Right(f, node, parent, root, up, u, gparent, b.left, b.right, p.right);
      RotateLeft(f, gparent, node, true, root, Red, up, u, b.left,
                 Node(b.right, parent, Red, Compute(f, Aug(b.right), parent, Aug(p.right)), p.right));
    } else {
      RotateLeft(f, gparent, parent, true, root, Red, up, u, p.left, p.right);
    }
  }

  // ----- the loop

  /** Apart from a red node under a red parent, or a red root, nothing is wrong. */
  ghost predicate Sound<A>(f: Computer<A>, x: Ctx<A>, t: Tree<A>) {
    Colored(t) && Fits(x, BlackHeight(t)) && Augmented(f, t) && AugFits(f, x, Aug(t))
  }

  ghost function Grand<A>(x: Ctx<A>, t: Tree<A>): Tree<A>
    requires !x.Top? && !x.up.Top?
  {
    Up(x.up, Up(x, t))
  }

  lemma RedParentHasGrand<A>(f: Computer<A>, x: Ctx<A>, t: Tree<A>)
    requires Sound(f, x, t) && IsRed(t) && RedParent(x)
    ensures !x.up.Top? && x.up.color.Black? && Fits(x.up.up, BlackHeight(Grand(x, t)))
    ensures Augmented(f, Grand(x, t)) && AugFits(f, x.up.up, Aug(Grand(x, t)))
    ensures x.up.InL? && !IsRed(x.up.right) ==> RedRed(f, Grand(x, t), Grand(x, t).left, x.up.right)
    ensures x.up.InR? && !IsRed(x.up.left) ==> RedRed(f, Grand(x, t), Grand(x, t).right, x.up.left)
  {
    var h := BlackHeight(t);
    assert Fits(x.up, h) && BlackHeight(Up(x, t)) == h;
    assert Fits(x.up.up, h + 1) && BlackHeight(Grand(x, t)) == h + 1;
    assert AugFits(f, x.up, Some(x.aug));
  }

  ghost function Flipped<A>(g: Tree<A>): Tree<A>
    requires g.Node? && g.left.Node? && g.right.Node?
  {
    Node(g.left.(color := Black), g.n, Red, g.aug, g.right.(color := Black))
  }

  lemma FlippedColored<A>(g: Tree<A>)
    requires g.Node? && g.color.Black? && IsRed(g.left) && IsRed(g.right)
    requires Colored(g.left.left) && Colored(g.left.right) && Colored(g.right.left) && Colored(g.right.right)
    requires BlackHeight(g.left.left) == BlackHeight(g.left.right)
          == BlackHeight(g.right.left) == BlackHeight(g.right.right)
    ensures Colored(Flipped(g)) && BlackHeight(Flipped(g)) == BlackHeight(g) && Inorder(Flipped(g)) == Inorder(g)
  {
    assert Colored(g.left.(color := Black)) && Colored(g.right.(color := Black));
  }

  /** Case 1 moves the problem two levels up. */
  lemma FlipSound<A>(f: Computer<A>, x: Ctx<A>, t: Tree<A>)
    requires Sound(f, x, t) && IsRed(t) && RedParent(x) && !x.up.Top?
    requires IsRed(if x.up.InL? then x.up.right else x.up.left)
    ensures Sound(f, x.up.up, Flipped(Grand(x, t)))
    ensures Inorder(Plug(x.up.up, Flipped(Grand(x, t)))) == Inorder(Plug(x, t))
  {
    RedParentHasGrand(f, x, t);
    var g := Grand(x, t);
    assert Fits(x.up, BlackHeight(t));
    assert Augmented(f, g.left) && Augmented(f, g.right);
    FlippedColored(g);
    InorderPlug(x.up.up, g);
    InorderPlug(x.up.up, Flipped(g));
  }

  lemma FixedSound<A>(f: Computer<A>, x: Ctx<A>, t: Tree<A>, t': Tree<A>)
    requires Sound(f, x, t) && IsRed(t) && RedParent(x) && !x.up.Top?
    requires Fixed(f, Grand(x, t), t')
    ensures Augmented(f, Plug(x.up.up, t')) && RedBlack(Plug(x.up.up, t'))
    ensures Inorder(Plug(x.up.up, t')) == Inorder(Plug(x, t))
  {
    RedParentHasGrand(f, x, t);
    PlugRedBlack(x.up.up, t');
    PlugAugmented(f, x.up.up, t');
    InorderPlug(x.up.up, Grand(x, t));
    InorderPlug(x.up.up, t');
  }

  /** The pointers that the loop follows. */
  lemma GrandFocus<A>(m: Mem<A>, k: Ranks<A>, root: RbNode?<A>, x: Ctx<A>, t: Tree<A>)
    requires Focus(m, k, root, x, t) && t.Node? && !x.Top? && !x.up.Top?
    ensures var p, g := x.n, x.up.n; var tree := Grand(x, t);
      && Focus(m, k, root, x.up.up, tree)
      && p in m && g in m && t.n in m && m[p].parent == g && p != Root(if x.up.InL? then tree.right else tree.left)
      && Root(tree.left) == m[g].left && Root(tree.right) == m[g].right && m[g].parent == Parent(x.up.up)
      && (tree.left.Node? ==> tree.left.n in m && m[tree.left.n].color == tree.left.color)
      && (tree.right.Node? ==> tree.right.n in m && m[tree.right.n].color == tree.right.color)
  {
    assert RepCtx(m, k, root, x.up, x.n);
  }

  /** One turn of the loop under a red parent (rbtree.c:104-207). It is done unless it was a colour flip. */
  method Step<A(!new)>(f: Computer<A>, node: RbNode<A>, parent: RbNode<A>, root: RbRoot<A>, ghost x: Ctx<A>,
                       ghost t: Tree<A>)
      returns (done: bool, next: RbNode<A>, ghost t': Tree<A>)
    requires root.At(x, t) && Sound(f, x, t) && IsRed(t) && RedParent(x) && node == t.n && parent == x.n
    requires OrderOnly(f, root.repr)
    modifies root`node, root.repr
    ensures !x.up.Top? && root.At(x.up.up, t') && Inorder(Plug(x.up.up, t')) == Inorder(Plug(x, t))
    ensures done ==> RedBlack(Plug(x.up.up, t')) && Augmented(f, Plug(x.up.up, t'))
    ensures !done ==> Sound(f, x.up.up, t') && IsRed(t') && next == t'.n
  {
    RedParentHasGrand(f, x, t);
    GrandFocus(Snapshot(root.repr), root.ranks, root.node, x, t);
    var gparent := parent.parent;
    var tmp := gparent.right;
    ghost var up, g := x.up.up, Grand(x, t);
    done, next := true, node;
    if parent != tmp {
      if tmp != null && tmp.color.Red? {
        FlipSound(f, x, t);
        ColorFlip(parent, tmp, gparent, root, up, g);
        done, next, t' := false, gparent, Flipped(g);
      } else {
        t' := LeftFix(f, g);
        LeftFixed(f, root.repr, g);
        FixedSound(f, x, t, t');
        FixLeft(f, node, parent, gparent, root, up, g);
      }
    } else {
      tmp := gparent.left;
      if tmp != null && tmp.color.Red? {
        FlipSound(f, x, t);
        ColorFlip(parent, tmp, gparent, root, up, g);
        done, next, t' := false, gparent, Flipped(g);
      } else {
        t' := RightFix(f, g);
        RightFixed(f, root.repr, g);
        FixedSound(f, x, t, t');
        FixRight(f, node, parent, gparent, root, up, g);
      }
    }
  }

  method Insert<A(!new)>(f: Computer<A>, n: RbNode<A>, root: RbRoot<A>, ghost x0: Ctx<A>, ghost t0: Tree<A>)
    requires root.At(x0, t0) && Root(t0) == n && Sound(f, x0, t0) && IsRed(t0)
    requires OrderOnly(f, root.repr)
    modifies root`node, root`tree, root.repr
    ensures root.Valid() && Augmented(f, root.tree)
    ensures Inorder(root.tree) == Inorder(Plug(x0, t0))
  {
    var node, parent, done := n, n.parent, false;
    ghost var x, t := x0, t0;
    while !done
      invariant root.At(x, t) && Inorder(Plug(x, t)) == Inorder(Plug(x0, t0))
      invariant !done ==> Sound(f, x, t) && IsRed(t) && node == Root(t) && parent == Parent(x)
      invariant done ==> RedBlack(Plug(x, t)) && Augmented(f, Plug(x, t))
      decreases !done, x
    {
      if parent == null {
        Recolor(node, Black, root, x, t);
        t, done := t.(color := Black), true;
      } else if parent.color.Black? {
        PlugRedBlack(x, t);
        PlugAugmented(f, x, t);
        done := true;
      } else {
        ghost var t';
        done, node, t' := Step(f, node, parent, root, x, t);
        x, t := x.up.up, t';
        if !done {
          NodeFocus(Snapshot(root.repr), root.ranks, root.node, x, t);
          parent := node.parent;
        }
      }
    }
    Finish(root, x, t);
  }

  // ----- linking and inserting, with the dummy callbacks (rbtree.c:397-408)

  function Dummy(l: Option<()>, n: RbNode<()>, r: Option<()>): () { () }

  lemma {:induction false} DummyAugmented(t: Tree<()>)
    ensures Augmented(Dummy, t)
  {
    if t.Node? {
      DummyAugmented(t.left);
      DummyAugmented(t.right);
    }
  }

  lemma DummyOrderOnly(s: set<RbNode<()>>)
    ensures OrderOnly(Dummy, s)
  {
  }

  ghost predicate InsertedAt<T>(s: seq<T>, s': seq<T>, i: nat, n: T) {
    i <= |s| && s' == s[..i] + [n] + s[i..]
  }

  /** A red leaf at an empty place: the state in which the loop starts. */
  lemma NewLeaf(x: Ctx<()>, n: RbNode<()>)
    requires RedBlack(Plug(x, Leaf))
    ensures var t := Node(Leaf, n, Red, (), Leaf);
      Sound(Dummy, x, t) && InsertedAt(Inorder(Plug(x, Leaf)), Inorder(Plug(x, t)), |Before(x)|, n)
  {
    var t := Node(Leaf, n, Red, (), Leaf);
    PlugRedBlack(x, Leaf);
    DummyAugmented(Plug(x, t));
    PlugAugmented(Dummy, x, t);
    InorderPlug(x, Leaf);
    InorderPlug(x, t);
    assert Inorder(Plug(x, Leaf)) == Before(x) + After(x);
  }

  /** rb_link_node at an empty child slot, then rb_insert_color. */
  method LinkAndInsert(node: RbNode<()>, parent: RbNode?<()>, left: bool, root: RbRoot<()>, ghost x: Ctx<()>)
    requires root.Valid() && root.tree == Plug(x, Leaf) && node !in root.repr
    requires parent == Parent(x) && (parent != null ==> left == x.InL?)
    modifies root, root.repr, node
    ensures root.Valid() && root.repr == old(root.repr) + {node}
    ensures InsertedAt(old(Inorder(root.tree)), Inorder(root.tree), |Before(x)|, node)
  {
    Refocus(Snapshot(root.repr), root.ranks, root.node, x, Leaf);
    NewLeaf(x, node);
    assert node.aug == ();
    LinkNode(node, parent, left, root, x);
    DummyOrderOnly(root.repr);
    Insert(Dummy, node, root, x, Node(Leaf, node, Red, (), Leaf));
  }
}
