/** ____rb_erase_color (rbtree.c:215-381). */
module RbEraseColor {
  import opened RbTree
  import opened RbMemory
  import opened RbRoots
  import opened RbRotate

  // ----- what Cases 3 and 4 make of the subtree at parent

  /** t is at a node whose left (right) child has one black node too few, and whose
      other child s is black with a red child. */
  ghost predicate OneShort<A>(f: Computer<A>, t: Tree<A>, n: Tree<A>, s: Tree<A>) {
    && t.Node? && Colored(n) && Colored(s) && s.Node? && s.color.Black? && BlackHeight(s) == BlackHeight(n) + 1
    && (IsRed(s.left) || IsRed(s.right)) && !IsRed(n)
    && Augmented(f, t)
  }

  ghost predicate Restored<A>(f: Computer<A>, t: Tree<A>, n: Tree<A>, t': Tree<A>) {
    && Colored(t') && t'.Node? && t.Node? && t'.color == t.color
    && BlackHeight(t') == BlackHeight(n) + 1 + Count(t.color)
    && Augmented(f, t') && Aug(t') == Aug(t) && Inorder(t') == Inorder(t)
  }

  ghost function LeftFix<A>(f: Computer<A>, t: Tree<A>): Tree<A>
    requires t.Node? && OneShort(f, t, t.left, t.right)
  {
    var s := t.right;
    if IsRed(s.right) then RotL(f, t.(right := s.(right := s.right.(color := Black))), Black)
    else RotL(f, t.(right := RotR(f, s, Black)), Black)
  }

  ghost function RightFix<A>(f: Computer<A>, t: Tree<A>): Tree<A>
    requires t.Node? && OneShort(f, t, t.right, t.left)
  {
    var s := t.left;
    if IsRed(s.left) then RotR(f, t.(left := s.(left := s.left.(color := Black))), Black)
    else RotR(f, t.(left := RotL(f, s, Black)), Black)
  }

  lemma LeftRestored<A(!new)>(f: Computer<A>, u: set<RbNode<A>>, t: Tree<A>)
    requires t.Node? && OneShort(f, t, t.left, t.right) && OrderOnly(f, u)
    requires t.n in u && t.right.n in u && (t.right.left.Node? ==> t.right.left.n in u)
    ensures Restored(f, t, t.left, LeftFix(f, t))
  {
    var s := t.right;
    assert Augmented(f, s);
    if IsRed(s.right) {
      var s' := s.(right := s.right.(color := Black));
      RecolorKeeps(f, s.right, Black);
      RotLInorder(f, t.(right := s'), Black);
      RotLAugmented(f, u, t.(right := s'), Black);
    } else {
      assert Colored(s.left) && Colored(LeftFix(f, t).left) && Colored(LeftFix(f, t).right);
      RotRInorder(f, s, Black);
      RotRAugmented(f, u, s, Black);
      RotLInorder(f, t.(right := RotR(f, s, Black)), Black);
      RotLAugmented(f, u, t.(right := RotR(f, s, Black)), Black);
    }
  }

  lemma RightRestored<A(!new)>(f: Computer<A>, u: set<RbNode<A>>, t: Tree<A>)
    requires t.Node? && OneShort(f, t, t.right, t.left) && OrderOnly(f, u)
    requires t.n in u && t.left.n in u && (t.left.right.Node? ==> t.left.right.n in u)
    ensures Restored(f, t, t.right, RightFix(f, t))
  {
    var s := t.left;
    assert Augmented(f, s);
    if IsRed(s.left) {
      var s' := s.(left := s.left.(color := Black));
      RecolorKeeps(f, s.left, Black);
      RotRInorder(f, t.(left := s'), Black);
      RotRAugmented(f, u, t.(left := s'), Black);
    } else {
      assert Colored(s.right) && Colored(RightFix(f, t).left) && Colored(RightFix(f, t).right);
      RotLInorder(f, s, Black);
      RotLAugmented(f, u, s, Black);
      RotRInorder(f, t.(left := RotL(f, s, Black)), Black);
      RotRAugmented(f, u, t.(left := RotL(f, s, Black)), Black);
    }
  }

  /** Case 3 (rbtree.c:281-303). */
  method Case3Left<A>(f: Computer<A>, parent: RbNode<A>, sibling: RbNode<A>, tmp2: RbNode<A>, root: RbRoot<A>,
                      ghost up: Ctx<A>, ghost d: Tree<A>, ghost c: Tree<A>, ghost b: Tree<A>, ghost a: Tree<A>)
    requires BentLeft(Snapshot(root.repr), root.ranks, root.node, up, d, parent, c, tmp2, b, sibling, a) && !IsRed(b)
    modifies root.repr
    ensures LooseLeft(Snapshot(root.repr), root.ranks, root.node, up, d, parent, c, tmp2, b, sibling, a)
    ensures sibling.aug == Compute(f, Aug(b), sibling, Aug(a))
    ensures parent.color == old(parent.color) && parent.aug == old(parent.aug)
  {
    ghost var m, k := Snapshot(root.repr), root.ranks;
    parent.right := tmp2;
    ghost var m1 := Snapshot(root.repr);
    BentLeftStale(m, m1, k, root.node, up, d, parent, c, tmp2, b, sibling, a);
    TurnRightReady(m1, k, k[parent], Hi(k, up), c, tmp2, b, sibling, a);
    TurnRight(f, sibling, tmp2, true, root);
    StraightenLeft(f, m1, Snapshot(root.repr), k, root.node, up, d, parent, c, tmp2, b, sibling, a);
  }

  /** Case 4 (rbtree.c:304-325). */
  method Case4Left<A>(f: Computer<A>, parent: RbNode<A>, sibling: RbNode<A>, tmp1: RbNode<A>, root: RbRoot<A>,
                      ghost up: Ctx<A>, ghost d: Tree<A>, ghost c: Tree<A>, ghost b: Tree<A>, ghost a: Tree<A>)
    requires LooseLeft(Snapshot(root.repr), root.ranks, root.node, up, d, parent, c, sibling, b, tmp1, a)
    modifies root`node, root.repr
    ensures root.At(up, Node(Node(d, parent, Black, Compute(f, Aug(d), parent, Aug(c)), c), sibling,
                             old(parent.color), old(parent.aug), Node(b, tmp1, Black, old(tmp1.aug), a)))
  {
    ghost var m, k := Snapshot(root.repr), root.ranks;
    tmp1.parent, tmp1.color := sibling, Black;
    HangLeft(m, Snapshot(root.repr), k, root.node, up, Black, d, parent, c, sibling, b, tmp1, a);
    assert Snapshot(root.repr)[parent] == m[parent];
    RotateLeft(f, parent, sibling, false, root, Black, up, d, c, Node(b, tmp1, Black, m[tmp1].aug, a));
  }

  /** Cases 3 and 4 when node is the left child (rbtree.c:281-325). */
  method FixLeft<A(!new)>(f: Computer<A>, parent: RbNode<A>, sibling0: RbNode<A>, root: RbRoot<A>, ghost up: Ctx<A>,
                          ghost t: Tree<A>)
    requires root.At(up, t) && t.Node? && t.n == parent && OneShort(f, t, t.left, t.right) && t.right.n == sibling0
    modifies root`node, root.repr
    ensures root.At(up, LeftFix(f, t))
  {
    ghost var m, k, n, s := Snapshot(root.repr), root.ranks, t.left, t.right;
    FocusOpenLeft(m, k, root.node, up, t);
    var sibling := sibling0;
    var tmp1 := sibling.right;
    assert Rep(m, k, s.right, s.n, k[s.n], Hi(k, up));
    if tmp1 == null || tmp1.color.Black? {
      var tmp2 := sibling.left;
      OpenBentLeft(m, k, root.node, up, n, parent, s.left, sibling, s.right);
      assert Colored(s.left);
      Case3Left(f, parent, sibling, tmp2, root, up, n, s.left.left, s.left.right, s.right);
      tmp1 := sibling;
      sibling := tmp2;
      Case4Left(f, parent, sibling, tmp1, root, up, n, s.left.left, s.left.right, s.right);
    } else {
      Case4Left(f, parent, sibling, tmp1, root, up, n, s.left, s.right.left, s.right.right);
    }
  }

  /** Case 3 (rbtree.c:356-367). */
  method Case3Right<A>(f: Computer<A>, parent: RbNode<A>, sibling: RbNode<A>, tmp2: RbNode<A>, root: RbRoot<A>,
                       ghost up: Ctx<A>, ghost a: Tree<A>, ghost b: Tree<A>, ghost c: Tree<A>, ghost d: Tree<A>)
    requires BentRight(Snapshot(root.repr), root.ranks, root.node, up, a, sibling, b, tmp2, c, parent, d) && !IsRed(b)
    modifies root.repr
    ensures LooseRight(Snapshot(root.repr), root.ranks, root.node, up, a, sibling, b, tmp2, c, parent, d)
    ensures sibling.aug == Compute(f, Aug(a), sibling, Aug(b))
    ensures parent.color == old(parent.color) && parent.aug == old(parent.aug)
  {
    ghost var m, k := Snapshot(root.repr), root.ranks;
    parent.left := tmp2;
    ghost var m1 := Snapshot(root.repr);
    BentRightStale(m, m1, k, root.node, up, a, sibling, b, tmp2, c, parent, d);
    TurnLeftReady(m1, k, Lo(k, up), k[parent], a, sibling, b, tmp2, c);
    TurnLeft(f, sibling, tmp2, true, root);
    StraightenRight(f, m1, Snapshot(root.repr), k, root.node, up, a, sibling, b, tmp2, c, parent, d);
  }

  /** Case 4 (rbtree.c:368-378). */
  method Case4Right<A>(f: Computer<A>, parent: RbNode<A>, sibling: RbNode<A>, tmp1: RbNode<A>, root: RbRoot<A>,
                       ghost up: Ctx<A>, ghost a: Tree<A>, ghost b: Tree<A>, ghost c: Tree<A>, ghost d: Tree<A>)
    requires LooseRight(Snapshot(root.repr), root.ranks, root.node, up, a, tmp1, b, sibling, c, parent, d)
    modifies root`node, root.repr
    ensures root.At(up, Node(Node(a, tmp1, Black, old(tmp1.aug), b), sibling, old(parent.color), old(parent.aug),
                             Node(c, parent, Black, Compute(f, Aug(c), parent, Aug(d)), d)))
  {
    ghost var m, k := Snapshot(root.repr), root.ranks;
    tmp1.parent, tmp1.color := sibling, Black;
    HangRight(m, Snapshot(root.repr), k, root.node, up, Black, a, tmp1, b, sibling, c, parent, d);
    assert Snapshot(root.repr)[parent] == m[parent];
    RotateRight(f, parent, sibling, false, root, Black, up, Node(a, tmp1, Black, m[tmp1].aug, b), c, d);
  }

  /** Cases 3 and 4 when node is the right child (rbtree.c:356-378). */
  method FixRight<A(!new)>(f: Computer<A>, parent: RbNode<A>, sibling0: RbNode<A>, root: RbRoot<A>, ghost up: Ctx<A>,
                           ghost t: Tree<A>)
    requires root.At(up, t) && t.Node? && t.n == parent && OneShort(f, t, t.right, t.left) && t.left.n == sibling0
    modifies root`node, root.repr
    ensures root.At(up, RightFix(f, t))
  {
    ghost var m, k, n, s := Snapshot(root.repr), root.ranks, t.right, t.left;
    FocusOpenRight(m, k, root.node, up, t);
    var sibling := sibling0;
    var tmp1 := sibling.left;
    assert Rep(m, k, s.left, s.n, Lo(k, up), k[s.n]);
    if tmp1 == null || tmp1.color.Black? {
      var tmp2 := sibling.right;
      OpenBentRight(m, k, root.node, up, s.left, sibling, s.right, parent, n);
      assert Colored(s.right);
      Case3Right(f, parent, sibling, tmp2, root, up, s.left, s.right.left, s.right.right, n);
      tmp1 := sibling;
      sibling := tmp2;
      Case4Right(f, parent, sibling, tmp1, root, up, s.left, s.right.left, s.right.right, n);
    } else {
      Case4Right(f, parent, sibling, tmp1, root, up, s.left.left, s.left.right, s.right, n);
    }
  }

  // ----- the loop

  /** Everything is right once the subtree t gets one more black node (rbtree.c:222-228). */
  ghost predicate Short<A>(f: Computer<A>, x: Ctx<A>, t: Tree<A>) {
    && !x.Top? && Colored(t) && !IsRed(t) && Fits(x, BlackHeight(t) + 1)
    && Augmented(f, t) && AugFits(f, x, Aug(t))
  }

  ghost function Sibling<A>(x: Ctx<A>): Tree<A>
    requires !x.Top?
  {
    if x.InL? then x.right else x.left
  }

  /** After Case 1 the sibling is black and the parent red. */
  ghost function Case1Ctx<A>(f: Computer<A>, x: Ctx<A>, t: Tree<A>): Ctx<A>
    requires !x.Top? && Sibling(x).Node?
  {
    var s := Sibling(x);
    if x.InL? then
      InL(InL(x.up, s.n, x.color, x.aug, s.right), x.n, Red, Compute(f, Aug(t), x.n, Aug(s.left)), s.left)
    else
      InR(InR(x.up, s.left, s.n, x.color, x.aug), s.right, x.n, Red, Compute(f, Aug(s.right), x.n, Aug(t)))
  }

  lemma Case1Short<A(!new)>(f: Computer<A>, u: set<RbNode<A>>, x: Ctx<A>, t: Tree<A>)
    requires Short(f, x, t) && OrderOnly(f, u) && x.n in u && Sibling(x).Node? && Sibling(x).n in u && IsRed(Sibling(x))
    ensures var x' := Case1Ctx(f, x, t);
      Short(f, x', t) && RedParent(x') && !IsRed(Sibling(x')) && Inorder(Plug(x', t)) == Inorder(Plug(x, t))
  {
    var p := Up(x, t);
    var x' := Case1Ctx(f, x, t);
    InorderPlug(x.up, p);
    PlugAugmented(f, x.up, p);
    assert Augmented(f, p);
    if x.InL? {
      InorderPlug(x.up, RotL(f, p, Red));
      RotLInorder(f, p, Red);
      RotLAugmented(f, u, p, Red);
    } else {
      InorderPlug(x.up, RotR(f, p, Red));
      RotRInorder(f, p, Red);
      RotRAugmented(f, u, p, Red);
    }
  }

  /** Case 2: the sibling becomes red. */
  ghost function Case2Tree<A>(x: Ctx<A>, t: Tree<A>): Tree<A>
    requires !x.Top? && Sibling(x).Node?
  {
    if x.InL? then Node(t, x.n, x.color, x.aug, x.right.(color := Red))
    else Node(x.left.(color := Red), x.n, x.color, x.aug, t)
  }

  ghost predicate BlackSibling<A>(x: Ctx<A>) {
    !x.Top? && Sibling(x).Node? && Sibling(x).color.Black?
  }

  lemma Case2Short<A>(f: Computer<A>, x: Ctx<A>, t: Tree<A>)
    requires Short(f, x, t) && BlackSibling(x) && !IsRed(Sibling(x).left) && !IsRed(Sibling(x).right)
    ensures var t' := Case2Tree(x, t);
      && Inorder(Plug(x.up, t')) == Inorder(Plug(x, t))
      && Inorder(Plug(x.up, t'.(color := Black))) == Inorder(Plug(x, t))
      && (if x.color.Red? || x.up.Top? then
            RedBlack(Plug(x.up, t'.(color := Black))) && Augmented(f, Plug(x.up, t'.(color := Black)))
          else Short(f, x.up, t'))
  {
    var t' := Case2Tree(x, t);
    RecolorKeeps(f, Sibling(x), Red);
    RecolorKeeps(f, t', Black);
    assert Augmented(f, t');
    InorderPlug(x.up, Up(x, t));
    InorderPlug(x.up, t');
    InorderPlug(x.up, t'.(color := Black));
    PlugRedBlack(x.up, t'.(color := Black));
    PlugAugmented(f, x.up, t'.(color := Black));
  }

  lemma RestoredRedBlack<A>(f: Computer<A>, x: Ctx<A>, t: Tree<A>, t': Tree<A>)
    requires Short(f, x, t) && Restored(f, Up(x, t), t, t')
    ensures RedBlack(Plug(x.up, t')) && Augmented(f, Plug(x.up, t'))
    ensures Inorder(Plug(x.up, t')) == Inorder(Plug(x, t))
  {
    PlugRedBlack(x.up, t');
    PlugAugmented(f, x.up, t');
    InorderPlug(x.up, Up(x, t));
    InorderPlug(x.up, t');
  }

  /** The pointers around the parent, as the loop reads them. */
  lemma SiblingFocus<A>(m: Mem<A>, k: Ranks<A>, root: RbNode?<A>, x: Ctx<A>, t: Tree<A>)
    requires Focus(m, k, root, x, t) && !x.Top?
    ensures var s := Sibling(x);
      && Focus(m, k, root, x.up, Up(x, t)) && x.n in m && m[x.n].color == x.color && m[x.n].parent == Parent(x.up)
      && (if x.InL? then m[x.n].left == Root(t) && m[x.n].right == Root(s)
          else m[x.n].right == Root(t) && m[x.n].left == Root(s))
      && (s.Node? ==> s.n != Root(t) && s.n in m && m[s.n].color == s.color
                      && m[s.n].left == Root(s.left) && m[s.n].right == Root(s.right))
      && (s.Node? && s.left.Node? ==> s.left.n in m && m[s.left.n].color == s.left.color)
      && (s.Node? && s.right.Node? ==> s.right.n in m && m[s.right.n].color == s.right.color)
  {
    if x.InL? {
      assert Rep(m, k, x.right, x.n, k[x.n], Hi(k, x.up));
    } else {
      assert Rep(m, k, x.left, x.n, Lo(k, x.up), k[x.n]);
    }
  }

  /** Case 2 (rbtree.c:269-279, 344-354). */
  method FlipSibling<A>(f: Computer<A>, parent: RbNode<A>, sibling: RbNode<A>, root: RbRoot<A>, ghost x: Ctx<A>,
                        ghost t: Tree<A>)
      returns (done: bool, ghost t': Tree<A>)
    requires root.At(x, t) && Short(f, x, t) && BlackSibling(x) && parent == x.n && sibling == Sibling(x).n
    requires !IsRed(Sibling(x).left) && !IsRed(Sibling(x).right)
    modifies root.repr
    ensures root.At(x.up, t') && Inorder(Plug(x.up, t')) == Inorder(Plug(x, t))
    ensures done ==> RedBlack(Plug(x.up, t')) && Augmented(f, Plug(x.up, t'))
    ensures !done ==> Short(f, x.up, t') && Root(t') == parent && x.color.Black?
  {
    SiblingFocus(Snapshot(root.repr), root.ranks, root.node, x, t);
    Case2Short(f, x, t);
    ghost var y := if x.InL? then InR(x.up, t, x.n, x.color, x.aug) else InL(x.up, x.n, x.color, x.aug, t);
    assert root.At(y, Sibling(x));
    Recolor(sibling, Red, root, y, Sibling(x));
    t' := Case2Tree(x, t);
    assert root.At(x.up, t');
    if parent.color.Red? {
      Recolor(parent, Black, root, x.up, t');
      t' := t'.(color := Black);
      done := true;
    } else {
      assert t'.(color := Black) == t';
      done := parent.parent == null;
    }
  }

  /** The part of a turn after Case 1, node being the left child (rbtree.c:250-325). */
  method BlackSiblingLeft<A(!new)>(f: Computer<A>, parent: RbNode<A>, sibling: RbNode<A>, root: RbRoot<A>,
                                   ghost x: Ctx<A>, ghost t: Tree<A>)
      returns (done: bool, ghost t': Tree<A>)
    requires root.At(x, t) && Short(f, x, t) && x.InL? && BlackSibling(x) && parent == x.n && sibling == x.right.n
    requires OrderOnly(f, root.repr)
    modifies root`node, root.repr
    ensures root.At(x.up, t') && Inorder(Plug(x.up, t')) == Inorder(Plug(x, t))
    ensures done ==> RedBlack(Plug(x.up, t')) && Augmented(f, Plug(x.up, t'))
    ensures !done ==> Short(f, x.up, t') && Root(t') == parent && x.color.Black?
  {
    SiblingFocus(Snapshot(root.repr), root.ranks, root.node, x, t);
    var tmp1, tmp2 := sibling.right, sibling.left;
    if (tmp1 == null || tmp1.color.Black?) && (tmp2 == null || tmp2.color.Black?) {
      done, t' := FlipSibling(f, parent, sibling, root, x, t);
    } else {
      ghost var p := Up(x, t);
      assert OneShort(f, p, p.left, p.right);
      LeftRestored(f, root.repr, p);
      t', done := LeftFix(f, p), true;
      RestoredRedBlack(f, x, t, t');
      FixLeft(f, parent, sibling, root, x.up, p);
    }
  }

  /** The part of a turn after Case 1, node being the right child (rbtree.c:339-378). */
  method BlackSiblingRight<A(!new)>(f: Computer<A>, parent: RbNode<A>, sibling: RbNode<A>, root: RbRoot<A>,
                                    ghost x: Ctx<A>, ghost t: Tree<A>)
      returns (done: bool, ghost t': Tree<A>)
    requires root.At(x, t) && Short(f, x, t) && x.InR? && BlackSibling(x) && parent == x.n && sibling == x.left.n
    requires OrderOnly(f, root.repr)
    modifies root`node, root.repr
    ensures root.At(x.up, t') && Inorder(Plug(x.up, t')) == Inorder(Plug(x, t))
    ensures done ==> RedBlack(Plug(x.up, t')) && Augmented(f, Plug(x.up, t'))
    ensures !done ==> Short(f, x.up, t') && Root(t') == parent && x.color.Black?
  {
    SiblingFocus(Snapshot(root.repr), root.ranks, root.node, x, t);
    var tmp1, tmp2 := sibling.left, sibling.right;
    if (tmp1 == null || tmp1.color.Black?) && (tmp2 == null || tmp2.color.Black?) {
      done, t' := FlipSibling(f, parent, sibling, root, x, t);
    } else {
      ghost var p := Up(x, t);
      assert OneShort(f, p, p.right, p.left);
      RightRestored(f, root.repr, p);
      t', done := RightFix(f, p), true;
      RestoredRedBlack(f, x, t, t');
      FixRight(f, parent, sibling, root, x.up, p);
    }
  }

  lemma Case1Focus<A>(f: Computer<A>, m: Mem<A>, k: Ranks<A>, root: RbNode?<A>, x: Ctx<A>, t: Tree<A>)
    requires !x.Top? && Sibling(x).Node?
    requires Focus(m, k, root, x.up, if x.InL? then RotL(f, Up(x, t), Red) else RotR(f, Up(x, t), Red))
    ensures Focus(m, k, root, Case1Ctx(f, x, t), t)
  {
    var x' := Case1Ctx(f, x, t);
    Climb(m, k, root, x'.up, Up(x', t));
    Climb(m, k, root, x', t);
  }

  /** Case 1 (rbtree.c:231-249, 328-338): `x'` is where parent then is. */
  method RedSibling<A(!new)>(f: Computer<A>, parent: RbNode<A>, sibling: RbNode<A>, root: RbRoot<A>, ghost x: Ctx<A>,
                             ghost t: Tree<A>)
      returns (sibling': RbNode<A>, ghost x': Ctx<A>)
    requires root.At(x, t) && Short(f, x, t) && parent == x.n && Sibling(x).Node? && sibling == Sibling(x).n
    requires OrderOnly(f, root.repr)
    modifies root`node, root.repr
    ensures root.At(x', t) && Short(f, x', t) && BlackSibling(x') && x'.n == parent && sibling' == Sibling(x').n
    ensures x'.InL? == x.InL? && (x'.up == x.up || RedParent(x')) && Inorder(Plug(x', t)) == Inorder(Plug(x, t))
  {
    ghost var m, k, s := Snapshot(root.repr), root.ranks, Sibling(x);
    SiblingFocus(m, k, root.node, x, t);
    sibling', x' := sibling, x;
    if sibling.color.Red? {
      Case1Short(f, root.repr, x, t);
      x' := Case1Ctx(f, x, t);
      if parent.right == sibling {
        sibling' := sibling.left;
        FocusOpenLeft(m, k, root.node, x.up, Up(x, t));
        RotateLeft(f, parent, sibling, true, root, Red, x.up, t, s.left, s.right);
      } else {
        sibling' := sibling.right;
        FocusOpenRight(m, k, root.node, x.up, Up(x, t));
        RotateRight(f, parent, sibling, true, root, Red, x.up, s.left, s.right, t);
      }
      Case1Focus(f, Snapshot(root.repr), k, root.node, x, t);
    }
  }

  /** One turn of the loop. It is done unless it was a Case 2 under a black parent that is not the root. */
  method Step<A(!new)>(f: Computer<A>, node: RbNode?<A>, parent: RbNode<A>, root: RbRoot<A>, ghost x: Ctx<A>,
                       ghost t: Tree<A>)
      returns (done: bool, ghost x': Ctx<A>, ghost t': Tree<A>)
    requires root.At(x, t) && Short(f, x, t) && node == Root(t) && parent == x.n && OrderOnly(f, root.repr)
    modifies root`node, root.repr
    ensures root.At(x', t') && Inorder(Plug(x', t')) == Inorder(Plug(x, t))
    ensures done ==> RedBlack(Plug(x', t')) && Augmented(f, Plug(x', t'))
    ensures !done ==> x' == x.up && Short(f, x', t') && Root(t') == parent
  {
    SiblingFocus(Snapshot(root.repr), root.ranks, root.node, x, t);
    var sibling := parent.right;
    if node != sibling {
      sibling, x' := RedSibling(f, parent, sibling, root, x, t);
      done, t' := BlackSiblingLeft(f, parent, sibling, root, x', t);
    } else {
      sibling := parent.left;
      sibling, x' := RedSibling(f, parent, sibling, root, x, t);
      done, t' := BlackSiblingRight(f, parent, sibling, root, x', t);
    }
    x' := x'.up;
  }

  /** ____rb_erase_color: `t0` is the empty subtree left where a black node was taken out. */
  method EraseColor<A(!new)>(f: Computer<A>, parent0: RbNode<A>, root: RbRoot<A>, ghost x0: Ctx<A>, ghost t0: Tree<A>)
    requires root.At(x0, t0) && Short(f, x0, t0) && t0.Leaf? && parent0 == x0.n && OrderOnly(f, root.repr)
    modifies root`node, root`tree, root.repr
    ensures root.Valid() && Augmented(f, root.tree) && Inorder(root.tree) == Inorder(Plug(x0, t0))
  {
    var node: RbNode?<A>, parent: RbNode<A>, done := null, parent0, false;
    ghost var x, t := x0, t0;
    while !done
      invariant root.At(x, t) && Inorder(Plug(x, t)) == Inorder(Plug(x0, t0))
      invariant !done ==> Short(f, x, t) && node == Root(t) && parent == x.n
      invariant done ==> RedBlack(Plug(x, t)) && Augmented(f, Plug(x, t))
      decreases !done, x
    {
      done, x, t := Step(f, node, parent, root, x, t);
      if !done {
        node := parent;
        parent := node.parent;
      }
    }
    Finish(root, x, t);
  }
}
