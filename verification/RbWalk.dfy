/** Walking a tree by its pointers (rbtree.c:434-515, 533-569). */
module RbWalk {
  import opened RbTree
  import opened RbMemory
  import opened RbRoots
  import opened RbFacts

  /** Down to the leftmost node of the subtree at n (rbtree.c:441-443, 470-473). */
  method Leftmost<A>(n0: RbNode<A>, root: RbRoot<A>, ghost x0: Ctx<A>, ghost t0: Tree<A>) returns (n: RbNode<A>)
    requires root.At(x0, t0) && t0.Node? && t0.n == n0
    ensures |Inorder(t0)| > 0 && n == Inorder(t0)[0]
  {
    n := n0;
    ghost var x, t := x0, t0;
    NodeFocus(Snapshot(root.repr), root.ranks, root.node, x, t);
    while n.left != null
      invariant root.At(x, t) && t.Node? && t.n == n && n in root.repr && n.left == Root(t.left)
      invariant |Inorder(t)| > 0 && Inorder(t)[0] == Inorder(t0)[0]
      decreases t
    {
      n := n.left;
      ghost var y, s := InL(x, t.n, t.color, t.aug, t.right), t.left;
      Climb(Snapshot(root.repr), root.ranks, root.node, y, s);
      x, t := y, s;
      NodeFocus(Snapshot(root.repr), root.ranks, root.node, x, t);
    }
  }

  method First<A>(root: RbRoot<A>) returns (n: RbNode?<A>)
    requires root.Valid()
    ensures n == if Inorder(root.tree) == [] then null else Inorder(root.tree)[0]
  {
    n := root.node;
    if n != null {
      n := Leftmost(n, root, Top, root.tree);
    }
  }

  /** Down to the rightmost node (rbtree.c:453-454, 501-503). */
  method Rightmost<A>(n0: RbNode<A>, root: RbRoot<A>, ghost x0: Ctx<A>, ghost t0: Tree<A>) returns (n: RbNode<A>)
    requires root.At(x0, t0) && t0.Node? && t0.n == n0
    ensures |Inorder(t0)| > 0 && n == Inorder(t0)[|Inorder(t0)| - 1]
  {
    n := n0;
    ghost var x, t := x0, t0;
    NodeFocus(Snapshot(root.repr), root.ranks, root.node, x, t);
    while n.right != null
      invariant root.At(x, t) && t.Node? && t.n == n && n in root.repr && n.right == Root(t.right)
      invariant |Inorder(t)| > 0 && Inorder(t)[|Inorder(t)| - 1] == Inorder(t0)[|Inorder(t0)| - 1]
      decreases t
    {
      n := n.right;
      ghost var y, s := InR(x, t.left, t.n, t.color, t.aug), t.right;
      Climb(Snapshot(root.repr), root.ranks, root.node, y, s);
      x, t := y, s;
      NodeFocus(Snapshot(root.repr), root.ranks, root.node, x, t);
    }
  }

  method Last<A>(root: RbRoot<A>) returns (n: RbNode?<A>)
    requires root.Valid()
    ensures var s := Inorder(root.tree); n == if s == [] then null else s[|s| - 1]
  {
    n := root.node;
    if n != null {
      n := Rightmost(n, root, Top, root.tree);
    }
  }

  /** RB_EMPTY_NODE: the packed word is the node's own address. */
  predicate EmptyNode<A>(n: RbNode<A>)
    reads n
  {
    n.parent == n && n.color.Red?
  }

  /** Where node is, and that it is not its own parent. */
  lemma Located<A>(m: Mem<A>, k: Ranks<A>, root: RbNode?<A>, t: Tree<A>, n: RbNode<A>)
    requires Focus(m, k, root, Top, t) && n in Inorder(t)
    ensures var x, s := PathTo(Top, t, n), SubtreeAt(t, n);
      && Focus(m, k, root, x, s) && s.Node? && s.n == n && n in m && m[n].parent == Parent(x) && Parent(x) != n
      && Plug(x, s) == t
  {
    PathFinds(Top, t, n);
    Refocus(m, k, root, PathTo(Top, t, n), SubtreeAt(t, n));
  }

  lemma SplitAround<T>(a: seq<T>, b: seq<T>, n: T, c: seq<T>, d: seq<T>)
    ensures var s, i := a + (b + [n] + c) + d, |a| + |b|;
      && s[i] == n && |s| == i + 1 + |c| + |d|
      && (c != [] ==> s[i + 1] == c[0]) && (c == [] && d != [] ==> s[i + 1] == d[0])
      && (b != [] ==> s[i - 1] == b[|b| - 1]) && (b == [] && a != [] ==> s[i - 1] == a[|a| - 1])
  {
    var s := a + (b + [n] + c) + d;
    assert s == (a + b) + ([n] + (c + d));
  }

  /** Up until the first ancestor that is a left child (rbtree.c:483-486). */
  method ClimbRight<A>(node0: RbNode<A>, root: RbRoot<A>, ghost x0: Ctx<A>, ghost t0: Tree<A>)
      returns (parent: RbNode?<A>)
    requires root.At(x0, t0) && Root(t0) == node0
    ensures parent == if After(x0) == [] then null else After(x0)[0]
  {
    var node := node0;
    ghost var x, t := x0, t0;
    NodeFocus(Snapshot(root.repr), root.ranks, root.node, x, t);
    parent := node.parent;
    while parent != null && node == parent.right
      invariant root.At(x, t) && Root(t) == node && parent == Parent(x) && After(x) == After(x0)
      invariant parent != null ==> parent in root.repr && (node == parent.right <==> x.InR?)
      decreases x
    {
      node := parent;
      Climb(Snapshot(root.repr), root.ranks, root.node, x, t);
      x, t := x.up, Up(x, t);
      NodeFocus(Snapshot(root.repr), root.ranks, root.node, x, t);
      parent := node.parent;
    }
  }

  method ClimbLeft<A>(node0: RbNode<A>, root: RbRoot<A>, ghost x0: Ctx<A>, ghost t0: Tree<A>)
      returns (parent: RbNode?<A>)
    requires root.At(x0, t0) && Root(t0) == node0
    ensures parent == if Before(x0) == [] then null else Before(x0)[|Before(x0)| - 1]
  {
    var node := node0;
    ghost var x, t := x0, t0;
    NodeFocus(Snapshot(root.repr), root.ranks, root.node, x, t);
    parent := node.parent;
    while parent != null && node == parent.left
      invariant root.At(x, t) && Root(t) == node && parent == Parent(x) && Before(x) == Before(x0)
      invariant parent != null ==> parent in root.repr && (node == parent.left <==> x.InL?)
      decreases x
    {
      node := parent;
      Climb(Snapshot(root.repr), root.ranks, root.node, x, t);
      x, t := x.up, Up(x, t);
      NodeFocus(Snapshot(root.repr), root.ranks, root.node, x, t);
      parent := node.parent;
    }
  }

  /** n is what comes d places after node in s. */
  ghost predicate Neighbour<A>(s: seq<RbNode<A>>, i: nat, node: RbNode<A>, d: int, n: RbNode?<A>) {
    i < |s| && s[i] == node && n == if 0 <= i + d < |s| then s[i + d] else null
  }

  /** rb_next (rbtree.c:458-487). */
  method Next<A>(node: RbNode<A>, root: RbRoot<A>) returns (n: RbNode?<A>, ghost i: nat)
    requires root.Valid() && (node in Inorder(root.tree) || EmptyNode(node))
    ensures EmptyNode(node) ==> n == null
    ensures node in Inorder(root.tree) ==> Neighbour(Inorder(root.tree), i, node, 1, n)
  {
    n, i := null, 0;
    if node in Inorder(root.tree) {
      Located(Snapshot(root.repr), root.ranks, root.node, root.tree, node);
    }
    if !EmptyNode(node) {
      ghost var x, t := PathTo(Top, root.tree, node), SubtreeAt(root.tree, node);
      InorderPlug(x, t);
      SplitAround(Before(x), Inorder(t.left), node, Inorder(t.right), After(x));
      i := |Before(x)| + |Inorder(t.left)|;
      NodeFocus(Snapshot(root.repr), root.ranks, root.node, x, t);
      if node.right != null {
        ghost var y := InR(x, t.left, t.n, t.color, t.aug);
        Climb(Snapshot(root.repr), root.ranks, root.node, y, t.right);
        n := Leftmost(node.right, root, y, t.right);
      } else {
        n := ClimbRight(node, root, x, t);
      }
    }
  }

  /** rb_prev (rbtree.c:489-515). */
  method Prev<A>(node: RbNode<A>, root: RbRoot<A>) returns (n: RbNode?<A>, ghost i: nat)
    requires root.Valid() && (node in Inorder(root.tree) || EmptyNode(node))
    ensures EmptyNode(node) ==> n == null
    ensures node in Inorder(root.tree) ==> Neighbour(Inorder(root.tree), i, node, -1, n)
  {
    n, i := null, 0;
    if node in Inorder(root.tree) {
      Located(Snapshot(root.repr), root.ranks, root.node, root.tree, node);
    }
    if !EmptyNode(node) {
      ghost var x, t := PathTo(Top, root.tree, node), SubtreeAt(root.tree, node);
      InorderPlug(x, t);
      SplitAround(Before(x), Inorder(t.left), node, Inorder(t.right), After(x));
      i := |Before(x)| + |Inorder(t.left)|;
      NodeFocus(Snapshot(root.repr), root.ranks, root.node, x, t);
      if node.left != null {
        ghost var y := InL(x, t.n, t.color, t.aug, t.right);
        Climb(Snapshot(root.repr), root.ranks, root.node, y, t.left);
        n := Rightmost(node.left, root, y, t.left);
      } else {
        n := ClimbLeft(node, root, x, t);
      }
    }
  }

  /** rb_prev undoes rb_next. */
  method ThereAndBack<A>(node: RbNode<A>, root: RbRoot<A>) returns (n: RbNode?<A>, p: RbNode?<A>)
    requires root.Valid() && node in Inorder(root.tree)
    ensures n != null ==> n in Inorder(root.tree) && n != node && p == node
    ensures n == null ==> node == Inorder(root.tree)[|Inorder(root.tree)| - 1]
  {
    RanksIncrease(Snapshot(root.repr), root.ranks, root.tree, null, 0.0, 1.0);
    Located(Snapshot(root.repr), root.ranks, root.node, root.tree, node);
    ghost var i, j;
    n, i := Next(node, root);
    p := null;
    if n != null {
      p, j := Prev(n, root);
    }
  }

  /** From rb_first, rb_next visits the in-order sequence, each node once. */
  method Walk<A>(root: RbRoot<A>) returns (visited: seq<RbNode<A>>)
    requires root.Valid()
    ensures visited == Inorder(root.tree)
    ensures forall i, j :: 0 <= i < j < |visited| ==> visited[i] != visited[j]
  {
    RanksIncrease(Snapshot(root.repr), root.ranks, root.tree, null, 0.0, 1.0);
    ghost var s := Inorder(root.tree);
    visited := [];
    var n := First(root);
    while n != null
      invariant |visited| <= |s| && visited == s[..|visited|]
      invariant n == if |visited| < |s| then s[|visited|] else null
      decreases |s| - |visited|
    {
      var m, i := Next(n, root);
      visited, n := visited + [n], m;
    }
  }

  // ----- postorder

  function Postorder<A>(t: Tree<A>): seq<RbNode<A>> {
    if t.Leaf? then [] else Postorder(t.left) + Postorder(t.right) + [t.n]
  }

  function PostBefore<A>(x: Ctx<A>): seq<RbNode<A>> {
    match x
    case Top => []
    case InL(up, _, _, _, _) => PostBefore(up)
    case InR(up, l, _, _, _) => PostBefore(up) + Postorder(l)
  }

  function PostAfter<A>(x: Ctx<A>): seq<RbNode<A>> {
    match x
    case Top => []
    case InL(up, n, _, _, r) => Postorder(r) + [n] + PostAfter(up)
    case InR(up, _, n, _, _) => [n] + PostAfter(up)
  }

  lemma {:induction false} PostPlug<A>(x: Ctx<A>, t: Tree<A>)
    ensures Postorder(Plug(x, t)) == PostBefore(x) + Postorder(t) + PostAfter(x)
    decreases x
  {
    match x
    case Top =>
    case InL(up, n, c, a, r) =>
      PostPlug(up, Node(t, n, c, a, r));
      Regroup(PostBefore(up), Postorder(t), Postorder(r), [n], PostAfter(up));
    case InR(up, l, n, c, a) =>
      PostPlug(up, Node(l, n, c, a, t));
      PostRegroup(PostBefore(up), Postorder(l), Postorder(t), [n], PostAfter(up));
  }

  lemma PostRegroup<T>(a: seq<T>, b: seq<T>, c: seq<T>, d: seq<T>, e: seq<T>)
    ensures a + (b + c + d) + e == (a + b) + c + (d + e)
  {
  }

  /** The postorder walk visits exactly the nodes of the tree. */
  lemma {:induction false} PostorderNodes<A>(t: Tree<A>)
    ensures multiset(Postorder(t)) == multiset(Inorder(t))
    ensures forall n :: n in Postorder(t) ==> n in Inorder(t)
  {
    if t.Node? {
      PostorderNodes(t.left);
      PostorderNodes(t.right);
    }
  }

  /** rb_left_deepest_node (rbtree.c:533-543). */
  method LeftDeepest<A>(n0: RbNode<A>, root: RbRoot<A>, ghost x0: Ctx<A>, ghost t0: Tree<A>) returns (n: RbNode<A>)
    requires root.At(x0, t0) && t0.Node? && t0.n == n0
    ensures |Postorder(t0)| > 0 && n == Postorder(t0)[0]
  {
    n := n0;
    ghost var x, t := x0, t0;
    while true
      invariant root.At(x, t) && t.Node? && t.n == n
      invariant |Postorder(t)| > 0 && Postorder(t)[0] == Postorder(t0)[0]
      decreases t
    {
      NodeFocus(Snapshot(root.repr), root.ranks, root.node, x, t);
      ghost var y, s;
      if n.left != null {
        n := n.left;
        y, s := InL(x, t.n, t.color, t.aug, t.right), t.left;
      } else if n.right != null {
        n := n.right;
        y, s := InR(x, t.left, t.n, t.color, t.aug), t.right;
      } else {
        break;
      }
      Climb(Snapshot(root.repr), root.ranks, root.node, y, s);
      x, t := y, s;
    }
  }

  method FirstPostorder<A>(root: RbRoot<A>) returns (n: RbNode?<A>)
    requires root.Valid()
    ensures n == if Postorder(root.tree) == [] then null else Postorder(root.tree)[0]
  {
    n := root.node;
    if n != null {
      n := LeftDeepest(n, root, Top, root.tree);
    }
  }

  /** rb_next_postorder (rbtree.c:545-561) on a node of the tree. */
  method NextPostorder<A>(node: RbNode<A>, root: RbRoot<A>) returns (n: RbNode?<A>, ghost i: nat)
    requires root.Valid() && node in Inorder(root.tree)
    ensures Neighbour(Postorder(root.tree), i, node, 1, n)
  {
    Located(Snapshot(root.repr), root.ranks, root.node, root.tree, node);
    ghost var x, t := PathTo(Top, root.tree, node), SubtreeAt(root.tree, node);
    PostPlug(x, t);
    var parent := node.parent;
    i := |PostBefore(x)| + |Postorder(t)| - 1;
    if parent != null {
      Climb(Snapshot(root.repr), root.ranks, root.node, x, t);
      NodeFocus(Snapshot(root.repr), root.ranks, root.node, x.up, Up(x, t));
    }
    if parent != null && node == parent.left && parent.right != null {
      ghost var p := Up(x, t);
      ghost var y := InR(x.up, p.left, p.n, p.color, p.aug);
      Climb(Snapshot(root.repr), root.ranks, root.node, y, p.right);
      n := LeftDeepest(parent.right, root, y, p.right);
    } else {
      n := parent;
    }
  }

  lemma {:induction false} PostDistinct<A>(m: Mem<A>, k: Ranks<A>, t: Tree<A>, p: RbNode?<A>, lo: real, hi: real)
    requires Rep(m, k, t, p, lo, hi)
    ensures forall n :: n in Postorder(t) ==> Within(k, n, lo, hi)
    ensures forall i, j :: 0 <= i < j < |Postorder(t)| ==> Postorder(t)[i] != Postorder(t)[j]
  {
    if t.Node? {
      PostDistinct(m, k, t.left, t.n, lo, k[t.n]);
      PostDistinct(m, k, t.right, t.n, k[t.n], hi);
      var l, r := Postorder(t.left), Postorder(t.right);
      assert forall i :: 0 <= i < |Postorder(t)| ==>
        Postorder(t)[i] == if i < |l| then l[i] else if i < |l| + |r| then r[i - |l|] else t.n;
      assert forall i :: 0 <= i < |l| ==> l[i] in l;
      assert forall i :: 0 <= i < |r| ==> r[i] in r;
    }
  }

  ghost predicate LaterIn<T>(s: seq<T>, i: nat, x: T) { exists j :: i < j < |s| && s[j] == x }

  lemma LaterWider<T>(a: seq<T>, s: seq<T>, b: seq<T>, i: nat, x: T)
    requires LaterIn(s, i, x)
    ensures LaterIn(a + s + b, |a| + i, x)
  {
    var j :| i < j < |s| && s[j] == x;
    assert (a + s + b)[|a| + j] == x;
  }

  lemma TopLater<T>(s: seq<T>, i: nat, x: T)
    requires i < |s|
    ensures LaterIn(s + [x], i, x)
  {
    assert (s + [x])[|s|] == x;
  }

  /** In the postorder of a tree every node but the top comes before its parent. */
  ghost predicate ParentAfter<A>(m: Mem<A>, s: seq<RbNode<A>>, p: RbNode?<A>, i: nat)
    requires i < |s|
  {
    s[i] in m && if i + 1 == |s| then m[s[i]].parent == p else m[s[i]].parent != null && LaterIn(s, i, m[s[i]].parent)
  }

  lemma {:induction false} ParentLater<A>(m: Mem<A>, k: Ranks<A>, t: Tree<A>, p: RbNode?<A>, lo: real, hi: real, i: nat)
    requires Rep(m, k, t, p, lo, hi) && i < |Postorder(t)|
    ensures ParentAfter(m, Postorder(t), p, i)
    decreases t
  {
    var l, r := Postorder(t.left), Postorder(t.right);
    if i < |l| {
      ParentLater(m, k, t.left, t.n, lo, k[t.n], i);
      InWider(m, [], l, r + [t.n], t.n, p, i);
      assert [] + l + (r + [t.n]) == Postorder(t);
    } else if i < |l| + |r| {
      ParentLater(m, k, t.right, t.n, k[t.n], hi, i - |l|);
      InWider(m, l, r, [t.n], t.n, p, i - |l|);
    }
  }

  /** A subtree's postorder s inside that of the tree whose top n is its parent. */
  lemma InWider<A>(m: Mem<A>, a: seq<RbNode<A>>, s: seq<RbNode<A>>, b: seq<RbNode<A>>, n: RbNode<A>, p: RbNode?<A>,
                   i: nat)
    requires i < |s| && ParentAfter(m, s, n, i) && b != [] && b[|b| - 1] == n
    ensures ParentAfter(m, a + s + b, p, |a| + i)
  {
    if i + 1 < |s| {
      LaterWider(a, s, b, i, m[s[i]].parent);
    } else {
      TopLater(a + s + b[..|b| - 1], |a| + i, n);
      assert a + s + b == (a + s + b[..|b| - 1]) + [n];
    }
  }

  lemma ParentsLater<A>(m: Mem<A>, k: Ranks<A>, t: Tree<A>, p: RbNode?<A>, lo: real, hi: real)
    requires Rep(m, k, t, p, lo, hi)
    ensures forall i :: 0 <= i < |Postorder(t)| ==> ParentAfter(m, Postorder(t), p, i)
  {
    forall i | 0 <= i < |Postorder(t)|
      ensures ParentAfter(m, Postorder(t), p, i)
    {
      ParentLater(m, k, t, p, lo, hi, i);
    }
  }

  /** rbtree_postorder_for_each_entry_safe (rbtree.h:112-125): every node once, after its children. */
  method PostorderWalk<A>(root: RbRoot<A>) returns (visited: seq<RbNode<A>>)
    requires root.Valid()
    ensures visited == Postorder(root.tree) && multiset(visited) == multiset(Inorder(root.tree))
    ensures forall i, j :: 0 <= i < j < |visited| ==> visited[i] != visited[j]
    ensures forall i :: 0 <= i < |visited| ==> ParentAfter(Snapshot(root.repr), visited, null, i)
  {
    PostDistinct(Snapshot(root.repr), root.ranks, root.tree, null, 0.0, 1.0);
    PostorderNodes(root.tree);
    ParentsLater(Snapshot(root.repr), root.ranks, root.tree, null, 0.0, 1.0);
    ghost var s := Postorder(root.tree);
    visited := [];
    var pos := FirstPostorder(root);
    while pos != null
      invariant |visited| <= |s| && visited == s[..|visited|]
      invariant pos == if |visited| < |s| then s[|visited|] else null
      decreases |s| - |visited|
    {
      var n, i := NextPostorder(pos, root);
      visited, pos := visited + [pos], n;
    }
  }
}
