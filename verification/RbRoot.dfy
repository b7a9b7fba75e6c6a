/** struct rb_root and the pointer helpers shared by insertion and erasure. */
module RbRoots {
  import opened RbTree
  import opened RbMemory

  class RbRoot<A> {
    var node: RbNode?<A>
    ghost var repr: set<RbNode<A>>
    ghost var ranks: Ranks<A>
    ghost var tree: Tree<A>

    constructor ()
      ensures Valid() && tree == Leaf && repr == {}
    {
      node, repr, ranks, tree := null, {}, map[], Leaf;
    }

    /** Memory holds Plug(x, t), and the loop is at the top of t. */
    ghost predicate At(x: Ctx<A>, t: Tree<A>)
      reads this, repr
    {
      Focus(Snapshot(repr), ranks, node, x, t)
    }

    ghost predicate Valid()
      reads this, repr
    {
      At(Top, tree) && RedBlack(tree)
    }
  }

  method ChangeChild<A>(o: RbNode<A>, n: RbNode?<A>, parent: RbNode?<A>, root: RbRoot<A>)
    modifies root`node, (if parent == null then {} else {parent})`left, (if parent == null then {} else {parent})`right
    ensures root.node == if parent == null then n else old(root.node)
    ensures parent != null ==> parent.left == if old(parent.left) == o then n else old(parent.left)
    ensures parent != null ==> parent.right == if old(parent.left) == o then old(parent.right) else n
  {
    if parent != null {
      if parent.left == o {
        parent.left := n;
      } else {
        parent.right := n;
      }
    } else {
      root.node := n;
    }
  }

  method RotateSetParents<A>(o: RbNode<A>, n: RbNode<A>, root: RbRoot<A>, c: Color)
    requires o in root.repr && n in root.repr && o != n
    requires o.parent != null ==> o.parent in root.repr && o.parent !in {o, n}
    modifies root`node, root.repr
    ensures Raised(old(Snapshot(root.repr)), Snapshot(root.repr), old(root.node), root.node, o, n, c)
  {
    var parent := o.parent;
    n.parent, n.color := o.parent, o.color;
    o.parent, o.color := n, c;
    ChangeChild(o, n, parent, root);
  }

  /** rb_set_parent_color on the node at the focus, under the parent it already has. */
  method Recolor<A>(n: RbNode<A>, c: Color, root: RbRoot<A>, ghost x: Ctx<A>, ghost t: Tree<A>)
    requires root.At(x, t) && t.Node? && t.n == n
    modifies root.repr
    ensures root.At(x, t.(color := c))
  {
    ghost var m, k := Snapshot(root.repr), root.ranks;
    n.color := c;
    ghost var m' := Snapshot(root.repr);
    Frame(m, m', {n}, k, t.left, n, Lo(k, x), k[n]);
    Frame(m, m', {n}, k, t.right, n, k[n], Hi(k, x));
    FrameCtx(m, m', {n}, k, root.node, x, n);
  }

  /** A node that nothing points at any more leaves the tree; the ranks are then k. */
  ghost method Drop<A>(root: RbRoot<A>, node: RbNode<A>, k: Ranks<A>, x: Ctx<A>, t: Tree<A>)
    requires Focus(Snapshot(root.repr) - {node}, k, root.node, x, t)
    modifies root`repr, root`ranks
    ensures root.At(x, t) && root.repr == old(root.repr) - {node}
  {
    assert Snapshot(root.repr) - {node} == Snapshot(root.repr - {node});
    root.repr, root.ranks := root.repr - {node}, k;
  }

  /** The rebalancing is over: Plug(x, t) is the tree. */
  ghost method Finish<A>(root: RbRoot<A>, x: Ctx<A>, t: Tree<A>)
    requires root.At(x, t) && RedBlack(Plug(x, t))
    modifies root`tree
    ensures root.Valid() && root.tree == Plug(x, t)
  {
    Refocus(Snapshot(root.repr), root.ranks, root.node, x, t);
    root.tree := Plug(x, t);
  }
}
