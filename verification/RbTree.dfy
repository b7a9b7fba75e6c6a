/**
 The red-black trees of reordering_buffer/rbtree.c as values: a tree, a tree with
 one subtree cut out (the path of parents that the C loops climb), the colour
 invariants of rbtree.c:28-38, and what follows from them.
 */
module RbTree {
  import opened Basics

  datatype Color = Red | Black

  /** struct rb_node (rbtree.h:34-38), with the packed word `__rb_parent_color` as two
      fields, and the augmented value that the enclosing struct keeps beside it. */
  class RbNode<A> {
    var left: RbNode?<A>
    var right: RbNode?<A>
    var parent: RbNode?<A>
    var color: Color
    var aug: A

    constructor (a: A)
      ensures aug == a
    {
      left, right, parent, color, aug := null, null, null, Red, a;
    }
  }

  /** `aug` is the value stored in the node, whether or not it is up to date. */
  datatype Tree<A> =
    | Leaf
    | Node(left: Tree<A>, n: RbNode<A>, color: Color, aug: A, right: Tree<A>)

  /** A tree with a hole: `InL(up, n, c, a, r)` is a hole that is n's left child. */
  datatype Ctx<A> =
    | Top
    | InL(up: Ctx<A>, n: RbNode<A>, color: Color, aug: A, right: Tree<A>)
    | InR(up: Ctx<A>, left: Tree<A>, n: RbNode<A>, color: Color, aug: A)

  function Plug<A>(x: Ctx<A>, t: Tree<A>): Tree<A>
    decreases x
  {
    match x
    case Top => t
    case InL(up, n, c, a, r) => Plug(up, Node(t, n, c, a, r))
    case InR(up, l, n, c, a) => Plug(up, Node(l, n, c, a, t))
  }

  /** The subtree at the parent of the hole. */
  function Up<A>(x: Ctx<A>, t: Tree<A>): Tree<A>
    requires !x.Top?
  {
    if x.InL? then Node(t, x.n, x.color, x.aug, x.right) else Node(x.left, x.n, x.color, x.aug, t)
  }

  function Inorder<A>(t: Tree<A>): seq<RbNode<A>> {
    match t
    case Leaf => []
    case Node(l, n, _, _, r) => Inorder(l) + [n] + Inorder(r)
  }

  /** The nodes that come before, and after, the hole. */
  function Before<A>(x: Ctx<A>): seq<RbNode<A>> {
    match x
    case Top => []
    case InL(up, _, _, _, _) => Before(up)
    case InR(up, l, n, _, _) => Before(up) + Inorder(l) + [n]
  }

  function After<A>(x: Ctx<A>): seq<RbNode<A>> {
    match x
    case Top => []
    case InL(up, n, _, _, r) => [n] + Inorder(r) + After(up)
    case InR(up, _, _, _, _) => After(up)
  }

  lemma Regroup<T>(a: seq<T>, b: seq<T>, c: seq<T>, d: seq<T>, e: seq<T>)
    ensures a + (b + c + d) + e == a + b + (c + d + e)
    ensures a + (b + c + d) + e == (a + b + c) + d + e
  {
  }

  lemma {:induction false} InorderPlug<A>(x: Ctx<A>, t: Tree<A>)
    ensures Inorder(Plug(x, t)) == Before(x) + Inorder(t) + After(x)
    decreases x
  {
    match x
    case Top =>
    case InL(up, n, c, a, r) =>
      InorderPlug(up, Node(t, n, c, a, r));
      Regroup(Before(up), Inorder(t), [n], Inorder(r), After(up));
    case InR(up, l, n, c, a) =>
      InorderPlug(up, Node(l, n, c, a, t));
      Regroup(Before(up), Inorder(l), [n], Inorder(t), After(up));
  }

  // ----- where a node is

  /** The place of node n below the hole of x, and the subtree there. */
  ghost function PathTo<A>(x: Ctx<A>, t: Tree<A>, n: RbNode<A>): Ctx<A>
    decreases t
  {
    if t.Leaf? || t.n == n then x
    else if n in Inorder(t.left) then PathTo(InL(x, t.n, t.color, t.aug, t.right), t.left, n)
    else PathTo(InR(x, t.left, t.n, t.color, t.aug), t.right, n)
  }

  ghost function SubtreeAt<A>(t: Tree<A>, n: RbNode<A>): Tree<A> {
    if t.Leaf? || t.n == n then t
    else if n in Inorder(t.left) then SubtreeAt(t.left, n)
    else SubtreeAt(t.right, n)
  }

  lemma {:induction false} PathFinds<A>(x: Ctx<A>, t: Tree<A>, n: RbNode<A>)
    requires n in Inorder(t)
    ensures var s := SubtreeAt(t, n); s.Node? && s.n == n && Plug(PathTo(x, t, n), s) == Plug(x, t)
    decreases t
  {
    if t.n != n {
      if n in Inorder(t.left) {
        PathFinds(InL(x, t.n, t.color, t.aug, t.right), t.left, n);
      } else {
        PathFinds(InR(x, t.left, t.n, t.color, t.aug), t.right, n);
      }
    }
  }

  // ----- colours

  predicate IsRed<A>(t: Tree<A>) { t.Node? && t.color.Red? }

  function Count(c: Color): nat { if c.Black? then 1 else 0 }

  function BlackHeight<A>(t: Tree<A>): nat {
    if t.Leaf? then 0 else BlackHeight(t.left) + Count(t.color)
  }

  /** Properties 4 and 5 of rbtree.c:31-33, without property 2 (black root). */
  predicate Colored<A>(t: Tree<A>) {
    t.Node? ==>
      && Colored(t.left) && Colored(t.right)
      && BlackHeight(t.left) == BlackHeight(t.right)
      && (t.color.Red? ==> !IsRed(t.left) && !IsRed(t.right))
  }

  predicate RedBlack<A>(t: Tree<A>) { Colored(t) && !IsRed(t) }

  predicate RedParent<A>(x: Ctx<A>) { !x.Top? && x.color.Red? }

  /** The context becomes a red-black tree when a tree of black height h is put in the
      hole, except that the tree put there and its parent may both be red. */
  predicate Fits<A>(x: Ctx<A>, h: nat) {
    match x
    case Top => true
    case InL(up, n, c, a, r) =>
      && Colored(r) && BlackHeight(r) == h
      && (c.Red? ==> !IsRed(r) && !RedParent(up) && !up.Top?)
      && Fits(up, h + Count(c))
    case InR(up, l, n, c, a) =>
      && Colored(l) && BlackHeight(l) == h
      && (c.Red? ==> !IsRed(l) && !RedParent(up) && !up.Top?)
      && Fits(up, h + Count(c))
  }

  lemma {:induction false} PlugRedBlack<A>(x: Ctx<A>, t: Tree<A>)
    ensures RedBlack(Plug(x, t)) <==>
      && Colored(t) && Fits(x, BlackHeight(t))
      && (IsRed(t) ==> !x.Top? && !RedParent(x))
    decreases x
  {
    match x
    case Top =>
    case InL(up, n, c, a, r) => PlugRedBlack(up, Node(t, n, c, a, r));
    case InR(up, l, n, c, a) => PlugRedBlack(up, Node(l, n, c, a, t));
  }

  // ----- augmented values (rbtree_augmented.h:61-92)

  /** rbcompute: a node's value from those of its children and its own contents. */
  type Computer<!A> = (Option<A>, RbNode<A>, Option<A>) -> A

  function Compute<A>(f: Computer<A>, l: Option<A>, n: RbNode<A>, r: Option<A>): A { f(l, n, r) }

  function Stored<A>(n: RbNode?<A>): Option<A>
    reads n
  {
    if n == null then None else Some(n.aug)
  }

  function Aug<A>(t: Tree<A>): Option<A> { if t.Leaf? then None else Some(t.aug) }

  /** Every stored value is the one computed from the values stored below it. */
  ghost predicate Augmented<A>(f: Computer<A>, t: Tree<A>) {
    t.Node? ==>
      && Augmented(f, t.left) && Augmented(f, t.right)
      && t.aug == Compute(f, Aug(t.left), t.n, Aug(t.right))
  }

  ghost predicate AugFits<A>(f: Computer<A>, x: Ctx<A>, s: Option<A>) {
    match x
    case Top => true
    case InL(up, n, c, a, r) =>
      Augmented(f, r) && a == Compute(f, s, n, Aug(r)) && AugFits(f, up, Some(a))
    case InR(up, l, n, c, a) =>
      Augmented(f, l) && a == Compute(f, Aug(l), n, s) && AugFits(f, up, Some(a))
  }

  lemma {:induction false} PlugAugmented<A>(f: Computer<A>, x: Ctx<A>, t: Tree<A>)
    ensures Augmented(f, Plug(x, t)) <==> Augmented(f, t) && AugFits(f, x, Aug(t))
    decreases x
  {
    match x
    case Top =>
    case InL(up, n, c, a, r) => PlugAugmented(f, up, Node(t, n, c, a, r));
    case InR(up, l, n, c, a) => PlugAugmented(f, up, Node(l, n, c, a, t));
  }

  /** What the rotate callback relies on: the value of a subtree depends only on the order of its nodes. */
  ghost predicate OrderOnly<A(!new)>(f: Computer<A>, s: set<RbNode<A>>) {
    forall a: Option<A>, m: RbNode<A>, b: Option<A>, n: RbNode<A>, c: Option<A> :: m in s && n in s ==>
      Compute(f, Some(Compute(f, a, m, b)), n, c) == Compute(f, a, m, Some(Compute(f, b, n, c)))
  }

  lemma {:induction false} RecolorKeeps<A>(f: Computer<A>, t: Tree<A>, c: Color)
    requires t.Node?
    ensures Inorder(t.(color := c)) == Inorder(t)
    ensures Augmented(f, t) ==> Augmented(f, t.(color := c))
    ensures Colored(t) ==> Colored(t.(color := Black))
  {
  }

  // ----- rotations of trees

  /** The left child rises; the old top gets colour d and a recomputed value. */
  function RotR<A>(f: Computer<A>, t: Tree<A>, d: Color): Tree<A>
    requires t.Node? && t.left.Node?
  {
    var l := t.left;
    Node(l.left, l.n, t.color, t.aug, Node(l.right, t.n, d, Compute(f, Aug(l.right), t.n, Aug(t.right)), t.right))
  }

  function RotL<A>(f: Computer<A>, t: Tree<A>, d: Color): Tree<A>
    requires t.Node? && t.right.Node?
  {
    var r := t.right;
    Node(Node(t.left, t.n, d, Compute(f, Aug(t.left), t.n, Aug(r.left)), r.left), r.n, t.color, t.aug, r.right)
  }

  lemma {:induction false} RotRInorder<A>(f: Computer<A>, t: Tree<A>, d: Color)
    requires t.Node? && t.left.Node?
    ensures Inorder(RotR(f, t, d)) == Inorder(t)
  {
    var a, b, c := t.left.left, t.left.right, t.right;
    assert Inorder(t) == Inorder(a) + [t.left.n] + Inorder(b) + [t.n] + Inorder(c);
    assert Inorder(RotR(f, t, d).right) == Inorder(b) + [t.n] + Inorder(c);
    Regroup(Inorder(a), [t.left.n], Inorder(b), [t.n], Inorder(c));
  }

  lemma {:induction false} RotLInorder<A>(f: Computer<A>, t: Tree<A>, d: Color)
    requires t.Node? && t.right.Node?
    ensures Inorder(RotL(f, t, d)) == Inorder(t)
  {
    var a, b, c := t.left, t.right.left, t.right.right;
    assert Inorder(t) == Inorder(a) + [t.n] + (Inorder(b) + [t.right.n] + Inorder(c));
    assert Inorder(RotL(f, t, d).left) == Inorder(a) + [t.n] + Inorder(b);
    Regroup(Inorder(a), [t.n], Inorder(b), [t.right.n], Inorder(c));
  }

  /** augment_rotate: handing the top's value to the node that rises is enough. */
  lemma {:induction false} RotRAugmented<A(!new)>(f: Computer<A>, s: set<RbNode<A>>, t: Tree<A>, d: Color)
    requires t.Node? && t.left.Node? && OrderOnly(f, s) && t.n in s && t.left.n in s
    requires Augmented(f, t)
    ensures Augmented(f, RotR(f, t, d))
  {
    var l := t.left;
    assert Augmented(f, l);
    assert Augmented(f, RotR(f, t, d).right);
    assert t.aug == Compute(f, Some(Compute(f, Aug(l.left), l.n, Aug(l.right))), t.n, Aug(t.right));
  }

  lemma {:induction false} RotLAugmented<A(!new)>(f: Computer<A>, s: set<RbNode<A>>, t: Tree<A>, d: Color)
    requires t.Node? && t.right.Node? && OrderOnly(f, s) && t.n in s && t.right.n in s
    requires Augmented(f, t)
    ensures Augmented(f, RotL(f, t, d))
  {
    var r := t.right;
    assert Augmented(f, r);
    assert Augmented(f, RotL(f, t, d).left);
    assert Compute(f, Some(Compute(f, Aug(t.left), t.n, Aug(r.left))), r.n, Aug(r.right)) == t.aug;
  }
}
