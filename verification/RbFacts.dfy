/** What the red-black invariants and the stored values give to a user of the tree. */
module RbFacts {
  import opened Basics
  import opened RbTree
  import opened RbMemory

  // ----- the O(log n) guarantee (rbtree.c:35-38)

  function Height<A>(t: Tree<A>): nat {
    if t.Leaf? then 0 else 1 + (if Height(t.left) > Height(t.right) then Height(t.left) else Height(t.right))
  }

  lemma {:induction false} Exp2Sum(m: nat, n: nat)
    ensures Exp2(m + n) == Exp2(m) * Exp2(n)
  {
    if m > 0 {
      Exp2Sum(m - 1, n);
    }
  }

  lemma {:induction false} Exp2Grows(m: nat, n: nat)
    requires m <= n
    ensures 1 <= Exp2(m) <= Exp2(n)
  {
    if n > 0 {
      Exp2Grows(if m > 0 then m - 1 else 0, n - 1);
    }
  }

  /** No path is longer than twice the number of black nodes on it. */
  lemma {:induction false} LongestPath<A>(t: Tree<A>)
    requires Colored(t)
    ensures Height(t) <= 2 * BlackHeight(t) + (if IsRed(t) then 1 else 0)
  {
    if t.Node? {
      LongestPath(t.left);
      LongestPath(t.right);
    }
  }

  lemma {:induction false} BlackNodes<A>(t: Tree<A>)
    requires Colored(t)
    ensures Exp2(BlackHeight(t)) <= |Inorder(t)| + 1
  {
    if t.Node? {
      BlackNodes(t.left);
      BlackNodes(t.right);
    }
  }

  /** The height of a tree of n nodes is at most 2 log2(n + 1). */
  lemma {:induction false} Logarithmic<A>(t: Tree<A>)
    requires RedBlack(t)
    ensures Exp2(Height(t)) <= (|Inorder(t)| + 1) * (|Inorder(t)| + 1)
  {
    var b, n := Exp2(BlackHeight(t)), |Inorder(t)| + 1;
    LongestPath(t);
    BlackNodes(t);
    Exp2Grows(Height(t), BlackHeight(t) + BlackHeight(t));
    Exp2Sum(BlackHeight(t), BlackHeight(t));
    Squares(b, n);
  }

  lemma Squares(a: nat, b: nat)
    requires a <= b
    ensures a * a <= b * b
  {
    assert a * a <= a * b;
    assert a * b <= b * b;
  }

  // ----- property 5 as it is written (rbtree.c:32-33)

  /** d leads from the top of t to a leaf: true is a step to the right. */
  predicate IsPath<A>(t: Tree<A>, d: seq<bool>) {
    if t.Leaf? then d == [] else d != [] && IsPath(if d[0] then t.right else t.left, d[1..])
  }

  function Blacks<A>(t: Tree<A>, d: seq<bool>): nat
    requires IsPath(t, d)
  {
    if t.Leaf? then 0 else Count(t.color) + Blacks(if d[0] then t.right else t.left, d[1..])
  }

  predicate NoRedRed<A>(t: Tree<A>) {
    t.Node? ==> NoRedRed(t.left) && NoRedRed(t.right) && (t.color.Red? ==> !IsRed(t.left) && !IsRed(t.right))
  }

  lemma {:induction false} ColoredPath<A>(t: Tree<A>, d: seq<bool>)
    requires Colored(t) && IsPath(t, d)
    ensures Blacks(t, d) == BlackHeight(t)
  {
    if t.Node? {
      ColoredPath(if d[0] then t.right else t.left, d[1..]);
    }
  }

  function LeftPath<A>(t: Tree<A>): (d: seq<bool>)
    ensures IsPath(t, d) && Blacks(t, d) == BlackHeight(t)
  {
    if t.Leaf? then [] else [false] + LeftPath(t.left)
  }

  ghost predicate EvenPaths<A>(t: Tree<A>) {
    forall d, e :: IsPath(t, d) && IsPath(t, e) ==> Blacks(t, d) == Blacks(t, e)
  }

  lemma EvenChild<A>(t: Tree<A>, right: bool)
    requires t.Node? && EvenPaths(t)
    ensures EvenPaths(if right then t.right else t.left)
  {
    var c := if right then t.right else t.left;
    forall d, e | IsPath(c, d) && IsPath(c, e)
      ensures Blacks(c, d) == Blacks(c, e)
    {
      var d', e' := [right] + d, [right] + e;
      assert d'[1..] == d && e'[1..] == e;
      assert IsPath(t, d') && IsPath(t, e');
    }
  }

  /** Colored is properties 4 and 5. */
  lemma {:induction false} ColoredMeaning<A>(t: Tree<A>)
    ensures Colored(t) <==> NoRedRed(t) && EvenPaths(t)
  {
    if Colored(t) {
      forall d, e | IsPath(t, d) && IsPath(t, e)
        ensures Blacks(t, d) == Blacks(t, e)
      {
        ColoredPath(t, d);
        ColoredPath(t, e);
      }
    }
    if t.Node? {
      ColoredMeaning(t.left);
      ColoredMeaning(t.right);
      if EvenPaths(t) {
        EvenChild(t, false);
        EvenChild(t, true);
        var d, e := [false] + LeftPath(t.left), [true] + LeftPath(t.right);
        assert d[1..] == LeftPath(t.left) && e[1..] == LeftPath(t.right);
        assert IsPath(t, d) && IsPath(t, e);
        assert Blacks(t, d) == Blacks(t, e);
      }
    }
  }

  // ----- what a stored value is

  /** The value of a sequence of nodes, from the right. */
  ghost function Fold<A>(f: Computer<A>, s: seq<RbNode<A>>, e: Option<A>): Option<A> {
    if s == [] then e else Some(Compute(f, None, s[0], Fold(f, s[1..], e)))
  }

  lemma {:induction false} FoldConcat<A>(f: Computer<A>, s: seq<RbNode<A>>, s': seq<RbNode<A>>, e: Option<A>)
    ensures Fold(f, s + s', e) == Fold(f, s, Fold(f, s', e))
  {
    if s == [] {
      assert s + s' == s';
    } else {
      FoldConcat(f, s[1..], s', e);
      assert (s + s')[1..] == s[1..] + s';
    }
  }

  ghost predicate NodesIn<A>(t: Tree<A>, u: set<RbNode<A>>) {
    t.Node? ==> t.n in u && NodesIn(t.left, u) && NodesIn(t.right, u)
  }

  lemma {:induction false} FoldNode<A>(f: Computer<A>, l: seq<RbNode<A>>, n: RbNode<A>, r: seq<RbNode<A>>, e: Option<A>)
    ensures Fold(f, l + [n] + r, e) == Fold(f, l, Some(Compute(f, None, n, Fold(f, r, e))))
  {
    FoldConcat(f, l + [n], r, e);
    FoldConcat(f, l, [n], Fold(f, r, e));
    assert [n][1..] == [];
  }

  lemma {:induction false} ComputeFolds<A(!new)>(f: Computer<A>, u: set<RbNode<A>>, t: Tree<A>, n: RbNode<A>,
                                                 e: Option<A>)
    requires OrderOnly(f, u) && n in u && NodesIn(t, u) && Augmented(f, t)
    ensures Some(Compute(f, Aug(t), n, e)) == Fold(f, Inorder(t), Some(Compute(f, None, n, e)))
  {
    if t.Node? {
      ComputeFolds(f, u, t.right, n, e);
      ComputeFolds(f, u, t.left, t.n, Some(Compute(f, Aug(t.right), n, e)));
      assert Compute(f, Some(Compute(f, Aug(t.left), t.n, Aug(t.right))), n, e)
          == Compute(f, Aug(t.left), t.n, Some(Compute(f, Aug(t.right), n, e)));
      FoldNode(f, Inorder(t.left), t.n, Inorder(t.right), Some(Compute(f, None, n, e)));
    }
  }

  /** A stored value depends only on the nodes of its subtree, in order: no rebalancing can change it. */
  lemma {:induction false} StoredIsFold<A(!new)>(f: Computer<A>, u: set<RbNode<A>>, t: Tree<A>)
    requires OrderOnly(f, u) && NodesIn(t, u) && Augmented(f, t)
    ensures Aug(t) == Fold(f, Inorder(t), None)
  {
    if t.Node? {
      StoredIsFold(f, u, t.right);
      ComputeFolds(f, u, t.left, t.n, Aug(t.right));
      FoldNode(f, Inorder(t.left), t.n, Inorder(t.right), None);
    }
  }

  // ----- no node is in the tree twice

  lemma {:induction false} RanksIncrease<A>(m: Mem<A>, k: Ranks<A>, t: Tree<A>, p: RbNode?<A>, lo: real, hi: real)
    requires Rep(m, k, t, p, lo, hi)
    ensures forall n :: n in Inorder(t) ==> n in m && Within(k, n, lo, hi)
    ensures forall i, j :: 0 <= i < j < |Inorder(t)| ==> Inorder(t)[i] != Inorder(t)[j]
  {
    if t.Node? {
      RanksIncrease(m, k, t.left, t.n, lo, k[t.n]);
      RanksIncrease(m, k, t.right, t.n, k[t.n], hi);
      var l, r := Inorder(t.left), Inorder(t.right);
      assert forall i :: 0 <= i < |Inorder(t)| ==>
        Inorder(t)[i] == if i < |l| then l[i] else if i == |l| then t.n else r[i - |l| - 1];
      assert forall i :: 0 <= i < |l| ==> l[i] in l;
      assert forall i :: 0 <= i < |r| ==> r[i] in r;
    }
  }
}
