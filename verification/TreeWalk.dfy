/** libds/tree.c: searching a tree and moving through it in order. */
module TreeWalk {
  import opened Basics
  import opened Ordering
  import opened TreeShape
  import opened RedBlackTree

  // ----- heights -----

  /** The number of nodes on the longest path down. */
  ghost function Height<T>(s: Shape<T>): nat {
    match s
    case Leaf => 0
    case Fork(l, _, _, _, r) => 1 + if Height(l) < Height(r) then Height(r) else Height(l)
  }

  lemma {:induction false} GoodHeight<T>(s: Shape<T>, h: nat)
    requires Good(s, h)
    ensures Height(s) <= 2 * h + if IsBlack(s) then 0 else 1
    ensures Pow2(h) <= |InOrder(s)| + 1
  {
    match s
    case Leaf =>
    case Fork(l, _, _, col, r) =>
      var k := if col == Red then h else h - 1;
      GoodHeight(l, k);
      GoodHeight(r, k);
  }

  lemma {:induction false} Pow2Monotone(a: nat, b: nat)
    requires a <= b
    ensures Pow2(a) <= Pow2(b)
    decreases b
  {
    if a < b {
      Pow2Monotone(a, b - 1);
    }
  }

  /** A red-black tree with n nodes and height H satisfies 2^ceil(H/2) <= n + 1. */
  lemma {:induction false} HeightBound<T>(s: Shape<T>)
    requires RedBlack(s)
    ensures Pow2((Height(s) + 1) / 2) <= |InOrder(s)| + 1
  {
    var h: nat :| Good(s, h);
    GoodHeight(s, h);
    Pow2Monotone((Height(s) + 1) / 2, h);
  }

  // ----- searching -----

  /** `search_r`; `steps` counts the comparisons. */
  method SearchR<T(!new)>(node: Node?<T>, cmp: (T, T) -> int, key: T,
                          ghost tr: Tree<T>, ghost c: Context<T>, ghost s: Shape<T>)
    returns (found: Node?<T>, ghost steps: nat)
    requires tr.Valid() && tr.cmp == cmp && tr.shape == Plug(c, s) && node == Root(s)
    ensures found == null <==> forall e :: e in InOrder(s) ==> cmp(key, e) != 0
    ensures found != null ==> found in Nodes(s) && cmp(key, found.data) == 0
    ensures steps <= Height(s)
    decreases s
  {
    if node == null {
      return null, 0;
    }
    tr.Kin(c, s);
    var res := cmp(key, node.data);
    Sides(cmp, key, c, s);
    if res == 0 {
      found, steps := node, 1;
    } else if res < 0 {
      found, steps := SearchR(node.left, cmp, key,
                              tr, InLeft(s.node, s.item, s.color, s.right, c), s.left);
      steps := steps + 1;
    } else {
      found, steps := SearchR(node.right, cmp, key,
                              tr, InRight(s.left, s.node, s.item, s.color, c), s.right);
      steps := steps + 1;
    }
  }

  /** `tree_search`: it finds an equal element exactly when there is one, and in a red-black tree
      it compares at most 2*log2(n + 1) times. */
  method TreeSearch<T(!new)>(tr: Tree<T>, key: T) returns (found: Node?<T>, ghost steps: nat)
    requires tr.Valid()
    ensures found == null <==> forall e :: e in InOrder(tr.shape) ==> tr.cmp(key, e) != 0
    ensures found != null ==> found in tr.repr && tr.cmp(key, found.data) == 0
    ensures RedBlack(tr.shape) ==> Pow2((steps + 1) / 2) <= |InOrder(tr.shape)| + 1
  {
    found, steps := SearchR(tr.root, tr.cmp, key, tr, Top, tr.shape);
    if RedBlack(tr.shape) {
      HeightBound(tr.shape);
      Pow2Monotone((steps + 1) / 2, (Height(tr.shape) + 1) / 2);
    }
  }

  // ----- stepping -----

  /** The node at place `k` of the in-order sequence, if there is one. */
  ghost function At<T>(order: seq<Node<T>>, k: int): Node?<T> {
    if 0 <= k < |order| then order[k] else null
  }

  /** `tree_minimum` below the node of `s`. */
  method TreeMinimum<T(!new)>(ghost tr: Tree<T>, node: Node<T>, ghost c: Context<T>, ghost s: Shape<T>)
    returns (least: Node<T>)
    requires tr.Structured() && tr.shape == Plug(c, s) && s.Fork? && s.node == node
    ensures NodeOrder(s)[0] == least
  {
    least := node;
    ghost var c', s' := c, s;
    tr.Kin(c', s');
    while least.left != null
      invariant tr.shape == Plug(c', s') && s'.Fork? && s'.node == least
      invariant least.left == Root(s'.left)
      invariant NodeOrder(s)[0] == NodeOrder(s')[0]
      decreases s'
    {
      least := least.left;
      c', s' := InLeft(s'.node, s'.item, s'.color, s'.right, c'), s'.left;
      tr.Kin(c', s');
    }
  }

  /** `tree_maximum` below the node of `s`. */
  method TreeMaximum<T(!new)>(ghost tr: Tree<T>, node: Node<T>, ghost c: Context<T>, ghost s: Shape<T>)
    returns (greatest: Node<T>)
    requires tr.Structured() && tr.shape == Plug(c, s) && s.Fork? && s.node == node
    ensures NodeOrder(s)[|NodeOrder(s)| - 1] == greatest
  {
    greatest := node;
    ghost var c', s' := c, s;
    tr.Kin(c', s');
    while greatest.right != null
      invariant tr.shape == Plug(c', s') && s'.Fork? && s'.node == greatest
      invariant greatest.right == Root(s'.right)
      invariant NodeOrder(s)[|NodeOrder(s)| - 1] == NodeOrder(s')[|NodeOrder(s')| - 1]
      decreases s'
    {
      greatest := greatest.right;
      c', s' := InRight(s'.left, s'.node, s'.item, s'.color, c'), s'.right;
      tr.Kin(c', s');
    }
  }

  /** The nodes up to and including those of `s`, when `s` fills `c`. */
  ghost function Through<T>(c: Context<T>, s: Shape<T>): nat {
    |NodesBefore(c)| + |NodeOrder(s)|
  }

  /** Where the nodes of `s` and the nodes just outside it stand in the whole order. */
  lemma {:induction false} OrderAround<T>(c: Context<T>, s: Shape<T>)
    ensures forall k :: 0 <= k < |NodeOrder(s)| ==>
      At(NodeOrder(Plug(c, s)), |NodesBefore(c)| + k) == NodeOrder(s)[k]
    ensures c.InLeft? ==> At(NodeOrder(Plug(c, s)), Through(c, s)) == c.node
    ensures c.InRight? ==> At(NodeOrder(Plug(c, s)), |NodesBefore(c)| - 1) == c.node
    ensures c.Top? ==> |NodesBefore(c)| == 0 && |NodeOrder(Plug(c, s))| == Through(c, s)
  {
    PlugNodeOrder(c, s);
  }

  lemma {:induction false} OrderNodes<T>(s: Shape<T>, n: Node<T>)
    ensures n in NodeOrder(s) <==> n in Nodes(s)
  {
    if s.Fork? {
      OrderNodes(s.left, n);
      OrderNodes(s.right, n);
    }
  }

  /** No node occurs twice in the order, so a node has one place in it. */
  lemma {:induction false} OrderIsInjective<T>(s: Shape<T>, i: int, j: int)
    requires Distinct(s) && 0 <= i < j < |NodeOrder(s)|
    ensures NodeOrder(s)[i] != NodeOrder(s)[j]
  {
    var m := |NodeOrder(s.left)|;
    var ni, nj := NodeOrder(s)[i], NodeOrder(s)[j];
    if j < m {
      OrderIsInjective(s.left, i, j);
    } else if i > m {
      OrderIsInjective(s.right, i - m - 1, j - m - 1);
    } else {
      if i < m {
        assert ni == NodeOrder(s.left)[i];
        OrderNodes(s.left, ni);
      }
      if j > m {
        assert nj == NodeOrder(s.right)[j - m - 1];
        OrderNodes(s.right, nj);
      }
    }
  }

  lemma {:induction false} OnePlace<T>(s: Shape<T>, k: nat)
    requires Distinct(s) && k < |NodeOrder(s)|
    ensures forall j :: At(NodeOrder(s), j) == NodeOrder(s)[k] ==> j == k
  {
    forall j | 0 <= j < |NodeOrder(s)| && j != k
      ensures NodeOrder(s)[j] != NodeOrder(s)[k]
    {
      OrderIsInjective(s, if j < k then j else k, if j < k then k else j);
    }
  }

  /** A node stands between its subtrees. */
  lemma {:induction false} ForkOrder<T>(s: Shape<T>)
    requires s.Fork?
    ensures var n := |NodeOrder(s.left)|;
      && |NodeOrder(s)| == n + 1 + |NodeOrder(s.right)| && NodeOrder(s)[n] == s.node
      && (s.right.Fork? ==> |NodeOrder(s.right)| > 0 && NodeOrder(s)[n + 1] == NodeOrder(s.right)[0])
      && (s.left.Fork? ==> n > 0 && NodeOrder(s)[n - 1] == NodeOrder(s.left)[n - 1])
  {
  }

  /** The loop of `tree_successor`. */
  method ClimbRight<T(!new)>(ghost tr: Tree<T>, node: Node<T>, ghost k: int, ghost c0: Context<T>, ghost s0: Shape<T>)
    returns (next: Node?<T>)
    requires tr.Structured() && tr.shape == Plug(c0, s0) && s0.Fork? && s0.node == node
    requires Through(c0, s0) == k + 1
    ensures At(NodeOrder(tr.shape), k + 1) == next
  {
    var climbed := node;
    ghost var c, s := c0, s0;
    tr.Kin(c, s);
    if !c.Top? { tr.Kin(c.up, Filled(c, s)); }
    next := node.parent;
    while next != null && climbed == next.right
      invariant tr.shape == Plug(c, s) && s.Fork? && s.node == climbed && next == Holder(c)
      invariant Through(c, s) == k + 1
      invariant next != null ==> (climbed == next.right <==> c.InRight?)
      decreases c
    {
      c, s := c.up, Filled(c, s);
      tr.Kin(c, s);
      if !c.Top? { tr.Kin(c.up, Filled(c, s)); }
      climbed := next;
      next := next.parent;
    }
    OrderAround(c, s);
  }

  /** The node after one with a right child. */
  method DownRight<T(!new)>(ghost tr: Tree<T>, node: Node<T>, ghost c: Context<T>, ghost s: Shape<T>)
    returns (next: Node<T>)
    requires tr.Structured() && tr.shape == Plug(c, s) && s.Fork? && s.node == node && node.right != null
    ensures At(NodeOrder(tr.shape), |NodesBefore(c)| + |NodeOrder(s.left)| + 1) == next
  {
    tr.Kin(c, s);
    OrderAround(c, s);
    ForkOrder(s);
    hide NodeOrder, NodesBefore;
    next := TreeMinimum(tr, node.right, InRight(s.left, s.node, s.item, s.color, c), s.right);
    assert NodeOrder(s)[|NodeOrder(s.left)| + 1] == next;
  }

  /** `tree_successor`: the next node in order, NULL after the last; `k` is the place of `node`. */
  method TreeSuccessor<T(!new)>(ghost tr: Tree<T>, node: Node<T>) returns (next: Node?<T>, ghost k: int)
    requires tr.Structured() && node in tr.repr
    ensures At(NodeOrder(tr.shape), k) == node
    ensures At(NodeOrder(tr.shape), k + 1) == next
    ensures forall j :: At(NodeOrder(tr.shape), j) == node ==> At(NodeOrder(tr.shape), j + 1) == next
  {
    ghost var c, s := Locate(Top, tr.shape, node);
    tr.Kin(c, s);
    OrderAround(c, s);
    ForkOrder(s);
    hide NodeOrder, NodesBefore, Plug;
    k := |NodesBefore(c)| + |NodeOrder(s.left)|;
    OnePlace(tr.shape, k);
    if node.right != null {
      next := DownRight(tr, node, c, s);
      return;
    }
    next := ClimbRight(tr, node, k, c, s);
  }

  /** The loop of `tree_predecessor`. */
  method ClimbLeft<T(!new)>(ghost tr: Tree<T>, node: Node<T>, ghost k: int, ghost c0: Context<T>, ghost s0: Shape<T>)
    returns (next: Node?<T>)
    requires tr.Structured() && tr.shape == Plug(c0, s0) && s0.Fork? && s0.node == node
    requires |NodesBefore(c0)| == k
    ensures At(NodeOrder(tr.shape), k - 1) == next
  {
    var climbed := node;
    ghost var c, s := c0, s0;
    tr.Kin(c, s);
    if !c.Top? { tr.Kin(c.up, Filled(c, s)); }
    next := node.parent;
    while next != null && climbed == next.left
      invariant tr.shape == Plug(c, s) && s.Fork? && s.node == climbed && next == Holder(c)
      invariant |NodesBefore(c)| == k
      invariant next != null ==> (climbed == next.left <==> c.InLeft?)
      decreases c
    {
      c, s := c.up, Filled(c, s);
      tr.Kin(c, s);
      if !c.Top? { tr.Kin(c.up, Filled(c, s)); }
      climbed := next;
      next := next.parent;
    }
    OrderAround(c, s);
  }

  /** `tree_predecessor`: the node before in order, NULL before the first. */
  method TreePredecessor<T(!new)>(ghost tr: Tree<T>, node: Node<T>) returns (next: Node?<T>, ghost k: int)
    requires tr.Structured() && node in tr.repr
    ensures At(NodeOrder(tr.shape), k) == node
    ensures At(NodeOrder(tr.shape), k - 1) == next
    ensures forall j :: At(NodeOrder(tr.shape), j) == node ==> At(NodeOrder(tr.shape), j - 1) == next
  {
    ghost var c, s := Locate(Top, tr.shape, node);
    tr.Kin(c, s);
    OrderAround(c, s);
    ForkOrder(s);
    hide NodeOrder, NodesBefore, Plug;
    k := |NodesBefore(c)| + |NodeOrder(s.left)|;
    OnePlace(tr.shape, k);
    if node.left != null {
      next := TreeMaximum(tr, node.left, InLeft(s.node, s.item, s.color, s.right, c), s.left);
      assert NodeOrder(s)[|NodeOrder(s.left)| - 1] == next;
      return;
    }
    next := ClimbLeft(tr, node, k, c, s);
  }

  // ----- whole traversals -----

  /** `tree_predecessor` undoes `tree_successor` and the other way round: whatever place `j` the
      second call finds for the node reached by the first, its neighbour is the node left. */
  lemma {:induction false} StepsAreInverse<T>(s: Shape<T>, node: Node<T>, k: int, next: Node<T>, j: int)
    requires Distinct(s)
    requires At(NodeOrder(s), k) == node && At(NodeOrder(s), j) == next
    ensures At(NodeOrder(s), k + 1) == next <==> At(NodeOrder(s), j - 1) == node
  {
    var order := NodeOrder(s);
    if At(order, k + 1) == next && j != k + 1 {
      if j < k + 1 { OrderIsInjective(s, j, k + 1); } else { OrderIsInjective(s, k + 1, j); }
    }
    if At(order, j - 1) == node && j - 1 != k {
      if j - 1 < k { OrderIsInjective(s, j - 1, k); } else { OrderIsInjective(s, k, j - 1); }
    }
  }

  /** From the minimum on by successors: every node once, in order, and then NULL. */
  method VisitAll<T(!new)>(tr: Tree<T>) returns (visited: seq<Node<T>>)
    requires tr.Structured()
    ensures visited == NodeOrder(tr.shape)
    ensures forall n :: n in visited <==> n in tr.repr
    ensures forall i, j :: 0 <= i < j < |visited| ==> visited[i] != visited[j]
  {
    visited := [];
    forall i, j | 0 <= i < j < |NodeOrder(tr.shape)|
      ensures NodeOrder(tr.shape)[i] != NodeOrder(tr.shape)[j]
    {
      OrderIsInjective(tr.shape, i, j);
    }
    var node := tr.root;
    if node != null {
      node := TreeMinimum(tr, node, Top, tr.shape);
    }
    while node != null
      invariant |visited| <= |NodeOrder(tr.shape)|
      invariant visited == NodeOrder(tr.shape)[..|visited|]
      invariant node == At(NodeOrder(tr.shape), |visited|)
      decreases |NodeOrder(tr.shape)| - |visited|
    {
      visited := visited + [node];
      OrderNodes(tr.shape, node);
      ghost var k;
      node, k := TreeSuccessor(tr, node);
      assert k == |visited| - 1;
    }
    assert visited == NodeOrder(tr.shape);
    forall n: Node<T>
      ensures n in NodeOrder(tr.shape) <==> n in tr.repr
    {
      OrderNodes(tr.shape, n);
    }
  }
}
