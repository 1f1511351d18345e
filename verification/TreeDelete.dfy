/** libds/tree.c: `pull_out` and `tree_delete`. */
module TreeDelete {
  import opened Ordering
  import opened TreeShape
  import opened RedBlackTree
  import opened TreeWalk

  // ----- taking out a node with at most one child -----

  ghost function OnlyChild<T>(s: Shape<T>): Shape<T>
    requires s.Fork?
  {
    if s.left.Fork? then s.left else s.right
  }

  /** The cell of `n` once `current`, whose only child is `next`, has been taken out. */
  ghost function PrunedCell<T>(current: Node<T>, next: Node?<T>, parent: Node?<T>,
                               n: Node<T>, cell: Cell<T>): Cell<T> {
    if n == next then cell.(parent := parent)
    else if n != parent then cell
    else if cell.left == current then cell.(left := next)
    else cell.(right := next)
  }

  lemma {:induction false} PrunedInside<T>(s: Shape<T>, p: Node?<T>, n: Node<T>)
    requires s.Fork? && (s.left.Leaf? || s.right.Leaf?) && Distinct(s)
    requires n in Nodes(s) && n != s.node && n != p
    ensures n in Nodes(OnlyChild(s))
    ensures CellOf(OnlyChild(s), p, n)
         == PrunedCell(s.node, Root(OnlyChild(s)), p, n, CellOf(s, p, n))
  {
  }

  lemma {:induction false} PrunedShape<T>(c: Context<T>, s: Shape<T>)
    requires s.Fork? && (s.left.Leaf? || s.right.Leaf?) && Distinct(Plug(c, s))
    ensures Distinct(Plug(c, OnlyChild(s)))
    ensures Nodes(Plug(c, OnlyChild(s))) == Nodes(Plug(c, s)) - {s.node}
    ensures Root(Plug(c, OnlyChild(s))) == if c.Top? then Root(OnlyChild(s)) else Root(Plug(c, s))
  {
    var r := OnlyChild(s);
    PlugDistinct(c, s); PlugDistinct(c, r);
    PlugNodes(c, s); PlugNodes(c, r);
    if !c.Top? { PlugRoot(c, s, r); }
  }

  lemma {:induction false} PrunedCells<T>(c: Context<T>, s: Shape<T>, n: Node<T>)
    requires s.Fork? && (s.left.Leaf? || s.right.Leaf?) && Distinct(Plug(c, s))
    requires n in Nodes(Plug(c, s)) && n != s.node
    ensures Distinct(Plug(c, OnlyChild(s))) && n in Nodes(Plug(c, OnlyChild(s)))
    ensures CellOf(Plug(c, OnlyChild(s)), null, n)
         == PrunedCell(s.node, Root(OnlyChild(s)), Holder(c), n, CellOf(Plug(c, s), null, n))
  {
    var r := OnlyChild(s);
    PrunedShape(c, s);
    PlugDistinct(c, s);
    PlugNodes(c, s);
    if n in Nodes(s) {
      PrunedInside(s, Holder(c), n);
      CellInside(c, s, n);
      CellInside(c, r, n);
    } else {
      CellOutside(c, s, r, n);
      if n == Holder(c) { HolderCell(c, s); }
      assert Root(r) != null ==> Root(r) in Nodes(s);
    }
  }

  /** With those cells the other nodes are linked as the shape without `s.node` says. */
  lemma {:induction false} PrunedLinks<T>(c: Context<T>, s: Shape<T>, cells: map<Node<T>, Cell<T>>)
    requires s.Fork? && (s.left.Leaf? || s.right.Leaf?) && Distinct(Plug(c, s))
    requires cells.Keys == Nodes(Plug(c, s))
    requires forall n :: n in cells ==> cells[n] == CellOf(Plug(c, s), null, n)
    requires forall n :: n in cells && n != s.node ==>
      Holds(n, PrunedCell(s.node, Root(OnlyChild(s)), Holder(c), n, cells[n]))
    ensures var r := Plug(c, OnlyChild(s));
      && Distinct(r) && Nodes(r) == Nodes(Plug(c, s)) - {s.node}
      && Root(r) == (if c.Top? then Root(OnlyChild(s)) else Root(Plug(c, s)))
      && forall n :: n in Nodes(r) ==> Holds(n, CellOf(r, null, n))
  {
    PrunedShape(c, s);
    hide Distinct, Nodes, Plug, CellOf, Holds, PrunedCell;
    forall n | n in Nodes(Plug(c, OnlyChild(s)))
      ensures Holds(n, CellOf(Plug(c, OnlyChild(s)), null, n))
    {
      PrunedCells(c, s, n);
    }
  }

  /** The nodes `pull_out` touches are different ones. */
  lemma {:induction false} TakenNodes<T>(c: Context<T>, s: Shape<T>)
    requires s.Fork? && Distinct(Plug(c, s))
    ensures s.node in Nodes(Plug(c, s)) && (!c.Top? ==> c.node in Nodes(Plug(c, s)))
    ensures var next := Root(OnlyChild(s));
      && (next != null ==> next in Nodes(Plug(c, s))) && (!c.Top? ==> c.node !in {next, s.node})
  {
    PlugDistinct(c, s);
    PlugNodes(c, s);
    assert OnlyChild(s).Fork? ==> OnlyChild(s).node in Nodes(OnlyChild(s));
  }

  /** The link assignments of `pull_out`, on nodes whose fields are known from `cells`. */
  method Unlink<T(!new)>(tr: Tree<T>, current: Node<T>, next: Node?<T>, ghost cells: map<Node<T>, Cell<T>>)
    requires forall n :: n in cells ==> Holds(n, cells[n])
    requires current in cells && (next != null ==> next in cells)
    requires current.parent != null ==> current.parent in cells && current.parent !in {next, current}
    modifies tr`root, cells.Keys`left, cells.Keys`right, cells.Keys`parent
    ensures tr.root == if old(current.parent) == null then next else old(tr.root)
    ensures forall n :: n in cells && n != current ==>
      Holds(n, PrunedCell(current, next, old(current.parent), n, cells[n]))
  {
    var parent := current.parent;
    if next != null {
      next.parent := parent;
    }
    if parent == null {
      tr.root := next;
    } else if current == parent.left {
      parent.left := next;
    } else {
      parent.right := next;
    }
  }

  /** The part of `pull_out` that takes `current`, a node with at most one child, out of the tree. */
  method TakeOut<T(!new)>(tr: Tree<T>, current: Node<T>, ghost c: Context<T>, ghost s: Shape<T>)
    requires tr.Structured() && tr.shape == Plug(c, s) && s.Fork? && s.node == current
    requires s.left.Leaf? || s.right.Leaf?
    modifies tr`root, tr`shape, tr`repr, tr.repr`left, tr.repr`right, tr.repr`parent
    ensures tr.Structured() && tr.shape == Plug(c, OnlyChild(s))
    ensures current in old(tr.repr) && tr.repr == old(tr.repr) - {current}
  {
    tr.Kin(c, s);
    TakenNodes(c, s);
    var next := if current.left != null then current.left else current.right;
    hide Plug, Nodes, Distinct, CellOf, Holds, PrunedCell;
    ghost var was, nodes := tr.shape, tr.repr;
    ghost var cells := map n | n in nodes :: CellOf(was, null, n);
    Unlink(tr, current, next, cells);
    PrunedLinks(c, s, cells);
    tr.shape, tr.repr := Plug(c, OnlyChild(s)), nodes - {current};
  }

  // ----- moving the data -----

  lemma {:induction false} RefilledCells<T>(c: Context<T>, s: Shape<T>, item: T, n: Node<T>)
    requires s.Fork? && Distinct(Plug(c, s)) && n in Nodes(Plug(c, s))
    ensures Distinct(Plug(c, s.(item := item))) && n in Nodes(Plug(c, s.(item := item)))
    ensures CellOf(Plug(c, s.(item := item)), null, n)
         == var cell := CellOf(Plug(c, s), null, n);
            if n == s.node then cell.(item := item) else cell
  {
    var r := s.(item := item);
    PlugDistinct(c, s); PlugDistinct(c, r);
    PlugNodes(c, s); PlugNodes(c, r);
    if n in Nodes(s) {
      CellInside(c, s, n);
      CellInside(c, r, n);
    } else {
      CellOutside(c, s, r, n);
    }
  }

  method SetData<T(!new)>(tr: Tree<T>, node: Node<T>, data: T, ghost c: Context<T>, ghost s: Shape<T>)
    requires tr.Structured() && tr.shape == Plug(c, s) && s.Fork? && s.node == node
    modifies tr`shape, node`data
    ensures tr.Structured() && tr.shape == Plug(c, s.(item := data))
  {
    ghost var r := s.(item := data);
    PlugDistinct(c, s); PlugDistinct(c, r);
    PlugNodes(c, s); PlugNodes(c, r);
    if !c.Top? { PlugRoot(c, s, r); }
    node.data := data;
    tr.shape := Plug(c, r);
    forall n | n in tr.repr
      ensures Holds(n, CellOf(tr.shape, null, n))
    {
      RefilledCells(c, s, data, n);
    }
  }

  // ----- the successor of a node with two children -----

  ghost function LeftEnd<T>(s: Shape<T>): (e: Shape<T>)
    requires s.Fork?
    ensures e.Fork? && e.left.Leaf?
  {
    if s.left.Leaf? then s else LeftEnd(s.left)
  }

  /** `s` with its first node in order replaced by that node's right subtree. */
  ghost function WithoutFirst<T>(s: Shape<T>): Shape<T>
    requires s.Fork?
  {
    if s.left.Leaf? then s.right else s.(left := WithoutFirst(s.left))
  }

  lemma {:induction false} FirstOf<T>(c: Context<T>, s: Shape<T>) returns (at: Context<T>)
    requires s.Fork?
    ensures Plug(at, LeftEnd(s)) == Plug(c, s)
    ensures Plug(at, LeftEnd(s).right) == Plug(c, WithoutFirst(s))
    ensures InOrder(s) == [LeftEnd(s).item] + InOrder(WithoutFirst(s))
    ensures NodeOrder(s) == [LeftEnd(s).node] + NodeOrder(WithoutFirst(s))
    decreases s
  {
    if s.left.Leaf? {
      at := c;
    } else {
      at := FirstOf(InLeft(s.node, s.item, s.color, s.right, c), s.left);
    }
  }

  lemma {:induction false} SameLengths<T>(s: Shape<T>)
    ensures |InOrder(s)| == |NodeOrder(s)|
  {
    if s.Fork? {
      SameLengths(s.left);
      SameLengths(s.right);
    }
  }

  // ----- pull_out and tree_delete -----

  function Without<A>(s: seq<A>, k: nat): seq<A>
    requires k < |s|
  {
    s[..k] + s[k + 1..]
  }

  lemma SortedWithout<T>(cmp: (T, T) -> int, s: seq<T>, k: nat)
    requires k < |s| && Sorted(cmp, s)
    ensures Sorted(cmp, Without(s, k))
  {
  }

  lemma {:induction false} BeforeLengths<T>(c: Context<T>)
    ensures |Before(c)| == |NodesBefore(c)|
  {
    if !c.Top? {
      BeforeLengths(c.up);
      if c.InRight? { SameLengths(c.left); }
    }
  }

  /** The place of the node of `s` in the order of the whole tree. */
  lemma PlaceOf<T>(c: Context<T>, s: Shape<T>) returns (k: nat)
    requires s.Fork?
    ensures k == |Before(c)| + |InOrder(s.left)|
    ensures k < |InOrder(Plug(c, s))| == |NodeOrder(Plug(c, s))|
    ensures NodeOrder(Plug(c, s))[k] == s.node && InOrder(Plug(c, s))[k] == s.item
  {
    PlugInOrder(c, s);
    PlugNodeOrder(c, s);
    SameLengths(s.left);
    BeforeLengths(c);
    SameLengths(Plug(c, s));
    k := |Before(c)| + |InOrder(s.left)|;
  }

  lemma WithoutMiddle<A>(a: seq<A>, l: seq<A>, x: A, r: seq<A>, b: seq<A>)
    ensures Without(a + (l + [x] + r) + b, |a| + |l|) == a + (l + r) + b
  {
  }

  /** Removing a node with at most one child removes its element. */
  lemma {:induction false} PrunedOrder<T>(c: Context<T>, s: Shape<T>, k: nat)
    requires s.Fork? && (s.left.Leaf? || s.right.Leaf?)
    requires k == |Before(c)| + |InOrder(s.left)| && k < |InOrder(Plug(c, s))|
    ensures InOrder(Plug(c, OnlyChild(s))) == Without(InOrder(Plug(c, s)), k)
  {
    hide Without, Plug;
    PlugInOrder(c, s);
    PlugInOrder(c, OnlyChild(s));
    WithoutMiddle(Before(c), InOrder(s.left), s.item, InOrder(s.right), After(c));
    assert InOrder(OnlyChild(s)) == InOrder(s.left) + InOrder(s.right);
  }

  /** `s` with the data of the successor in its root and the successor gone. */
  ghost function Refilled<T>(s: Shape<T>): Shape<T>
    requires s.Fork? && s.right.Fork?
  {
    s.(item := LeftEnd(s.right).item, right := WithoutFirst(s.right))
  }

  lemma RefilledOrder<T>(s: Shape<T>)
    requires s.Fork? && s.right.Fork?
    ensures InOrder(Refilled(s)) == InOrder(s.left) + InOrder(s.right)
  {
    var at := FirstOf(Top, s.right);
    var rest := InOrder(WithoutFirst(s.right));
    assert InOrder(Refilled(s)) == InOrder(s.left) + [LeftEnd(s.right).item] + rest;
  }

  /** Removing the successor and keeping its data in the node removes the node's own element. */
  lemma {:induction false} ReplacedOrder<T>(c: Context<T>, s: Shape<T>, k: nat)
    requires s.Fork? && s.right.Fork?
    requires k == |Before(c)| + |InOrder(s.left)| && k < |InOrder(Plug(c, s))|
    ensures InOrder(Plug(c, Refilled(s))) == Without(InOrder(Plug(c, s)), k)
  {
    PlugInOrder(c, s);
    PlugInOrder(c, Refilled(s));
    RefilledOrder(s);
    WithoutMiddle(Before(c), InOrder(s.left), s.item, InOrder(s.right), After(c));
  }

  lemma {:induction false} FirstIsNext<T>(c: Context<T>, s: Shape<T>, k: nat)
    requires s.Fork? && s.right.Fork? && k == |Before(c)| + |InOrder(s.left)|
    ensures At(NodeOrder(Plug(c, s)), k + 1) == LeftEnd(s.right).node
  {
    PlugNodeOrder(c, s);
    SameLengths(s.left);
    BeforeLengths(c);
    var at := FirstOf(Top, s.right);
  }

  /** The two-children case of `pull_out`. */
  method TakeSuccessor<T(!new)>(tr: Tree<T>, node: Node<T>, ghost c: Context<T>, ghost s: Shape<T>, ghost k: nat)
    returns (current: Node<T>)
    requires tr.Structured() && tr.shape == Plug(c, s) && s.Fork? && s.node == node
    requires s.left.Fork? && s.right.Fork? && k == |Before(c)| + |InOrder(s.left)|
    modifies tr`root, tr`shape, tr`repr, tr.repr
    ensures tr.Structured() && current in old(tr.repr) && tr.repr == old(tr.repr) - {current}
    ensures tr.shape == Plug(c, Refilled(s))
    ensures current == At(old(NodeOrder(tr.shape)), k + 1)
  {
    ghost var inner := InRight(s.left, s.node, s.item, s.color, c);
    ghost var at := FirstOf(inner, s.right);
    ghost var e := LeftEnd(s.right);
    tr.Kin(c, s);
    tr.Kin(at, e);
    FirstIsNext(c, s, k);
    ghost var j;
    var next;
    next, j := TreeSuccessor(tr, node);
    ghost var i := PlaceOf(c, s);
    if i < j { OrderIsInjective(tr.shape, i, j); } else if j < i { OrderIsInjective(tr.shape, j, i); }
    current := next;
    TakeOut(tr, current, at, e);
    SetData(tr, node, current.data, c, s.(right := WithoutFirst(s.right)));
  }

  /** `pull_out`: the tree loses exactly the element at the place `k` of `node`; the node taken out
      is `node` itself or, when it has two children, its successor. */
  method PullOut<T(!new)>(tr: Tree<T>, node: Node<T>) returns (current: Node<T>, ghost k: nat)
    requires tr.Valid() && node in tr.repr
    modifies tr`root, tr`shape, tr`repr, tr.repr
    ensures tr.Valid() && current in old(tr.repr) && tr.repr == old(tr.repr) - {current}
    ensures k < |old(InOrder(tr.shape))| == |old(NodeOrder(tr.shape))|
    ensures old(NodeOrder(tr.shape))[k] == node
    ensures InOrder(tr.shape) == Without(old(InOrder(tr.shape)), k)
    ensures current == if old(node.left) == null || old(node.right) == null then node
                       else At(old(NodeOrder(tr.shape)), k + 1)
  {
    ghost var c, s := Locate(Top, tr.shape, node);
    tr.Kin(c, s);
    k := PlaceOf(c, s);
    SortedWithout(tr.cmp, InOrder(tr.shape), k);
    if node.left == null || node.right == null {
      PrunedOrder(c, s, k);
      current := node;
      TakeOut(tr, current, c, s);
    } else {
      ReplacedOrder(c, s, k);
      current := TakeSuccessor(tr, node, c, s, k);
    }
  }

  /** `tree_delete`. */
  method TreeDelete<T(!new)>(tr: Tree<T>, node: Node<T>) returns (ghost k: nat)
    requires tr.Valid() && node in tr.repr
    modifies tr`root, tr`shape, tr`repr, tr.repr
    ensures tr.Valid() && |tr.repr| == |old(tr.repr)| - 1 && tr.repr < old(tr.repr)
    ensures k < |old(InOrder(tr.shape))| == |old(NodeOrder(tr.shape))|
    ensures old(NodeOrder(tr.shape))[k] == node
    ensures InOrder(tr.shape) == Without(old(InOrder(tr.shape)), k)
  {
    var current;
    current, k := PullOut(tr, node);
    current.parent, current.left, current.right := null, null, null;
  }
}
