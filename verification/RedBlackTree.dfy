/** libds/tree.c: the binary search tree with parent pointers and its red-black insertion. */
module RedBlackTree {
  import opened Ordering
  import opened TreeShape

  // ----- what the two rotations do to a shape -----

  ghost function RotatedLeft<T>(s: Shape<T>): (r: Shape<T>)
    requires s.Fork?
  {
    match s.right
    case Leaf => s
    case Fork(b, n, x, col, d) => Fork(Fork(s.left, s.node, s.item, s.color, b), n, x, col, d)
  }

  ghost function RotatedRight<T>(s: Shape<T>): (r: Shape<T>)
    requires s.Fork?
  {
    match s.left
    case Leaf => s
    case Fork(a, n, x, col, b) => Fork(a, n, x, col, Fork(b, s.node, s.item, s.color, s.right))
  }

  /** Replacing the tree at the hole by one with the same nodes in the same order. */
  lemma {:induction false} SameOrder<T>(c: Context<T>, s: Shape<T>, r: Shape<T>)
    requires r.Fork? && InOrder(r) == InOrder(s) && Nodes(r) == Nodes(s) && Distinct(r)
    requires Distinct(Plug(c, s))
    ensures InOrder(Plug(c, r)) == InOrder(Plug(c, s))
    ensures Nodes(Plug(c, r)) == Nodes(Plug(c, s))
    ensures Distinct(Plug(c, r))
    ensures Root(Plug(c, r)) == if c.Top? then r.node else Root(Plug(c, s))
  {
    PlugInOrder(c, s); PlugInOrder(c, r);
    PlugNodes(c, s); PlugNodes(c, r);
    PlugDistinct(c, s); PlugDistinct(c, r);
    if !c.Top? { PlugRoot(c, s, r); }
  }

  /** The nodes a rotation touches are different ones. */
  lemma {:induction false} LeftRotationNodes<T>(c: Context<T>, s: Shape<T>)
    requires s.Fork? && Distinct(Plug(c, s))
    ensures Distinct(s) && s.node in Nodes(Plug(c, s)) && (!c.Top? ==> c.node in Nodes(Plug(c, s)))
    ensures s.right.Fork? ==> var y, b := s.right.node, Root(s.right.left);
      && y in Nodes(s) && y in Nodes(Plug(c, s)) && (b != null ==> b in Nodes(Plug(c, s)))
      && s.node != y && s.node != b && y != b && (!c.Top? ==> c.node !in {s.node, y, b})
  {
    PlugDistinct(c, s);
    PlugNodes(c, s);
    if s.right.Fork? {
      assert Distinct(s.right);
      assert s.right.left.Fork? ==> s.right.left.node in Nodes(s.right.left);
    }
  }

  lemma {:induction false} RotatedLeftOrder<T>(s: Shape<T>)
    requires s.Fork? && Distinct(s)
    ensures InOrder(RotatedLeft(s)) == InOrder(s)
    ensures Nodes(RotatedLeft(s)) == Nodes(s) && Distinct(RotatedLeft(s))
  {
    if s.right.Fork? {
      assert Distinct(s.right);
    }
  }

  /** The nodes a rotation touches are different ones. */
  lemma {:induction false} RightRotationNodes<T>(c: Context<T>, s: Shape<T>)
    requires s.Fork? && Distinct(Plug(c, s))
    ensures Distinct(s) && s.node in Nodes(Plug(c, s)) && (!c.Top? ==> c.node in Nodes(Plug(c, s)))
    ensures s.left.Fork? ==> var y, b := s.left.node, Root(s.left.right);
      && y in Nodes(s) && y in Nodes(Plug(c, s)) && (b != null ==> b in Nodes(Plug(c, s)))
      && s.node != y && s.node != b && y != b && (!c.Top? ==> c.node !in {s.node, y, b})
  {
    PlugDistinct(c, s);
    PlugNodes(c, s);
    if s.left.Fork? {
      assert Distinct(s.left);
      assert s.left.right.Fork? ==> s.left.right.node in Nodes(s.left.right);
    }
  }

  lemma {:induction false} RotatedRightOrder<T>(s: Shape<T>)
    requires s.Fork? && Distinct(s)
    ensures InOrder(RotatedRight(s)) == InOrder(s)
    ensures Nodes(RotatedRight(s)) == Nodes(s) && Distinct(RotatedRight(s))
  {
    if s.left.Fork? {
      assert Distinct(s.left);
    }
  }

  /** The cell of `n` after `x` has been rotated left around its right child `y`; `b` is the tree
      that changes sides and `p` the former parent of `x`. */
  ghost function LeftRotatedCell<T>(x: Node<T>, y: Node<T>, b: Node?<T>, p: Node?<T>,
                                    n: Node<T>, cell: Cell<T>): Cell<T> {
    if n == x then cell.(right := b, parent := y)
    else if n == y then cell.(left := x, parent := p)
    else if n == b then cell.(parent := x)
    else if n != p then cell
    else if cell.left == x then cell.(left := y)
    else cell.(right := y)
  }

  lemma {:induction false} LeftRotatedInside<T>(p: Node?<T>, s: Shape<T>, n: Node<T>)
    requires s.Fork? && s.right.Fork? && Distinct(s) && n in Nodes(s)
    requires p == null || p !in Nodes(s)
    ensures n in Nodes(RotatedLeft(s))
    ensures CellOf(RotatedLeft(s), p, n)
         == LeftRotatedCell(s.node, s.right.node, Root(s.right.left), p, n, CellOf(s, p, n))
  {
    var y, b := s.right, s.right.left;
    assert Distinct(y);
    assert Nodes(y) == Nodes(b) + {y.node} + Nodes(y.right);
    assert Root(b) != null ==> Root(b) in Nodes(b);
    if n in Nodes(s.left) {
      assert n !in Nodes(y);
    } else if n in Nodes(b) {
      assert CellOf(RotatedLeft(s), p, n) == CellOf(b, s.node, n);
      assert CellOf(y, s.node, n) == CellOf(b, y.node, n);
    } else if n in Nodes(y.right) {
      assert n !in Nodes(b);
    }
  }

  lemma {:induction false} LeftRotatedCells<T>(c: Context<T>, s: Shape<T>, n: Node<T>)
    requires s.Fork? && s.right.Fork? && Distinct(Plug(c, s)) && n in Nodes(Plug(c, s))
    ensures Distinct(Plug(c, RotatedLeft(s))) && n in Nodes(Plug(c, RotatedLeft(s)))
    ensures CellOf(Plug(c, RotatedLeft(s)), null, n)
         == LeftRotatedCell(s.node, s.right.node, Root(s.right.left), Holder(c), n,
                            CellOf(Plug(c, s), null, n))
  {
    PlugDistinct(c, s);
    PlugNodes(c, s);
    RotatedLeftOrder(s);
    SameOrder(c, s, RotatedLeft(s));
    if n in Nodes(s) {
      LeftRotatedInside(Holder(c), s, n);
      CellInside(c, s, n);
      CellInside(c, RotatedLeft(s), n);
    } else {
      CellOutside(c, s, RotatedLeft(s), n);
      if n == Holder(c) { HolderCell(c, s); }
      assert Root(s.right.left) != null ==> Root(s.right.left) in Nodes(s.right.left);
    }
  }

  /** With those cells the nodes are linked as the rotated shape says. */
  lemma {:induction false} LeftRotatedLinks<T>(c: Context<T>, s: Shape<T>, cells: map<Node<T>, Cell<T>>)
    requires s.Fork? && s.right.Fork? && Distinct(Plug(c, s)) && cells.Keys == Nodes(Plug(c, s))
    requires forall n :: n in cells ==> cells[n] == CellOf(Plug(c, s), null, n)
    requires forall n :: n in cells ==>
      Holds(n, LeftRotatedCell(s.node, s.right.node, Root(s.right.left), Holder(c), n, cells[n]))
    ensures var r := Plug(c, RotatedLeft(s));
      && Distinct(r) && Nodes(r) == Nodes(Plug(c, s)) && InOrder(r) == InOrder(Plug(c, s))
      && Root(r) == (if c.Top? then s.right.node else Root(Plug(c, s)))
      && forall n :: n in Nodes(r) ==> Holds(n, CellOf(r, null, n))
  {
    PlugDistinct(c, s);
    PlugNodes(c, s);
    RotatedLeftOrder(s);
    SameOrder(c, s, RotatedLeft(s));
    hide Distinct, Nodes, InOrder, Plug, CellOf, Holds, LeftRotatedCell;
    forall n | n in Nodes(Plug(c, RotatedLeft(s)))
      ensures Holds(n, CellOf(Plug(c, RotatedLeft(s)), null, n))
    {
      LeftRotatedCells(c, s, n);
    }
  }

  /** The cell of `n` after `x` has been rotated right around its left child `y`. */
  ghost function RightRotatedCell<T>(x: Node<T>, y: Node<T>, b: Node?<T>, p: Node?<T>,
                                     n: Node<T>, cell: Cell<T>): Cell<T> {
    if n == x then cell.(left := b, parent := y)
    else if n == y then cell.(right := x, parent := p)
    else if n == b then cell.(parent := x)
    else if n != p then cell
    else if cell.left == x then cell.(left := y)
    else cell.(right := y)
  }

  lemma {:induction false} RightRotatedInside<T>(p: Node?<T>, s: Shape<T>, n: Node<T>)
    requires s.Fork? && s.left.Fork? && Distinct(s) && n in Nodes(s)
    requires p == null || p !in Nodes(s)
    ensures n in Nodes(RotatedRight(s))
    ensures CellOf(RotatedRight(s), p, n)
         == RightRotatedCell(s.node, s.left.node, Root(s.left.right), p, n, CellOf(s, p, n))
  {
    var y, b := s.left, s.left.right;
    assert Distinct(y);
    assert Nodes(y) == Nodes(y.left) + {y.node} + Nodes(b);
    assert Root(b) != null ==> Root(b) in Nodes(b);
    if n in Nodes(s.right) {
      assert n !in Nodes(y);
    } else if n in Nodes(b) {
      assert CellOf(RotatedRight(s), p, n) == CellOf(b, s.node, n);
      assert CellOf(y, s.node, n) == CellOf(b, y.node, n);
    } else if n in Nodes(y.left) {
      assert n !in Nodes(b);
    }
  }

  lemma {:induction false} RightRotatedCells<T>(c: Context<T>, s: Shape<T>, n: Node<T>)
    requires s.Fork? && s.left.Fork? && Distinct(Plug(c, s)) && n in Nodes(Plug(c, s))
    ensures Distinct(Plug(c, RotatedRight(s))) && n in Nodes(Plug(c, RotatedRight(s)))
    ensures CellOf(Plug(c, RotatedRight(s)), null, n)
         == RightRotatedCell(s.node, s.left.node, Root(s.left.right), Holder(c), n,
                             CellOf(Plug(c, s), null, n))
  {
    PlugDistinct(c, s);
    PlugNodes(c, s);
    RotatedRightOrder(s);
    SameOrder(c, s, RotatedRight(s));
    if n in Nodes(s) {
      RightRotatedInside(Holder(c), s, n);
      CellInside(c, s, n);
      CellInside(c, RotatedRight(s), n);
    } else {
      CellOutside(c, s, RotatedRight(s), n);
      if n == Holder(c) { HolderCell(c, s); }
      assert Root(s.left.right) != null ==> Root(s.left.right) in Nodes(s.left.right);
    }
  }

  /** With those cells the nodes are linked as the rotated shape says. */
  lemma {:induction false} RightRotatedLinks<T>(c: Context<T>, s: Shape<T>, cells: map<Node<T>, Cell<T>>)
    requires s.Fork? && s.left.Fork? && Distinct(Plug(c, s)) && cells.Keys == Nodes(Plug(c, s))
    requires forall n :: n in cells ==> cells[n] == CellOf(Plug(c, s), null, n)
    requires forall n :: n in cells ==>
      Holds(n, RightRotatedCell(s.node, s.left.node, Root(s.left.right), Holder(c), n, cells[n]))
    ensures var r := Plug(c, RotatedRight(s));
      && Distinct(r) && Nodes(r) == Nodes(Plug(c, s)) && InOrder(r) == InOrder(Plug(c, s))
      && Root(r) == (if c.Top? then s.left.node else Root(Plug(c, s)))
      && forall n :: n in Nodes(r) ==> Holds(n, CellOf(r, null, n))
  {
    PlugDistinct(c, s);
    PlugNodes(c, s);
    RotatedRightOrder(s);
    SameOrder(c, s, RotatedRight(s));
    hide Distinct, Nodes, InOrder, Plug, CellOf, Holds, RightRotatedCell;
    forall n | n in Nodes(Plug(c, RotatedRight(s)))
      ensures Holds(n, CellOf(Plug(c, RotatedRight(s)), null, n))
    {
      RightRotatedCells(c, s, n);
    }
  }

  // ----- recolouring, and hanging a new leaf -----

  lemma {:induction false} RecoloredCells<T>(c: Context<T>, s: Shape<T>, col: Color, n: Node<T>)
    requires s.Fork? && Distinct(Plug(c, s)) && n in Nodes(Plug(c, s))
    ensures Distinct(Plug(c, s.(color := col))) && n in Nodes(Plug(c, s.(color := col)))
    ensures CellOf(Plug(c, s.(color := col)), null, n)
         == var cell := CellOf(Plug(c, s), null, n);
            if n == s.node then cell.(color := col) else cell
  {
    var r := s.(color := col);
    PlugDistinct(c, s);
    PlugDistinct(c, r);
    PlugNodes(c, s);
    if n in Nodes(s) {
      CellInside(c, s, n);
      CellInside(c, r, n);
    } else {
      CellOutside(c, s, r, n);
    }
  }

  lemma {:induction false} GrownCells<T>(c: Context<T>, s: Shape<T>, n: Node<T>)
    requires s.Fork? && s.left.Leaf? && s.right.Leaf?
    requires Distinct(Plug(c, Leaf)) && s.node !in ContextNodes(c)
    requires n == s.node || n in Nodes(Plug(c, Leaf))
    ensures Distinct(Plug(c, s)) && n in Nodes(Plug(c, s))
    ensures Root(Plug(c, s)) == if c.Top? then s.node else Root(Plug(c, Leaf))
    ensures CellOf(Plug(c, s), null, n)
         == if n == s.node then Cell(null, null, Holder(c), s.item, s.color)
            else Redirect(c, n, CellOf(Plug(c, Leaf), null, n), s.node)
  {
    var none: Shape<T> := Leaf;
    PlugDistinct(c, none);
    PlugDistinct(c, s);
    PlugNodes(c, none);
    if !c.Top? { PlugRoot(c, s, none); }
    if n == s.node {
      CellInside(c, s, n);
    } else {
      CellOutside(c, none, s, n);
    }
  }

  lemma {:induction false} Locate<T>(c: Context<T>, s: Shape<T>, n: Node<T>)
    returns (at: Context<T>, sub: Shape<T>)
    requires n in Nodes(s)
    ensures Plug(at, sub) == Plug(c, s)
    ensures sub.Fork? && sub.node == n
    decreases s
  {
    if s.node == n {
      at, sub := c, s;
    } else if n in Nodes(s.left) {
      at, sub := Locate(InLeft(s.node, s.item, s.color, s.right, c), s.left, n);
    } else {
      at, sub := Locate(InRight(s.left, s.node, s.item, s.color, c), s.right, n);
    }
  }

  // ----- where a new element goes -----

  /** `x` belongs into the hole of `c`: everything left of the hole is at most `x`, everything
      right of it is greater. */
  ghost predicate Belongs<T>(cmp: (T, T) -> int, x: T, c: Context<T>) {
    && (forall e :: e in Before(c) ==> cmp(x, e) >= 0)
    && (forall e :: e in After(c) ==> cmp(x, e) < 0)
  }

  /** How the two sides of a node compare with `x`. */
  lemma {:induction false} Sides<T(!new)>(cmp: (T, T) -> int, x: T, c: Context<T>, s: Shape<T>)
    requires TotalPreorder(cmp) && Sorted(cmp, InOrder(Plug(c, s))) && s.Fork?
    ensures cmp(x, s.item) >= 0 ==> forall e :: e in InOrder(s.left) ==> cmp(x, e) >= 0
    ensures cmp(x, s.item) > 0 ==> forall e :: e in InOrder(s.left) ==> cmp(x, e) > 0
    ensures cmp(x, s.item) < 0 ==> forall e :: e in InOrder(s.right) ==> cmp(x, e) < 0
  {
    PlugInOrder(c, s);
    SortedMiddle(cmp, Before(c), InOrder(s), After(c));
    SortedAround(cmp, InOrder(s.left), s.item, InOrder(s.right), x);
  }

  /** One comparison on the way down: the new element belongs into the side the test chooses. */
  lemma {:induction false} BelongsBelow<T(!new)>(cmp: (T, T) -> int, x: T, c: Context<T>, s: Shape<T>)
    requires TotalPreorder(cmp) && Sorted(cmp, InOrder(Plug(c, s)))
    requires s.Fork? && Belongs(cmp, x, c)
    ensures cmp(x, s.item) < 0 ==> Belongs(cmp, x, InLeft(s.node, s.item, s.color, s.right, c))
    ensures cmp(x, s.item) >= 0 ==> Belongs(cmp, x, InRight(s.left, s.node, s.item, s.color, c))
  {
    Sides(cmp, x, c, s);
  }

  lemma {:induction false} InsertedWhereItBelongs<T(!new)>(cmp: (T, T) -> int, c: Context<T>, s: Shape<T>)
    requires TotalPreorder(cmp) && Sorted(cmp, InOrder(Plug(c, Leaf)))
    requires s.Fork? && s.left.Leaf? && s.right.Leaf? && Belongs(cmp, s.item, c)
    ensures InsertedAfterEqual(cmp, InOrder(Plug(c, Leaf)), s.item, InOrder(Plug(c, s)))
    ensures Sorted(cmp, InOrder(Plug(c, s)))
  {
    var none: Shape<T> := Leaf;
    PlugInOrder(c, none);
    PlugInOrder(c, s);
    var before := InOrder(Plug(c, none));
    assert before[..|Before(c)|] == Before(c) && before[|Before(c)|..] == After(c);
    assert InOrder(s) == [s.item];
    assert InsertedAt(cmp, before, s.item, InOrder(Plug(c, s)), |Before(c)|);
    InsertedIsSorted(cmp, before, s.item, InOrder(Plug(c, s)));
  }

  function RbColor<T>(node: Node?<T>): Color
    reads node
  {
    if node == null then Black else node.color
  }

  /** The hole is an inner grandchild. */
  ghost predicate Inner<T>(c: Context<T>) {
    (c.InRight? && c.up.InLeft?) || (c.InLeft? && c.up.InRight?)
  }

  lemma {:induction false} RootIsAbove<T>(c: Context<T>, s: Shape<T>)
    requires !c.Top?
    ensures Root(Plug(c, s)) in ContextNodes(c)
    decreases c
  {
    if !c.up.Top? {
      RootIsAbove(c.up, Filled(c, s));
    }
  }

  class Tree<T(!new)> {
    const cmp: (T, T) -> int
    var root: Node?<T>
    ghost var shape: Shape<T>
    ghost var repr: set<Node<T>>

    /** The pointers spell out `shape`. */
    ghost predicate Structured()
      reads this, repr
    {
      && root == Root(shape) && Distinct(shape) && repr == Nodes(shape)
      && forall n :: n in repr ==> Holds(n, CellOf(shape, null, n))
    }

    ghost predicate Valid()
      reads this, repr
    {
      Structured() && TotalPreorder(cmp) && Sorted(cmp, InOrder(shape))
    }

    constructor (cmp: (T, T) -> int)
      requires TotalPreorder(cmp)
      ensures Valid() && RedBlack(shape)
      ensures InOrder(shape) == [] && this.cmp == cmp
    {
      this.cmp := cmp;
      root := null;
      shape := Leaf;
      repr := {};
      new;
      assert Good(shape, 0);
    }

    /** The assignments of `left_rotate`, on nodes whose fields are known from `cells`. */
    method LinkLeft(node: Node<T>, right: Node<T>, ghost cells: map<Node<T>, Cell<T>>)
      requires forall n :: n in cells ==> Holds(n, cells[n])
      requires node in cells && right in cells && node.right == right
      requires right.left != null ==> right.left in cells
      requires node.parent != null ==> node.parent in cells
      requires node != right && node != right.left && right != right.left
      requires node.parent !in {node, right, right.left} || node.parent == null
      modifies this`root, cells.Keys`left, cells.Keys`right, cells.Keys`parent
      ensures root == if old(node.parent) == null then right else old(root)
      ensures forall n :: n in cells ==>
        Holds(n, LeftRotatedCell(node, right, old(right.left), old(node.parent), n, cells[n]))
    {
      ghost var p := node.parent;
      node.right := right.left;
      if right.left != null {
        right.left.parent := node;
      }
      right.parent := node.parent;
      assert node.parent == p;
      if node.parent == null {
        root := right;
      } else if node.parent.left == node {
        node.parent.left := right;
      } else {
        node.parent.right := right;
      }
      right.left := node;
      node.parent := right;
      forall n | n in cells
        ensures Holds(n, LeftRotatedCell(node, right, old(right.left), p, n, cells[n]))
      {
        if n == node {
        } else if n == right {
        } else if n == old(right.left) {
        } else if n == p {
        }
      }
    }

    method LeftRotate(node: Node<T>, ghost c: Context<T>, ghost s: Shape<T>)
      requires Structured()
      requires shape == Plug(c, s) && s.Fork? && s.node == node
      modifies this, repr`left, repr`right, repr`parent, repr`color
      ensures Structured() && shape == Plug(c, RotatedLeft(s))
      ensures InOrder(shape) == old(InOrder(shape)) && repr == old(repr)
    {
      LeftRotationNodes(c, s);
      CellInside(c, s, node);
      assert Holds(node, CellOf(shape, null, node));
      var right := node.right;
      if right == null {
        return;
      }
      CellInside(c, s, right);
      assert Holds(right, CellOf(shape, null, right));
      ghost var cells := map n | n in Nodes(shape) :: CellOf(shape, null, n);
      LinkLeft(node, right, cells);
      LeftRotatedLinks(c, s, cells);
      shape := Plug(c, RotatedLeft(s));
    }

    /** The assignments of `right_rotate`, on nodes whose fields are known from `cells`. */
    method LinkRight(node: Node<T>, left: Node<T>, ghost cells: map<Node<T>, Cell<T>>)
      requires forall n :: n in cells ==> Holds(n, cells[n])
      requires node in cells && left in cells && node.left == left
      requires left.right != null ==> left.right in cells
      requires node.parent != null ==> node.parent in cells
      requires node != left && node != left.right && left != left.right
      requires node.parent !in {node, left, left.right} || node.parent == null
      modifies this`root, cells.Keys`left, cells.Keys`right, cells.Keys`parent
      ensures root == if old(node.parent) == null then left else old(root)
      ensures forall n :: n in cells ==>
        Holds(n, RightRotatedCell(node, left, old(left.right), old(node.parent), n, cells[n]))
    {
      ghost var p := node.parent;
      node.left := left.right;
      if left.right != null {
        left.right.parent := node;
      }
      left.parent := node.parent;
      assert node.parent == p;
      if node.parent == null {
        root := left;
      } else if node.parent.left == node {
        node.parent.left := left;
      } else {
        node.parent.right := left;
      }
      left.right := node;
      node.parent := left;
      forall n | n in cells
        ensures Holds(n, RightRotatedCell(node, left, old(left.right), p, n, cells[n]))
      {
        if n == node {
        } else if n == left {
        } else if n == old(left.right) {
        } else if n == p {
        }
      }
    }

    method RightRotate(node: Node<T>, ghost c: Context<T>, ghost s: Shape<T>)
      requires Structured()
      requires shape == Plug(c, s) && s.Fork? && s.node == node
      modifies this, repr`left, repr`right, repr`parent, repr`color
      ensures Structured() && shape == Plug(c, RotatedRight(s))
      ensures InOrder(shape) == old(InOrder(shape)) && repr == old(repr)
    {
      RightRotationNodes(c, s);
      CellInside(c, s, node);
      assert Holds(node, CellOf(shape, null, node));
      var left := node.left;
      if left == null {
        return;
      }
      CellInside(c, s, left);
      assert Holds(left, CellOf(shape, null, left));
      ghost var cells := map n | n in Nodes(shape) :: CellOf(shape, null, n);
      LinkRight(node, left, cells);
      RightRotatedLinks(c, s, cells);
      shape := Plug(c, RotatedRight(s));
    }

    /** One colour assignment. */
    method SetColor(node: Node<T>, color: Color, ghost c: Context<T>, ghost s: Shape<T>)
      requires Structured()
      requires shape == Plug(c, s) && s.Fork? && s.node == node
      modifies this`shape, node`color
      ensures Structured() && shape == Plug(c, s.(color := color))
      ensures InOrder(shape) == old(InOrder(shape)) && repr == old(repr)
    {
      ghost var r := s.(color := color);
      PlugDistinct(c, s);
      PlugNodes(c, s);
      SameOrder(c, s, r);
      ghost var before := shape;
      node.color := color;
      shape := Plug(c, r);
      forall n | n in Nodes(shape)
        ensures Holds(n, CellOf(shape, null, n))
      {
        RecoloredCells(c, s, color, n);
      }
    }

    /** Hang `node` below `parent`, on the side the comparison says. */
    method LinkLeaf(node: Node<T>, parent: Node?<T>, ghost cells: map<Node<T>, Cell<T>>)
      requires forall n :: n in cells ==> Holds(n, cells[n])
      requires node !in cells && (parent != null ==> parent in cells)
      modifies this`root, cells.Keys`left, cells.Keys`right, node`parent
      ensures root == if parent == null then node else old(root)
      ensures node.parent == parent
      ensures forall n :: n in cells ==> Holds(n,
        if n != parent then cells[n]
        else if cmp(node.data, cells[n].item) < 0 then cells[n].(left := node)
        else cells[n].(right := node))
    {
      node.parent := parent;
      if parent == null {
        root := node;
      } else if cmp(node.data, parent.data) < 0 {
        parent.left := node;
      } else {
        parent.right := node;
      }
    }

    /** The descent of `tree_insert`: `c` is the empty place where `data` belongs. */
    method Descend(data: T) returns (parent: Node?<T>, ghost c: Context<T>)
      requires Valid()
      ensures Plug(c, Leaf) == shape && parent == Holder(c)
      ensures Belongs(cmp, data, c)
      ensures !c.Top? ==> (c.InLeft? <==> cmp(data, c.item) < 0)
    {
      parent := null;
      var current := root;
      c := Top;
      ghost var s := shape;
      while current != null
        invariant Structured()
        invariant Plug(c, s) == shape && current == Root(s) && parent == Holder(c)
        invariant Belongs(cmp, data, c)
        invariant !c.Top? ==> (c.InLeft? <==> cmp(data, c.item) < 0)
        decreases s
      {
        CellInside(c, s, current);
        assert Holds(current, CellOf(shape, null, current));
        BelongsBelow(cmp, data, c, s);
        parent := current;
        if cmp(data, current.data) < 0 {
          current := current.left;
          c, s := InLeft(s.node, s.item, s.color, s.right, c), s.left;
        } else {
          current := current.right;
          c, s := InRight(s.left, s.node, s.item, s.color, c), s.right;
        }
      }
    }

    /** The links are those of `cells` with the leaf `leaf` added at `c`. */
    ghost method Adopt(c: Context<T>, leaf: Shape<T>, cells: map<Node<T>, Cell<T>>)
      requires shape == Plug(c, Leaf) && Distinct(shape) && repr == Nodes(shape)
      requires leaf.Fork? && leaf.left.Leaf? && leaf.right.Leaf? && leaf.node !in repr
      requires root == if c.Top? then leaf.node else Root(shape)
      requires Holds(leaf.node, Cell(null, null, Holder(c), leaf.item, leaf.color))
      requires cells.Keys == repr && forall n :: n in repr ==> cells[n] == CellOf(shape, null, n)
      requires forall n :: n in repr ==> Holds(n, Redirect(c, n, cells[n], leaf.node))
      modifies this`shape, this`repr
      ensures Structured() && shape == Plug(c, leaf) && repr == old(repr) + {leaf.node}
    {
      PlugNodes(c, Leaf);
      PlugNodes(c, leaf);
      forall n | n == leaf.node || n in repr
        ensures Distinct(Plug(c, leaf)) && n in Nodes(Plug(c, leaf))
        ensures Root(Plug(c, leaf)) == if c.Top? then leaf.node else Root(shape)
        ensures Holds(n, CellOf(Plug(c, leaf), null, n))
      {
        GrownCells(c, leaf, n);
      }
      assert Distinct(Plug(c, leaf));
      shape, repr := Plug(c, leaf), repr + {leaf.node};
    }

    /** `tree_insert`; `c` is the place in the old tree where the new leaf hangs. */
    method TreeInsert(data: T) returns (node: Node<T>, ghost c: Context<T>)
      requires Valid()
      modifies this, repr`left, repr`right, repr`parent, repr`color
      ensures Valid() && fresh(node) && repr == old(repr) + {node} && node.data == data
      ensures old(shape) == Plug(c, Leaf)
      ensures shape == Plug(c, Fork(Leaf, node, data, node.color, Leaf))
      ensures InsertedAfterEqual(cmp, old(InOrder(shape)), data, InOrder(shape))
    {
      var parent;
      parent, c := Descend(data);
      node := new Node(data);
      ghost var leaf := Fork(Leaf, node, data, node.color, Leaf);
      ghost var cells := map n | n in repr :: CellOf(shape, null, n);
      PlugNodes(c, Leaf);
      if !c.Top? {
        HolderCell(c, Leaf);
      }
      InsertedWhereItBelongs(cmp, c, leaf);
      LinkLeaf(node, parent, cells);
      Adopt(c, leaf, cells);
    }

    /** What the fields of the node at the hole of `c` are. */
    lemma {:induction false} Kin(c: Context<T>, s: Shape<T>)
      requires Structured() && shape == Plug(c, s) && s.Fork?
      ensures s.node in repr && Holds(s.node, Cell(Root(s.left), Root(s.right), Holder(c), s.item, s.color))
      ensures root == s.node <==> c.Top?
      ensures !c.Top? && c.InLeft? ==> Root(c.right) != s.node
      ensures !c.Top? && c.InRight? ==> Root(c.left) != s.node
    {
      CellInside(c, s, s.node);
      assert Holds(s.node, CellOf(shape, null, s.node));
      PlugDistinct(c, s);
      if !c.Top? {
        HolderCell(c, s);
        RootIsAbove(c, s);
      }
    }

    /** A red node `s` good in itself, whose only fault may be a red parent. */
    ghost predicate Fixed(c: Context<T>, s: Shape<T>, h: nat)
      reads this, repr
    {
      && Structured() && shape == Plug(c, s)
      && s.Fork? && s.color == Red && Good(s, h) && Fits(c, h)
    }

    /** ... and whose parent is red indeed. */
    ghost predicate Climbing(c: Context<T>, s: Shape<T>, h: nat)
      reads this, repr
    {
      Fixed(c, s, h) && !c.Top? && c.color == Red && !c.up.Top?
    }

    method InnerLeft(parent: Node<T>, ghost c: Context<T>, ghost s: Shape<T>, ghost h: nat)
      returns (ghost c': Context<T>, ghost s': Shape<T>)
      requires Climbing(c, s, h) && c.up.InLeft? && c.InRight? && c.node == parent
      modifies this, repr`left, repr`right, repr`parent, repr`color
      ensures Fixed(c', s', h) && s'.node == parent
      ensures InOrder(shape) == old(InOrder(shape)) && repr == old(repr)
      ensures Depth(c') == Depth(c) && !Inner(c')
    {
      ghost var up, p := c.up, Filled(c, s);
      LeftRotate(parent, up, p);
      c', s' := InLeft(s.node, s.item, Red, s.right, up), Fork(c.left, c.node, c.item, Red, s.left);
    }

    method OuterLeft(parent: Node<T>, ghost c: Context<T>, ghost s: Shape<T>, ghost h: nat)
      returns (ghost c': Context<T>)
      requires Climbing(c, s, h) && c.up.InLeft? && c.InLeft? && c.node == parent && IsBlack(c.up.right)
      modifies this, repr`left, repr`right, repr`parent, repr`color
      ensures Fixed(c', s, h)
      ensures InOrder(shape) == old(InOrder(shape)) && repr == old(repr)
      ensures Depth(c') < Depth(c)
    {
      hide Nodes, CellOf, Distinct;
      ghost var up, p := c.up, Filled(c, s);
      assert Fits(up, h) && up.color == Black && Fits(up.up, h + 1);
      Kin(up, p);
      Kin(up.up, Filled(up, p));
      SetColor(parent, Black, up, p);
      p := p.(color := Black);
      ghost var g := Fork(p, up.node, up.item, up.color, up.right);
      SetColor(parent.parent, Red, up.up, g);
      g := g.(color := Red);
      RightRotate(parent.parent, up.up, g);
      c' := InLeft(c.node, c.item, Black, g.(left := c.right), up.up);
    }

    method RecolorLeft(parent: Node<T>, uncle: Node<T>, ghost c: Context<T>, ghost s: Shape<T>, ghost h: nat)
      returns (current: Node<T>, ghost c': Context<T>, ghost s': Shape<T>)
      requires Climbing(c, s, h) && c.up.InLeft? && c.node == parent
      requires c.up.right.Fork? && c.up.right.node == uncle && c.up.right.color == Red
      modifies this, repr`left, repr`right, repr`parent, repr`color
      ensures Fixed(c', s', h + 1) && s'.node == current
      ensures InOrder(shape) == old(InOrder(shape)) && repr == old(repr)
      ensures Depth(c') < Depth(c)
    {
      hide Nodes, CellOf, Distinct;
      ghost var up, p := c.up, Filled(c, s);
      assert Fits(up, h) && up.color == Black && Fits(up.up, h + 1);
      Kin(up, p);
      Kin(up.up, Filled(up, p));
      SetColor(parent, Black, up, p);
      p := p.(color := Black);
      assert Good(p, h + 1) && Good(up.right.(color := Black), h + 1);
      Kin(InRight(p, up.node, up.item, up.color, up.up), up.right);
      SetColor(uncle, Black, InRight(p, up.node, up.item, up.color, up.up), up.right);
      current := parent.parent;
      ghost var g := Fork(p, up.node, up.item, up.color, up.right.(color := Black));
      SetColor(current, Red, up.up, g);
      c', s' := up.up, g.(color := Red);
    }

    method InnerRight(parent: Node<T>, ghost c: Context<T>, ghost s: Shape<T>, ghost h: nat)
      returns (ghost c': Context<T>, ghost s': Shape<T>)
      requires Climbing(c, s, h) && c.up.InRight? && c.InLeft? && c.node == parent
      modifies this, repr`left, repr`right, repr`parent, repr`color
      ensures Fixed(c', s', h) && s'.node == parent
      ensures InOrder(shape) == old(InOrder(shape)) && repr == old(repr)
      ensures Depth(c') == Depth(c) && !Inner(c')
    {
      ghost var up, p := c.up, Filled(c, s);
      RightRotate(parent, up, p);
      c', s' := InRight(s.left, s.node, s.item, Red, up), Fork(s.right, c.node, c.item, Red, c.right);
    }

    method OuterRight(parent: Node<T>, ghost c: Context<T>, ghost s: Shape<T>, ghost h: nat)
      returns (ghost c': Context<T>)
      requires Climbing(c, s, h) && c.up.InRight? && c.InRight? && c.node == parent && IsBlack(c.up.left)
      modifies this, repr`left, repr`right, repr`parent, repr`color
      ensures Fixed(c', s, h)
      ensures InOrder(shape) == old(InOrder(shape)) && repr == old(repr)
      ensures Depth(c') < Depth(c)
    {
      hide Nodes, CellOf, Distinct;
      ghost var up, p := c.up, Filled(c, s);
      assert Fits(up, h) && up.color == Black && Fits(up.up, h + 1);
      Kin(up, p);
      Kin(up.up, Filled(up, p));
      SetColor(parent, Black, up, p);
      p := p.(color := Black);
      ghost var g := Fork(up.left, up.node, up.item, up.color, p);
      SetColor(parent.parent, Red, up.up, g);
      g := g.(color := Red);
      LeftRotate(parent.parent, up.up, g);
      c' := InRight(g.(right := c.left), c.node, c.item, Black, up.up);
    }

    method RecolorRight(parent: Node<T>, uncle: Node<T>, ghost c: Context<T>, ghost s: Shape<T>, ghost h: nat)
      returns (current: Node<T>, ghost c': Context<T>, ghost s': Shape<T>)
      requires Climbing(c, s, h) && c.up.InRight? && c.node == parent
      requires c.up.left.Fork? && c.up.left.node == uncle && c.up.left.color == Red
      modifies this, repr`left, repr`right, repr`parent, repr`color
      ensures Fixed(c', s', h + 1) && s'.node == current
      ensures InOrder(shape) == old(InOrder(shape)) && repr == old(repr)
      ensures Depth(c') < Depth(c)
    {
      hide Nodes, CellOf, Distinct;
      ghost var up, p := c.up, Filled(c, s);
      assert Fits(up, h) && up.color == Black && Fits(up.up, h + 1);
      Kin(up, p);
      Kin(up.up, Filled(up, p));
      SetColor(parent, Black, up, p);
      p := p.(color := Black);
      assert Good(p, h + 1) && Good(up.left.(color := Black), h + 1);
      Kin(InLeft(up.node, up.item, up.color, p, up.up), up.left);
      SetColor(uncle, Black, InLeft(up.node, up.item, up.color, p, up.up), up.left);
      current := parent.parent;
      ghost var g := Fork(up.left.(color := Black), up.node, up.item, up.color, p);
      SetColor(current, Red, up.up, g);
      c', s' := up.up, g.(color := Red);
    }

    /** What the pointers around a red node with a red parent are. */
    lemma Relatives(c: Context<T>, s: Shape<T>, h: nat)
      requires Fixed(c, s, h) && s.node != root && RbColor(s.node.parent) == Red
      ensures Climbing(c, s, h)
      ensures s.node.parent == c.node && c.node.parent == c.up.node
      ensures s.node == c.node.left <==> c.InLeft?
      ensures s.node == c.node.right <==> c.InRight?
      ensures c.node == c.up.node.left <==> c.up.InLeft?
      ensures c.up.InLeft? ==> c.up.node.right == Root(c.up.right)
      ensures c.up.InRight? ==> c.up.node.left == Root(c.up.left)
      ensures c.up.InLeft? && c.up.right.Fork? ==> c.up.right.node.color == c.up.right.color
      ensures c.up.InRight? && c.up.left.Fork? ==> c.up.left.node.color == c.up.left.color
    {
      Kin(c, s);
      var up, p := c.up, Filled(c, s);
      Kin(up, p);
      Kin(up.up, Filled(up, p));
      if up.InLeft? && up.right.Fork? {
        Kin(InRight(p, up.node, up.item, up.color, up.up), up.right);
      }
      if up.InRight? && up.left.Fork? {
        Kin(InLeft(up.node, up.item, up.color, p, up.up), up.left);
      }
    }

    /** One round of the loop of `rb_insert` whose parent is a left child. */
    method FixLeft(node: Node<T>, ghost c: Context<T>, ghost s: Shape<T>, ghost h: nat)
      returns (current: Node<T>, ghost c': Context<T>, ghost s': Shape<T>, ghost h': nat)
      requires Fixed(c, s, h) && s.node == node && node != root && RbColor(node.parent) == Red
      requires c.up.InLeft?
      modifies this, repr`left, repr`right, repr`parent, repr`color
      ensures Fixed(c', s', h') && s'.node == current
      ensures InOrder(shape) == old(InOrder(shape)) && repr == old(repr)
      ensures Depth(c') < Depth(c) || (Depth(c') == Depth(c) && Inner(c) && !Inner(c'))
    {
      Relatives(c, s, h);
      current, s', h' := node, s, h;
      var parent := current.parent;
      var uncle := parent.parent.right;
      if RbColor(uncle) == Red {
        current, c', s' := RecolorLeft(parent, uncle, c, s, h);
        h' := h + 1;
      } else if current == parent.right {
        current := parent;
        c', s' := InnerLeft(current, c, s, h);
      } else {
        c' := OuterLeft(parent, c, s, h);
      }
    }

    /** One round of the loop of `rb_insert` whose parent is a right child. */
    method FixRight(node: Node<T>, ghost c: Context<T>, ghost s: Shape<T>, ghost h: nat)
      returns (current: Node<T>, ghost c': Context<T>, ghost s': Shape<T>, ghost h': nat)
      requires Fixed(c, s, h) && s.node == node && node != root && RbColor(node.parent) == Red
      requires c.up.InRight?
      modifies this, repr`left, repr`right, repr`parent, repr`color
      ensures Fixed(c', s', h') && s'.node == current
      ensures InOrder(shape) == old(InOrder(shape)) && repr == old(repr)
      ensures Depth(c') < Depth(c) || (Depth(c') == Depth(c) && Inner(c) && !Inner(c'))
    {
      Relatives(c, s, h);
      current, s', h' := node, s, h;
      var parent := current.parent;
      var uncle := parent.parent.left;
      if RbColor(uncle) == Red {
        current, c', s' := RecolorRight(parent, uncle, c, s, h);
        h' := h + 1;
      } else if current == parent.left {
        current := parent;
        c', s' := InnerRight(current, c, s, h);
      } else {
        c' := OuterRight(parent, c, s, h);
      }
    }

    /** The last assignment of `rb_insert`. */
    method BlackenRoot(ghost c: Context<T>, ghost s: Shape<T>, ghost h: nat)
      requires Fixed(c, s, h) && (s.node == root || RbColor(s.node.parent) == Black)
      modifies this`shape, repr`color
      ensures Structured() && RedBlack(shape)
      ensures InOrder(shape) == old(InOrder(shape)) && repr == old(repr)
    {
      Kin(c, s);
      if !c.Top? {
        Kin(c.up, Filled(c, s));
        GoodPlug(c, s, h);
      }
      Kin(Top, shape);
      SetColor(root, Black, Top, shape);
      assert c.Top? ==> Good(shape, h + 1);
    }

    /** The loop of `rb_insert` and the assignment after it. */
    method FixUp(node: Node<T>, ghost c0: Context<T>, ghost s0: Shape<T>, ghost h0: nat)
      requires Fixed(c0, s0, h0) && s0.node == node
      modifies this, repr`left, repr`right, repr`parent, repr`color
      ensures Structured() && RedBlack(shape)
      ensures InOrder(shape) == old(InOrder(shape)) && repr == old(repr)
    {
      hide InOrder, Good, Fits, RedBlack, Structured, Plug;
      var current := node;
      ghost var c, s, h := c0, s0, h0;
      while current != root && RbColor(current.parent) == Red
        invariant Fixed(c, s, h) && s.node == current
        invariant InOrder(shape) == old(InOrder(shape)) && repr == old(repr)
        decreases Depth(c), if Inner(c) then 1 else 0
      {
        Relatives(c, s, h);
        var parent := current.parent;
        if parent == parent.parent.left {
          current, c, s, h := FixLeft(current, c, s, h);
        } else {
          current, c, s, h := FixRight(current, c, s, h);
        }
      }
      BlackenRoot(c, s, h);
    }

    /** `rb_insert`. */
    method RbInsert(data: T) returns (node: Node<T>)
      requires Valid() && RedBlack(shape)
      modifies this, repr`left, repr`right, repr`parent, repr`color
      ensures Valid() && RedBlack(shape)
      ensures fresh(node) && repr == old(repr) + {node} && node.data == data
      ensures InsertedAfterEqual(cmp, old(InOrder(shape)), data, InOrder(shape))
    {
      hide InOrder, CellOf, Nodes, Distinct;
      ghost var c;
      node, c := TreeInsert(data);
      ghost var leaf := Fork(Leaf, node, data, node.color, Leaf);
      ghost var h := GoodUnplug(c, Leaf);
      SetColor(node, Red, c, leaf);
      FixUp(node, c, leaf.(color := Red), h);
    }
  }
}
