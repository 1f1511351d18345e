/** The nodes of libds/tree.c together with the mathematical trees they represent.

    A `Shape` is the tree a set of linked nodes spells out; a `Context` is such a tree with one
    hole in it.  Everything about order, colours and heights is stated on shapes, so that a
    pointer operation only has to say which shape it turns into which. */
module TreeShape {

  datatype Color = Red | Black

  class Node<T> {
    var left: Node?<T>
    var right: Node?<T>
    var parent: Node?<T>
    var data: T
    var color: Color

    /** `make_node` leaves the colour uninitialised. */
    constructor (data: T)
      ensures this.data == data
      ensures left == null && right == null && parent == null
    {
      this.data := data;
      left, right, parent := null, null, null;
      color := *;
    }
  }

  datatype Shape<T> =
    | Leaf
    | Fork(left: Shape<T>, node: Node<T>, item: T, color: Color, right: Shape<T>)

  /** The path from a hole up to the root, innermost node first. */
  datatype Context<T> =
    | Top
    | InLeft(node: Node<T>, item: T, color: Color, right: Shape<T>, up: Context<T>)
    | InRight(left: Shape<T>, node: Node<T>, item: T, color: Color, up: Context<T>)

  ghost function Plug<T>(c: Context<T>, s: Shape<T>): Shape<T> {
    match c
    case Top => s
    case InLeft(n, x, col, r, up) => Plug(up, Fork(s, n, x, col, r))
    case InRight(l, n, x, col, up) => Plug(up, Fork(l, n, x, col, s))
  }

  /** The tree one level up: the node above the hole with its hole filled. */
  ghost function Filled<T>(c: Context<T>, s: Shape<T>): (f: Shape<T>)
    requires !c.Top?
    ensures Plug(c, s) == Plug(c.up, f) && f.Fork? && f.node == c.node
  {
    match c
    case InLeft(n, x, col, r, _) => Fork(s, n, x, col, r)
    case InRight(l, n, x, col, _) => Fork(l, n, x, col, s)
  }

  ghost function Depth<T>(c: Context<T>): nat {
    if c.Top? then 0 else 1 + Depth(c.up)
  }

  ghost function Root<T>(s: Shape<T>): Node?<T> {
    if s.Leaf? then null else s.node
  }

  /** The node directly above the hole. */
  ghost function Holder<T>(c: Context<T>): Node?<T> {
    if c.Top? then null else c.node
  }

  // ----- which nodes, in which order -----

  ghost function Nodes<T>(s: Shape<T>): set<Node<T>> {
    match s
    case Leaf => {}
    case Fork(l, n, _, _, r) => Nodes(l) + {n} + Nodes(r)
  }

  ghost function ContextNodes<T>(c: Context<T>): set<Node<T>> {
    match c
    case Top => {}
    case InLeft(n, _, _, r, up) => {n} + Nodes(r) + ContextNodes(up)
    case InRight(l, n, _, _, up) => Nodes(l) + {n} + ContextNodes(up)
  }

  /** The elements in in-order. */
  ghost function InOrder<T>(s: Shape<T>): seq<T> {
    match s
    case Leaf => []
    case Fork(l, _, x, _, r) => InOrder(l) + [x] + InOrder(r)
  }

  /** The nodes in in-order. */
  ghost function NodeOrder<T>(s: Shape<T>): seq<Node<T>> {
    match s
    case Leaf => []
    case Fork(l, n, _, _, r) => NodeOrder(l) + [n] + NodeOrder(r)
  }

  ghost function Before<T>(c: Context<T>): seq<T> {
    match c
    case Top => []
    case InLeft(_, _, _, _, up) => Before(up)
    case InRight(l, _, x, _, up) => Before(up) + InOrder(l) + [x]
  }

  ghost function After<T>(c: Context<T>): seq<T> {
    match c
    case Top => []
    case InLeft(_, x, _, r, up) => [x] + InOrder(r) + After(up)
    case InRight(_, _, _, _, up) => After(up)
  }

  ghost function NodesBefore<T>(c: Context<T>): seq<Node<T>> {
    match c
    case Top => []
    case InLeft(_, _, _, _, up) => NodesBefore(up)
    case InRight(l, n, _, _, up) => NodesBefore(up) + NodeOrder(l) + [n]
  }

  ghost function NodesAfter<T>(c: Context<T>): seq<Node<T>> {
    match c
    case Top => []
    case InLeft(n, _, _, r, up) => [n] + NodeOrder(r) + NodesAfter(up)
    case InRight(_, _, _, _, up) => NodesAfter(up)
  }

  lemma Regroup<A>(before: seq<A>, l: seq<A>, x: A, r: seq<A>, after: seq<A>)
    ensures before + (l + [x] + r) + after == before + l + ([x] + r + after)
    ensures before + (l + [x] + r) + after == (before + l + [x]) + r + after
  {
  }

  lemma {:induction false} PlugInOrder<T>(c: Context<T>, s: Shape<T>)
    ensures InOrder(Plug(c, s)) == Before(c) + InOrder(s) + After(c)
  {
    match c
    case Top =>
    case InLeft(n, x, col, r, up) =>
      PlugInOrder(up, Fork(s, n, x, col, r));
      Regroup(Before(up), InOrder(s), x, InOrder(r), After(up));
    case InRight(l, n, x, col, up) =>
      PlugInOrder(up, Fork(l, n, x, col, s));
      Regroup(Before(up), InOrder(l), x, InOrder(s), After(up));
  }

  lemma {:induction false} PlugNodeOrder<T>(c: Context<T>, s: Shape<T>)
    ensures NodeOrder(Plug(c, s)) == NodesBefore(c) + NodeOrder(s) + NodesAfter(c)
  {
    match c
    case Top =>
    case InLeft(n, x, col, r, up) =>
      PlugNodeOrder(up, Fork(s, n, x, col, r));
      Regroup(NodesBefore(up), NodeOrder(s), n, NodeOrder(r), NodesAfter(up));
    case InRight(l, n, x, col, up) =>
      PlugNodeOrder(up, Fork(l, n, x, col, s));
      Regroup(NodesBefore(up), NodeOrder(l), n, NodeOrder(s), NodesAfter(up));
  }

  lemma {:induction false} PlugNodes<T>(c: Context<T>, s: Shape<T>)
    ensures Nodes(Plug(c, s)) == Nodes(s) + ContextNodes(c)
  {
    match c
    case Top =>
    case InLeft(n, x, col, r, up) => PlugNodes(up, Fork(s, n, x, col, r));
    case InRight(l, n, x, col, up) => PlugNodes(up, Fork(l, n, x, col, s));
  }

  lemma {:induction false} PlugRoot<T>(c: Context<T>, s: Shape<T>, s': Shape<T>)
    requires !c.Top?
    ensures Root(Plug(c, s)) == Root(Plug(c, s')) != null
    decreases c
  {
    match c
    case InLeft(n, x, col, r, up) =>
      if !up.Top? { PlugRoot(up, Fork(s, n, x, col, r), Fork(s', n, x, col, r)); }
    case InRight(l, n, x, col, up) =>
      if !up.Top? { PlugRoot(up, Fork(l, n, x, col, s), Fork(l, n, x, col, s')); }
  }

  /** No node occurs twice. */
  ghost predicate Distinct<T>(s: Shape<T>) {
    match s
    case Leaf => true
    case Fork(l, n, _, _, r) =>
      && n !in Nodes(l) && n !in Nodes(r) && Nodes(l) !! Nodes(r)
      && Distinct(l) && Distinct(r)
  }

  ghost predicate Apart<T>(c: Context<T>) {
    match c
    case Top => true
    case InLeft(n, _, _, r, up) =>
      && n !in Nodes(r) && Distinct(r) && Apart(up)
      && n !in ContextNodes(up) && Nodes(r) !! ContextNodes(up)
    case InRight(l, n, _, _, up) =>
      && n !in Nodes(l) && Distinct(l) && Apart(up)
      && n !in ContextNodes(up) && Nodes(l) !! ContextNodes(up)
  }

  lemma {:induction false} PlugDistinct<T>(c: Context<T>, s: Shape<T>)
    ensures Distinct(Plug(c, s)) <==> Apart(c) && Distinct(s) && Nodes(s) !! ContextNodes(c)
  {
    match c
    case Top =>
    case InLeft(n, x, col, r, up) => PlugDistinct(up, Fork(s, n, x, col, r));
    case InRight(l, n, x, col, up) => PlugDistinct(up, Fork(l, n, x, col, s));
  }

  // ----- the fields each node must have -----

  datatype Cell<T> = Cell(left: Node?<T>, right: Node?<T>, parent: Node?<T>, item: T, color: Color)

  ghost predicate Holds<T>(n: Node<T>, cell: Cell<T>)
    reads n
  {
    && n.left == cell.left && n.right == cell.right && n.parent == cell.parent
    && n.data == cell.item && n.color == cell.color
  }

  /** The fields node `n` has when `s` hangs below `parent`. */
  ghost function CellOf<T>(s: Shape<T>, parent: Node?<T>, n: Node<T>): Cell<T>
    requires n in Nodes(s)
  {
    if n == s.node then Cell(Root(s.left), Root(s.right), parent, s.item, s.color)
    else if n in Nodes(s.left) then CellOf(s.left, s.node, n)
    else CellOf(s.right, s.node, n)
  }

  /** The cell of `n` once the hole of `c` is filled by a tree with root `child`. */
  ghost function Redirect<T>(c: Context<T>, n: Node<T>, cell: Cell<T>, child: Node?<T>): Cell<T> {
    if n != Holder(c) then cell
    else if c.InLeft? then cell.(left := child)
    else cell.(right := child)
  }

  /** A context does not change the cells of the tree that fills its hole. */
  lemma {:induction false} CellInside<T>(c: Context<T>, s: Shape<T>, n: Node<T>)
    requires n in Nodes(s) && Distinct(Plug(c, s))
    ensures n in Nodes(Plug(c, s))
    ensures CellOf(Plug(c, s), null, n) == CellOf(s, Holder(c), n)
  {
    match c
    case Top =>
    case InLeft(m, x, col, r, up) =>
      PlugDistinct(up, Fork(s, m, x, col, r));
      CellInside(up, Fork(s, m, x, col, r), n);
    case InRight(l, m, x, col, up) =>
      PlugDistinct(up, Fork(l, m, x, col, s));
      CellInside(up, Fork(l, m, x, col, s), n);
  }

  /** Filling the hole differently changes only the child pointer of the node above it. */
  lemma {:induction false} CellOutside<T>(c: Context<T>, s: Shape<T>, s': Shape<T>, n: Node<T>)
    requires n in ContextNodes(c)
    requires Distinct(Plug(c, s)) && Distinct(Plug(c, s'))
    ensures n in Nodes(Plug(c, s)) && n in Nodes(Plug(c, s'))
    ensures CellOf(Plug(c, s), null, n) == Redirect(c, n, CellOf(Plug(c, s), null, n), Root(s))
    ensures CellOf(Plug(c, s'), null, n) == Redirect(c, n, CellOf(Plug(c, s), null, n), Root(s'))
    decreases c
  {
    PlugNodes(c, s);
    PlugNodes(c, s');
    PlugDistinct(c, s);
    PlugDistinct(c, s');
    match c
    case InLeft(m, x, col, r, up) =>
      var f, f' := Fork(s, m, x, col, r), Fork(s', m, x, col, r);
      if n in ContextNodes(up) {
        CellOutside(up, f, f', n);
      } else {
        CellInside(up, f, n);
        CellInside(up, f', n);
      }
    case InRight(l, m, x, col, up) =>
      var f, f' := Fork(l, m, x, col, s), Fork(l, m, x, col, s');
      if n in ContextNodes(up) {
        CellOutside(up, f, f', n);
      } else {
        CellInside(up, f, n);
        CellInside(up, f', n);
      }
  }

  /** The fields of the node above the hole, which tell the two sides apart. */
  lemma {:induction false} HolderCell<T>(c: Context<T>, s: Shape<T>)
    requires !c.Top? && Distinct(Plug(c, s))
    ensures c.node in Nodes(Plug(c, s))
    ensures c.InLeft? ==>
      CellOf(Plug(c, s), null, c.node) == Cell(Root(s), Root(c.right), Holder(c.up), c.item, c.color)
    ensures c.InRight? ==>
      CellOf(Plug(c, s), null, c.node) == Cell(Root(c.left), Root(s), Holder(c.up), c.item, c.color)
    ensures s.Fork? && c.InRight? ==> Root(c.left) != s.node
    ensures s.Fork? && c.InLeft? ==> Root(c.right) != s.node
  {
    PlugDistinct(c, s);
    match c
    case InLeft(m, x, col, r, up) =>
      CellInside(up, Fork(s, m, x, col, r), m);
      assert r.Fork? ==> r.node in ContextNodes(c);
    case InRight(l, m, x, col, up) =>
      CellInside(up, Fork(l, m, x, col, s), m);
      assert l.Fork? ==> l.node in ContextNodes(c);
  }

  // ----- red-black shapes -----

  predicate IsBlack<T>(s: Shape<T>) {
    s.Leaf? || s.color == Black
  }

  /** No red node has a red child and every path from the root to a leaf meets `h` black nodes. */
  ghost predicate Good<T>(s: Shape<T>, h: nat) {
    match s
    case Leaf => h == 0
    case Fork(l, _, _, Red, r) => IsBlack(l) && IsBlack(r) && Good(l, h) && Good(r, h)
    case Fork(l, _, _, Black, r) => h > 0 && Good(l, h - 1) && Good(r, h - 1)
  }

  ghost predicate RedBlack<T>(s: Shape<T>) {
    IsBlack(s) && exists h: nat :: Good(s, h)
  }

  ghost predicate HolderBlack<T>(c: Context<T>) {
    c.Top? || c.color == Black
  }

  /** Filling the hole of `c` with any good tree of black height `h` and a black root gives a
      red-black tree (lemmas `GoodPlug` and `GoodUnplug`). */
  ghost predicate Fits<T>(c: Context<T>, h: nat) {
    match c
    case Top => true
    case InLeft(_, _, Red, r, up) =>
      IsBlack(r) && Good(r, h) && !up.Top? && HolderBlack(up) && Fits(up, h)
    case InLeft(_, _, Black, r, up) => Good(r, h) && Fits(up, h + 1)
    case InRight(l, _, _, Red, up) =>
      IsBlack(l) && Good(l, h) && !up.Top? && HolderBlack(up) && Fits(up, h)
    case InRight(l, _, _, Black, up) => Good(l, h) && Fits(up, h + 1)
  }

  lemma {:induction false} GoodPlug<T>(c: Context<T>, s: Shape<T>, h: nat)
    requires Fits(c, h) && Good(s, h)
    requires IsBlack(s) || (!c.Top? && HolderBlack(c))
    ensures RedBlack(Plug(c, s))
  {
    match c
    case Top =>
    case InLeft(n, x, col, r, up) =>
      GoodPlug(up, Fork(s, n, x, col, r), if col == Red then h else h + 1);
    case InRight(l, n, x, col, up) =>
      GoodPlug(up, Fork(l, n, x, col, s), if col == Red then h else h + 1);
  }

  lemma {:induction false} GoodUnplug<T>(c: Context<T>, s: Shape<T>) returns (h: nat)
    requires RedBlack(Plug(c, s))
    ensures Fits(c, h) && Good(s, h)
    ensures IsBlack(s) || (!c.Top? && HolderBlack(c))
  {
    match c
    case Top =>
      h :| Good(s, h);
    case InLeft(n, x, col, r, up) =>
      h := GoodUnplug(up, Fork(s, n, x, col, r));
      if col == Black { h := h - 1; }
    case InRight(l, n, x, col, up) =>
      h := GoodUnplug(up, Fork(l, n, x, col, s));
      if col == Black { h := h - 1; }
  }
}
