/** The binary search tree with parent pointers (libsrsbsns/bintree.c).  The linked
    nodes are tied to a ghost tree of cells, and every operation is specified by what
    it does to that tree. */
module BinTrees {
  import opened Prelude
  import opened Trees
  import opened SearchTrees

  class BtNode<T> {
    var data: T
    var left: BtNode?<T>
    var right: BtNode?<T>
    var parent: BtNode?<T>

    constructor (data: T, parent: BtNode?<T>)
      ensures this.data == data && this.parent == parent && left == null && right == null
    {
      this.data, this.parent, left, right := data, parent, null, null;
    }
  }

  /** A node together with the element it holds. */
  datatype Cell<T> = Cell(node: BtNode<T>, data: T)

  // --- from cells to elements ---

  ghost function Values<T>(s: Tree<Cell<T>>): Tree<T> {
    match s
    case Nil => Nil
    case Node(l, c, r) => Node(Values(l), c.data, Values(r))
  }

  ghost function ValuesCtx<T>(c: Ctx<Cell<T>>): Ctx<T> {
    match c
    case Top => Top
    case InLeft(up, e, r) => InLeft(ValuesCtx(up), e.data, Values(r))
    case InRight(up, l, e) => InRight(ValuesCtx(up), Values(l), e.data)
  }

  ghost function Datas<T>(q: seq<Cell<T>>): seq<T> {
    seq(|q|, i requires 0 <= i < |q| => q[i].data)
  }

  lemma {:induction false} ValuesPlug<T>(c: Ctx<Cell<T>>, s: Tree<Cell<T>>)
    ensures Values(Plug(c, s)) == Plug(ValuesCtx(c), Values(s))
    decreases c
  {
    match c
    case Top =>
    case InLeft(up, e, r) => ValuesPlug(up, Node(s, e, r));
    case InRight(up, l, e) => ValuesPlug(up, Node(l, e, s));
  }

  lemma DatasAppend<T>(a: seq<Cell<T>>, b: seq<Cell<T>>)
    ensures Datas(a + b) == Datas(a) + Datas(b)
  {
  }

  lemma {:induction false} ValuesOrder<T>(s: Tree<Cell<T>>, travtype: int)
    ensures Order(Values(s), travtype) == Datas(Order(s, travtype))
  {
    match s
    case Nil =>
    case Node(l, e, r) =>
      ValuesOrder(l, travtype);
      ValuesOrder(r, travtype);
      var a, b := Order(l, travtype), Order(r, travtype);
      assert Datas([e]) == [e.data];
      DatasAppend([e], a);
      DatasAppend([e] + a, b);
      DatasAppend(a, [e]);
      DatasAppend(a + [e], b);
      DatasAppend(a, b);
      DatasAppend(a + b, [e]);
  }

  lemma {:induction false} ValuesSize<T>(s: Tree<Cell<T>>)
    ensures Size(Values(s)) == Size(s) && Height(Values(s)) == Height(s)
  {
    match s
    case Nil =>
    case Node(l, _, r) =>
      ValuesSize(l);
      ValuesSize(r);
  }

  lemma {:induction false} ValuesMax<T>(s: Tree<Cell<T>>)
    requires s.Node?
    ensures MaxElem(Values(s)) == MaxElem(s).data
    ensures DropMax(Values(s)) == Values(DropMax(s))
  {
    if s.right.Node? {
      ValuesMax(s.right);
    }
  }

  // --- from cells to linked nodes ---

  ghost function Nodes<T>(s: Tree<Cell<T>>): set<BtNode<T>> {
    match s
    case Nil => {}
    case Node(l, c, r) => Nodes(l) + {c.node} + Nodes(r)
  }

  ghost function CtxNodes<T>(c: Ctx<Cell<T>>): set<BtNode<T>> {
    match c
    case Top => {}
    case InLeft(up, e, r) => CtxNodes(up) + {e.node} + Nodes(r)
    case InRight(up, l, e) => CtxNodes(up) + {e.node} + Nodes(l)
  }

  ghost function RootOf<T>(s: Tree<Cell<T>>): BtNode?<T> {
    if s.Nil? then null else s.elem.node
  }

  /** The node above the hole; base is what lies above the whole context. */
  ghost function ParentOf<T>(c: Ctx<Cell<T>>, base: BtNode?<T>): BtNode?<T> {
    if c.Top? then base else c.elem.node
  }

  /** The linked structure at n, hanging under parent, is exactly the tree s: links,
      parent pointers and data agree, and no node occurs twice. */
  ghost predicate Rep<T>(s: Tree<Cell<T>>, parent: BtNode?<T>, n: BtNode?<T>)
    reads Nodes(s)
  {
    match s
    case Nil => n == null
    case Node(l, c, r) =>
      && n == c.node && n.data == c.data && n.parent == parent
      && n !in Nodes(l) && n !in Nodes(r) && Nodes(l) !! Nodes(r)
      && Rep(l, n, n.left) && Rep(r, n, n.right)
  }

  /** The same for a tree with a hole, which holds the pointer hole. */
  ghost predicate RepCtx<T>(c: Ctx<Cell<T>>, hole: BtNode?<T>, base: BtNode?<T>, root: BtNode?<T>)
    reads CtxNodes(c)
  {
    match c
    case Top => hole == root
    case InLeft(up, e, r) =>
      var n := e.node;
      && n.data == e.data && n.parent == ParentOf(up, base) && n.left == hole
      && n !in CtxNodes(up) && n !in Nodes(r) && Nodes(r) !! CtxNodes(up)
      && Rep(r, n, n.right) && RepCtx(up, n, base, root)
    case InRight(up, l, e) =>
      var n := e.node;
      && n.data == e.data && n.parent == ParentOf(up, base) && n.right == hole
      && n !in CtxNodes(up) && n !in Nodes(l) && Nodes(l) !! CtxNodes(up)
      && Rep(l, n, n.left) && RepCtx(up, n, base, root)
  }

  lemma {:induction false} Split<T>(c: Ctx<Cell<T>>, s: Tree<Cell<T>>, base: BtNode?<T>, root: BtNode?<T>)
    requires Rep(Plug(c, s), base, root)
    ensures Nodes(Plug(c, s)) == CtxNodes(c) + Nodes(s) && CtxNodes(c) !! Nodes(s)
    ensures Rep(s, ParentOf(c, base), RootOf(s)) && RepCtx(c, RootOf(s), base, root)
    decreases c
  {
    match c
    case Top =>
    case InLeft(up, e, r) => Split(up, Node(s, e, r), base, root);
    case InRight(up, l, e) => Split(up, Node(l, e, s), base, root);
  }

  lemma {:induction false} Join<T>(c: Ctx<Cell<T>>, s: Tree<Cell<T>>, base: BtNode?<T>, root: BtNode?<T>)
    requires Rep(s, ParentOf(c, base), RootOf(s)) && RepCtx(c, RootOf(s), base, root)
    requires CtxNodes(c) !! Nodes(s)
    ensures Rep(Plug(c, s), base, root)
    ensures Nodes(Plug(c, s)) == CtxNodes(c) + Nodes(s)
    decreases c
  {
    match c
    case Top =>
    case InLeft(up, e, r) => Join(up, Node(s, e, r), base, root);
    case InRight(up, l, e) => Join(up, Node(l, e, s), base, root);
  }

  /** What the links around a node in the middle of a tree look like. */
  lemma Links<T>(c: Ctx<Cell<T>>, s: Tree<Cell<T>>, root: BtNode?<T>)
    requires Rep(Plug(c, s), null, root) && s.Node?
    ensures Nodes(s) <= Nodes(Plug(c, s)) && CtxNodes(c) <= Nodes(Plug(c, s))
    ensures var n := s.elem.node;
            && n.data == s.elem.data && n.parent == ParentOf(c, null)
            && n.left == RootOf(s.left) && n.right == RootOf(s.right)
            && (c.InLeft? ==> c.elem.node.left == n && c.elem.node.right == RootOf(c.right) != n)
            && (c.InRight? ==> c.elem.node.right == n && c.elem.node.left == RootOf(c.left) != n)
  {
    Split(c, s, null, root);
  }

  // --- each node has one place in each traversal ---

  ghost predicate NoNodeTwice<T>(q: seq<Cell<T>>) {
    forall i, j :: 0 <= i < j < |q| ==> q[i].node != q[j].node
  }

  lemma NoNodeTwiceJoin<T>(a: seq<Cell<T>>, b: seq<Cell<T>>, na: set<BtNode<T>>, nb: set<BtNode<T>>)
    requires NoNodeTwice(a) && NoNodeTwice(b) && na !! nb
    requires forall x :: x in a ==> x.node in na
    requires forall x :: x in b ==> x.node in nb
    ensures NoNodeTwice(a + b)
    ensures forall x :: x in a + b ==> x.node in na + nb
  {
    var q := a + b;
    forall i, j | 0 <= i < j < |q|
      ensures q[i].node != q[j].node
    {
      if i < |a| <= j {
        assert q[i] in a && q[j] in b;
      }
    }
  }

  lemma {:induction false} OrderNoNodeTwice<T>(s: Tree<Cell<T>>, travtype: int, parent: BtNode?<T>, n: BtNode?<T>)
    requires Rep(s, parent, n)
    ensures NoNodeTwice(Order(s, travtype))
    ensures forall x :: x in Order(s, travtype) ==> x.node in Nodes(s)
  {
    match s
    case Nil =>
    case Node(l, e, r) =>
      OrderNoNodeTwice(l, travtype, n, n.left);
      OrderNoNodeTwice(r, travtype, n, n.right);
      var ql, qr, nl, nr := Order(l, travtype), Order(r, travtype), Nodes(l), Nodes(r);
      if travtype == TRAV_PREORDER {
        NoNodeTwiceJoin([e], ql, {e.node}, nl);
        NoNodeTwiceJoin([e] + ql, qr, {e.node} + nl, nr);
      } else if travtype == TRAV_INORDER {
        NoNodeTwiceJoin(ql, [e], nl, {e.node});
        NoNodeTwiceJoin(ql + [e], qr, nl + {e.node}, nr);
      } else if travtype == TRAV_POSTORDER {
        NoNodeTwiceJoin(ql, qr, nl, nr);
        NoNodeTwiceJoin(ql + qr, [e], nl + nr, {e.node});
      }
  }

  /** The element at position k of a traversal, seen as the root of the subtree it
      heads, with k read off the context. */
  lemma LocateAt<T>(s: Tree<Cell<T>>, travtype: int, root: BtNode?<T>, k: nat)
    returns (c: Ctx<Cell<T>>, t: Tree<Cell<T>>)
    requires Rep(s, null, root) && k < |Order(s, travtype)|
    ensures Plug(c, t) == s && t.Node? && t.elem == Order(s, travtype)[k]
    ensures travtype == TRAV_PREORDER ==> k == |PreBefore(c)|
    ensures travtype == TRAV_INORDER ==> k == |InBefore(c)| + |InOrder(t.left)|
    ensures travtype == TRAV_POSTORDER ==> k == |PostBefore(c)| + |PostOrder(t.left)| + |PostOrder(t.right)|
  {
    var q := Order(s, travtype);
    OrderNoNodeTwice(s, travtype, null, root);
    c, t := Locate(s, travtype, q[k]);
    PrePlug(c, t);
    InPlug(c, t);
    PostPlug(c, t);
    var at :=
      if travtype == TRAV_PREORDER then |PreBefore(c)|
      else if travtype == TRAV_INORDER then |InBefore(c)| + |InOrder(t.left)|
      else |PostBefore(c)| + |PostOrder(t.left)| + |PostOrder(t.right)|;
    assert q[at] == t.elem;
  }

  // --- recursive traversals, which write the visited elements to dest ---

  method RTravPreorder<T>(n: BtNode?<T>, dest: array<T>, i: nat, ghost s: Tree<Cell<T>>, ghost parent: BtNode?<T>)
    returns (j: nat)
    requires Rep(s, parent, n) && i + Size(s) <= dest.Length
    modifies dest
    ensures j == i + Size(s)
    ensures dest[..j] == old(dest[..i]) + PreOrder(Values(s))
    ensures forall k :: j <= k < dest.Length ==> dest[k] == old(dest[k])
    decreases s
  {
    j := i;
    if n == null {
      return;
    }
    assert allocated(Nodes(s.left)) && allocated(Nodes(s.right));
    dest[j] := n.data;
    j := j + 1;
    assert dest[..j] == dest[..j - 1] + [s.elem.data];
    j := RTravPreorder(n.left, dest, j, s.left, n);
    j := RTravPreorder(n.right, dest, j, s.right, n);
    Reassociate(old(dest[..i]), [s.elem.data], PreOrder(Values(s.left)), PreOrder(Values(s.right)));
  }

  method RTravInorder<T>(n: BtNode?<T>, dest: array<T>, i: nat, ghost s: Tree<Cell<T>>, ghost parent: BtNode?<T>)
    returns (j: nat)
    requires Rep(s, parent, n) && i + Size(s) <= dest.Length
    modifies dest
    ensures j == i + Size(s)
    ensures dest[..j] == old(dest[..i]) + InOrder(Values(s))
    ensures forall k :: j <= k < dest.Length ==> dest[k] == old(dest[k])
    decreases s
  {
    j := i;
    if n == null {
      return;
    }
    assert allocated(Nodes(s.left)) && allocated(Nodes(s.right));
    j := RTravInorder(n.left, dest, j, s.left, n);
    dest[j] := n.data;
    j := j + 1;
    assert dest[..j] == dest[..j - 1] + [s.elem.data];
    j := RTravInorder(n.right, dest, j, s.right, n);
    Reassociate(old(dest[..i]), InOrder(Values(s.left)), [s.elem.data], InOrder(Values(s.right)));
  }

  method RTravPostorder<T>(n: BtNode?<T>, dest: array<T>, i: nat, ghost s: Tree<Cell<T>>, ghost parent: BtNode?<T>)
    returns (j: nat)
    requires Rep(s, parent, n) && i + Size(s) <= dest.Length
    modifies dest
    ensures j == i + Size(s)
    ensures dest[..j] == old(dest[..i]) + PostOrder(Values(s))
    ensures forall k :: j <= k < dest.Length ==> dest[k] == old(dest[k])
    decreases s
  {
    j := i;
    if n == null {
      return;
    }
    assert allocated(Nodes(s.left)) && allocated(Nodes(s.right));
    j := RTravPostorder(n.left, dest, j, s.left, n);
    j := RTravPostorder(n.right, dest, j, s.right, n);
    dest[j] := n.data;
    j := j + 1;
    assert dest[..j] == dest[..j - 1] + [s.elem.data];
    Reassociate(old(dest[..i]), PostOrder(Values(s.left)), PostOrder(Values(s.right)), [s.elem.data]);
  }

  // --- single changes to the linked structure ---

  method AttachLeft<T>(n: BtNode<T>, d: T, ghost c: Ctx<Cell<T>>, ghost s: Tree<Cell<T>>, ghost root: BtNode?<T>)
    returns (leaf: BtNode<T>)
    requires Rep(Plug(c, s), null, root) && n == RootOf(s) && s.left.Nil?
    modifies n`left
    ensures fresh(leaf) && n.left == leaf
    ensures var t := Plug(InLeft(c, s.elem, s.right), Node(Nil, Cell(leaf, d), Nil));
            Rep(t, null, root) && Nodes(t) == Nodes(Plug(c, s)) + {leaf} && Size(t) == Size(Plug(c, s)) + 1
  {
    Split(c, s, null, root);
    assert allocated(CtxNodes(c)) && allocated(Nodes(s));
    leaf := new BtNode(d, n);
    n.left := leaf;
    Join(InLeft(c, s.elem, s.right), Node(Nil, Cell(leaf, d), Nil), null, root);
    SizePlug(InLeft(c, s.elem, s.right), Node(Nil, Cell(leaf, d), Nil));
    assert Plug(InLeft(c, s.elem, s.right), Nil) == Plug(c, s);
  }

  method AttachRight<T>(n: BtNode<T>, d: T, ghost c: Ctx<Cell<T>>, ghost s: Tree<Cell<T>>, ghost root: BtNode?<T>)
    returns (leaf: BtNode<T>)
    requires Rep(Plug(c, s), null, root) && n == RootOf(s) && s.right.Nil?
    modifies n`right
    ensures fresh(leaf) && n.right == leaf
    ensures var t := Plug(InRight(c, s.left, s.elem), Node(Nil, Cell(leaf, d), Nil));
            Rep(t, null, root) && Nodes(t) == Nodes(Plug(c, s)) + {leaf} && Size(t) == Size(Plug(c, s)) + 1
  {
    Split(c, s, null, root);
    assert allocated(CtxNodes(c)) && allocated(Nodes(s));
    leaf := new BtNode(d, n);
    n.right := leaf;
    Join(InRight(c, s.left, s.elem), Node(Nil, Cell(leaf, d), Nil), null, root);
    SizePlug(InRight(c, s.left, s.elem), Node(Nil, Cell(leaf, d), Nil));
    assert Plug(InRight(c, s.left, s.elem), Nil) == Plug(c, s);
  }

  method SetData<T>(n: BtNode<T>, d: T, ghost c: Ctx<Cell<T>>, ghost s: Tree<Cell<T>>, ghost root: BtNode?<T>)
    requires Rep(Plug(c, s), null, root) && n == RootOf(s)
    modifies n`data
    ensures n.data == d
    ensures var t := Plug(c, Node(s.left, Cell(n, d), s.right));
            && Rep(t, null, root) && Nodes(t) == Nodes(Plug(c, s)) && Size(t) == Size(Plug(c, s))
            && Values(t) == Plug(ValuesCtx(c), Node(Values(s.left), d, Values(s.right)))
  {
    Split(c, s, null, root);
    SizePlug(c, s);
    SizePlug(c, Node(s.left, Cell(n, d), s.right));
    ValuesPlug(c, Node(s.left, Cell(n, d), s.right));
    n.data := d;
    Join(c, Node(s.left, Cell(n, d), s.right), null, root);
  }

  /** The rightmost node of the tree below, which hangs under n. */
  method Rightmost<T>(start: BtNode<T>, ghost below: Tree<Cell<T>>, ghost n: BtNode<T>)
    returns (maxnode: BtNode<T>, ghost k: Ctx<Cell<T>>, ghost t: Tree<Cell<T>>)
    requires Rep(below, n, start) && below.Node?
    ensures Plug(k, t) == below && !k.InLeft? && t.Node? && t.right.Nil? && maxnode == RootOf(t)
    ensures DropMax(below) == Plug(k, Nil) && MaxElem(below) == t.elem
    ensures maxnode.parent == ParentOf(k, n) && maxnode.data == t.elem.data
    ensures maxnode in Nodes(below) && maxnode !in CtxNodes(k) && CtxNodes(k) <= Nodes(below)
    ensures RepCtx(k, maxnode, n, start)
  {
    k, t := Top, below;
    maxnode := start;
    while maxnode.right != null
      invariant Rep(below, n, start)
      invariant Plug(k, t) == below && !k.InLeft? && t.Node? && maxnode == RootOf(t)
      invariant DropMax(below) == Plug(k, DropMax(t)) && MaxElem(below) == MaxElem(t)
      decreases t
    {
      Split(k, t, n, start);
      maxnode := maxnode.right;
      k, t := InRight(k, t.left, t.elem), t.right;
    }
    Split(k, t, n, start);
  }

  /** Clears the link to maxnode; whatever hung to its left goes with it. */
  method CutRightmost<T>(maxnode: BtNode<T>, ghost k: Ctx<Cell<T>>, n: BtNode<T>, start: BtNode<T>)
    requires n.left == start && n.right != maxnode
    requires RepCtx(k, maxnode, n, start) && !k.InLeft?
    requires n !in CtxNodes(k) && maxnode !in CtxNodes(k)
    requires maxnode.parent == ParentOf(k, n)
    modifies maxnode.parent`left, maxnode.parent`right
    ensures n.right == old(n.right)
    ensures Rep(Plug(k, Nil), n, n.left) && Nodes(Plug(k, Nil)) == CtxNodes(k)
  {
    if maxnode.parent.left == maxnode {
      maxnode.parent.left := null;
    } else if maxnode.parent.right == maxnode {
      maxnode.parent.right := null;
    } else {
      assert false;
    }
    Join(k, Nil, n, n.left);
  }

  ghost function ParentSet<T>(n: BtNode<T>): set<BtNode<T>>
    reads n
  {
    if n.parent == null then {} else {n.parent}
  }

  /** Completes the move of the subtree t into the hole of c, where n already is. */
  method HangUnder<T>(n: BtNode<T>, parent: BtNode?<T>, ghost c: Ctx<Cell<T>>, ghost t: Tree<Cell<T>>,
                      ghost root: BtNode?<T>)
    requires Rep(t, n.parent, n) && RepCtx(c, n, null, root) && CtxNodes(c) !! Nodes(t)
    requires parent == ParentOf(c, null)
    modifies n`parent
    ensures Rep(Plug(c, t), null, root) && Nodes(Plug(c, t)) == CtxNodes(c) + Nodes(t)
  {
    assert t.Node?;
    n.parent := parent;
    Join(c, t, null, root);
  }

  lemma OnlyChild<T>(s: Tree<Cell<T>>, parent: BtNode?<T>, n: BtNode<T>)
    requires Rep(s, parent, n) && s.Node? && s.left.Nil? != s.right.Nil?
    ensures var t, child := if s.left.Nil? then s.right else s.left, if n.left == null then n.right else n.left;
            && t.Node? && Rep(t, n, child) && Nodes(t) <= Nodes(s) && child in Nodes(t) && n !in Nodes(t)
            && RemRoot(Values(s)) == Values(t)
  {
  }

  method SwapData<T>(n: BtNode<T>, maxnode: BtNode<T>, ghost k: Ctx<Cell<T>>, ghost right: Tree<Cell<T>>)
    requires RepCtx(k, maxnode, n, n.left) && n !in CtxNodes(k) && maxnode !in CtxNodes(k)
    requires Rep(right, n, n.right) && n !in Nodes(right) && maxnode !in Nodes(right)
    modifies n`data, maxnode`data
    ensures RepCtx(k, maxnode, n, n.left) && Rep(right, n, n.right)
    ensures n.data == old(maxnode.data)
  {
    var tmp := maxnode.data;
    maxnode.data := n.data;
    n.data := tmp;
  }

  /** n and its in-order predecessor swap elements, and the predecessor is unlinked. */
  method SwapWithPredecessor<T>(n: BtNode<T>, ghost s: Tree<Cell<T>>)
    requires Rep(s, n.parent, n) && s.Node? && s.left.Node?
    modifies Nodes(s)
    ensures n.parent == old(n.parent)
    ensures var t := Node(DropMax(s.left), Cell(n, MaxElem(s.left).data), s.right);
            Rep(t, n.parent, n) && Nodes(t) <= Nodes(s)
  {
    ghost var k, t;
    var maxnode;
    assert allocated(Nodes(s.left)) && allocated(Nodes(s.right));
    maxnode, k, t := Rightmost(n.left, s.left, n);
    assert k.Top? || k.elem.node in CtxNodes(k);
    SwapData(n, maxnode, k, s.right);
    CutRightmost(maxnode, k, n, n.left);
  }

  class BinTree<T(0,!new)> {
    const cmp: (T, T) -> int
    var count: nat
    var root: BtNode?<T>
    var iter: BtNode?<T>
    var travtype: int

    ghost var shape: Tree<Cell<T>>

    ghost predicate Valid()
      reads this, Nodes(shape)
    {
      && Rep(shape, null, root)
      && TotalPreorder(cmp)
      && Ordered(cmp, InOrder(Model()))
      && (root != null ==> Size(shape) <= count)
    }

    /** The tree as a value. */
    ghost function Model(): Tree<T>
      reads this
    {
      Values(shape)
    }

    /** bintree_count: the count field means nothing while the tree is empty. */
    function Count(): nat
      reads this
    {
      if root == null then 0 else count
    }

    /** The number reported is the number of elements held. */
    ghost predicate CountIsSize()
      reads this
    {
      root != null ==> count == Size(shape)
    }

    constructor (cmp: (T, T) -> int)
      requires TotalPreorder(cmp)
      ensures Valid() && Model() == Nil && this.cmp == cmp && iter == null && Count() == 0
    {
      this.cmp := cmp;
      root, iter, shape := null, null, Nil;
    }

    method DiscoverHeight(n: BtNode<T>, depth: nat, maxdepth: nat, ghost s: Tree<Cell<T>>) returns (m: nat)
      requires s.Node? && Rep(s, n.parent, n)
      ensures m == Max(maxdepth, depth + Height(s) - 1)
      decreases s
    {
      assert allocated(Nodes(s.right));
      m := maxdepth;
      if depth > m {
        m := depth;
      }
      if n.left != null {
        m := DiscoverHeight(n.left, depth + 1, m, s.left);
      }
      if n.right != null {
        m := DiscoverHeight(n.right, depth + 1, m, s.right);
      }
    }

    method GetHeight() returns (h: nat)
      requires Valid()
      ensures h == Height(Model())
    {
      ValuesSize(shape);
      if root == null {
        return 0;
      }
      h := DiscoverHeight(root, 1, 1, shape);
    }

    method Clear()
      requires Valid()
      modifies this`count, this`root, this`shape
      ensures Valid() && Model() == Nil && count == 0
      ensures Nodes(shape) == {}
    {
      count, root, shape := 0, null, Nil;
    }

    method Insert(data: Option<T>) returns (ok: bool)
      requires Valid()
      modifies this`count, this`root, this`shape, Nodes(shape)
      ensures Valid()
      ensures forall x :: x in Nodes(shape) ==> x in old(Nodes(shape)) || fresh(x)
      ensures ok == data.Some?
      ensures Model() == if ok then Ins(cmp, old(Model()), data.value) else old(Model())
      ensures old(CountIsSize()) ==> CountIsSize()
      ensures Count() - old(Count()) == Size(shape) - old(Size(shape))
    {
      if data.None? {
        return false;
      }
      ok := true;
      if root == null {
        root := new BtNode(data.value, null);
        count := 1;
        shape := Node(Nil, Cell(root, data.value), Nil);
      } else {
        InsertBelowRoot(data.value);
      }
    }

    /** The descent of bintree_insert in a tree that is not empty. */
    method InsertBelowRoot(d: T)
      requires Valid() && root != null
      modifies this`count, this`shape, Nodes(shape)
      ensures Valid()
      ensures forall x :: x in Nodes(shape) ==> x in old(Nodes(shape)) || fresh(x)
      ensures Model() == Ins(cmp, old(Model()), d)
      ensures count - old(count) == Size(shape) - old(Size(shape))
    {
      InsKeepsOrder(cmp, Model(), d);
      var n := root;
      ghost var c, s := Top, shape;
      while n != null
        invariant count == old(count) && shape == old(shape)
        invariant n == RootOf(s) && s.Node? && Plug(c, s) == shape
        invariant Ins(cmp, Model(), d) == Plug(ValuesCtx(c), Ins(cmp, Values(s), d))
        invariant Valid()
        decreases s
      {
        Links(c, s, root);
        var res := cmp(d, n.data);
        if res < 0 {
          if n.left != null {
            n := n.left;
            c, s := InLeft(c, s.elem, s.right), s.left;
          } else {
            assert Ins(cmp, Values(s.left), d) == Node(Nil, d, Nil);
            GrowLeft(n, d, c, s);
            return;
          }
        } else if res > 0 {
          if n.right != null {
            n := n.right;
            c, s := InRight(c, s.left, s.elem), s.right;
          } else {
            assert Ins(cmp, Values(s.right), d) == Node(Nil, d, Nil);
            GrowRight(n, d, c, s);
            return;
          }
        } else {
          Overwrite(n, d, c, s);
          return;
        }
      }
    }

    method GrowLeft(n: BtNode<T>, d: T, ghost c: Ctx<Cell<T>>, ghost s: Tree<Cell<T>>)
      requires Rep(shape, null, root) && Plug(c, s) == shape && n == RootOf(s) && s.left.Nil?
      modifies this`count, this`shape, n`left
      ensures Rep(shape, null, root)
      ensures n.left != null && fresh(n.left) && Nodes(shape) == old(Nodes(shape)) + {n.left}
      ensures Model() == Plug(ValuesCtx(c), Node(Node(Nil, d, Nil), s.elem.data, Values(s.right)))
      ensures count == old(count) + 1 && Size(shape) == old(Size(shape)) + 1
    {
      var leaf := AttachLeft(n, d, c, s, root);
      count := count + 1;
      shape := Plug(InLeft(c, s.elem, s.right), Node(Nil, Cell(leaf, d), Nil));
      ValuesPlug(InLeft(c, s.elem, s.right), Node(Nil, Cell(leaf, d), Nil));
    }

    method GrowRight(n: BtNode<T>, d: T, ghost c: Ctx<Cell<T>>, ghost s: Tree<Cell<T>>)
      requires Rep(shape, null, root) && Plug(c, s) == shape && n == RootOf(s) && s.right.Nil?
      modifies this`count, this`shape, n`right
      ensures Rep(shape, null, root)
      ensures n.right != null && fresh(n.right) && Nodes(shape) == old(Nodes(shape)) + {n.right}
      ensures Model() == Plug(ValuesCtx(c), Node(Values(s.left), s.elem.data, Node(Nil, d, Nil)))
      ensures count == old(count) + 1 && Size(shape) == old(Size(shape)) + 1
    {
      var leaf := AttachRight(n, d, c, s, root);
      count := count + 1;
      shape := Plug(InRight(c, s.left, s.elem), Node(Nil, Cell(leaf, d), Nil));
      ValuesPlug(InRight(c, s.left, s.elem), Node(Nil, Cell(leaf, d), Nil));
    }

    method Overwrite(n: BtNode<T>, d: T, ghost c: Ctx<Cell<T>>, ghost s: Tree<Cell<T>>)
      requires Rep(shape, null, root) && Plug(c, s) == shape && n == RootOf(s)
      modifies this`shape, n`data
      ensures Rep(shape, null, root) && Nodes(shape) == old(Nodes(shape))
      ensures Model() == Plug(ValuesCtx(c), Node(Values(s.left), d, Values(s.right)))
      ensures Size(shape) == old(Size(shape))
    {
      SetData(n, d, c, s, root);
      shape := Plug(c, Node(s.left, Cell(n, d), s.right));
    }

    method NodeFind(d: T) returns (n: BtNode?<T>, ghost c: Ctx<Cell<T>>, ghost s: Tree<Cell<T>>)
      requires Valid()
      ensures Plug(c, s) == shape && n == RootOf(s)
      ensures Match(cmp, Model(), d) == Values(s)
      ensures Find(cmp, Model(), d) == if n == null then None else Some(n.data)
      ensures n != null ==> n in Nodes(shape) && s.elem == Cell(n, n.data)
      ensures n != null ==> Rem(cmp, Model(), d) == Plug(ValuesCtx(c), RemRoot(Values(s)))
    {
      assert allocated(Nodes(shape));
      c, s := Top, shape;
      n := root;
      while n != null
        invariant n == RootOf(s) && Plug(c, s) == shape
        invariant Match(cmp, Model(), d) == Match(cmp, Values(s), d)
        invariant Find(cmp, Model(), d) == Find(cmp, Values(s), d)
        invariant Rem(cmp, Model(), d) == Plug(ValuesCtx(c), Rem(cmp, Values(s), d))
        decreases s
      {
        Links(c, s, root);
        if cmp(d, n.data) < 0 {
          n := n.left;
          c, s := InLeft(c, s.elem, s.right), s.left;
        } else if cmp(d, n.data) > 0 {
          n := n.right;
          c, s := InRight(c, s.left, s.elem), s.right;
        } else {
          return;
        }
      }
    }

    method FindElem(d: T) returns (r: Option<T>)
      requires Valid()
      ensures r == Find(cmp, Model(), d)
      ensures r.Some? ==> r.value in InOrder(Model()) && cmp(d, r.value) == 0
      ensures r.None? ==> forall x :: x in InOrder(Model()) ==> cmp(d, x) != 0
    {
      ghost var c, s;
      var n;
      assert allocated(Nodes(shape));
      n, c, s := NodeFind(d);
      if n != null {
        Links(c, s, root);
      }
      FindListing(cmp, Model(), d);
      r := if n == null then None else Some(n.data);
    }

    method Remove(d: T) returns (ok: bool)
      requires Valid()
      modifies this`count, this`root, this`shape, Nodes(shape)
      ensures Valid() && Nodes(shape) <= old(Nodes(shape))
      ensures ok == Find(cmp, old(Model()), d).Some?
      ensures Model() == Rem(cmp, old(Model()), d)
      ensures count == old(count) - if ok then 1 else 0
      ensures old(CountIsSize()) ==> (CountIsSize() <==> !Drops(cmp, old(Model()), d))
    {
      ghost var model := Model();
      RemSize(cmp, model, d);
      RemKeepsOrder(cmp, model, d);
      ValuesSize(shape);
      assert allocated(Nodes(shape));
      ghost var c, s;
      var n;
      n, c, s := NodeFind(d);
      if n == null {
        return false;
      }
      RemoveNode(n, c, s);
      ValuesSize(shape);
      count := count - 1;
      ok := true;
    }

    method RemoveNode(n: BtNode<T>, ghost c: Ctx<Cell<T>>, ghost s: Tree<Cell<T>>)
      requires Rep(shape, null, root) && Plug(c, s) == shape && n == RootOf(s)
      modifies this`root, this`shape, Nodes(shape)
      ensures Rep(shape, null, root) && Nodes(shape) <= old(Nodes(shape))
      ensures Model() == Plug(ValuesCtx(c), RemRoot(Values(s)))
    {
      Links(c, s, root);
      if n.right == null && n.left == null {
        UnlinkLeaf(n, c, s);
      } else if n.left == null || n.right == null {
        PromoteChild(n, c, s);
      } else {
        TakePredecessor(n, c, s);
      }
    }

    /** Lets whatever pointed down to n point to x instead. */
    method Relink(n: BtNode<T>, x: BtNode?<T>, ghost c: Ctx<Cell<T>>)
      requires RepCtx(c, n, null, root) && n.parent == ParentOf(c, null) && n !in CtxNodes(c)
      modifies this`root, ParentSet(n)`left, ParentSet(n)`right
      ensures RepCtx(c, x, null, root)
    {
      var isRoot := n.parent == null;
      var left := !isRoot && n.parent.left == n;
      if isRoot {
        root := x;
      } else if left {
        n.parent.left := x;
      } else {
        n.parent.right := x;
      }
    }

    method UnlinkLeaf(n: BtNode<T>, ghost c: Ctx<Cell<T>>, ghost s: Tree<Cell<T>>)
      requires Rep(shape, null, root) && Plug(c, s) == shape && n == RootOf(s)
      requires s.left.Nil? && s.right.Nil?
      modifies this`root, this`shape, Nodes(shape)
      ensures Rep(shape, null, root) && Nodes(shape) <= old(Nodes(shape))
      ensures Model() == Plug(ValuesCtx(c), RemRoot(Values(s)))
    {
      Split(c, s, null, root);
      assert c.Top? || c.elem.node in CtxNodes(c);
      n.left, n.right := null, null;
      Relink(n, null, c);
      shape := Plug(c, Nil);
      Join(c, Nil, null, root);
      ValuesPlug(c, Nil);
    }

    method PromoteChild(n: BtNode<T>, ghost c: Ctx<Cell<T>>, ghost s: Tree<Cell<T>>)
      requires Rep(shape, null, root) && Plug(c, s) == shape && n == RootOf(s)
      requires s.left.Nil? != s.right.Nil?
      modifies this`root, this`shape, Nodes(shape)
      ensures Rep(shape, null, root) && Nodes(shape) <= old(Nodes(shape))
      ensures Model() == Plug(ValuesCtx(c), RemRoot(Values(s)))
    {
      Split(c, s, null, root);
      assert c.Top? || c.elem.node in CtxNodes(c);
      assert allocated(Nodes(s.left)) && allocated(Nodes(s.right)) && allocated(CtxNodes(c));
      var child := if n.left == null then n.right else n.left;
      ghost var t := if s.left.Nil? then s.right else s.left;
      OnlyChild(s, n.parent, n);
      Relink(n, child, c);
      HangUnder(child, n.parent, c, t, root);
      shape := Plug(c, t);
      ValuesPlug(c, t);
    }

    method TakePredecessor(n: BtNode<T>, ghost c: Ctx<Cell<T>>, ghost s: Tree<Cell<T>>)
      requires Rep(shape, null, root) && Plug(c, s) == shape && n == RootOf(s)
      requires s.left.Node? && s.right.Node?
      modifies this`shape, Nodes(shape)
      ensures Rep(shape, null, root) && Nodes(shape) <= old(Nodes(shape))
      ensures Model() == Plug(ValuesCtx(c), RemRoot(Values(s)))
    {
      Split(c, s, null, root);
      assert allocated(CtxNodes(c));
      SwapWithPredecessor(n, s);
      ghost var s' := Node(DropMax(s.left), Cell(n, MaxElem(s.left).data), s.right);
      Join(c, s', null, root);
      shape := Plug(c, s');
      ValuesMax(s.left);
      ValuesPlug(c, s');
    }

    method Collect(dest: array<T>, travmode: int) returns (ok: bool)
      requires Valid() && Size(shape) <= dest.Length
      modifies dest
      ensures ok == (root == null || 0 <= travmode <= 2)
      ensures ok ==> dest[..Size(shape)] == Order(Model(), travmode)
      ensures ok ==> forall k :: Size(shape) <= k < dest.Length ==> dest[k] == old(dest[k])
      ensures !ok ==> dest[..] == old(dest[..])
    {
      if root == null {
        return true;
      }
      if travmode == TRAV_PREORDER {
        var _ := RTravPreorder(root, dest, 0, shape, null);
      } else if travmode == TRAV_INORDER {
        var _ := RTravInorder(root, dest, 0, shape, null);
      } else if travmode == TRAV_POSTORDER {
        var _ := RTravPostorder(root, dest, 0, shape, null);
      } else {
        return false;
      }
      ok := true;
    }

    /** Inserts src[start..end], both inclusive, midpoint first. */
    method RBalance(src: array<T>, start: nat, end: nat, ghost q: seq<T>)
      requires Valid() && start <= end < src.Length && src[..] == q
      modifies this`count, this`root, this`shape, Nodes(shape)
      ensures Valid() && src[..] == q
      ensures forall x :: x in Nodes(shape) ==> x in old(Nodes(shape)) || fresh(x)
      ensures Model() == InsMids(cmp, old(Model()), q, start, end + 1)
      ensures old(CountIsSize()) ==> CountIsSize()
      decreases end - start, 1
    {
      var mid := (start + end) / 2;
      ghost var m := Model();
      InsertOne(src, mid, q);
      RBalanceSides(src, start, mid, end, q);
      assert mid == (start + (end + 1) - 1) / 2;
      InsMidsStep(cmp, m, q, start, end + 1);
    }

    method InsertOne(src: array<T>, mid: nat, ghost q: seq<T>)
      requires Valid() && mid < src.Length && src[..] == q
      modifies this`count, this`root, this`shape, Nodes(shape)
      ensures Valid() && src[..] == q
      ensures forall x :: x in Nodes(shape) ==> x in old(Nodes(shape)) || fresh(x)
      ensures Model() == Ins(cmp, old(Model()), q[mid])
      ensures old(CountIsSize()) ==> CountIsSize()
    {
      assert src[mid] == q[mid];
      var ok := Insert(Some(src[mid]));
    }

    /** The two guarded recursive calls. */
    method RBalanceSides(src: array<T>, start: nat, mid: nat, end: nat, ghost q: seq<T>)
      requires Valid() && start <= mid <= end < src.Length && src[..] == q
      modifies this`count, this`root, this`shape, Nodes(shape)
      ensures Valid() && src[..] == q
      ensures forall x :: x in Nodes(shape) ==> x in old(Nodes(shape)) || fresh(x)
      ensures Model() == InsMids(cmp, InsMids(cmp, old(Model()), q, start, mid), q, mid + 1, end + 1)
      ensures old(CountIsSize()) ==> CountIsSize()
      decreases end - start, 0
    {
      ghost var m := Model();
      if start < mid {
        RBalance(src, start, mid - 1, q);
      }
      assert Model() == InsMids(cmp, m, q, start, mid);
      if end > mid {
        RBalance(src, mid + 1, end, q);
      }
    }

    method Balance()
      requires Valid() && root != null && CountIsSize()
      modifies this`count, this`root, this`shape
      ensures Valid() && CountIsSize() && count == old(count)
      ensures forall x :: x in Nodes(shape) ==> fresh(x)
      ensures InOrder(Model()) == old(InOrder(Model()))
      ensures MinimalHeight(Model(), count)
    {
      ghost var q := InOrder(Model());
      ValuesSize(shape);
      OrderSize(Model());
      assert allocated(Nodes(shape));
      var n := count;
      var arr := new T[n];
      var ok := Collect(arr, TRAV_INORDER);
      if !ok {
        return;
      }
      assert arr[..] == q;
      Rebuild(arr, n, q);
    }

    method Rebuild(arr: array<T>, n: nat, ghost q: seq<T>)
      requires Valid() && 0 < n == arr.Length && arr[..] == q && Ordered(cmp, q)
      modifies this`count, this`root, this`shape
      ensures Valid() && CountIsSize() && count == n
      ensures forall x :: x in Nodes(shape) ==> fresh(x)
      ensures InOrder(Model()) == q && MinimalHeight(Model(), n)
    {
      Clear();
      RBalance(arr, 0, n - 1, q);
      RebalanceIsMinimal(cmp, q);
      OrderSize(Model());
      ValuesSize(shape);
    }

    // --- iteration by parent pointers ---

    /** The iterator stands on the element at position k of the chosen traversal. */
    ghost predicate AtPosition(k: nat)
      reads this
    {
      k < |Order(shape, travtype)| && iter == Order(shape, travtype)[k].node
    }

    method First(travtype: int) returns (r: Option<T>)
      requires Valid() && root != null
      modifies this`iter, this`travtype
      ensures Valid() && this.travtype == travtype
      ensures 0 <= travtype <= 2 ==> AtPosition(0) && r == Some(Order(Model(), travtype)[0])
      ensures !(0 <= travtype <= 2) ==> iter == null && r == None
    {
      this.travtype := travtype;
      iter := null;
      ValuesOrder(shape, travtype);
      if travtype == TRAV_PREORDER {
        r := FirstPreorder();
      } else if travtype == TRAV_INORDER {
        r := FirstInorder();
      } else if travtype == TRAV_POSTORDER {
        r := FirstPostorder();
      } else {
        r := None;
      }
    }

    method FirstPreorder() returns (r: Option<T>)
      requires Valid() && root != null
      modifies this`iter
      ensures Valid() && iter == PreOrder(shape)[0].node && r == Some(PreOrder(shape)[0].data)
    {
      iter := root;
      r := Some(iter.data);
    }

    method FirstInorder() returns (r: Option<T>)
      requires Valid() && root != null
      modifies this`iter
      ensures Valid() && |InOrder(shape)| > 0
      ensures iter == InOrder(shape)[0].node && r == Some(InOrder(shape)[0].data)
    {
      iter := root;
      ghost var c, s := DescendInorder(Top, shape);
      InPlug(c, s);
      r := Some(iter.data);
    }

    /** Goes down to the node that inorder visits first below the current node. */
    method DescendInorder(ghost c0: Ctx<Cell<T>>, ghost s0: Tree<Cell<T>>)
      returns (ghost c: Ctx<Cell<T>>, ghost s: Tree<Cell<T>>)
      requires Valid() && Plug(c0, s0) == shape && s0.Node? && iter == RootOf(s0)
      modifies this`iter
      ensures Valid() && Plug(c, s) == shape && s.Node? && s.left.Nil?
      ensures iter == RootOf(s) && iter.data == s.elem.data
      ensures InBefore(c) == InBefore(c0)
    {
      c, s := c0, s0;
      Links(c, s, root);
      while iter.left != null
        invariant Valid() && Plug(c, s) == shape && s.Node? && iter == RootOf(s)
        invariant iter.left == RootOf(s.left) && iter.data == s.elem.data
        invariant InBefore(c) == InBefore(c0)
        decreases s
      {
        iter := iter.left;
        c, s := InLeft(c, s.elem, s.right), s.left;
        Links(c, s, root);
      }
    }

    method FirstPostorder() returns (r: Option<T>)
      requires Valid() && root != null
      modifies this`iter
      ensures Valid() && |PostOrder(shape)| > 0
      ensures iter == PostOrder(shape)[0].node && r == Some(PostOrder(shape)[0].data)
    {
      iter := root;
      ghost var c, s := DescendPostorder(Top, shape);
      PostPlug(c, s);
      r := Some(iter.data);
    }

    /** Goes down to the leaf that postorder visits first below the current node. */
    method DescendPostorder(ghost c0: Ctx<Cell<T>>, ghost s0: Tree<Cell<T>>)
      returns (ghost c: Ctx<Cell<T>>, ghost s: Tree<Cell<T>>)
      requires Valid() && Plug(c0, s0) == shape && s0.Node? && iter == RootOf(s0)
      modifies this`iter
      ensures Valid() && Plug(c, s) == shape && s.Node? && s.left.Nil? && s.right.Nil?
      ensures iter == RootOf(s) && iter.data == s.elem.data
      ensures PostBefore(c) == PostBefore(c0)
    {
      c, s := c0, s0;
      Links(c, s, root);
      while iter.left != null || iter.right != null
        invariant Valid() && Plug(c, s) == shape && s.Node? && iter == RootOf(s)
        invariant iter.left == RootOf(s.left) && iter.right == RootOf(s.right) && iter.data == s.elem.data
        invariant PostBefore(c) == PostBefore(c0)
        decreases s
      {
        if iter.left != null {
          iter := iter.left;
          c, s := InLeft(c, s.elem, s.right), s.left;
        } else {
          iter := iter.right;
          c, s := InRight(c, s.left, s.elem), s.right;
        }
        Links(c, s, root);
      }
    }

    method Next(ghost k: nat) returns (r: Option<T>)
      requires Valid() && AtPosition(k)
      modifies this`iter
      ensures Valid()
      ensures var q := Order(Model(), travtype);
              if k + 1 < |q| then AtPosition(k + 1) && r == Some(q[k + 1]) else iter == null && r == None
    {
      ValuesOrder(shape, travtype);
      if travtype == TRAV_PREORDER {
        r := NextPreorder(k);
      } else if travtype == TRAV_INORDER {
        r := NextInorder(k);
      } else if travtype == TRAV_POSTORDER {
        r := NextPostorder(k);
      } else {
        r := None;
      }
    }

    /** What one step of an iterator over q does from position k. */
    ghost predicate Advanced(q: seq<Cell<T>>, k: nat, r: Option<T>)
      reads this
    {
      if k + 1 < |q| then iter == q[k + 1].node && r == Some(q[k + 1].data)
      else iter == null && r == None
    }

    method NextPreorder(ghost k: nat) returns (r: Option<T>)
      requires Valid() && travtype == TRAV_PREORDER && AtPosition(k)
      modifies this`iter
      ensures Valid() && Advanced(PreOrder(shape), k, r)
    {
      ghost var c, s := LocateAt(shape, TRAV_PREORDER, root, k);
      Links(c, s, root);
      PrePlug(c, s);
      if iter.left != null {
        iter := iter.left;
        Links(InLeft(c, s.elem, s.right), s.left, root);
      } else if iter.right != null {
        iter := iter.right;
        Links(InRight(c, s.left, s.elem), s.right, root);
      } else {
        ClimbPreorder(k, c, s);
        if iter == null {
          return None;
        }
      }
      r := Some(iter.data);
    }

    /** From the root of a subtree that has been visited completely, goes up to the
        nearest node that is still to be visited. */
    method ClimbPreorder(ghost k: nat, ghost c0: Ctx<Cell<T>>, ghost s0: Tree<Cell<T>>)
      requires Valid() && Plug(c0, s0) == shape && s0.Node? && iter == RootOf(s0)
      requires k + 1 == |PreBefore(c0)| + |PreOrder(s0)|
      modifies this`iter
      ensures Valid()
      ensures var q := PreOrder(shape);
              if k + 1 < |q| then iter == q[k + 1].node && iter.data == q[k + 1].data else iter == null
    {
      ghost var c, s := c0, s0;
      while true
        invariant Valid() && Plug(c, s) == shape && s.Node? && iter == RootOf(s)
        invariant k + 1 == |PreBefore(c)| + |PreOrder(s)|
        decreases c
      {
        while iter.parent != null && iter.parent.right == iter
          invariant Valid() && Plug(c, s) == shape && s.Node? && iter == RootOf(s)
          invariant k + 1 == |PreBefore(c)| + |PreOrder(s)|
          decreases c
        {
          Links(c, s, root);
          iter := iter.parent;
          c, s := c.up, Node(c.left, c.elem, s);
        }
        Links(c, s, root);
        if iter.parent == null {
          PreAt(c, s);
          iter := null;
          return;
        }
        if iter.parent.right == null {
          iter := iter.parent;
          c, s := c.up, Node(s, c.elem, c.right);
          continue;
        }
        iter := iter.parent.right;
        Links(InRight(c.up, s, c.elem), c.right, root);
        PreAt(InRight(c.up, s, c.elem), c.right);
        return;
      }
    }

    method NextInorder(ghost k: nat) returns (r: Option<T>)
      requires Valid() && travtype == TRAV_INORDER && AtPosition(k)
      modifies this`iter
      ensures Valid() && Advanced(InOrder(shape), k, r)
    {
      ghost var c, s := LocateAt(shape, TRAV_INORDER, root, k);
      Links(c, s, root);
      InPlug(c, s);
      if iter.right != null {
        iter := iter.right;
        c, s := DescendInorder(InRight(c, s.left, s.elem), s.right);
        InPlug(c, s);
      } else {
        if iter.parent == null {
          iter := null;
          return None;
        }
        ClimbInorder(k, c, s);
        if iter == null {
          return None;
        }
      }
      r := Some(iter.data);
    }

    /** Goes up until the step came from a left child. */
    method ClimbInorder(ghost k: nat, ghost c0: Ctx<Cell<T>>, ghost s0: Tree<Cell<T>>)
      requires Valid() && Plug(c0, s0) == shape && s0.Node? && iter == RootOf(s0)
      requires k + 1 == |InBefore(c0)| + |InOrder(s0)| && iter.parent != null
      modifies this`iter
      ensures Valid()
      ensures var q := InOrder(shape);
              if k + 1 < |q| then iter == q[k + 1].node && iter.data == q[k + 1].data else iter == null
    {
      ghost var c, s := c0, s0;
      var left := false;
      while !left && iter.parent != null
        invariant Valid() && Plug(c, s) == shape && s.Node? && iter == RootOf(s)
        invariant k + 1 == |InBefore(c)| + if left then |InOrder(s.left)| else |InOrder(s)|
        decreases c
      {
        Links(c, s, root);
        var prev := iter;
        iter := iter.parent;
        left := iter.left == prev;
        c, s := c.up, if c.InLeft? then Node(s, c.elem, c.right) else Node(c.left, c.elem, s);
      }
      Links(c, s, root);
      InPlug(c, s);
      if iter.parent == null && !left {
        iter := null;
      }
    }

    method NextPostorder(ghost k: nat) returns (r: Option<T>)
      requires Valid() && travtype == TRAV_POSTORDER && AtPosition(k)
      modifies this`iter
      ensures Valid() && Advanced(PostOrder(shape), k, r)
    {
      ghost var c, s := LocateAt(shape, TRAV_POSTORDER, root, k);
      Links(c, s, root);
      PostPlug(c, s);
      var isRoot := iter.parent == null;
      var left := !isRoot && iter.parent.left == iter;
      if isRoot {
        iter := null;
        return None;
      }
      iter := iter.parent;
      ghost var up := if c.InLeft? then Node(s, c.elem, c.right) else Node(c.left, c.elem, s);
      Links(c.up, up, root);
      if left && iter.right != null {
        iter := iter.right;
        ghost var d, t := DescendPostorder(InRight(c.up, s, c.elem), c.right);
        PostAt(d, t);
      } else {
        PostAt(c.up, up);
      }
      r := Some(iter.data);
    }

    /** out is the traversal so far, and r what comes next. */
    ghost predicate ListedSoFar(out: seq<T>, r: Option<T>)
      reads this
    {
      var q, k := Order(Model(), travtype), |out|;
      && out <= q
      && if r.Some? then k < |q| && AtPosition(k) && r.value == q[k] else k == |q| && iter == null
    }

    /** One round of the loop the callers write. */
    method Gather(out: seq<T>, x: T) returns (out': seq<T>, r: Option<T>)
      requires Valid() && ListedSoFar(out, Some(x))
      modifies this`iter
      ensures Valid() && ListedSoFar(out', r) && |out'| == |out| + 1
    {
      out' := out + [x];
      assert out' == Order(Model(), travtype)[..|out'|];
      r := Next(|out|);
    }

    /** First, then next until it reports the end. */
    method IterateAll(travtype: int) returns (out: seq<T>)
      requires Valid() && root != null && 0 <= travtype <= 2
      modifies this`iter, this`travtype
      ensures Valid() && out == Order(Model(), travtype) && iter == null
    {
      ValuesOrder(shape, travtype);
      out := [];
      var r := First(travtype);
      while r.Some?
        invariant Valid() && this.travtype == travtype && ListedSoFar(out, r)
        decreases |Order(Model(), travtype)| - |out|, r.Some?
      {
        out, r := Gather(out, r.value);
      }
    }
  }

  /** Any run of insertions and removals on a new tree does what Run does to a tree
      value; while nothing is dropped it is the sorted-list reference, with count right. */
  method Drive<T(0, !new)>(cmp: (T, T) -> int, ops: seq<Op<T>>) returns (t: BinTree<T>)
    requires TotalPreorder(cmp)
    ensures t.Valid() && t.cmp == cmp && t.Model() == Run(cmp, Nil, ops)
    ensures RunDropsNothing(cmp, Nil, ops) ==> t.CountIsSize() && InOrder(t.Model()) == RefRun(cmp, [], ops)
  {
    t := new BinTree(cmp);
    var i := 0;
    while i < |ops|
      invariant 0 <= i <= |ops| && fresh(t) && fresh(Nodes(t.shape)) && t.Valid() && t.cmp == cmp
      invariant Run(cmp, Nil, ops) == Run(cmp, t.Model(), ops[i..])
      invariant RunDropsNothing(cmp, Nil, ops) ==> RunDropsNothing(cmp, t.Model(), ops[i..]) && t.CountIsSize()
    {
      assert ops[i..][0] == ops[i] && ops[i..][1..] == ops[i + 1..];
      match ops[i] {
        case Insert(d) =>
          var _ := t.Insert(Some(d));
        case Remove(d) =>
          var _ := t.Remove(d);
      }
      i := i + 1;
    }
    RunRefinesSortedList(cmp, Nil, ops);
  }

  lemma {:induction false} SizePlug<A>(c: Ctx<A>, s: Tree<A>)
    ensures Size(Plug(c, s)) == Size(Plug(c, Nil)) + Size(s)
    decreases c
  {
    match c
    case Top =>
    case InLeft(up, e, r) =>
      SizePlug(up, Node(s, e, r));
      SizePlug(up, Node(Nil, e, r));
    case InRight(up, l, e) =>
      SizePlug(up, Node(l, e, s));
      SizePlug(up, Node(l, e, Nil));
  }
}
