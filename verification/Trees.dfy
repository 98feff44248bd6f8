/** Binary trees as values, with the zipper used to reason about a node in the
    middle of a tree.  Everything here is independent of the heap. */
module Trees {
  import opened Prelude

  datatype Tree<A> = Nil | Node(left: Tree<A>, elem: A, right: Tree<A>)

  /** A tree with one subtree cut out, seen from the hole upwards. */
  datatype Ctx<A> =
    | Top
    | InLeft(up: Ctx<A>, elem: A, right: Tree<A>)
    | InRight(up: Ctx<A>, left: Tree<A>, elem: A)

  function Plug<A>(c: Ctx<A>, t: Tree<A>): Tree<A>
    decreases c
  {
    match c
    case Top => t
    case InLeft(up, e, r) => Plug(up, Node(t, e, r))
    case InRight(up, l, e) => Plug(up, Node(l, e, t))
  }

  function Size<A>(t: Tree<A>): nat {
    match t
    case Nil => 0
    case Node(l, _, r) => Size(l) + 1 + Size(r)
  }

  function Height<A>(t: Tree<A>): nat {
    match t
    case Nil => 0
    case Node(l, _, r) => 1 + Max(Height(l), Height(r))
  }

  // --- traversal orders ---

  const TRAV_PREORDER: int := 0
  const TRAV_INORDER: int := 1
  const TRAV_POSTORDER: int := 2

  function PreOrder<A>(t: Tree<A>): seq<A> {
    match t
    case Nil => []
    case Node(l, e, r) => [e] + PreOrder(l) + PreOrder(r)
  }

  function InOrder<A>(t: Tree<A>): seq<A> {
    match t
    case Nil => []
    case Node(l, e, r) => InOrder(l) + [e] + InOrder(r)
  }

  function PostOrder<A>(t: Tree<A>): seq<A> {
    match t
    case Nil => []
    case Node(l, e, r) => PostOrder(l) + PostOrder(r) + [e]
  }

  function Order<A>(t: Tree<A>, travtype: int): seq<A> {
    if travtype == TRAV_PREORDER then PreOrder(t)
    else if travtype == TRAV_INORDER then InOrder(t)
    else if travtype == TRAV_POSTORDER then PostOrder(t)
    else []
  }

  lemma {:induction false} OrderSize<A>(t: Tree<A>)
    ensures |PreOrder(t)| == |InOrder(t)| == |PostOrder(t)| == Size(t)
  {
    match t
    case Nil =>
    case Node(l, _, r) =>
      OrderSize(l);
      OrderSize(r);
  }

  // What a traversal visits before and after the hole of a context.

  function PreBefore<A>(c: Ctx<A>): seq<A> {
    match c
    case Top => []
    case InLeft(up, e, _) => PreBefore(up) + [e]
    case InRight(up, l, e) => PreBefore(up) + [e] + PreOrder(l)
  }

  function PreAfter<A>(c: Ctx<A>): seq<A> {
    match c
    case Top => []
    case InLeft(up, _, r) => PreOrder(r) + PreAfter(up)
    case InRight(up, _, _) => PreAfter(up)
  }

  function InBefore<A>(c: Ctx<A>): seq<A> {
    match c
    case Top => []
    case InLeft(up, _, _) => InBefore(up)
    case InRight(up, l, e) => InBefore(up) + InOrder(l) + [e]
  }

  function InAfter<A>(c: Ctx<A>): seq<A> {
    match c
    case Top => []
    case InLeft(up, e, r) => [e] + InOrder(r) + InAfter(up)
    case InRight(up, _, _) => InAfter(up)
  }

  function PostBefore<A>(c: Ctx<A>): seq<A> {
    match c
    case Top => []
    case InLeft(up, _, _) => PostBefore(up)
    case InRight(up, l, _) => PostBefore(up) + PostOrder(l)
  }

  function PostAfter<A>(c: Ctx<A>): seq<A> {
    match c
    case Top => []
    case InLeft(up, e, r) => PostOrder(r) + [e] + PostAfter(up)
    case InRight(up, _, e) => [e] + PostAfter(up)
  }

  lemma Regroup<A>(a: seq<A>, b: seq<A>, x: seq<A>, y: seq<A>, z: seq<A>)
    ensures a + (b + x + y) + z == (a + b) + x + (y + z)
  {
  }

  lemma {:induction false} PrePlug<A>(c: Ctx<A>, t: Tree<A>)
    ensures PreOrder(Plug(c, t)) == PreBefore(c) + PreOrder(t) + PreAfter(c)
    decreases c
  {
    match c
    case Top =>
    case InLeft(up, e, r) =>
      PrePlug(up, Node(t, e, r));
      Regroup(PreBefore(up), [e], PreOrder(t), PreOrder(r), PreAfter(up));
    case InRight(up, l, e) =>
      PrePlug(up, Node(l, e, t));
      Regroup(PreBefore(up), [e] + PreOrder(l), PreOrder(t), [], PreAfter(up));
  }

  lemma {:induction false} InPlug<A>(c: Ctx<A>, t: Tree<A>)
    ensures InOrder(Plug(c, t)) == InBefore(c) + InOrder(t) + InAfter(c)
    decreases c
  {
    match c
    case Top =>
    case InLeft(up, e, r) =>
      InPlug(up, Node(t, e, r));
      Regroup(InBefore(up), [], InOrder(t), [e] + InOrder(r), InAfter(up));
    case InRight(up, l, e) =>
      InPlug(up, Node(l, e, t));
      Regroup(InBefore(up), InOrder(l) + [e], InOrder(t), [], InAfter(up));
  }

  lemma {:induction false} PostPlug<A>(c: Ctx<A>, t: Tree<A>)
    ensures PostOrder(Plug(c, t)) == PostBefore(c) + PostOrder(t) + PostAfter(c)
    decreases c
  {
    match c
    case Top =>
    case InLeft(up, e, r) => PostPlug(up, Node(t, e, r));
    case InRight(up, l, e) => PostPlug(up, Node(l, e, t));
  }

  /** Where preorder lists the root of a subtree. */
  lemma PreAt<A>(c: Ctx<A>, t: Tree<A>)
    requires t.Node?
    ensures var q, k := PreOrder(Plug(c, t)), |PreBefore(c)|;
            |q| == k + |PreOrder(t)| + |PreAfter(c)| && k < |q| && q[k] == t.elem
  {
    PrePlug(c, t);
  }

  /** Where postorder lists the root of a subtree. */
  lemma PostAt<A>(c: Ctx<A>, t: Tree<A>)
    requires t.Node?
    ensures var q, k := PostOrder(Plug(c, t)), |PostBefore(c)| + |PostOrder(t.left)| + |PostOrder(t.right)|;
            |q| == k + 1 + |PostAfter(c)| && q[k] == t.elem
  {
    PostPlug(c, t);
    var b := PostBefore(c) + PostOrder(t.left) + PostOrder(t.right);
    assert PostOrder(Plug(c, t)) == b + [t.elem] + PostAfter(c);
  }

  /** All three orders list the same elements, so an element seen by one of them
      sits at the top of some subtree. */
  lemma {:induction false} Locate<A>(t: Tree<A>, travtype: int, x: A) returns (c: Ctx<A>, s: Tree<A>)
    requires x in Order(t, travtype)
    ensures Plug(c, s) == t && s.Node? && s.elem == x
  {
    c, s := LocateUnder(Top, t, travtype, x);
  }

  lemma {:induction false} LocateUnder<A>(c0: Ctx<A>, t: Tree<A>, travtype: int, x: A) returns (c: Ctx<A>, s: Tree<A>)
    requires x in Order(t, travtype)
    ensures Plug(c, s) == Plug(c0, t) && s.Node? && s.elem == x
    decreases t
  {
    var Node(l, e, r) := t;
    if e == x {
      c, s := c0, t;
    } else if x in Order(l, travtype) {
      c, s := LocateUnder(InLeft(c0, e, r), l, travtype, x);
    } else {
      c, s := LocateUnder(InRight(c0, l, e), r, travtype, x);
    }
  }

  // --- height and size ---

  lemma {:induction false} SizeBelowPow2<A>(t: Tree<A>)
    ensures Size(t) < Pow2(Height(t))
  {
    match t
    case Nil =>
    case Node(l, _, r) =>
      SizeBelowPow2(l);
      SizeBelowPow2(r);
      Pow2Mono(Height(l), Max(Height(l), Height(r)));
      Pow2Mono(Height(r), Max(Height(l), Height(r)));
  }

  /** A way down from the root, past a node with every step; false is left, true right. */
  predicate WayDown<A>(t: Tree<A>, way: seq<bool>) {
    way == [] || (t.Node? && WayDown(if way[0] then t.right else t.left, way[1..]))
  }

  /** The height is the number of nodes on the longest way down. */
  lemma {:induction false} HeightIsLongestWay<A>(t: Tree<A>) returns (way: seq<bool>)
    ensures WayDown(t, way) && |way| == Height(t)
    ensures forall w :: WayDown(t, w) ==> |w| <= Height(t)
  {
    match t
    case Nil => way := [];
    case Node(l, _, r) =>
      var a := HeightIsLongestWay(l);
      var b := HeightIsLongestWay(r);
      way := if |a| < |b| then [true] + b else [false] + a;
      assert way[1..] == if |a| < |b| then b else a;
      forall w | WayDown(t, w)
        ensures |w| <= Height(t)
      {
        if w != [] {
          assert WayDown(if w[0] then r else l, w[1..]);
        }
      }
  }

  lemma {:induction false} Pow2Mono(a: nat, b: nat)
    requires a <= b
    ensures Pow2(a) <= Pow2(b)
    decreases b
  {
    if a < b {
      Pow2Mono(a, b - 1);
    }
  }
}
