/** What the search tree operations do to a tree as a value, and the facts about
    order, removal and rebalancing that follow. */
module SearchTrees {
  import opened Prelude
  import opened Trees

  // --- sorted sequences and how a new element divides them ---

  ghost predicate Ordered<T>(cmp: (T, T) -> int, q: seq<T>) {
    forall i, j {:trigger Before(q, i, j)} :: Before(q, i, j) ==> cmp(q[i], q[j]) < 0
  }

  ghost predicate Before<T>(q: seq<T>, i: int, j: int) {
    0 <= i < j < |q|
  }

  function Sign(x: int): int {
    if x < 0 then -1 else if x > 0 then 1 else 0
  }

  /** The elements of q that d compares to with one of the given signs, in order. */
  function Pick<T>(cmp: (T, T) -> int, q: seq<T>, d: T, signs: set<int>): seq<T> {
    if q == [] then []
    else (if Sign(cmp(d, q[0])) in signs then [q[0]] else []) + Pick(cmp, q[1..], d, signs)
  }

  lemma {:induction false} PickMembers<T(!new)>(cmp: (T, T) -> int, q: seq<T>, d: T, signs: set<int>)
    ensures forall x :: x in Pick(cmp, q, d, signs) <==> x in q && Sign(cmp(d, x)) in signs
  {
    if q != [] {
      PickMembers(cmp, q[1..], d, signs);
      assert [q[0]] + q[1..] == q;
    }
  }

  function Below<T(!new)>(cmp: (T, T) -> int, q: seq<T>, d: T): seq<T> { Pick(cmp, q, d, {1}) }

  function Above<T(!new)>(cmp: (T, T) -> int, q: seq<T>, d: T): seq<T> { Pick(cmp, q, d, {-1}) }

  function Others<T(!new)>(cmp: (T, T) -> int, q: seq<T>, d: T): seq<T> { Pick(cmp, q, d, {-1, 1}) }

  lemma Reassociate<T>(a: seq<T>, b: seq<T>, c: seq<T>, d: seq<T>)
    ensures a + b + c + d == a + (b + c + d)
  {
    Assoc(a, b, c);
    Assoc(a, b + c, d);
  }

  lemma SliceAround<T>(q: seq<T>, lo: nat, mid: nat, hi: nat)
    requires lo <= mid < hi <= |q|
    ensures q[lo..mid] + [q[mid]] + q[mid + 1..hi] == q[lo..hi]
  {
    assert q[lo..mid] + [q[mid]] == q[lo..mid + 1];
    assert q[lo..mid + 1] + q[mid + 1..hi] == q[lo..hi];
  }

  lemma {:induction false} PickAppend<T(!new)>(cmp: (T, T) -> int, a: seq<T>, b: seq<T>, d: T, signs: set<int>)
    ensures Pick(cmp, a + b, d, signs) == Pick(cmp, a, d, signs) + Pick(cmp, b, d, signs)
  {
    if a == [] {
      assert a + b == b;
    } else {
      assert (a + b)[0] == a[0] && (a + b)[1..] == a[1..] + b;
      PickAppend(cmp, a[1..], b, d, signs);
      Assoc(if Sign(cmp(d, a[0])) in signs then [a[0]] else [], Pick(cmp, a[1..], d, signs), Pick(cmp, b, d, signs));
    }
  }

  lemma {:induction false} PickUniform<T(!new)>(cmp: (T, T) -> int, q: seq<T>, d: T, signs: set<int>, s: int)
    requires forall x :: x in q ==> Sign(cmp(d, x)) == s
    ensures Pick(cmp, q, d, signs) == if s in signs then q else []
  {
    if q != [] {
      assert q[0] in q;
      PickUniform(cmp, q[1..], d, signs, s);
      assert [q[0]] + q[1..] == q;
    }
  }

  lemma OrderedParts<T(!new)>(cmp: (T, T) -> int, a: seq<T>, b: seq<T>)
    requires Ordered(cmp, a + b)
    ensures Ordered(cmp, a) && Ordered(cmp, b)
    ensures forall x, y :: x in a && y in b ==> cmp(x, y) < 0
  {
    var q := a + b;
    forall i, j | Before(a, i, j) ensures cmp(a[i], a[j]) < 0 {
      assert Before(q, i, j) && q[i] == a[i] && q[j] == a[j];
    }
    forall i, j | Before(b, i, j) ensures cmp(b[i], b[j]) < 0 {
      assert Before(q, |a| + i, |a| + j) && q[|a| + i] == b[i] && q[|a| + j] == b[j];
    }
    forall x, y | x in a && y in b ensures cmp(x, y) < 0 {
      var i :| 0 <= i < |a| && a[i] == x;
      var j :| 0 <= j < |b| && b[j] == y;
      assert Before(q, i, |a| + j) && q[i] == x && q[|a| + j] == y;
    }
  }

  /** Dividing an ordered in-order listing at its root element. */
  lemma OrderedSplit<T(!new)>(cmp: (T, T) -> int, a: seq<T>, e: T, b: seq<T>)
    requires Ordered(cmp, a + [e] + b)
    ensures Ordered(cmp, a) && Ordered(cmp, b)
    ensures forall x :: x in a ==> cmp(x, e) < 0
    ensures forall x :: x in b ==> cmp(e, x) < 0
  {
    OrderedParts(cmp, a + [e], b);
    OrderedParts(cmp, a, [e]);
    assert e in a + [e] && e in [e];
  }

  lemma OrderedHalves<T(!new)>(cmp: (T, T) -> int, a: seq<T>, e: T, b: seq<T>)
    requires Ordered(cmp, a + [e] + b)
    ensures Ordered(cmp, a) && Ordered(cmp, b)
  {
    OrderedSplit(cmp, a, e, b);
  }

  /** Where d falls relative to the root fixes where it falls relative to a whole side. */
  lemma SideSigns<T(!new)>(cmp: (T, T) -> int, q: seq<T>, d: T, e: T)
    requires TotalPreorder(cmp)
    ensures cmp(d, e) <= 0 && (forall x :: x in q ==> cmp(e, x) < 0) ==> forall x :: x in q ==> Sign(cmp(d, x)) == -1
    ensures cmp(d, e) >= 0 && (forall x :: x in q ==> cmp(x, e) < 0) ==> forall x :: x in q ==> Sign(cmp(d, x)) == 1
  {
    forall x | x in q && cmp(d, e) <= 0 && cmp(e, x) < 0
      ensures Sign(cmp(d, x)) == -1
    {
      Transitive(cmp, d, e, x);
    }
    forall x | x in q && cmp(d, e) >= 0 && cmp(x, e) < 0
      ensures Sign(cmp(d, x)) == 1
    {
      Transitive(cmp, x, e, d);
    }
  }

  /** Pick over a + [e] + b by pieces; the pieces d falls clear of are kept or dropped whole. */
  lemma PickNode<T(!new)>(cmp: (T, T) -> int, a: seq<T>, e: T, b: seq<T>, d: T, signs: set<int>)
    requires TotalPreorder(cmp) && Ordered(cmp, a + [e] + b)
    ensures Pick(cmp, a + [e] + b, d, signs)
         == Pick(cmp, a, d, signs) + (if Sign(cmp(d, e)) in signs then [e] else []) + Pick(cmp, b, d, signs)
    ensures cmp(d, e) >= 0 ==> Pick(cmp, a, d, signs) == if 1 in signs then a else []
    ensures cmp(d, e) <= 0 ==> Pick(cmp, b, d, signs) == if -1 in signs then b else []
  {
    PickAppend(cmp, a + [e], b, d, signs);
    PickAppend(cmp, a, [e], d, signs);
    PickUniform(cmp, [e], d, signs, Sign(cmp(d, e)));
    PickSides(cmp, a, e, b, d, signs);
  }

  lemma PickSides<T(!new)>(cmp: (T, T) -> int, a: seq<T>, e: T, b: seq<T>, d: T, signs: set<int>)
    requires TotalPreorder(cmp) && Ordered(cmp, a + [e] + b)
    ensures cmp(d, e) >= 0 ==> Pick(cmp, a, d, signs) == if 1 in signs then a else []
    ensures cmp(d, e) <= 0 ==> Pick(cmp, b, d, signs) == if -1 in signs then b else []
  {
    OrderedSplit(cmp, a, e, b);
    if cmp(d, e) >= 0 {
      SideSigns(cmp, a, d, e);
      PickUniform(cmp, a, d, signs, 1);
    }
    if cmp(d, e) <= 0 {
      SideSigns(cmp, b, d, e);
      PickUniform(cmp, b, d, signs, -1);
    }
  }

  // --- insertion ---

  /** An element equal to one already present takes its place. */
  function Ins<T>(cmp: (T, T) -> int, t: Tree<T>, d: T): Tree<T> {
    match t
    case Nil => Node(Nil, d, Nil)
    case Node(l, e, r) =>
      if cmp(d, e) < 0 then Node(Ins(cmp, l, d), e, r)
      else if cmp(d, e) > 0 then Node(l, e, Ins(cmp, r, d))
      else Node(l, d, r)
  }

  lemma {:induction false} InsOrdered<T(!new)>(cmp: (T, T) -> int, t: Tree<T>, d: T)
    requires TotalPreorder(cmp) && Ordered(cmp, InOrder(t))
    ensures InOrder(Ins(cmp, t, d)) == Below(cmp, InOrder(t), d) + [d] + Above(cmp, InOrder(t), d)
    ensures Ordered(cmp, InOrder(Ins(cmp, t, d)))
  {
    InsListing(cmp, t, d);
    InsertKeepsOrder(cmp, InOrder(t), d);
  }

  lemma InsKeepsOrder<T(!new)>(cmp: (T, T) -> int, t: Tree<T>, d: T)
    requires TotalPreorder(cmp) && Ordered(cmp, InOrder(t))
    ensures Ordered(cmp, InOrder(Ins(cmp, t, d)))
  {
    InsOrdered(cmp, t, d);
  }

  lemma {:induction false} InsListing<T(!new)>(cmp: (T, T) -> int, t: Tree<T>, d: T)
    requires TotalPreorder(cmp) && Ordered(cmp, InOrder(t))
    ensures InOrder(Ins(cmp, t, d)) == Below(cmp, InOrder(t), d) + [d] + Above(cmp, InOrder(t), d)
  {
    match t
    case Nil =>
    case Node(l, e, r) =>
      var a, b := InOrder(l), InOrder(r);
      OrderedHalves(cmp, a, e, b);
      if cmp(d, e) < 0 {
        InsListing(cmp, l, d);
        ListedLeft(cmp, a, e, b, d);
        assert InOrder(Ins(cmp, t, d)) == InOrder(Ins(cmp, l, d)) + [e] + b;
      } else if cmp(d, e) > 0 {
        InsListing(cmp, r, d);
        ListedRight(cmp, a, e, b, d);
        assert InOrder(Ins(cmp, t, d)) == a + [e] + InOrder(Ins(cmp, r, d));
      } else {
        ListedHere(cmp, a, e, b, d);
        assert InOrder(Ins(cmp, t, d)) == a + [d] + b;
      }
  }

  lemma ListedHere<T(!new)>(cmp: (T, T) -> int, a: seq<T>, e: T, b: seq<T>, d: T)
    requires TotalPreorder(cmp) && Ordered(cmp, a + [e] + b) && cmp(d, e) == 0
    ensures var q := a + [e] + b; Below(cmp, q, d) == a && Above(cmp, q, d) == b
  {
    PickNode(cmp, a, e, b, d, {1});
    PickNode(cmp, a, e, b, d, {-1});
    assert a + [] + [] == a && [] + [] + b == b;
  }

  lemma ListedLeft<T(!new)>(cmp: (T, T) -> int, a: seq<T>, e: T, b: seq<T>, d: T)
    requires TotalPreorder(cmp) && Ordered(cmp, a + [e] + b) && cmp(d, e) < 0
    ensures var q := a + [e] + b;
            Below(cmp, q, d) + [d] + Above(cmp, q, d) == (Below(cmp, a, d) + [d] + Above(cmp, a, d)) + [e] + b
  {
    PickNode(cmp, a, e, b, d, {1});
    PickNode(cmp, a, e, b, d, {-1});
    var lo := Below(cmp, a, d);
    assert lo + [] + [] == lo;
    Reassociate(lo + [d], Above(cmp, a, d), [e], b);
  }

  lemma ListedRight<T(!new)>(cmp: (T, T) -> int, a: seq<T>, e: T, b: seq<T>, d: T)
    requires TotalPreorder(cmp) && Ordered(cmp, a + [e] + b) && cmp(d, e) > 0
    ensures var q := a + [e] + b;
            Below(cmp, q, d) + [d] + Above(cmp, q, d) == a + [e] + (Below(cmp, b, d) + [d] + Above(cmp, b, d))
  {
    PickNode(cmp, a, e, b, d, {1});
    PickNode(cmp, a, e, b, d, {-1});
    var hi := Above(cmp, b, d);
    assert [] + [] + hi == hi;
    Reassociate(a + [e], Below(cmp, b, d), [d], hi);
  }

  lemma {:induction false} PickKeepsOrder<T(!new)>(cmp: (T, T) -> int, q: seq<T>, d: T, signs: set<int>)
    requires Ordered(cmp, q)
    ensures Ordered(cmp, Pick(cmp, q, d, signs))
  {
    if q != [] {
      assert [q[0]] + q[1..] == q;
      OrderedParts(cmp, [q[0]], q[1..]);
      PickKeepsOrder(cmp, q[1..], d, signs);
      PickMembers(cmp, q[1..], d, signs);
      forall x, y | x in [q[0]] && y in Pick(cmp, q[1..], d, signs)
        ensures cmp(x, y) < 0
      {
        assert y in q[1..];
      }
      var rest := Pick(cmp, q[1..], d, signs);
      OrderedJoin(cmp, [q[0]], rest);
      assert [] + rest == rest;
    }
  }

  lemma OrderedJoin<T(!new)>(cmp: (T, T) -> int, a: seq<T>, b: seq<T>)
    requires Ordered(cmp, a) && Ordered(cmp, b)
    requires forall x, y :: x in a && y in b ==> cmp(x, y) < 0
    ensures Ordered(cmp, a + b)
  {
    var q := a + b;
    forall i, j | Before(q, i, j)
      ensures cmp(q[i], q[j]) < 0
    {
      if j < |a| {
        assert Before(a, i, j);
      } else if i >= |a| {
        assert Before(b, i - |a|, j - |a|);
      } else {
        assert q[i] in a && q[j] in b;
      }
    }
  }

  lemma InsertKeepsOrder<T(!new)>(cmp: (T, T) -> int, q: seq<T>, d: T)
    requires TotalPreorder(cmp) && Ordered(cmp, q)
    ensures Ordered(cmp, Below(cmp, q, d) + [d] + Above(cmp, q, d))
  {
    var lo, hi := Below(cmp, q, d), Above(cmp, q, d);
    PickKeepsOrder(cmp, q, d, {1});
    PickKeepsOrder(cmp, q, d, {-1});
    PickMembers(cmp, q, d, {1});
    PickMembers(cmp, q, d, {-1});
    OrderedJoin(cmp, lo, [d]);
    forall x, y | x in lo + [d] && y in hi
      ensures cmp(x, y) < 0
    {
      if x in lo { Transitive(cmp, x, d, y); }
    }
    OrderedJoin(cmp, lo + [d], hi);
  }

  /** Searching for d from the root of any tree built around c arrives at the hole of c. */
  predicate LeadsToHole<T>(cmp: (T, T) -> int, c: Ctx<T>, d: T) {
    match c
    case Top => true
    case InLeft(up, e, _) => cmp(d, e) < 0 && LeadsToHole(cmp, up, d)
    case InRight(up, _, e) => cmp(d, e) > 0 && LeadsToHole(cmp, up, d)
  }

  lemma {:induction false} InsAtHole<T>(cmp: (T, T) -> int, c: Ctx<T>, t: Tree<T>, d: T)
    requires LeadsToHole(cmp, c, d)
    ensures Ins(cmp, Plug(c, t), d) == Plug(c, Ins(cmp, t, d))
    decreases c
  {
    match c
    case Top =>
    case InLeft(up, e, r) => InsAtHole(cmp, up, Node(t, e, r), d);
    case InRight(up, l, e) => InsAtHole(cmp, up, Node(l, e, t), d);
  }

  /** Insertion leaves the tree as it is, but for a leaf put where the search for d ends, or
      for an element that equals d, whose place d takes. */
  lemma {:induction false} InsShape<T>(cmp: (T, T) -> int, t: Tree<T>, d: T) returns (c: Ctx<T>, m: Tree<T>)
    ensures t == Plug(c, m) && LeadsToHole(cmp, c, d)
    ensures m.Nil? ==> Ins(cmp, t, d) == Plug(c, Node(Nil, d, Nil))
    ensures m.Node? ==> cmp(d, m.elem) == 0 && Ins(cmp, t, d) == Plug(c, Node(m.left, d, m.right))
  {
    c, m := SearchFrom(cmp, Top, t, d);
    InsAtHole(cmp, c, m, d);
  }

  /** The hole that the search for d leads to, and what is there. */
  lemma {:induction false} SearchFrom<T>(cmp: (T, T) -> int, c0: Ctx<T>, t: Tree<T>, d: T)
    returns (c: Ctx<T>, m: Tree<T>)
    requires LeadsToHole(cmp, c0, d)
    ensures Plug(c, m) == Plug(c0, t) && LeadsToHole(cmp, c, d)
    ensures m.Node? ==> cmp(d, m.elem) == 0
    decreases t
  {
    match t
    case Nil => c, m := c0, t;
    case Node(l, e, r) =>
      if cmp(d, e) < 0 {
        c, m := SearchFrom(cmp, InLeft(c0, e, r), l, d);
      } else if cmp(d, e) > 0 {
        c, m := SearchFrom(cmp, InRight(c0, l, e), r, d);
      } else {
        c, m := c0, t;
      }
  }

  // --- search ---

  function Find<T>(cmp: (T, T) -> int, t: Tree<T>, d: T): Option<T> {
    match t
    case Nil => None
    case Node(l, e, r) =>
      if cmp(d, e) < 0 then Find(cmp, l, d)
      else if cmp(d, e) > 0 then Find(cmp, r, d)
      else Some(e)
  }

  lemma {:induction false} FindListing<T(!new)>(cmp: (T, T) -> int, t: Tree<T>, d: T)
    requires TotalPreorder(cmp) && Ordered(cmp, InOrder(t))
    ensures Find(cmp, t, d).Some? ==> Find(cmp, t, d).value in InOrder(t) && cmp(d, Find(cmp, t, d).value) == 0
    ensures Find(cmp, t, d).None? ==> forall x :: x in InOrder(t) ==> cmp(d, x) != 0
  {
    match t
    case Nil =>
    case Node(l, e, r) =>
      OrderedSplit(cmp, InOrder(l), e, InOrder(r));
      if cmp(d, e) < 0 {
        FindListing(cmp, l, d);
        SideSigns(cmp, InOrder(r), d, e);
      } else if cmp(d, e) > 0 {
        FindListing(cmp, r, d);
        SideSigns(cmp, InOrder(l), d, e);
      }
  }

  // --- removal ---

  function MaxElem<T>(t: Tree<T>): T
    requires t.Node?
  {
    if t.right.Nil? then t.elem else MaxElem(t.right)
  }

  /** Unlinks the rightmost node together with everything to its left. */
  function DropMax<T>(t: Tree<T>): Tree<T>
    requires t.Node?
  {
    if t.right.Nil? then Nil else Node(t.left, t.elem, DropMax(t.right))
  }

  /** The subtree that goes away with the rightmost node. */
  function MaxLeft<T>(t: Tree<T>): Tree<T>
    requires t.Node?
  {
    if t.right.Nil? then t.left else MaxLeft(t.right)
  }

  function Rem<T>(cmp: (T, T) -> int, t: Tree<T>, d: T): Tree<T> {
    match t
    case Nil => Nil
    case Node(l, e, r) =>
      if cmp(d, e) < 0 then Node(Rem(cmp, l, d), e, r)
      else if cmp(d, e) > 0 then Node(l, e, Rem(cmp, r, d))
      else RemRoot(t)
  }

  function RemRoot<T>(t: Tree<T>): Tree<T>
    requires t.Node?
  {
    if t.left.Nil? then t.right
    else if t.right.Nil? then t.left
    else Node(DropMax(t.left), MaxElem(t.left), t.right)
  }

  /** The subtree of t whose root matches d. */
  function Match<T>(cmp: (T, T) -> int, t: Tree<T>, d: T): Tree<T> {
    match t
    case Nil => Nil
    case Node(l, e, r) =>
      if cmp(d, e) < 0 then Match(cmp, l, d)
      else if cmp(d, e) > 0 then Match(cmp, r, d)
      else t
  }

  /** The guard of the faulty branch: the match has two children and the rightmost
      node of its left subtree itself has a left child. */
  predicate Drops<T>(cmp: (T, T) -> int, t: Tree<T>, d: T) {
    var m := Match(cmp, t, d);
    m.Node? && m.left.Node? && m.right.Node? && MaxLeft(m.left).Node?
  }

  /** What removing d takes along besides the match. */
  function Dropped<T>(cmp: (T, T) -> int, t: Tree<T>, d: T): seq<T> {
    if Drops(cmp, t, d) then InOrder(MaxLeft(Match(cmp, t, d).left)) else []
  }

  lemma {:induction false} DropMaxListing<T>(t: Tree<T>)
    requires t.Node?
    ensures InOrder(t) == InOrder(DropMax(t)) + InOrder(MaxLeft(t)) + [MaxElem(t)]
  {
    if t.right.Node? {
      DropMaxListing(t.right);
    }
  }

  /** Removal deletes the match and one contiguous run of the listing: the dropped
      elements, which sit just before the greatest element below the match. */
  lemma {:induction false} RemListing<T(!new)>(cmp: (T, T) -> int, t: Tree<T>, d: T) returns (x: seq<T>, y: seq<T>)
    requires TotalPreorder(cmp) && Ordered(cmp, InOrder(t))
    ensures Others(cmp, InOrder(t), d) == x + Dropped(cmp, t, d) + y
    ensures InOrder(Rem(cmp, t, d)) == x + y
    ensures Drops(cmp, t, d) ==> |x| + |Dropped(cmp, t, d)| + 1 == |Below(cmp, InOrder(t), d)|
  {
    match t
    case Nil => x, y := [], [];
    case Node(l, e, r) =>
      var a, b, lost := InOrder(l), InOrder(r), Dropped(cmp, t, d);
      OrderedHalves(cmp, a, e, b);
      PickNode(cmp, a, e, b, d, {-1, 1});
      PickNode(cmp, a, e, b, d, {1});
      if cmp(d, e) < 0 {
        x, y := RemListing(cmp, l, d);
        Reassociate(x + lost, y, [e], b);
        Reassociate(x, y, [e], b);
        y := y + [e] + b;
      } else if cmp(d, e) > 0 {
        x, y := RemListing(cmp, r, d);
        Reassociate(a + [e], x, lost, y);
        Assoc(a + [e], x, y);
        x := a + [e] + x;
      } else {
        assert a + [] == a;
        x, y := RemRootListing(t);
      }
  }

  lemma RemRootListing<T>(t: Tree<T>) returns (x: seq<T>, y: seq<T>)
    requires t.Node?
    ensures var lost := if t.left.Node? && t.right.Node? then InOrder(MaxLeft(t.left)) else [];
            && InOrder(t.left) + InOrder(t.right) == x + lost + y
            && InOrder(RemRoot(t)) == x + y
            && (t.left.Node? && t.right.Node? ==> |x| + |lost| + 1 == |InOrder(t.left)|)
  {
    x, y := InOrder(t.left), InOrder(t.right);
    if t.left.Node? && t.right.Node? {
      DropMaxListing(t.left);
      x := InOrder(DropMax(t.left));
      Assoc(x + InOrder(MaxLeft(t.left)), [MaxElem(t.left)], y);
      Assoc(x, [MaxElem(t.left)], y);
      y := [MaxElem(t.left)] + y;
    }
  }

  lemma RemKeepsOrder<T(!new)>(cmp: (T, T) -> int, t: Tree<T>, d: T)
    requires TotalPreorder(cmp) && Ordered(cmp, InOrder(t))
    ensures Ordered(cmp, InOrder(Rem(cmp, t, d)))
  {
    PickKeepsOrder(cmp, InOrder(t), d, {-1, 1});
    var x, y := RemListing(cmp, t, d);
    OrderedParts(cmp, x + Dropped(cmp, t, d), y);
    OrderedParts(cmp, x, Dropped(cmp, t, d));
    assert forall u :: u in x ==> u in x + Dropped(cmp, t, d);
    OrderedJoin(cmp, x, y);
  }

  /** Removal is set removal exactly when the faulty branch is not taken. */
  lemma RemExactIff<T(!new)>(cmp: (T, T) -> int, t: Tree<T>, d: T)
    requires TotalPreorder(cmp) && Ordered(cmp, InOrder(t))
    ensures InOrder(Rem(cmp, t, d)) == Others(cmp, InOrder(t), d) <==> !Drops(cmp, t, d)
  {
    var x, y := RemListing(cmp, t, d);
    if Drops(cmp, t, d) {
      OrderSize(MaxLeft(Match(cmp, t, d).left));
      assert |x + Dropped(cmp, t, d) + y| > |x + y|;
    }
  }

  /** The number of elements left behind, which decides whether "count - 1" is still right. */
  lemma RemSize<T(!new)>(cmp: (T, T) -> int, t: Tree<T>, d: T)
    requires TotalPreorder(cmp) && Ordered(cmp, InOrder(t))
    ensures Find(cmp, t, d).None? ==> Rem(cmp, t, d) == t && !Drops(cmp, t, d)
    ensures Find(cmp, t, d).Some? ==> Size(Rem(cmp, t, d)) + 1 + |Dropped(cmp, t, d)| == Size(t)
  {
    match t
    case Nil =>
    case Node(l, e, r) =>
      OrderedSplit(cmp, InOrder(l), e, InOrder(r));
      if cmp(d, e) < 0 {
        RemSize(cmp, l, d);
      } else if cmp(d, e) > 0 {
        RemSize(cmp, r, d);
      } else if l.Node? && r.Node? {
        DropMaxListing(l);
        OrderSize(l);
        OrderSize(DropMax(l));
        OrderSize(MaxLeft(l));
      }
  }

  /** Inserting 5, 3, 7, 1 and removing 5 also loses 1. */
  lemma RemLosesAnElement()
    ensures var cmp := (x: int, y: int) => x - y;
            var t := Ins(cmp, Ins(cmp, Ins(cmp, Ins(cmp, Nil, 5), 3), 7), 1);
            && InOrder(t) == [1, 3, 5, 7]
            && InOrder(Rem(cmp, t, 5)) == [3, 7]
            && Drops(cmp, t, 5)
  {
    var cmp := (x: int, y: int) => x - y;
    var t := Ins(cmp, Ins(cmp, Ins(cmp, Ins(cmp, Nil, 5), 3), 7), 1);
    assert t == Node(Node(Node(Nil, 1, Nil), 3, Nil), 5, Node(Nil, 7, Nil));
    assert Match(cmp, t, 5) == t;
    assert Rem(cmp, t, 5) == Node(Nil, 3, Node(Nil, 7, Nil));
  }

  // --- removal, place by place ---

  /** The hole is reached from the root by right links alone. */
  predicate RightSpine<T>(s: Ctx<T>) {
    match s
    case Top => true
    case InLeft(_, _, _) => false
    case InRight(up, _, _) => RightSpine(up)
  }

  /** What removal makes of the tree.  Nothing happens without a match.  A match with at most
      one child gives way to that child.  With two, the match stays where it is and
      takes the element of the node at the end of the right links of its left subtree,
      and that node goes, with all it has on its left. */
  lemma {:induction false} RemShape<T>(cmp: (T, T) -> int, t: Tree<T>, d: T)
    returns (c: Ctx<T>, m: Tree<T>, s: Ctx<T>, lost: Tree<T>, p: T)
    ensures t == Plug(c, m) && LeadsToHole(cmp, c, d) && RightSpine(s)
    ensures m.Nil? ==> Rem(cmp, t, d) == t
    ensures m.Node? ==> cmp(d, m.elem) == 0
    ensures m.Node? && m.left.Nil? ==> Rem(cmp, t, d) == Plug(c, m.right)
    ensures m.Node? && m.right.Nil? ==> Rem(cmp, t, d) == Plug(c, m.left)
    ensures m.Node? && m.left.Node? && m.right.Node? ==>
              && m.left == Plug(s, Node(lost, p, Nil))
              && Rem(cmp, t, d) == Plug(c, Node(Plug(s, Nil), p, m.right))
    ensures m == Match(cmp, t, d)
    ensures multiset(InOrder(lost)) == multiset(Dropped(cmp, t, d))
  {
    c, m := SearchFrom(cmp, Top, t, d);
    RemAtHole(cmp, c, m, d);
    s, lost, p := Top, Nil, d;
    if m.Node? && m.left.Node? && m.right.Node? {
      s, lost, p := MaxFrom(Top, m.left);
    }
  }

  lemma {:induction false} RemAtHole<T>(cmp: (T, T) -> int, c: Ctx<T>, m: Tree<T>, d: T)
    requires LeadsToHole(cmp, c, d)
    ensures Rem(cmp, Plug(c, m), d) == Plug(c, Rem(cmp, m, d))
    ensures Match(cmp, Plug(c, m), d) == Match(cmp, m, d)
    decreases c
  {
    match c
    case Top =>
    case InLeft(up, e, r) => RemAtHole(cmp, up, Node(m, e, r), d);
    case InRight(up, l, e) => RemAtHole(cmp, up, Node(l, e, m), d);
  }

  /** The end of the right links. */
  lemma {:induction false} MaxFrom<T>(s0: Ctx<T>, t: Tree<T>) returns (s: Ctx<T>, lost: Tree<T>, p: T)
    requires t.Node? && RightSpine(s0)
    ensures RightSpine(s) && Plug(s, Node(lost, p, Nil)) == Plug(s0, t)
    ensures Plug(s, Nil) == Plug(s0, DropMax(t)) && p == MaxElem(t) && lost == MaxLeft(t)
    decreases t
  {
    var Node(l, e, r) := t;
    if r.Nil? {
      s, lost, p := s0, l, e;
    } else {
      s, lost, p := MaxFrom(InRight(s0, l, e), r);
    }
  }

  lemma {:induction false} NothingRightOfSpine<T>(s: Ctx<T>)
    requires RightSpine(s)
    ensures PreAfter(s) == [] && InAfter(s) == []
  {
    if s.InRight? {
      NothingRightOfSpine(s.up);
    }
  }

  /** What removal does to the preorder listing.  A match with at most one child is deleted
      from it, and nothing else changes.  A match with two children is replaced by the
      greatest element below it, and that element is deleted from where it stood, together
      with the dropped run right behind it. */
  lemma RemPreOrder<T(!new)>(cmp: (T, T) -> int, t: Tree<T>, d: T)
    returns (c: Ctx<T>, m: Tree<T>, x: seq<T>, y: seq<T>, lost: seq<T>, z: seq<T>)
    requires TotalPreorder(cmp) && Ordered(cmp, InOrder(t)) && Find(cmp, t, d).Some?
    ensures t == Plug(c, m) && m.Node? && cmp(d, m.elem) == 0
    ensures m.left.Nil? || m.right.Nil? ==>
              PreOrder(t) == x + [m.elem] + z && PreOrder(Rem(cmp, t, d)) == x + z
    ensures m.left.Node? && m.right.Node? ==>
              var below := Below(cmp, InOrder(t), d);
              && |below| > 0
              && PreOrder(t) == x + [m.elem] + y + [below[|below| - 1]] + lost + z
              && PreOrder(Rem(cmp, t, d)) == x + [below[|below| - 1]] + y + z
    ensures |x| == |PreBefore(c)| && multiset(lost) == multiset(Dropped(cmp, t, d))
  {
    var s, gone, p;
    c, m, s, gone, p := RemShape(cmp, t, d);
    FindMatch(cmp, t, d);
    SameElements(gone);
    x, y, lost := PreBefore(c), PreBefore(s), PreOrder(gone);
    if m.left.Node? && m.right.Node? {
      z := PreOrder(m.right) + PreAfter(c);
      PreTwoChildren(c, m, s, gone, p);
      GreatestBelow(cmp, c, m, s, gone, p, d);
    } else {
      var child := if m.left.Nil? then m.right else m.left;
      z := PreOrder(child) + PreAfter(c);
      PreOneChild(c, m, child);
    }
  }

  lemma PreOneChild<T>(c: Ctx<T>, m: Tree<T>, child: Tree<T>)
    requires m.Node?
    requires (m.left.Nil? && child == m.right) || (m.right.Nil? && child == m.left)
    ensures var x, z := PreBefore(c), PreOrder(child) + PreAfter(c);
            PreOrder(Plug(c, m)) == x + [m.elem] + z && PreOrder(Plug(c, child)) == x + z
  {
    PrePlug(c, child);
    Assoc(PreBefore(c), PreOrder(child), PreAfter(c));
    PrePlugNode(c, m);
    var b := PreBefore(c) + [m.elem];
    if m.left.Nil? {
      assert b + PreOrder(m.left) == b;
    } else {
      assert PreOrder(m.right) + PreAfter(c) == PreAfter(c);
      Assoc(b, PreOrder(child), PreAfter(c));
    }
  }

  lemma PreTwoChildren<T>(c: Ctx<T>, m: Tree<T>, s: Ctx<T>, lost: Tree<T>, p: T)
    requires m.Node? && RightSpine(s) && m.left == Plug(s, Node(lost, p, Nil))
    ensures var x, y, z := PreBefore(c), PreBefore(s), PreOrder(m.right) + PreAfter(c);
            && PreOrder(Plug(c, m)) == x + [m.elem] + y + [p] + PreOrder(lost) + z
            && PreOrder(Plug(c, Node(Plug(s, Nil), p, m.right))) == x + [p] + y + z
  {
    PreMax(s, lost, p);
    PrePlugNode(c, m);
    PrePlugNode(c, Node(Plug(s, Nil), p, m.right));
    Reassociate(PreBefore(c) + [m.elem], PreBefore(s), [p], PreOrder(lost));
  }

  lemma PrePlugNode<T>(c: Ctx<T>, m: Tree<T>)
    requires m.Node?
    ensures PreOrder(Plug(c, m))
         == PreBefore(c) + [m.elem] + PreOrder(m.left) + (PreOrder(m.right) + PreAfter(c))
  {
    PrePlug(c, m);
    Regroup(PreBefore(c), [m.elem], PreOrder(m.left), PreOrder(m.right), PreAfter(c));
  }

  lemma PreMax<T>(s: Ctx<T>, lost: Tree<T>, p: T)
    requires RightSpine(s)
    ensures PreOrder(Plug(s, Node(lost, p, Nil))) == PreBefore(s) + [p] + PreOrder(lost)
    ensures PreOrder(Plug(s, Nil)) == PreBefore(s)
  {
    NothingRightOfSpine(s);
    PrePlugNode(s, Node(lost, p, Nil));
    PrePlug(s, Nil);
  }

  lemma {:induction false} FindMatch<T>(cmp: (T, T) -> int, t: Tree<T>, d: T)
    ensures Find(cmp, t, d).Some? <==> Match(cmp, t, d).Node?
  {
    match t
    case Nil =>
    case Node(l, _, r) =>
      FindMatch(cmp, l, d);
      FindMatch(cmp, r, d);
  }

  lemma {:induction false} SameElements<T>(t: Tree<T>)
    ensures multiset(PreOrder(t)) == multiset(InOrder(t))
  {
    match t
    case Nil =>
    case Node(l, _, r) =>
      SameElements(l);
      SameElements(r);
  }

  /** The node at the end of the right links below a match holds the greatest element
      below it. */
  lemma GreatestBelow<T(!new)>(cmp: (T, T) -> int, c: Ctx<T>, m: Tree<T>, s: Ctx<T>, gone: Tree<T>, p: T, d: T)
    requires TotalPreorder(cmp) && Ordered(cmp, InOrder(Plug(c, m))) && m.Node? && cmp(d, m.elem) == 0
    requires RightSpine(s) && m.left == Plug(s, Node(gone, p, Nil))
    ensures var below := Below(cmp, InOrder(Plug(c, m)), d); |below| > 0 && below[|below| - 1] == p
  {
    NothingRightOfSpine(s);
    InPlug(s, Node(gone, p, Nil));
    InPlug(c, m);
    var a, b := InBefore(c) + InOrder(m.left), InOrder(m.right) + InAfter(c);
    assert InOrder(Plug(c, m)) == a + [m.elem] + b;
    ListedHere(cmp, a, m.elem, b, d);
  }

  /** A tree without duplicates is known from its preorder and its inorder listing. */
  lemma {:induction false} ListingsFixTree<T>(t: Tree<T>, u: Tree<T>)
    requires PreOrder(t) == PreOrder(u) && InOrder(t) == InOrder(u)
    requires forall i, j :: 0 <= i < j < |InOrder(t)| ==> InOrder(t)[i] != InOrder(t)[j]
    ensures t == u
  {
    OrderSize(t);
    OrderSize(u);
    if t.Node? {
      OrderSize(t.left);
      OrderSize(u.left);
      var q, i, j := InOrder(t), |InOrder(t.left)|, |InOrder(u.left)|;
      assert PreOrder(t)[0] == t.elem && PreOrder(u)[0] == u.elem;
      assert q[i] == t.elem && q[j] == u.elem;
      assert q[..i] == InOrder(t.left) && q[i + 1..] == InOrder(t.right);
      assert q[..j] == InOrder(u.left) && q[j + 1..] == InOrder(u.right);
      var pre := PreOrder(t);
      assert pre[1..i + 1] == PreOrder(t.left) && pre[i + 1..] == PreOrder(t.right);
      assert pre[1..j + 1] == PreOrder(u.left) && pre[j + 1..] == PreOrder(u.right);
      ListingsFixTree(t.left, u.left);
      ListingsFixTree(t.right, u.right);
    }
  }

  // --- whole runs against a sorted-list reference ---

  datatype Op<T> = Insert(d: T) | Remove(d: T)

  function Step<T>(cmp: (T, T) -> int, t: Tree<T>, op: Op<T>): Tree<T> {
    match op
    case Insert(d) => Ins(cmp, t, d)
    case Remove(d) => Rem(cmp, t, d)
  }

  function Run<T>(cmp: (T, T) -> int, t: Tree<T>, ops: seq<Op<T>>): Tree<T>
    decreases |ops|
  {
    if ops == [] then t else Run(cmp, Step(cmp, t, ops[0]), ops[1..])
  }

  function RefStep<T(!new)>(cmp: (T, T) -> int, q: seq<T>, op: Op<T>): seq<T> {
    match op
    case Insert(d) => Below(cmp, q, d) + [d] + Above(cmp, q, d)
    case Remove(d) => Others(cmp, q, d)
  }

  function RefRun<T(!new)>(cmp: (T, T) -> int, q: seq<T>, ops: seq<Op<T>>): seq<T>
    decreases |ops|
  {
    if ops == [] then q else RefRun(cmp, RefStep(cmp, q, ops[0]), ops[1..])
  }

  /** No step of the run takes the faulty removal branch. */
  predicate RunDropsNothing<T>(cmp: (T, T) -> int, t: Tree<T>, ops: seq<Op<T>>)
    decreases |ops|
  {
    ops == [] ||
    (&& (ops[0].Remove? ==> !Drops(cmp, t, ops[0].d))
     && RunDropsNothing(cmp, Step(cmp, t, ops[0]), ops[1..]))
  }

  lemma {:induction false} RunRefinesSortedList<T(!new)>(cmp: (T, T) -> int, t: Tree<T>, ops: seq<Op<T>>)
    requires TotalPreorder(cmp) && Ordered(cmp, InOrder(t))
    ensures Ordered(cmp, InOrder(Run(cmp, t, ops)))
    ensures RunDropsNothing(cmp, t, ops) ==> InOrder(Run(cmp, t, ops)) == RefRun(cmp, InOrder(t), ops)
    decreases |ops|
  {
    if ops != [] {
      var d := ops[0].d;
      if ops[0].Insert? {
        InsOrdered(cmp, t, d);
      } else {
        RemKeepsOrder(cmp, t, d);
        RemExactIff(cmp, t, d);
      }
      RunRefinesSortedList(cmp, Step(cmp, t, ops[0]), ops[1..]);
    }
  }

  // --- rebalancing ---

  /** Inserts q[lo..hi] into t, midpoint first, then the lower and the upper part. */
  function InsMids<T>(cmp: (T, T) -> int, t: Tree<T>, q: seq<T>, lo: nat, hi: nat): Tree<T>
    requires lo <= hi <= |q|
    decreases hi - lo
  {
    if lo == hi then t
    else
      var mid := (lo + hi - 1) / 2;
      InsMids(cmp, InsMids(cmp, Ins(cmp, t, q[mid]), q, lo, mid), q, mid + 1, hi)
  }

  lemma InsMidsStep<T>(cmp: (T, T) -> int, t: Tree<T>, q: seq<T>, lo: nat, hi: nat)
    requires lo < hi <= |q|
    ensures var mid := (lo + hi - 1) / 2;
            InsMids(cmp, t, q, lo, hi) == InsMids(cmp, InsMids(cmp, Ins(cmp, t, q[mid]), q, lo, mid), q, mid + 1, hi)
  {
  }

  function MidTree<T>(q: seq<T>, lo: nat, hi: nat): Tree<T>
    requires lo <= hi <= |q|
    decreases hi - lo
  {
    if lo == hi then Nil
    else
      var mid := (lo + hi - 1) / 2;
      Node(MidTree(q, lo, mid), q[mid], MidTree(q, mid + 1, hi))
  }

  /** Inserting the midpoints of an ordered range one at a time builds, at any hole
      the range leads to, exactly the recursive midpoint tree. */
  lemma {:induction false} InsMidsBuildsMidTree<T(!new)>(cmp: (T, T) -> int, c: Ctx<T>, q: seq<T>, lo: nat, hi: nat)
    requires TotalPreorder(cmp) && Ordered(cmp, q)
    requires lo <= hi <= |q|
    requires forall i :: lo <= i < hi ==> LeadsToHole(cmp, c, q[i])
    ensures InsMids(cmp, Plug(c, Nil), q, lo, hi) == Plug(c, MidTree(q, lo, hi))
    decreases hi - lo
  {
    if lo < hi {
      var mid := (lo + hi - 1) / 2;
      var e := q[mid];
      var ml, mr := MidTree(q, lo, mid), MidTree(q, mid + 1, hi);
      forall i | lo <= i < mid
        ensures LeadsToHole(cmp, InLeft(c, e, Nil), q[i])
      {
        assert Before(q, i, mid);
      }
      forall i | mid + 1 <= i < hi
        ensures LeadsToHole(cmp, InRight(c, ml, e), q[i])
      {
        assert Before(q, mid, i);
      }
      InsAtHole(cmp, c, Nil, e);
      assert Plug(c, Node(Nil, e, Nil)) == Plug(InLeft(c, e, Nil), Nil);
      InsMidsBuildsMidTree(cmp, InLeft(c, e, Nil), q, lo, mid);
      assert Plug(InLeft(c, e, Nil), ml) == Plug(InRight(c, ml, e), Nil);
      InsMidsBuildsMidTree(cmp, InRight(c, ml, e), q, mid + 1, hi);
    }
  }

  lemma {:induction false} MidTreeListing<T>(q: seq<T>, lo: nat, hi: nat)
    requires lo <= hi <= |q|
    ensures InOrder(MidTree(q, lo, hi)) == q[lo..hi]
    decreases hi - lo
  {
    if lo < hi {
      var mid := (lo + hi - 1) / 2;
      MidTreeListing(q, lo, mid);
      MidTreeListing(q, mid + 1, hi);
      SliceAround(q, lo, mid, hi);
    }
  }

  /** 2^(h - 1) <= n < 2^h, or no height without elements. */
  ghost predicate LogHeight(n: nat, h: nat) {
    if n == 0 then h == 0 else h > 0 && Pow2(h - 1) <= n < Pow2(h)
  }

  /** Two halves of logarithmic height make a whole of logarithmic height. */
  lemma HalvesHeight(l: nat, r: nat, hl: nat, hr: nat)
    requires l <= r <= l + 1 && LogHeight(l, hl) && LogHeight(r, hr)
    ensures LogHeight(l + r + 1, 1 + Max(hl, hr))
  {
    if l > 0 {
      if hr < hl {
        Pow2Mono(hr, hl - 1);
      }
    }
  }

  lemma {:induction false} MidTreeHeight<T>(q: seq<T>, lo: nat, hi: nat)
    requires lo <= hi <= |q|
    ensures LogHeight(hi - lo, Height(MidTree(q, lo, hi)))
    decreases hi - lo
  {
    if lo < hi {
      var mid := (lo + hi - 1) / 2;
      var l, r := MidTree(q, lo, mid), MidTree(q, mid + 1, hi);
      MidTreeHeight(q, lo, mid);
      MidTreeHeight(q, mid + 1, hi);
      HalvesHeight(mid - lo, hi - mid - 1, Height(l), Height(r));
      assert Height(Node(l, q[mid], r)) == 1 + Max(Height(l), Height(r));
    }
  }

  /** No tree of n nodes is shorter than the logarithmic lower bound. */
  lemma NoShorterTree<T>(n: nat, h: nat, u: Tree<T>)
    requires h > 0 && Pow2(h - 1) <= n && Size(u) == n
    ensures h <= Height(u)
  {
    SizeBelowPow2(u);
    if Height(u) < h { Pow2Mono(Height(u), h - 1); }
  }

  /** The height of b lies within the logarithmic bounds for n elements, and no tree of
      n elements is shorter. */
  ghost predicate MinimalHeight<T(!new)>(b: Tree<T>, n: nat) {
    && Height(b) > 0 && Pow2(Height(b) - 1) <= n < Pow2(Height(b))
    && forall u: Tree<T> :: Size(u) == n ==> Height(b) <= Height(u)
  }

  /** Rebuilding from the in-order listing keeps the listing and makes the height
      minimal: within the logarithmic bounds, and no taller than any tree of that size. */
  lemma RebalanceIsMinimal<T(!new)>(cmp: (T, T) -> int, q: seq<T>)
    requires TotalPreorder(cmp) && Ordered(cmp, q) && q != []
    ensures var b := InsMids(cmp, Nil, q, 0, |q|);
            && InOrder(b) == q
            && MinimalHeight(b, |q|)
  {
    InsMidsBuildsMidTree(cmp, Top, q, 0, |q|);
    var b := MidTree(q, 0, |q|);
    MidTreeListing(q, 0, |q|);
    MidTreeHeight(q, 0, |q|);
    forall u: Tree<T> | Size(u) == |q|
      ensures Height(b) <= Height(u)
    {
      NoShorterTree(|q|, Height(b), u);
    }
  }
}
