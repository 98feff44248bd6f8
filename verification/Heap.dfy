/** The array heap (libsrsbsns/heap.c): the least element, by the caller's comparator,
    is at index 0. */
module Heaps {
  import opened Prelude

  function Parent(i: nat): nat
    requires i > 0
  {
    (i - 1) / 2
  }

  function Left(i: nat): nat { 2 * i + 1 }

  function Right(i: nat): nat { 2 * i + 2 }

  // --- order in a heap as a sequence ---

  /** No element is smaller than its parent. */
  ghost predicate HeapOrdered<T>(cmp: (T, T) -> int, s: seq<T>) {
    forall j :: 1 <= j < |s| ==> cmp(s[Parent(j)], s[j]) <= 0
  }

  /** Ordered but for element i, which may be too small for its place. */
  ghost predicate OrderedExceptUp<T>(cmp: (T, T) -> int, s: seq<T>, i: nat) {
    && (forall j :: 1 <= j < |s| && j != i ==> cmp(s[Parent(j)], s[j]) <= 0)
    && (forall j :: 1 <= j < |s| && 0 < i < |s| && Parent(j) == i ==> cmp(s[Parent(i)], s[j]) <= 0)
  }

  /** Ordered but for element i, which may be too large for its place. */
  ghost predicate OrderedExceptDown<T>(cmp: (T, T) -> int, s: seq<T>, i: nat) {
    && (forall j :: 1 <= j < |s| && Parent(j) != i ==> cmp(s[Parent(j)], s[j]) <= 0)
    && (forall j :: 1 <= j < |s| && 0 < i < |s| && Parent(j) == i ==> cmp(s[Parent(i)], s[j]) <= 0)
  }

  ghost function Swapped<T>(s: seq<T>, i: nat, j: nat): seq<T>
    requires i < |s| && j < |s|
  {
    s[i := s[j]][j := s[i]]
  }

  lemma SwappedElements<T>(s: seq<T>, i: nat, j: nat)
    requires i < |s| && j < |s|
    ensures multiset(Swapped(s, i, j)) == multiset(s)
  {
  }

  lemma AppendAtEnd<T>(cmp: (T, T) -> int, s: seq<T>, x: T)
    requires HeapOrdered(cmp, s)
    ensures OrderedExceptUp(cmp, s + [x], |s|) && multiset(s + [x]) == multiset(s) + multiset{x}
  {
  }

  lemma UpStep<T(!new)>(cmp: (T, T) -> int, s: seq<T>, i: nat)
    requires TotalPreorder(cmp) && 0 < i < |s| && OrderedExceptUp(cmp, s, i)
    requires cmp(s[i], s[Parent(i)]) < 0
    ensures OrderedExceptUp(cmp, Swapped(s, i, Parent(i)), Parent(i))
  {
    var p := Parent(i);
    var t := Swapped(s, i, p);
    forall j | 1 <= j < |t| && j != p
      ensures cmp(t[Parent(j)], t[j]) <= 0
    {
      if Parent(j) == p && j != i {
        Transitive(cmp, s[i], s[p], s[j]);
      }
    }
    forall j | 1 <= j < |t| && p > 0 && Parent(j) == p
      ensures cmp(t[Parent(p)], t[j]) <= 0
    {
      if j != i {
        Transitive(cmp, s[Parent(p)], s[p], s[j]);
      }
    }
  }

  lemma UpDone<T(!new)>(cmp: (T, T) -> int, s: seq<T>, i: nat)
    requires TotalPreorder(cmp) && i < |s| && OrderedExceptUp(cmp, s, i)
    requires i == 0 || cmp(s[i], s[Parent(i)]) >= 0
    ensures HeapOrdered(cmp, s)
  {
  }

  lemma DownStep<T(!new)>(cmp: (T, T) -> int, s: seq<T>, i: nat, n: nat)
    requires TotalPreorder(cmp) && 0 < n < |s| && Parent(n) == i && OrderedExceptDown(cmp, s, i)
    requires cmp(s[n], s[i]) < 0
    requires forall j :: 1 <= j < |s| && Parent(j) == i ==> cmp(s[n], s[j]) <= 0
    ensures OrderedExceptDown(cmp, Swapped(s, i, n), n)
  {
  }

  /** Of the children smaller than node i the code picks one that is not greater than the other. */
  lemma LesserChild<T(!new)>(cmp: (T, T) -> int, s: seq<T>, i: nat, n: nat)
    requires TotalPreorder(cmp) && 0 < n < |s| && Parent(n) == i && cmp(s[n], s[i]) < 0
    requires var other := if n == Left(i) then Right(i) else Left(i);
             other < |s| ==> cmp(s[other], s[i]) >= 0 || cmp(s[n], s[other]) <= 0
    ensures forall j :: 1 <= j < |s| && Parent(j) == i ==> cmp(s[n], s[j]) <= 0
  {
    forall j | 1 <= j < |s| && Parent(j) == i
      ensures cmp(s[n], s[j]) <= 0
    {
      assert j == Left(i) || j == Right(i);
      if j != n && cmp(s[j], s[i]) >= 0 {
        Transitive(cmp, s[n], s[i], s[j]);
      }
    }
  }

  lemma DownDone<T(!new)>(cmp: (T, T) -> int, s: seq<T>, i: nat)
    requires TotalPreorder(cmp) && OrderedExceptDown(cmp, s, i)
    requires Left(i) < |s| ==> cmp(s[Left(i)], s[i]) >= 0
    requires Right(i) < |s| ==> cmp(s[Right(i)], s[i]) >= 0
    ensures HeapOrdered(cmp, s)
  {
    forall j | 1 <= j < |s|
      ensures cmp(s[Parent(j)], s[j]) <= 0
    {
      assert Parent(j) == i ==> j == Left(i) || j == Right(i);
    }
  }

  lemma {:induction false} RootIsLeast<T(!new)>(cmp: (T, T) -> int, s: seq<T>, i: nat)
    requires TotalPreorder(cmp) && HeapOrdered(cmp, s) && i < |s|
    ensures cmp(s[0], s[i]) <= 0
    decreases i
  {
    if i > 0 {
      RootIsLeast(cmp, s, Parent(i));
      Transitive(cmp, s[0], s[Parent(i)], s[i]);
    }
  }

  lemma LeastAtRoot<T(!new)>(cmp: (T, T) -> int, s: seq<T>)
    requires TotalPreorder(cmp) && HeapOrdered(cmp, s) && s != []
    ensures forall x :: x in multiset(s) ==> cmp(s[0], x) <= 0
  {
    forall x | x in multiset(s)
      ensures cmp(s[0], x) <= 0
    {
      var i :| 0 <= i < |s| && s[i] == x;
      RootIsLeast(cmp, s, i);
    }
  }

  class Heap<T(0,!new)> {
    const cmp: (T, T) -> int
    var tree: array<T>
    var treesz: nat
    var count: nat
    var next: nat

    ghost predicate Valid()
      reads this, tree
    {
      && TotalPreorder(cmp)
      && Sized()
      && HeapOrdered(cmp, tree[..next])
    }

    ghost predicate Sized()
      reads this
    {
      tree.Length == treesz > 0 && next == count <= treesz
    }

    ghost function Elements(): multiset<T>
      requires Sized()
      reads this, tree
    {
      multiset(tree[..next])
    }

    constructor (cmp: (T, T) -> int)
      requires TotalPreorder(cmp)
      ensures Valid() && Elements() == multiset{} && this.cmp == cmp && fresh(tree)
    {
      this.cmp := cmp;
      treesz := 32;
      tree := new T[32];
      next, count := 0, 0;
    }

    method Clear()
      requires Valid()
      modifies this`next, this`count
      ensures Valid() && Elements() == multiset{}
    {
      next, count := 0, 0;
    }

    function Count(): (n: nat)
      requires Valid()
      reads this, tree
      ensures n == |Elements()|
    {
      count
    }

    method Resize(newsz: nat) returns (ok: bool)
      requires Sized()
      modifies this`tree, this`treesz
      ensures Sized() && tree[..next] == old(tree[..next])
      ensures ok == (Max(newsz, 1) >= count)
      ensures if ok then treesz == Max(newsz, 1) && fresh(tree) else tree == old(tree)
    {
      var size := if newsz == 0 then 1 else newsz;
      if size < count {
        return false;
      }
      var newloc := new T[size];
      forall i | 0 <= i < Min(size, treesz) {
        newloc[i] := tree[i];
      }
      assert newloc[..next] == tree[..next];
      tree, treesz := newloc, size;
      ok := true;
    }

    method Swap(n1: nat, n2: nat, ghost n: nat)
      requires n1 < n <= tree.Length && n2 < n
      modifies tree
      ensures tree[..n] == Swapped(old(tree[..n]), n1, n2)
      ensures multiset(tree[..n]) == old(multiset(tree[..n]))
    {
      SwappedElements(tree[..n], n1, n2);
      var tmp := tree[n1];
      tree[n1] := tree[n2];
      tree[n2] := tmp;
      assert tree[..n] == Swapped(old(tree[..n]), n1, n2);
    }

    /** Sifts the element at start up; n elements are in the heap, the new one included. */
    method UpHeap(start: nat, ghost n: nat)
      requires TotalPreorder(cmp) && start < n <= tree.Length
      requires OrderedExceptUp(cmp, tree[..n], start)
      modifies tree
      ensures HeapOrdered(cmp, tree[..n])
      ensures multiset(tree[..n]) == old(multiset(tree[..n]))
    {
      var node: nat := start;
      ghost var s := tree[..n];
      while node > 0 && cmp(tree[node], tree[Parent(node)]) < 0
        invariant node < n && s == tree[..n] && OrderedExceptUp(cmp, s, node)
        invariant multiset(s) == old(multiset(tree[..n]))
      {
        var par := Parent(node);
        UpStep(cmp, s, node);
        Swap(node, par, n);
        s := Swapped(s, node, par);
        node := par;
      }
      UpDone(cmp, s, node);
    }

    /** Sifts the element at the root down among the first next ones. */
    method DownHeap()
      requires TotalPreorder(cmp) && next <= tree.Length
      requires OrderedExceptDown(cmp, tree[..next], 0)
      modifies tree
      ensures HeapOrdered(cmp, tree[..next])
      ensures multiset(tree[..next]) == old(multiset(tree[..next]))
    {
      var node: nat := 0;
      var l, r := Left(node), Right(node);
      ghost var s := tree[..next];
      while l < next
        invariant l == Left(node) && r == Right(node)
        invariant s == tree[..next] && OrderedExceptDown(cmp, s, node)
        invariant multiset(s) == old(multiset(tree[..next]))
        decreases next - node
      {
        var badleft := cmp(tree[l], tree[node]) < 0;
        var badright := r < next && cmp(tree[r], tree[node]) < 0;
        var n;
        if badleft && badright {
          n := if cmp(tree[l], tree[r]) < 0 then l else r;
        } else if badleft || badright {
          n := if badleft then l else r;
        } else {
          break;
        }
        assert s[l] == tree[l] && s[node] == tree[node] && (r < next ==> s[r] == tree[r]);
        LesserChild(cmp, s, node, n);
        DownStep(cmp, s, node, n);
        Swap(node, n, next);
        s := Swapped(s, node, n);
        node := n;
        l, r := Left(node), Right(node);
      }
      DownDone(cmp, s, node);
    }

    method Insert(elem: Option<T>)
      requires Valid()
      modifies this, tree
      ensures Valid() && (tree == old(tree) || fresh(tree))
      ensures Elements() == old(Elements()) + if elem.Some? then multiset{elem.value} else multiset{}
    {
      if elem.None? {
        return;
      }
      if next >= treesz {
        var ok := Resize(treesz * 2);
      }
      Place(elem.value);
    }

    /** The part of heap_insert after room has been made. */
    method Place(x: T)
      requires Valid() && next < treesz
      modifies this`next, this`count, tree
      ensures Valid() && Elements() == old(Elements()) + multiset{x}
    {
      AppendAtEnd(cmp, tree[..next], x);
      Append(x);
      UpHeap(next - 1, next);
    }

    method Append(x: T)
      requires Sized() && next < treesz
      modifies this`next, this`count, tree
      ensures Sized() && tree[..next] == old(tree[..next]) + [x] && next == old(next) + 1
    {
      ghost var s := tree[..next];
      tree[next] := x;
      count := count + 1;
      next := next + 1;
      assert tree[..next] == s + [x];
    }

    method Remove() returns (res: Option<T>)
      requires Valid()
      modifies this`next, this`count, tree
      ensures Valid()
      ensures res.None? <==> old(Elements()) == multiset{}
      ensures res.None? ==> Elements() == old(Elements())
      ensures res.Some? ==> res.value in old(Elements()) && Elements() == old(Elements()) - multiset{res.value}
      ensures res.Some? ==> forall x :: x in old(Elements()) ==> cmp(res.value, x) <= 0
    {
      if count == 0 {
        return None;
      }
      ghost var s := tree[..next];
      LeastAtRoot(cmp, s);
      res := Some(tree[0]);
      next := next - 1;
      tree[0] := tree[next];
      count := count - 1;
      TakeRoot(s, tree[..next]);
      RootReplaced(cmp, s, tree[..next]);
      DownHeap();
    }
  }

  lemma TakeRoot<T>(s: seq<T>, t: seq<T>)
    requires s != [] && |t| == |s| - 1
    requires t != [] ==> t == s[..|t|][0 := s[|t|]]
    ensures s[0] in multiset(s) && multiset(t) == multiset(s) - multiset{s[0]}
  {
    var n := |t|;
    assert s == s[..n] + [s[n]];
    if n > 0 {
      assert s[..n] == [s[0]] + s[1..n];
      assert t == [s[n]] + s[1..n];
    }
  }

  lemma RootReplaced<T>(cmp: (T, T) -> int, s: seq<T>, t: seq<T>)
    requires s != [] && |t| == |s| - 1 && HeapOrdered(cmp, s)
    requires t != [] ==> t == s[..|t|][0 := s[|t|]]
    ensures OrderedExceptDown(cmp, t, 0)
  {
  }

  // --- whole runs ---

  ghost predicate SortedBy<T>(cmp: (T, T) -> int, q: seq<T>) {
    forall i, j :: 0 <= i < j < |q| ==> cmp(q[i], q[j]) <= 0
  }

  lemma SortedAppend<T(!new)>(cmp: (T, T) -> int, q: seq<T>, x: T)
    requires TotalPreorder(cmp) && SortedBy(cmp, q)
    requires q != [] ==> cmp(q[|q| - 1], x) <= 0
    ensures SortedBy(cmp, q + [x])
  {
    forall i | 0 <= i < |q|
      ensures cmp(q[i], x) <= 0
    {
      if i < |q| - 1 {
        Transitive(cmp, q[i], q[|q| - 1], x);
      }
    }
  }

  lemma MoveOne<T>(a: multiset<T>, b: multiset<T>, x: T)
    requires x in b
    ensures (a + multiset{x}) + (b - multiset{x}) == a + b
  {
  }

  /** Removing until nothing is left gives the elements in order. */
  method Drain<T(0,!new)>(h: Heap<T>) returns (out: seq<T>)
    requires h.Valid()
    modifies h, h.tree
    ensures h.Valid() && h.Elements() == multiset{}
    ensures multiset(out) == old(h.Elements()) && SortedBy(h.cmp, out)
  {
    out := [];
    while true
      invariant h.Valid() && h.tree == old(h.tree)
      invariant multiset(out) + h.Elements() == old(h.Elements())
      invariant SortedBy(h.cmp, out)
      invariant out != [] ==> forall y :: y in h.Elements() ==> h.cmp(out[|out| - 1], y) <= 0
      decreases |h.Elements()|
    {
      ghost var was := h.Elements();
      var x := h.Remove();
      if x.None? {
        return;
      }
      SortedAppend(h.cmp, out, x.value);
      MoveOne(multiset(out), was, x.value);
      assert multiset(out + [x.value]) == multiset(out) + multiset{x.value};
      out := out + [x.value];
    }
  }

  datatype Op<T> = Insert(elem: T) | Remove

  ghost function Taken<T>(out: Option<T>): multiset<T> {
    if out.Some? then multiset{out.value} else multiset{}
  }

  /** A bag, the reference for one operation. */
  ghost function Next<T>(bag: multiset<T>, op: Op<T>, out: Option<T>): multiset<T> {
    match op
    case Insert(x) => bag + multiset{x}
    case Remove => bag - Taken(out)
  }

  /** A removal gives back a least element of the bag, and nothing only from an empty one. */
  ghost predicate Fits<T(!new)>(cmp: (T, T) -> int, bag: multiset<T>, op: Op<T>, out: Option<T>) {
    match op
    case Insert(_) => out == None
    case Remove =>
      if bag == multiset{} then out == None
      else out.Some? && out.value in bag && forall y :: y in bag ==> cmp(out.value, y) <= 0
  }

  ghost function After<T>(bag: multiset<T>, ops: seq<Op<T>>, outs: seq<Option<T>>): multiset<T>
    requires |ops| == |outs|
    decreases |ops|
  {
    if ops == [] then bag else After(Next(bag, ops[0], outs[0]), ops[1..], outs[1..])
  }

  ghost predicate IsRun<T(!new)>(cmp: (T, T) -> int, bag: multiset<T>, ops: seq<Op<T>>, outs: seq<Option<T>>)
    decreases |ops|
  {
    if ops == [] then outs == []
    else
      && |ops| == |outs| && Fits(cmp, bag, ops[0], outs[0])
      && IsRun(cmp, Next(bag, ops[0], outs[0]), ops[1..], outs[1..])
  }

  lemma {:induction false} RunOn<T(!new)>(cmp: (T, T) -> int, bag: multiset<T>, ops: seq<Op<T>>, outs: seq<Option<T>>,
                                          op: Op<T>, out: Option<T>)
    requires IsRun(cmp, bag, ops, outs) && |ops| == |outs| && Fits(cmp, After(bag, ops, outs), op, out)
    ensures IsRun(cmp, bag, ops + [op], outs + [out])
    ensures After(bag, ops + [op], outs + [out]) == Next(After(bag, ops, outs), op, out)
    decreases |ops|
  {
    if ops == [] {
      assert ops + [op] == [op] && outs + [out] == [out];
    } else {
      assert (ops + [op])[1..] == ops[1..] + [op] && (outs + [out])[1..] == outs[1..] + [out];
      RunOn(cmp, Next(bag, ops[0], outs[0]), ops[1..], outs[1..], op, out);
    }
  }

  ghost function Inserted<T>(ops: seq<Op<T>>): multiset<T> {
    if ops == [] then multiset{}
    else (if ops[0].Insert? then multiset{ops[0].elem} else multiset{}) + Inserted(ops[1..])
  }

  ghost function Removed<T>(outs: seq<Option<T>>): multiset<T> {
    if outs == [] then multiset{} else Taken(outs[0]) + Removed(outs[1..])
  }

  /** What is stored at the end is what was there and what was inserted, less what was
      removed; and nothing was removed that was not there. */
  lemma InsertedLessRemoved<T(!new)>(cmp: (T, T) -> int, bag: multiset<T>, ops: seq<Op<T>>, outs: seq<Option<T>>)
    requires IsRun(cmp, bag, ops, outs) && |ops| == |outs|
    ensures bag + Inserted(ops) == After(bag, ops, outs) + Removed(outs)
  {
    forall x
      ensures (bag + Inserted(ops))[x] == (After(bag, ops, outs) + Removed(outs))[x]
    {
      InsertedLessRemovedOf(cmp, bag, ops, outs, x);
    }
  }

  lemma {:induction false} InsertedLessRemovedOf<T(!new)>(cmp: (T, T) -> int, bag: multiset<T>, ops: seq<Op<T>>,
                                                          outs: seq<Option<T>>, x: T)
    requires IsRun(cmp, bag, ops, outs) && |ops| == |outs|
    ensures bag[x] + Inserted(ops)[x] == After(bag, ops, outs)[x] + Removed(outs)[x]
    decreases |ops|
  {
    if ops != [] {
      OneCall(cmp, bag, ops[0], outs[0], x);
      InsertedLessRemovedOf(cmp, Next(bag, ops[0], outs[0]), ops[1..], outs[1..], x);
    }
  }

  lemma OneCall<T(!new)>(cmp: (T, T) -> int, bag: multiset<T>, op: Op<T>, out: Option<T>, x: T)
    requires Fits(cmp, bag, op, out)
    ensures bag[x] + (if op.Insert? && op.elem == x then 1 else 0)
         == Next(bag, op, out)[x] + if out == Some(x) then 1 else 0
  {
  }

  method Perform<T(0,!new)>(h: Heap<T>, op: Op<T>) returns (out: Option<T>)
    requires h.Valid()
    modifies h, h.tree
    ensures h.Valid() && (h.tree == old(h.tree) || fresh(h.tree))
    ensures Fits(h.cmp, old(h.Elements()), op, out)
    ensures h.Elements() == Next(old(h.Elements()), op, out)
  {
    match op
    case Insert(x) =>
      h.Insert(Some(x));
      out := None;
    case Remove =>
      out := h.Remove();
  }

  /** Any interleaving of inserts and removes: every removal gives back a least element of
      what is stored at that moment, and the heap stores what the bag does. */
  method Drive<T(0,!new)>(h: Heap<T>, ops: seq<Op<T>>) returns (outs: seq<Option<T>>)
    requires h.Valid()
    modifies h, h.tree
    ensures h.Valid() && IsRun(h.cmp, old(h.Elements()), ops, outs) && |outs| == |ops|
    ensures h.Elements() == After(old(h.Elements()), ops, outs)
    ensures old(h.Elements()) + Inserted(ops) == h.Elements() + Removed(outs)
  {
    outs := [];
    ghost var bag := h.Elements();
    var i := 0;
    while i < |ops|
      invariant i <= |ops| && |outs| == i && h.Valid() && (h.tree == old(h.tree) || fresh(h.tree))
      invariant IsRun(h.cmp, bag, ops[..i], outs) && h.Elements() == After(bag, ops[..i], outs)
    {
      var out := Perform(h, ops[i]);
      TakeOneMore(ops, i);
      RunOn(h.cmp, bag, ops[..i], outs, ops[i], out);
      outs := outs + [out];
      i := i + 1;
    }
    assert ops[..i] == ops;
    InsertedLessRemoved(h.cmp, bag, ops, outs);
  }
}
