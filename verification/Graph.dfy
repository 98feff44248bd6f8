/** Linking and dropping edges (libsrsbsns/graph.c): every node keeps its incoming and
    its outgoing edges in growing arrays that are allocated with the first edge. */
module Graphs {
  import opened Prelude
  import opened DynArrays

  class Node {
    var inn: DynArr?<Edge>
    var out: DynArr?<Edge>
    var travtag: int
    ghost var ins: seq<Edge>
    ghost var outs: seq<Edge>

    constructor ()
      ensures inn == null && out == null && travtag == 0 && ins == [] && outs == []
    {
      inn, out, travtag, ins, outs := null, null, 0, [], [];
    }
  }

  class Edge {
    const from: Node
    const to: Node
    const weight: real
    var travtag: int

    constructor (from: Node, to: Node, weight: real)
      ensures this.from == from && this.to == to && this.weight == weight && travtag == 0
    {
      this.from, this.to, this.weight, travtag := from, to, weight, 0;
    }
  }

  // --- one array of edges ---

  ghost function Cells(s: seq<Edge>): seq<Option<Edge>> {
    seq(|s|, i requires 0 <= i < |s| => Some(s[i]))
  }

  /** The array a, which may not exist yet, holds exactly the edges s. */
  ghost predicate Holds(a: DynArr?<Edge>, s: seq<Edge>)
    reads a, if a == null then {} else {a.data}
  {
    if a == null then s == []
    else a.Valid() && a.nulling && a.Contents() == Cells(s)
  }

  ghost predicate NoDup<T>(s: seq<T>) {
    forall i, j :: 0 <= i < j < |s| ==> s[i] != s[j]
  }

  /** Removal by moving the last edge into the place of e. */
  function SwapRemove<T(==)>(s: seq<T>, e: T): seq<T> {
    if e in s then
      var i := IndexOf(s, e);
      s[i := s[|s| - 1]][..|s| - 1]
    else s
  }

  function IndexOf<T(==)>(s: seq<T>, e: T): (i: nat)
    requires e in s
    ensures i < |s| && s[i] == e && e !in s[..i]
  {
    if s[0] == e then 0
    else
      assert s == [s[0]] + s[1..];
      var i := 1 + IndexOf(s[1..], e);
      assert s[..i] == [s[0]] + s[1..][..i - 1];
      i
  }

  /** The last edge comes to stand where the first occurrence of e stood; all others keep
      their places. */
  lemma SwapRemovePlaces<T>(s: seq<T>, e: T) returns (i: nat)
    requires e in s
    ensures i < |s| && s[i] == e && e !in s[..i]
    ensures var n := |s| - 1;
            SwapRemove(s, e) == if i == n then s[..n] else s[..i] + [s[n]] + s[i + 1..n]
  {
    i := IndexOf(s, e);
    var n := |s| - 1;
    if i < n {
      assert SwapRemove(s, e) == s[..i] + [s[n]] + s[i + 1..n];
    }
  }

  lemma SwapRemoveElements<T>(s: seq<T>, e: T)
    ensures multiset(SwapRemove(s, e)) == multiset(s) - multiset{e}
  {
    if e in s {
      var i, n := IndexOf(s, e), |s| - 1;
      var t := s[i := s[n]];
      assert t == t[..n] + [s[n]];
      assert multiset(t) == multiset(s) - multiset{e} + multiset{s[n]};
      assert multiset(t) == multiset(t[..n]) + multiset{s[n]};
      MultisetCancel(multiset(t[..n]), multiset(s) - multiset{e}, multiset{s[n]});
    } else {
      assert multiset(s)[e] == 0;
    }
  }

  lemma MultisetCancel<T>(a: multiset<T>, b: multiset<T>, c: multiset<T>)
    requires a + c == b + c
    ensures a == b
  {
    forall x
      ensures a[x] == b[x]
    {
      assert (a + c)[x] == (b + c)[x];
    }
  }

  lemma SwapRemoveNoDup<T>(s: seq<T>, e: T)
    requires NoDup(s)
    ensures NoDup(SwapRemove(s, e))
    ensures forall x :: x in SwapRemove(s, e) <==> x in s && x != e
  {
    if e in s {
      var i, n := IndexOf(s, e), |s| - 1;
      var r := SwapRemove(s, e);
      assert forall k :: 0 <= k < n ==> r[k] == if k == i then s[n] else s[k];
      forall x | x in s && x != e
        ensures x in r
      {
        var k :| 0 <= k < |s| && s[k] == x;
        if k == n {
          assert r[i] == x;
        } else {
          assert r[k] == x;
        }
      }
    }
  }

  /** Walks the array until an edge to the given node turns up, at position k. */
  method ScanFor(a: DynArr<Edge>, to: Node, ghost s: seq<Edge>) returns (r: Edge?, ghost k: nat)
    requires Holds(a, s)
    modifies a`iter
    ensures Holds(a, s) && k <= |s| && forall j :: 0 <= j < k ==> s[j].to != to
    ensures if r == null then k == |s| else k < |s| && r == s[k] && r.to == to
  {
    var ok, x := a.First();
    k := 0;
    r := null;
    while ok
      invariant Holds(a, s) && k <= |s| && forall j :: 0 <= j < k ==> s[j].to != to
      invariant if ok then k < |s| && x == Some(s[k]) && a.iter == k + 1 else k == |s|
      decreases |s| - k, ok
    {
      if x.value.to == to {
        r := x.value;
        return;
      }
      ok, x := a.Next();
      k := k + 1;
    }
  }

  ghost function ArrObjs(a: DynArr?<Edge>): set<object>
    reads a
  {
    if a == null then {} else var h: object := a; {h, a.data}
  }

  method AddEdge(a: DynArr?<Edge>, e: Edge, ghost s: seq<Edge>) returns (r: DynArr<Edge>)
    requires Holds(a, s)
    modifies ArrObjs(a)
    ensures Holds(r, s + [e])
    ensures if a == null then fresh(r) && fresh(r.data) else r == a && (r.data == old(a.data) || fresh(r.data))
  {
    if a == null {
      r := new DynArr(1, true);
      r.Put(0, Some(e));
      assert r.Contents() == Cells(s + [e]);
    } else {
      a.Push(Some(e));
      r := a;
      assert r.Contents() == Cells(s + [e]);
    }
  }

  method DelEdge(a: DynArr<Edge>, e: Edge, ghost s: seq<Edge>)
    requires Holds(a, s)
    modifies ArrObjs(a)
    ensures Holds(a, SwapRemove(s, e))
    ensures a.data == old(a.data) || fresh(a.data)
  {
    var r := a.FindRaw(Some(e));
    FoundAt(s, e, r);
    if r < 0 {
      return;
    }
    var i: nat := r;
    var last := a.Count() - 1;
    var x := a.Get(last);
    a.Put(i, x);
    a.Truncate(last);
    assert a.Contents() == Cells(SwapRemove(s, e));
  }

  /** What a search of the cells for e says about the edges. */
  lemma FoundAt(s: seq<Edge>, e: Edge, r: int)
    requires -1 <= r < |s|
    requires r >= 0 ==> Cells(s)[r] == Some(e) && Some(e) !in Cells(s)[..r]
    requires r == -1 ==> Some(e) !in Cells(s)
    ensures if r < 0 then e !in s else e in s && IndexOf(s, e) == r
  {
    forall j | 0 <= j < |s| && (r == -1 || j < r)
      ensures s[j] != e
    {
      assert Cells(s)[j] == Some(s[j]);
      assert r >= 0 ==> Cells(s)[..r][j] == Some(s[j]);
    }
    if r >= 0 {
      assert s[r] == e;
    }
  }

  // --- the arrays of all nodes ---

  /** Different arrays share neither header nor block. */
  ghost predicate Apart(a: DynArr?<Edge>, b: DynArr?<Edge>)
    reads a, b
  {
    a != null && b != null ==> a != b && a.data != b.data
  }

  /** The outgoing or the incoming array of n, and its edges. */
  ghost function Arr(n: Node, outgoing: bool): DynArr?<Edge>
    reads n
  {
    if outgoing then n.out else n.inn
  }

  ghost function List(n: Node, outgoing: bool): seq<Edge>
    reads n
  {
    if outgoing then n.outs else n.ins
  }

  /** A node and its arrays. */
  ghost function NodeObjs(n: Node): set<object>
    reads n, n.out, n.inn
  {
    var h: object := n;
    {h} + ArrObjs(n.out) + ArrObjs(n.inn)
  }

  /** Every array holds the edges listed for it, and no two arrays overlap. */
  ghost predicate ArraysOk(nodes: set<Node>)
    reads *
  {
    && (forall n, d :: n in nodes ==> Holds(Arr(n, d), List(n, d)))
    && (forall n, m, d, d' :: n in nodes && m in nodes && (n != m || d != d') ==> Apart(Arr(n, d), Arr(m, d')))
  }

  /** An array of n is the one it was before, or a new one, and so is its block. */
  twostate predicate SameOrNew(n: Node, new d: bool)
    reads n, Arr(n, d)
  {
    var a, b := old(Arr(n, d)), Arr(n, d);
    b != null ==> (b == a || fresh(b)) && (fresh(b.data) || (a != null && b.data == old(a.data)))
  }

  /** A step that changes one array at most, and leaves all others alone, keeps the
      arrays in order. */
  twostate lemma OthersKept(nodes: set<Node>, new n: Node, new d: bool)
    requires n in nodes && old(ArraysOk(nodes))
    requires forall m, x :: m in nodes && (m != n || x != d) ==>
               && Arr(m, x) == old(Arr(m, x)) && List(m, x) == old(List(m, x))
               && (Arr(m, x) != null ==> unchanged(Arr(m, x)) && unchanged(Arr(m, x).data))
    requires Holds(Arr(n, d), List(n, d))
    requires Arr(n, d) != null ==> var a := old(Arr(n, d));
               && (Arr(n, d) == a || fresh(Arr(n, d)))
               && (fresh(Arr(n, d).data) || (a != null && Arr(n, d).data == old(a.data)))
    ensures ArraysOk(nodes)
  {
    forall m, x | m in nodes
      ensures Holds(Arr(m, x), List(m, x))
    {
      if m != n || x != d {
        assert old(Holds(Arr(m, x), List(m, x)));
      }
    }
    forall m, m', x, x' | m in nodes && m' in nodes && (m != m' || x != x')
      ensures Apart(Arr(m, x), Arr(m', x'))
    {
      assert old(Apart(Arr(m, x), Arr(m', x')));
    }
  }

  class Graph {
    ghost var nodes: set<Node>
    ghost var live: set<Edge>

    /** Each live edge is exactly once in its source's out and exactly once in its
        target's in, and nothing else is anywhere. */
    ghost predicate Consistent()
      reads this, nodes
    {
      && (forall e :: e in live ==> e.from in nodes && e.to in nodes && e in e.from.outs && e in e.to.ins)
      && (forall n :: n in nodes ==> NoDup(n.outs) && NoDup(n.ins))
      && (forall n, e :: n in nodes && e in n.outs ==> e in live && e.from == n)
      && (forall n, e :: n in nodes && e in n.ins ==> e in live && e.to == n)
    }

    ghost predicate Valid()
      reads *
    {
      ArraysOk(nodes) && Consistent()
    }

    /** Every live edge carries no tag or that of its source. */
    ghost predicate TagsFollow()
      reads this, live, nodes
    {
      forall e :: e in live && e.from in nodes ==> e.travtag == 0 || e.travtag == e.from.travtag
    }

    /** Linking and dropping leave all tags alone. */
    twostate predicate TagsUnchanged()
      reads this, nodes, live
    {
      && nodes == old(nodes) && (forall n :: n in nodes ==> n.travtag == old(n.travtag))
      && (forall e :: e in live && e in old(live) ==> e.travtag == old(e.travtag))
      && (forall e :: e in live && e !in old(live) ==> e.travtag == 0)
    }

    /** Everything the graph is made of. */
    ghost function Objects(): set<object>
      reads *
    {
      var self: object := this;
      {self} + live + (set n, o | n in nodes && o in NodeObjs(n) :: o)
    }

    /** As long as arrays are the old ones or new ones, the graph takes hold of new
        objects only. */
    twostate lemma ObjectsNew()
      requires nodes == old(nodes) && forall m, x :: m in nodes ==> SameOrNew(m, x)
      requires forall e :: e in live ==> e in old(live) || fresh(e)
      ensures forall o :: o in Objects() ==> o in old(Objects()) || fresh(o)
    {
      forall o | o in Objects() && o !in old(Objects())
        ensures fresh(o)
      {
        if n :| n in nodes && o in NodeObjs(n) {
          assert SameOrNew(n, true) && SameOrNew(n, false);
          assert o !in old(NodeObjs(n));
        }
      }
    }

    constructor ()
      ensures Valid() && nodes == {} && live == {}
    {
      nodes, live := {}, {};
    }

    method AllocNode() returns (n: Node)
      requires Valid()
      modifies this`nodes
      ensures Valid() && fresh(n) && nodes == old(nodes) + {n} && live == old(live)
      ensures n.out == null && n.inn == null
    {
      n := AddNode();
    }

    method AddNode() returns (n: Node)
      requires ArraysOk(nodes)
      modifies this`nodes
      ensures ArraysOk(nodes) && fresh(n) && nodes == old(nodes) + {n} && live == old(live)
      ensures n.out == null && n.inn == null && n.outs == [] && n.ins == []
    {
      n := new Node();
      nodes := nodes + {n};
      forall m, x | m in nodes
        ensures Holds(Arr(m, x), List(m, x))
      {
        assert m != n ==> old(allocated(m)) && old(Holds(Arr(m, x), List(m, x)));
      }
    }

    method PushOut(n: Node, e: Edge)
      requires ArraysOk(nodes) && n in nodes
      modifies n`out, n`outs, ArrObjs(n.out)
      ensures ArraysOk(nodes) && n.outs == old(n.outs) + [e]
      ensures SameOrNew(n, true)
    {
      assert Holds(Arr(n, true), List(n, true));
      n.out := AddEdge(n.out, e, n.outs);
      n.outs := n.outs + [e];
      assert Holds(Arr(n, true), List(n, true));
      forall m, x | m in nodes && (m != n || !x)
        ensures Arr(m, x) == old(Arr(m, x)) && List(m, x) == old(List(m, x))
        ensures Arr(m, x) != null ==> unchanged(Arr(m, x)) && unchanged(Arr(m, x).data)
      {
        assert old(Apart(Arr(n, true), Arr(m, x)));
      }
      OthersKept(nodes, n, true);
    }

    method PushIn(n: Node, e: Edge)
      requires ArraysOk(nodes) && n in nodes
      modifies n`inn, n`ins, ArrObjs(n.inn)
      ensures ArraysOk(nodes) && n.ins == old(n.ins) + [e]
      ensures SameOrNew(n, false)
    {
      assert Holds(Arr(n, false), List(n, false));
      n.inn := AddEdge(n.inn, e, n.ins);
      n.ins := n.ins + [e];
      assert Holds(Arr(n, false), List(n, false));
      forall m, x | m in nodes && (m != n || x)
        ensures Arr(m, x) == old(Arr(m, x)) && List(m, x) == old(List(m, x))
        ensures Arr(m, x) != null ==> unchanged(Arr(m, x)) && unchanged(Arr(m, x).data)
      {
        assert old(Apart(Arr(n, false), Arr(m, x)));
      }
      OthersKept(nodes, n, false);
    }

    method PullOut(n: Node, e: Edge)
      requires ArraysOk(nodes) && n in nodes && n.out != null
      modifies n`outs, ArrObjs(n.out)
      ensures ArraysOk(nodes) && n.outs == SwapRemove(old(n.outs), e)
      ensures SameOrNew(n, true)
    {
      assert Holds(Arr(n, true), List(n, true));
      DelEdge(n.out, e, n.outs);
      n.outs := SwapRemove(n.outs, e);
      assert Holds(Arr(n, true), List(n, true));
      forall m, x | m in nodes && (m != n || !x)
        ensures Arr(m, x) == old(Arr(m, x)) && List(m, x) == old(List(m, x))
        ensures Arr(m, x) != null ==> unchanged(Arr(m, x)) && unchanged(Arr(m, x).data)
      {
        assert old(Apart(Arr(n, true), Arr(m, x)));
      }
      OthersKept(nodes, n, true);
    }

    method PullIn(n: Node, e: Edge)
      requires ArraysOk(nodes) && n in nodes && n.inn != null
      modifies n`ins, ArrObjs(n.inn)
      ensures ArraysOk(nodes) && n.ins == SwapRemove(old(n.ins), e)
      ensures SameOrNew(n, false)
    {
      assert Holds(Arr(n, false), List(n, false));
      DelEdge(n.inn, e, n.ins);
      n.ins := SwapRemove(n.ins, e);
      assert Holds(Arr(n, false), List(n, false));
      forall m, x | m in nodes && (m != n || x)
        ensures Arr(m, x) == old(Arr(m, x)) && List(m, x) == old(List(m, x))
        ensures Arr(m, x) != null ==> unchanged(Arr(m, x)) && unchanged(Arr(m, x).data)
      {
        assert old(Apart(Arr(n, false), Arr(m, x)));
      }
      OthersKept(nodes, n, false);
    }

    /** Only the two lists an edge belongs to differ from before. */
    twostate predicate OnlyListsOf(new e: Edge)
      reads this, nodes
    {
      && nodes == old(nodes)
      && (forall n :: n in nodes && n != e.from ==> n.outs == old(n.outs))
      && (forall n :: n in nodes && n != e.to ==> n.ins == old(n.ins))
    }

    twostate lemma LinkedConsistent(new from: Node, new to: Node, new e: Edge)
      requires old(Consistent()) && OnlyListsOf(e) && from in nodes && to in nodes
      requires e.from == from && e.to == to
      requires live == old(live) + {e} && e !in old(live)
      requires from.outs == old(from.outs) + [e] && to.ins == old(to.ins) + [e]
      ensures Consistent()
    {
      forall n | n in nodes
        ensures NoDup(n.outs) && NoDup(n.ins)
      {
        assert old(NoDup(n.outs)) && old(NoDup(n.ins));
      }
    }

    twostate lemma DroppedConsistent(e: Edge)
      requires old(Consistent()) && OnlyListsOf(e) && e.from in nodes && e.to in nodes
      requires live == old(live) - {e}
      requires e.from.outs == SwapRemove(old(e.from.outs), e) && e.to.ins == SwapRemove(old(e.to.ins), e)
      ensures Consistent()
    {
      SwapRemoveNoDup(old(e.from.outs), e);
      SwapRemoveNoDup(old(e.to.ins), e);
    }

    method AttachEdge(from: Node, to: Node, e: Edge)
      requires ArraysOk(nodes) && from in nodes && to in nodes && e.from == from && e.to == to
      modifies from`out, from`outs, to`inn, to`ins, ArrObjs(from.out), ArrObjs(to.inn)
      ensures ArraysOk(nodes) && OnlyListsOf(e)
      ensures from.outs == old(from.outs) + [e] && to.ins == old(to.ins) + [e]
      ensures SameOrNew(from, true) && SameOrNew(to, false)
    {
      assert Apart(Arr(from, true), Arr(to, false));
      PushOut(from, e);
      assert ArrObjs(to.inn) == old(ArrObjs(to.inn));
      PushIn(to, e);
    }

    method LinkNode(from: Node, to: Node, w: real) returns (e: Edge)
      requires Valid() && from in nodes && to in nodes
      modifies this`live, from`out, from`outs, to`inn, to`ins, ArrObjs(from.out), ArrObjs(to.inn)
      ensures Valid() && fresh(e) && live == old(live) + {e} && nodes == old(nodes)
      ensures e.from == from && e.to == to && e.weight == w && e.travtag == 0
      ensures from.outs == old(from.outs) + [e] && to.ins == old(to.ins) + [e]
      ensures SameOrNew(from, true) && SameOrNew(to, false)
    {
      e := MkEdge(from, to, w);
      AttachEdge(from, to, e);
      LinkedConsistent(from, to, e);
    }

    method MkEdge(from: Node, to: Node, w: real) returns (e: Edge)
      requires ArraysOk(nodes)
      modifies this`live
      ensures ArraysOk(nodes) && fresh(e) && live == old(live) + {e}
      ensures e.from == from && e.to == to && e.weight == w && e.travtag == 0
    {
      e := new Edge(from, to, w);
      live := live + {e};
      forall m, x | m in nodes
        ensures Holds(Arr(m, x), List(m, x))
      {
        assert old(Holds(Arr(m, x), List(m, x)));
      }
    }

    ghost method Forget(e: Edge)
      requires ArraysOk(nodes)
      modifies this`live
      ensures ArraysOk(nodes) && live == old(live) - {e}
    {
      live := live - {e};
      forall m, x | m in nodes
        ensures Holds(Arr(m, x), List(m, x))
      {
        assert old(Holds(Arr(m, x), List(m, x)));
      }
    }

    method DropEdge(e: Edge)
      requires Valid() && e.from in nodes && e.to in nodes
      requires e.from.out != null && e.to.inn != null
      modifies this`live, e.from`outs, e.to`ins, ArrObjs(e.from.out), ArrObjs(e.to.inn)
      ensures Valid() && live == old(live) - {e} && nodes == old(nodes)
      ensures e.from.outs == SwapRemove(old(e.from.outs), e) && e.to.ins == SwapRemove(old(e.to.ins), e)
      ensures SameOrNew(e.from, true) && SameOrNew(e.to, false)
    {
      assert Apart(Arr(e.from, true), Arr(e.to, false));
      PullOut(e.from, e);
      assert ArrObjs(e.to.inn) == old(ArrObjs(e.to.inn));
      PullIn(e.to, e);
      Forget(e);
      DroppedConsistent(e);
    }

    function FanOut(n: Node): (k: nat)
      requires Valid() && n in nodes
      reads *
      ensures k == |n.outs|
    {
      assert Holds(Arr(n, true), List(n, true));
      if n.out == null then 0 else n.out.Count()
    }

    function FanIn(n: Node): (k: nat)
      requires Valid() && n in nodes
      reads *
      ensures k == |n.ins|
    {
      assert Holds(Arr(n, false), List(n, false));
      if n.inn == null then 0 else n.inn.Count()
    }

    /** The first edge from one node to the other, in the order of the out array. */
    method FindEdge(from: Node, to: Node) returns (r: Edge?)
      requires Valid() && from in nodes && from.out != null
      modifies from.out`iter
      ensures Valid() && nodes == old(nodes) && live == old(live)
      ensures r == null ==> forall e :: e in live && e.from == from ==> e.to != to
      ensures r != null ==> r in live && r.from == from && r.to == to
      ensures r != null ==> exists i :: 0 <= i < |from.outs| && from.outs[i] == r
                                        && forall j :: 0 <= j < i ==> from.outs[j].to != to
    {
      assert Holds(Arr(from, true), List(from, true));
      ghost var k;
      r, k := ScanFor(from.out, to, from.outs);
      OthersKept(nodes, from, true);
      assert r != null ==> from.outs[k] == r;
    }

    method UnlinkNode(from: Node, to: Node)
      requires Valid() && from in nodes && to in nodes
      requires exists e :: e in live && e.from == from && e.to == to
      modifies this`live, from`outs, to`ins, ArrObjs(from.out), ArrObjs(to.inn)
      ensures Valid() && nodes == old(nodes)
      ensures exists i :: 0 <= i < |old(from.outs)|
                          && (forall j :: 0 <= j < i ==> old(from.outs)[j].to != to)
                          && var e := old(from.outs)[i];
                             && e in old(live) && e.to == to && live == old(live) - {e}
                             && from.outs == SwapRemove(old(from.outs), e)
      ensures SameOrNew(from, true) && SameOrNew(to, false)
    {
      assert Holds(Arr(from, true), List(from, true)) && Holds(Arr(to, false), List(to, false));
      ghost var some :| some in live && some.from == from && some.to == to;
      assert some in from.outs && some in to.ins;
      var e := FindEdge(from, to);
      DropEdge(e);
    }
  }

  // --- whole runs ---

  /** Nodes go by the number of their allocation, edges by that of their linking. */
  datatype Op = Alloc | Link(from: nat, to: nat, w: real) | Drop(k: nat)

  /** A multigraph: its number of nodes, the ends and weights of all edges ever linked,
      and which of those are live. */
  datatype Multigraph = Multigraph(size: nat, ends: seq<(nat, nat, real)>, live: set<nat>)

  predicate Allowed(m: Multigraph, op: Op) {
    match op
    case Alloc => true
    case Link(from, to, _) => from < m.size && to < m.size
    case Drop(k) => k in m.live
  }

  function Step(m: Multigraph, op: Op): Multigraph {
    match op
    case Alloc => m.(size := m.size + 1)
    case Link(from, to, w) => m.(ends := m.ends + [(from, to, w)], live := m.live + {|m.ends|})
    case Drop(k) => m.(live := m.live - {k})
  }

  function Run(m: Multigraph, ops: seq<Op>): Multigraph
    decreases |ops|
  {
    if ops == [] then m else Run(Step(m, ops[0]), ops[1..])
  }

  predicate CanRun(m: Multigraph, ops: seq<Op>)
    decreases |ops|
  {
    ops != [] ==> Allowed(m, ops[0]) && CanRun(Step(m, ops[0]), ops[1..])
  }

  /** ns and es name the nodes and the edges, dropped ones included, as m numbers them. */
  ghost predicate Named(nodes: set<Node>, live: set<Edge>, ns: seq<Node>, es: seq<Edge>, m: Multigraph) {
    && |ns| == m.size && |es| == |m.ends| && NoDup(ns) && NoDup(es)
    && (forall n :: n in nodes ==> n in ns) && (forall k :: 0 <= k < |ns| ==> ns[k] in nodes)
    && (forall k :: 0 <= k < |es| ==>
          var (a, b, w) := m.ends[k];
          a < |ns| && b < |ns| && es[k].from == ns[a] && es[k].to == ns[b] && es[k].weight == w)
    && (forall k :: k in m.live ==> k < |es| && es[k] in live)
    && (forall e :: e in live ==> exists k :: k in m.live && k < |es| && es[k] == e)
  }

  lemma NamedAlloc(nodes: set<Node>, live: set<Edge>, ns: seq<Node>, es: seq<Edge>, m: Multigraph, n: Node)
    requires Named(nodes, live, ns, es, m) && n !in nodes
    ensures Named(nodes + {n}, live, ns + [n], es, Step(m, Alloc))
  {
  }

  lemma NamedLink(nodes: set<Node>, live: set<Edge>, ns: seq<Node>, es: seq<Edge>, m: Multigraph, op: Op, e: Edge)
    requires Named(nodes, live, ns, es, m) && e !in es && op.Link? && Allowed(m, op)
    requires e.from == ns[op.from] && e.to == ns[op.to] && e.weight == op.w
    ensures Named(nodes, live + {e}, ns, es + [e], Step(m, op))
  {
    forall x | x in live + {e}
      ensures exists k :: k in Step(m, op).live && k < |es + [e]| && (es + [e])[k] == x
    {
      if x == e {
        assert (es + [e])[|es|] == x;
      } else {
        var k :| k in m.live && k < |es| && es[k] == x;
        assert (es + [e])[k] == x;
      }
    }
  }

  lemma NamedDrop(nodes: set<Node>, live: set<Edge>, ns: seq<Node>, es: seq<Edge>, m: Multigraph, k: nat)
    requires Named(nodes, live, ns, es, m) && k in m.live
    ensures Named(nodes, live - {es[k]}, ns, es, Step(m, Drop(k)))
  {
  }

  method PerformAlloc(g: Graph) returns (n: Node)
    requires g.Valid() && g.TagsFollow()
    modifies g`nodes
    ensures g.Valid() && g.TagsFollow()
    ensures forall o :: o in g.Objects() ==> o in old(g.Objects()) || fresh(o)
    ensures n !in old(g.nodes) && g.nodes == old(g.nodes) + {n} && g.live == old(g.live)
  {
    n := g.AllocNode();
    assert forall e :: e in g.live ==> e.from in old(g.nodes);
  }

  /** LinkNode, which leaves the tags alone. */
  method LinkTagged(g: Graph, from: Node, to: Node, w: real) returns (e: Edge)
    requires g.Valid() && from in g.nodes && to in g.nodes
    modifies g`live, from`out, from`outs, to`inn, to`ins, ArrObjs(from.out), ArrObjs(to.inn)
    ensures g.Valid() && g.TagsUnchanged()
    ensures fresh(e) && e.from == from && e.to == to && e.weight == w
    ensures g.nodes == old(g.nodes) && g.live == old(g.live) + {e}
    ensures SameOrNew(from, true) && SameOrNew(to, false)
  {
    e := g.LinkNode(from, to, w);
  }

  /** Besides, no array is replaced but by a new one. */
  method PerformLink(g: Graph, from: Node, to: Node, w: real) returns (e: Edge)
    requires g.Valid() && from in g.nodes && to in g.nodes
    modifies g`live, from`out, from`outs, to`inn, to`ins, ArrObjs(from.out), ArrObjs(to.inn)
    ensures g.Valid() && g.TagsUnchanged()
    ensures fresh(e) && e.from == from && e.to == to && e.weight == w
    ensures g.nodes == old(g.nodes) && g.live == old(g.live) + {e}
    ensures forall n, x :: n in g.nodes ==> SameOrNew(n, x)
  {
    ghost var nodes := g.nodes;
    OthersApart(nodes, from, true);
    OthersApart(nodes, to, false);
    e := LinkTagged(g, from, to, w);
  }

  /** DropEdge on a live edge, which leaves the tags alone. */
  method DropTagged(g: Graph, e: Edge)
    requires g.Valid() && e in g.live
    modifies g`live, e.from`outs, e.to`ins, ArrObjs(e.from.out), ArrObjs(e.to.inn)
    ensures g.Valid() && g.TagsUnchanged()
    ensures g.nodes == old(g.nodes) && g.live == old(g.live) - {e}
    ensures SameOrNew(e.from, true) && SameOrNew(e.to, false)
  {
    assert Holds(Arr(e.from, true), List(e.from, true)) && Holds(Arr(e.to, false), List(e.to, false));
    g.DropEdge(e);
  }

  method PerformDrop(g: Graph, e: Edge)
    requires g.Valid() && e in g.live
    modifies g`live, e.from`outs, e.to`ins, ArrObjs(e.from.out), ArrObjs(e.to.inn)
    ensures g.Valid() && g.TagsUnchanged()
    ensures g.nodes == old(g.nodes) && g.live == old(g.live) - {e}
    ensures forall n, x :: n in g.nodes ==> SameOrNew(n, x)
  {
    ghost var nodes := g.nodes;
    OthersApart(nodes, e.from, true);
    OthersApart(nodes, e.to, false);
    DropTagged(g, e);
  }

  lemma OthersApart(nodes: set<Node>, n: Node, d: bool)
    requires ArraysOk(nodes) && n in nodes
    ensures forall m, x :: m in nodes && (m != n || x != d) && Arr(m, x) != null ==>
              (Arr(m, x) as object) !in ArrObjs(Arr(n, d))
  {
    forall m, x | m in nodes && (m != n || x != d) && Arr(m, x) != null
      ensures (Arr(m, x) as object) !in ArrObjs(Arr(n, d))
    {
      assert Apart(Arr(n, d), Arr(m, x));
    }
  }

  lemma ArraysAmongObjects(g: Graph, n: Node)
    requires n in g.nodes
    ensures n in g.Objects() && ArrObjs(n.out) <= g.Objects() && ArrObjs(n.inn) <= g.Objects()
  {
    assert NodeObjs(n) <= g.Objects();
  }

  method Perform(g: Graph, op: Op, ns: seq<Node>, es: seq<Edge>, ghost m: Multigraph)
    returns (ns': seq<Node>, es': seq<Edge>)
    requires g.Valid() && g.TagsFollow() && Named(g.nodes, g.live, ns, es, m) && Allowed(m, op)
    modifies g.Objects()
    ensures g.Valid() && g.TagsFollow()
    ensures forall o :: o in g.Objects() ==> o in old(g.Objects()) || fresh(o)
    ensures Named(g.nodes, g.live, ns', es', Step(m, op))
  {
    ns', es' := ns, es;
    match op
    case Alloc =>
      var n := PerformAlloc(g);
      NamedAlloc(old(g.nodes), g.live, ns, es, m, n);
      ns' := ns + [n];
    case Link(from, to, w) =>
      ArraysAmongObjects(g, ns[from]);
      ArraysAmongObjects(g, ns[to]);
      var e := PerformLink(g, ns[from], ns[to], w);
      g.ObjectsNew();
      NamedLink(g.nodes, old(g.live), ns, es, m, op, e);
      es' := es + [e];
    case Drop(k) =>
      ArraysAmongObjects(g, es[k].from);
      ArraysAmongObjects(g, es[k].to);
      PerformDrop(g, es[k]);
      g.ObjectsNew();
      NamedDrop(g.nodes, old(g.live), ns, es, m, k);
  }

  /** Any run of allocations, links and drops: every live edge is exactly once in its two
      arrays and nothing else is anywhere, and the live edges are those of the multigraph,
      self-loops and parallel edges included. */
  method Drive(ops: seq<Op>) returns (g: Graph, ns: seq<Node>, es: seq<Edge>)
    requires CanRun(Multigraph(0, [], {}), ops)
    ensures g.Valid() && g.TagsFollow()
    ensures Named(g.nodes, g.live, ns, es, Run(Multigraph(0, [], {}), ops))
  {
    g := new Graph();
    ns, es := [], [];
    ghost var m0 := Multigraph(0, [], {});
    ghost var m := m0;
    var i := 0;
    while i < |ops|
      invariant i <= |ops| && g.Valid() && g.TagsFollow() && forall o :: o in g.Objects() ==> fresh(o)
      invariant Named(g.nodes, g.live, ns, es, m)
      invariant CanRun(m, ops[i..]) && Run(m, ops[i..]) == Run(m0, ops)
    {
      assert ops[i..][0] == ops[i] && ops[i..][1..] == ops[i + 1..];
      ns, es := Perform(g, ops[i], ns, es, m);
      m := Step(m, ops[i]);
      i := i + 1;
    }
  }
}
