/** Traversing a graph by tagging nodes and edges (libsrsbsns/graph.c).  The graph may
    have cycles, self-loops and parallel edges, and tags left over from earlier
    traversals may happen to equal the new one. */
module Traversals {
  import opened Prelude
  import opened DynArrays
  import opened Deques
  import opened Graphs
  import opened CallOrders

  // --- the graph as a value ---

  ghost predicate WellFormed(g: Adj, edges: set<Edge>) {
    && (forall x, i :: x in g && 0 <= i < |g[x]| ==> g[x][i] in edges && g[x][i].from == x)
    && (forall e :: e in edges ==> e.from in g && e.to in g && e in g[e.from])
    && (forall x :: x in g ==> NoDup(g[x]))
  }

  /** p picks an out-edge by number at every node on the way from a to b; the way keeps
      off the nodes B and the edges F. */
  ghost predicate Walk(g: Adj, B: set<Node>, F: set<Edge>, a: Node, p: seq<nat>, b: Node)
    decreases |p|
  {
    && a in g && a !in B
    && if p == [] then a == b
       else p[0] < |g[a]| && g[a][p[0]] !in F && Walk(g, B, F, g[a][p[0]].to, p[1..], b)
  }

  ghost predicate Reach(g: Adj, B: set<Node>, F: set<Edge>, a: Node, b: Node) {
    exists p: seq<nat> :: Walk(g, B, F, a, p, b)
  }

  lemma ReachSelf(g: Adj, B: set<Node>, F: set<Edge>, a: Node)
    requires a in g && a !in B
    ensures Reach(g, B, F, a, a)
  {
    assert Walk(g, B, F, a, [], a);
  }

  lemma ReachFirst(g: Adj, B: set<Node>, F: set<Edge>, a: Node, i: nat, b: Node)
    requires a in g && a !in B && i < |g[a]| && g[a][i] !in F && Reach(g, B, F, g[a][i].to, b)
    ensures Reach(g, B, F, a, b)
  {
    var p: seq<nat> :| Walk(g, B, F, g[a][i].to, p, b);
    assert ([i] + p)[1..] == p;
    assert Walk(g, B, F, a, [i] + p, b);
  }

  lemma {:induction false} WalkLast(g: Adj, B: set<Node>, F: set<Edge>, a: Node, p: seq<nat>, b: Node, i: nat)
    requires Walk(g, B, F, a, p, b) && b in g && i < |g[b]| && g[b][i] !in F
    requires g[b][i].to in g && g[b][i].to !in B
    ensures Walk(g, B, F, a, p + [i], g[b][i].to)
    decreases |p|
  {
    if p == [] {
      assert p + [i] == [i] && [i][1..] == [];
    } else {
      WalkLast(g, B, F, g[a][p[0]].to, p[1..], b, i);
      assert (p + [i])[1..] == p[1..] + [i];
    }
  }

  lemma ReachLast(g: Adj, B: set<Node>, F: set<Edge>, a: Node, b: Node, i: nat)
    requires Reach(g, B, F, a, b) && b in g && i < |g[b]| && g[b][i] !in F
    requires g[b][i].to in g && g[b][i].to !in B
    ensures Reach(g, B, F, a, g[b][i].to)
  {
    var p: seq<nat> :| Walk(g, B, F, a, p, b);
    WalkLast(g, B, F, a, p, b, i);
  }

  lemma {:induction false} WalkMono(g: Adj, B: set<Node>, C: set<Node>, F: set<Edge>, H: set<Edge>,
                                    a: Node, p: seq<nat>, b: Node)
    requires Walk(g, B, F, a, p, b) && C <= B && H <= F
    ensures Walk(g, C, H, a, p, b)
    decreases |p|
  {
    if p != [] {
      WalkMono(g, B, C, F, H, g[a][p[0]].to, p[1..], b);
    }
  }

  lemma ReachMono(g: Adj, B: set<Node>, C: set<Node>, F: set<Edge>, H: set<Edge>, a: Node, b: Node)
    requires Reach(g, B, F, a, b) && C <= B && H <= F
    ensures Reach(g, C, H, a, b)
  {
    var p: seq<nat> :| Walk(g, B, F, a, p, b);
    WalkMono(g, B, C, F, H, a, p, b);
  }

  /** Every edge out of S is in F or leads into T. */
  ghost predicate Closed(g: Adj, F: set<Edge>, S: set<Node>, T: set<Node>) {
    forall x, i :: x in S && x in g && 0 <= i < |g[x]| ==> g[x][i] in F || g[x][i].to in T
  }

  lemma {:induction false} WalkStays(g: Adj, B: set<Node>, F: set<Edge>, S: set<Node>, a: Node, p: seq<nat>, b: Node)
    requires Closed(g, F, S, B + S) && a in S && Walk(g, B, F, a, p, b)
    ensures b in S
    decreases |p|
  {
    if p != [] {
      WalkStays(g, B, F, S, g[a][p[0]].to, p[1..], b);
    }
  }

  lemma ReachStays(g: Adj, B: set<Node>, F: set<Edge>, S: set<Node>, a: Node)
    requires Closed(g, F, S, B + S) && a in S
    ensures forall b :: b in g && Reach(g, B, F, a, b) ==> b in S
  {
    forall b | b in g && Reach(g, B, F, a, b)
      ensures b in S
    {
      var p: seq<nat> :| Walk(g, B, F, a, p, b);
      WalkStays(g, B, F, S, a, p, b);
    }
  }

  ghost predicate Reached(g: Adj, B: set<Node>, F: set<Edge>, a: Node, S: set<Node>) {
    forall x :: x in S ==> Reach(g, B, F, a, x)
  }

  // --- tags and callbacks on the heap ---

  ghost predicate Stored(g: Adj)
    reads *
  {
    forall n :: n in g ==> Holds(n.out, g[n])
  }

  /** B are exactly the nodes, and F exactly the edges, that carry the tag. */
  ghost predicate Marks(g: Adj, edges: set<Edge>, tag: int, B: set<Node>, F: set<Edge>)
    reads g.Keys, edges
  {
    && B <= g.Keys && F <= edges
    && (forall x :: x in g ==> (x.travtag == tag <==> x in B))
    && (forall e :: e in edges ==> (e.travtag == tag <==> e in F))
  }

  /** Tags are only changed into tag. */
  twostate predicate OnlyTagged(g: Adj, edges: set<Edge>, tag: int)
    reads g.Keys, edges
  {
    && (forall x :: x in g ==> x.travtag == tag || x.travtag == old(x.travtag))
    && (forall e :: e in edges ==> e.travtag == tag || e.travtag == old(e.travtag))
  }

  /** What the callbacks have been told. */
  class Recorder {
    var log: seq<Event>

    constructor ()
      ensures log == []
    {
      log := [];
    }

    method Tell(ev: Event)
      modifies this`log
      ensures log == old(log) + [ev]
    {
      log := log + [ev];
    }
  }

  // --- depth first: what is known in the course of it, as values ---

  /** From B and F tagged and the calls log, visiting n leads to B', F' and log'. */
  ghost predicate DfsDone(g: Adj, edges: set<Edge>, n: Node, B: set<Node>, F: set<Edge>, log: seq<Event>,
                          B': set<Node>, F': set<Edge>, log': seq<Event>)
  {
    && B <= B' && F <= F' && n in B'
    && Closed(g, {}, B' - B, B') && Reached(g, B, {}, n, B' - B)
    && (forall e :: e in edges ==> (e in F' <==> e in F || e.from in B' - B))
    && (forall x :: x in g ==>
          Calls(log', NodeVisit(x)) == Calls(log, NodeVisit(x)) + if x in B' - B then |g[x]| else 0)
    && (forall e :: e in edges ==>
          Calls(log', EdgeVisit(e)) == Calls(log, EdgeVisit(e)) + if e in F' - F then 1 else 0)
  }

  /** The same after i of the out-edges of n have been dealt with. */
  ghost predicate DfsPartial(g: Adj, edges: set<Edge>, n: Node, i: nat, B: set<Node>, F: set<Edge>, log: seq<Event>,
                             B': set<Node>, F': set<Edge>, log': seq<Event>)
  {
    && n in g && i <= |g[n]| && n !in B && n in B'
    && B <= B' && F <= F'
    && Closed(g, {}, B' - B - {n}, B') && Reached(g, B, {}, n, B' - B)
    && (forall j :: 0 <= j < i ==> g[n][j].to in B')
    && (forall e :: e in edges ==>
          (e in F' <==> e in F || e.from in B' - B - {n} || (e.from == n && e in g[n][..i])))
    && (forall x :: x in g ==>
          Calls(log', NodeVisit(x))
          == Calls(log, NodeVisit(x)) + if x == n then i else if x in B' - B then |g[x]| else 0)
    && (forall e :: e in edges ==>
          Calls(log', EdgeVisit(e)) == Calls(log, EdgeVisit(e)) + if e in F' - F then 1 else 0)
  }

  /** The calls made for the next out-edge e of n: one for e unless it is tagged, and
      one for n in any case. */
  ghost function StepLog(log: seq<Event>, F: set<Edge>, e: Edge, n: Node): seq<Event> {
    (if e in F then log else log + [EdgeVisit(e)]) + [NodeVisit(n)]
  }

  lemma DfsStart(g: Adj, edges: set<Edge>, n: Node, B: set<Node>, F: set<Edge>, log: seq<Event>)
    requires n in g && n !in B
    ensures DfsPartial(g, edges, n, 0, B, F, log, B + {n}, F, log)
  {
    ReachSelf(g, B, {}, n);
  }

  lemma DfsFinish(g: Adj, edges: set<Edge>, n: Node, B: set<Node>, F: set<Edge>, log: seq<Event>,
                  B': set<Node>, F': set<Edge>, log': seq<Event>)
    requires WellFormed(g, edges)
    requires n in g && DfsPartial(g, edges, n, |g[n]|, B, F, log, B', F', log')
    ensures DfsDone(g, edges, n, B, F, log, B', F', log')
  {
    assert g[n][..|g[n]|] == g[n];
  }

  lemma DfsStep(g: Adj, edges: set<Edge>, n: Node, i: nat, B: set<Node>, F: set<Edge>, log: seq<Event>,
                B1: set<Node>, F1: set<Edge>, log1: seq<Event>, B2: set<Node>, F2: set<Edge>, log2: seq<Event>)
    requires WellFormed(g, edges)
    requires DfsPartial(g, edges, n, i, B, F, log, B1, F1, log1) && i < |g[n]|
    requires var e := g[n][i];
             DfsDone(g, edges, e.to, B1, F1 + {e}, StepLog(log1, F1, e, n), B2, F2, log2)
    ensures DfsPartial(g, edges, n, i + 1, B, F, log, B2, F2, log2)
  {
    var e := g[n][i];
    DfsStepNodes(g, n, i, B, B1, B2);
    DfsStepEdges(g, edges, n, i, B, F, B1, F1, B2, F2);
    DfsStepCalls(g, edges, n, i, B, F, log, B1, F1, log1, B2, F2, log2);
  }

  lemma DfsStepNodes(g: Adj, n: Node, i: nat, B: set<Node>, B1: set<Node>, B2: set<Node>)
    requires n in g && i < |g[n]| && n !in B && n in B1 && B <= B1 <= B2
    requires Closed(g, {}, B1 - B - {n}, B1) && Reached(g, B, {}, n, B1 - B)
    requires Closed(g, {}, B2 - B1, B2) && Reached(g, B1, {}, g[n][i].to, B2 - B1)
    ensures Closed(g, {}, B2 - B - {n}, B2) && Reached(g, B, {}, n, B2 - B)
  {
    forall x | x in B2 - B
      ensures Reach(g, B, {}, n, x)
    {
      if x !in B1 {
        ReachMono(g, B1, B, {}, {}, g[n][i].to, x);
        ReachFirst(g, B, {}, n, i, x);
      }
    }
  }

  lemma DfsStepEdges(g: Adj, edges: set<Edge>, n: Node, i: nat, B: set<Node>, F: set<Edge>,
                     B1: set<Node>, F1: set<Edge>, B2: set<Node>, F2: set<Edge>)
    requires WellFormed(g, edges) && n in g && i < |g[n]| && n !in B && n in B1 && B <= B1 <= B2
    requires forall e :: e in edges ==>
               (e in F1 <==> e in F || e.from in B1 - B - {n} || (e.from == n && e in g[n][..i]))
    requires forall e :: e in edges ==> (e in F2 <==> e in F1 + {g[n][i]} || e.from in B2 - B1)
    ensures forall e :: e in edges ==>
              (e in F2 <==> e in F || e.from in B2 - B - {n} || (e.from == n && e in g[n][..i + 1]))
    ensures g[n][i] in F1 <==> g[n][i] in F
  {
    assert g[n][..i + 1] == g[n][..i] + [g[n][i]];
    assert g[n][i] !in g[n][..i];
  }

  lemma DfsStepCalls(g: Adj, edges: set<Edge>, n: Node, i: nat, B: set<Node>, F: set<Edge>, log: seq<Event>,
                     B1: set<Node>, F1: set<Edge>, log1: seq<Event>, B2: set<Node>, F2: set<Edge>, log2: seq<Event>)
    requires n in g && i < |g[n]| && n !in B && n in B1 && B <= B1 <= B2 && F <= F1 && F1 + {g[n][i]} <= F2
    requires forall x :: x in g ==>
               Calls(log1, NodeVisit(x))
               == Calls(log, NodeVisit(x)) + if x == n then i else if x in B1 - B then |g[x]| else 0
    requires forall e :: e in edges ==>
               Calls(log1, EdgeVisit(e)) == Calls(log, EdgeVisit(e)) + if e in F1 - F then 1 else 0
    requires var mid := StepLog(log1, F1, g[n][i], n);
             && (forall x :: x in g ==>
                   Calls(log2, NodeVisit(x)) == Calls(mid, NodeVisit(x)) + if x in B2 - B1 then |g[x]| else 0)
             && (forall e :: e in edges ==>
                   Calls(log2, EdgeVisit(e)) == Calls(mid, EdgeVisit(e)) + if e in F2 - (F1 + {g[n][i]}) then 1 else 0)
    ensures forall x :: x in g ==>
              Calls(log2, NodeVisit(x))
              == Calls(log, NodeVisit(x)) + if x == n then i + 1 else if x in B2 - B then |g[x]| else 0
    ensures forall e :: e in edges ==>
              Calls(log2, EdgeVisit(e)) == Calls(log, EdgeVisit(e)) + if e in F2 - F then 1 else 0
  {
    var e0 := g[n][i];
    var mid := StepLog(log1, F1, e0, n);
    forall ev: Event
      ensures Calls(mid, ev)
           == Calls(log1, ev) + (if ev == EdgeVisit(e0) && e0 !in F1 then 1 else 0)
              + if ev == NodeVisit(n) then 1 else 0
    {
    }
  }

  /** Visiting n leads from the one state to the other by the calls d. */
  ghost predicate DfsVisit(g: Adj, edges: set<Edge>, n: Node, B: set<Node>, F: set<Edge>, log: seq<Event>,
                           B': set<Node>, F': set<Edge>, log': seq<Event>, d: seq<Event>)
  {
    && DfsDone(g, edges, n, B, F, log, B', F', log')
    && log' == log + d && DepthFirst(g, n, B, F, B' - B, d)
  }

  /** So do i rounds of the loop over the out-edges of n. */
  ghost predicate DfsRounds(g: Adj, edges: set<Edge>, n: Node, i: nat, B: set<Node>, F: set<Edge>, log: seq<Event>,
                            B': set<Node>, F': set<Edge>, log': seq<Event>, d: seq<Event>)
  {
    && DfsPartial(g, edges, n, i, B, F, log, B', F', log')
    && log' == log + d && DepthFirstTo(g, n, i, B, F, B' - B, d)
  }

  lemma VisitNone(g: Adj, edges: set<Edge>, n: Node, B: set<Node>, F: set<Edge>, log: seq<Event>)
    requires n in B
    ensures DfsVisit(g, edges, n, B, F, log, B, F, log, [])
  {
  }

  lemma VisitStart(g: Adj, edges: set<Edge>, n: Node, B: set<Node>, F: set<Edge>, log: seq<Event>)
    requires n in g && n !in B
    ensures DfsRounds(g, edges, n, 0, B, F, log, B + {n}, F, log, [])
  {
    DfsStart(g, edges, n, B, F, log);
    DepthFirstStart(g, n, B, F);
    assert B + {n} - B == {n};
  }

  lemma VisitFinish(g: Adj, edges: set<Edge>, n: Node, B: set<Node>, F: set<Edge>, log: seq<Event>,
                    B': set<Node>, F': set<Edge>, log': seq<Event>, d: seq<Event>)
    requires WellFormed(g, edges)
    requires n in g && DfsRounds(g, edges, n, |g[n]|, B, F, log, B', F', log', d)
    ensures DfsVisit(g, edges, n, B, F, log, B', F', log', d)
  {
    DfsFinish(g, edges, n, B, F, log, B', F', log');
    DepthFirstFinish(g, n, B, F, B' - B, d);
  }

  lemma VisitStep(g: Adj, edges: set<Edge>, n: Node, i: nat, B: set<Node>, F: set<Edge>, log: seq<Event>,
                  B1: set<Node>, F1: set<Edge>, log1: seq<Event>, d1: seq<Event>,
                  B2: set<Node>, F2: set<Edge>, log2: seq<Event>, b: seq<Event>)
    requires WellFormed(g, edges)
    requires DfsRounds(g, edges, n, i, B, F, log, B1, F1, log1, d1) && i < |g[n]|
    requires var e := g[n][i];
             DfsVisit(g, edges, e.to, B1, F1 + {e}, StepLog(log1, F1, e, n), B2, F2, log2, b)
    ensures DfsRounds(g, edges, n, i + 1, B, F, log, B2, F2, log2, d1 + Round(F, n, g[n][i]) + b)
  {
    var e := g[n][i];
    DfsStep(g, edges, n, i, B, F, log, B1, F1, log1, B2, F2, log2);
    VisitStepOrder(g, edges, n, i, B, F, log, B1, F1, log1, d1, B2, b);
    StepLogRound(g, edges, n, i, B, F, log, B1, F1, log1);
    Assoc(log + d1, Round(F, n, e), b);
    Assoc(log, d1, Round(F, n, e) + b);
    Assoc(d1, Round(F, n, e), b);
  }

  lemma VisitStepOrder(g: Adj, edges: set<Edge>, n: Node, i: nat, B: set<Node>, F: set<Edge>, log: seq<Event>,
                       B1: set<Node>, F1: set<Edge>, log1: seq<Event>, d1: seq<Event>, B2: set<Node>, b: seq<Event>)
    requires WellFormed(g, edges)
    requires DfsRounds(g, edges, n, i, B, F, log, B1, F1, log1, d1) && i < |g[n]| && B1 <= B2 && g[n][i].to in B2
    requires DepthFirst(g, g[n][i].to, B1, F1 + {g[n][i]}, B2 - B1, b)
    ensures DepthFirstTo(g, n, i + 1, B, F, B2 - B, d1 + Round(F, n, g[n][i]) + b)
  {
    assert B + (B1 - B) == B1 && (B1 - B) + (B2 - B1) == B2 - B;
    forall x, j | x in B2 - B1 && x in g && 0 <= j < |g[x]|
      ensures g[x][j] in F <==> g[x][j] in F1 + {g[n][i]}
    {
      assert g[x][j] in edges && g[x][j].from == x;
    }
    DepthFirstStep(g, n, i, B, F, F1 + {g[n][i]}, B1 - B, B2 - B1, d1, b);
  }

  /** An out-edge whose turn it is carries the tag if it did at the outset. */
  lemma StepLogRound(g: Adj, edges: set<Edge>, n: Node, i: nat, B: set<Node>, F: set<Edge>, log: seq<Event>,
                     B1: set<Node>, F1: set<Edge>, log1: seq<Event>)
    requires WellFormed(g, edges)
    requires DfsPartial(g, edges, n, i, B, F, log, B1, F1, log1) && i < |g[n]|
    ensures StepLog(log1, F1, g[n][i], n) == log1 + Round(F, n, g[n][i])
  {
    var e := g[n][i];
    assert e in edges && e.from == n;
    assert e !in g[n][..i];
  }

  method DfsFrom(n: Node, tag: int, rec: Recorder, ghost g: Adj, ghost edges: set<Edge>,
                 ghost B: set<Node>, ghost F: set<Edge>)
    returns (ghost B': set<Node>, ghost F': set<Edge>, ghost d: seq<Event>)
    requires WellFormed(g, edges) && Stored(g) && n in g && Marks(g, edges, tag, B, F)
    modifies g.Keys`travtag, edges`travtag, rec`log
    ensures Stored(g) && Marks(g, edges, tag, B', F') && OnlyTagged(g, edges, tag)
    ensures DfsVisit(g, edges, n, B, F, old(rec.log), B', F', rec.log, d)
    decreases g.Keys - B, 1
  {
    B', F', d := B, F, [];
    if n.travtag == tag {
      VisitNone(g, edges, n, B, F, rec.log);
      return;
    }
    TagNode(n, tag, g, edges, B, F);
    VisitStart(g, edges, n, B, F, rec.log);
    B', F', d := DfsEdges(n, tag, rec, g, edges, B, F);
  }

  /** The loop over the out-edges of n, which has just been tagged. */
  method DfsEdges(n: Node, tag: int, rec: Recorder, ghost g: Adj, ghost edges: set<Edge>,
                  ghost B: set<Node>, ghost F: set<Edge>)
    returns (ghost B': set<Node>, ghost F': set<Edge>, ghost d: seq<Event>)
    requires WellFormed(g, edges) && Stored(g) && n in g && n !in B && Marks(g, edges, tag, B + {n}, F)
    requires DfsRounds(g, edges, n, 0, B, F, rec.log, B + {n}, F, rec.log, [])
    modifies g.Keys`travtag, edges`travtag, rec`log
    ensures Stored(g) && Marks(g, edges, tag, B', F') && OnlyTagged(g, edges, tag)
    ensures DfsVisit(g, edges, n, B, F, old(rec.log), B', F', rec.log, d)
    decreases g.Keys - B, 0
  {
    B', F', d := B + {n}, F, [];
    var ec := OutCount(n, g);
    var i := 0;
    while i < ec
      invariant i <= ec == |g[n]|
      invariant Stored(g) && Marks(g, edges, tag, B', F') && OnlyTagged(g, edges, tag)
      invariant DfsRounds(g, edges, n, i, B, F, old(rec.log), B', F', rec.log, d)
    {
      B', F', d := DfsRound(n, i, tag, rec, g, edges, B, F, old(rec.log), B', F', d);
      i := i + 1;
    }
    VisitFinish(g, edges, n, B, F, old(rec.log), B', F', rec.log, d);
  }

  /** One round of the loop. */
  method DfsRound(n: Node, i: nat, tag: int, rec: Recorder, ghost g: Adj, ghost edges: set<Edge>,
                  ghost B: set<Node>, ghost F: set<Edge>, ghost log: seq<Event>,
                  ghost B1: set<Node>, ghost F1: set<Edge>, ghost d1: seq<Event>)
    returns (ghost B2: set<Node>, ghost F2: set<Edge>, ghost d2: seq<Event>)
    requires WellFormed(g, edges) && Stored(g) && n in g && i < |g[n]| && Marks(g, edges, tag, B1, F1)
    requires DfsRounds(g, edges, n, i, B, F, log, B1, F1, rec.log, d1)
    modifies g.Keys`travtag, edges`travtag, rec`log
    ensures Stored(g) && Marks(g, edges, tag, B2, F2) && OnlyTagged(g, edges, tag)
    ensures DfsRounds(g, edges, n, i + 1, B, F, log, B2, F2, rec.log, d2)
    decreases g.Keys - B1, 2
  {
    ghost var log1, b := rec.log, [];
    var e := OutEdge(n, i, g);
    Announce(n, e, tag, rec, g, edges, B1, F1);
    B2, F2, b := DfsFrom(e.to, tag, rec, g, edges, B1, F1 + {e});
    VisitStep(g, edges, n, i, B, F, log, B1, F1, log1, d1, B2, F2, rec.log, b);
    d2 := d1 + Round(F, n, e) + b;
  }

  method OutCount(n: Node, ghost g: Adj) returns (ec: nat)
    requires Stored(g) && n in g
    ensures ec == |g[n]|
  {
    assert Holds(n.out, g[n]);
    ec := if n.out == null then 0 else n.out.Count();
  }

  /** The i-th cell of the array of outgoing edges. */
  method OutEdge(n: Node, i: nat, ghost g: Adj) returns (e: Edge)
    requires Stored(g) && n in g && i < |g[n]|
    ensures Stored(g) && e == g[n][i]
  {
    assert Holds(n.out, g[n]);
    var cell := n.out.Get(i);
    e := cell.value;
  }

  /** The callbacks for the out-edge e of n. */
  method Announce(n: Node, e: Edge, tag: int, rec: Recorder, ghost g: Adj, ghost edges: set<Edge>,
                  ghost B: set<Node>, ghost F: set<Edge>)
    requires Stored(g) && e in edges && Marks(g, edges, tag, B, F)
    modifies e`travtag, rec`log
    ensures Stored(g) && Marks(g, edges, tag, B, F + {e}) && OnlyTagged(g, edges, tag)
    ensures rec.log == StepLog(old(rec.log), F, e, n)
  {
    TagEdge(e, tag, rec, g, edges, B, F);
    rec.Tell(NodeVisit(n));
  }

  method TagEdge(e: Edge, tag: int, rec: Recorder, ghost g: Adj, ghost edges: set<Edge>,
                 ghost B: set<Node>, ghost F: set<Edge>)
    requires Stored(g) && e in edges && Marks(g, edges, tag, B, F)
    modifies e`travtag, rec`log
    ensures Stored(g) && Marks(g, edges, tag, B, F + {e}) && OnlyTagged(g, edges, tag)
    ensures rec.log == if e in F then old(rec.log) else old(rec.log) + [EdgeVisit(e)]
  {
    if e.travtag != tag {
      ReportEdge(e, tag, rec, g, edges, B, F);
    }
  }

  /** Tags e and tells the edge callback. */
  method ReportEdge(e: Edge, tag: int, rec: Recorder, ghost g: Adj, ghost edges: set<Edge>,
                    ghost B: set<Node>, ghost F: set<Edge>)
    requires Stored(g) && e in edges && Marks(g, edges, tag, B, F)
    modifies e`travtag, rec`log
    ensures Stored(g) && Marks(g, edges, tag, B, F + {e}) && OnlyTagged(g, edges, tag)
    ensures rec.log == old(rec.log) + [EdgeVisit(e)]
  {
    e.travtag := tag;
    rec.Tell(EdgeVisit(e));
  }

  method TagNode(n: Node, tag: int, ghost g: Adj, ghost edges: set<Edge>, ghost B: set<Node>, ghost F: set<Edge>)
    requires Stored(g) && n in g && Marks(g, edges, tag, B, F)
    modifies n`travtag
    ensures Stored(g) && Marks(g, edges, tag, B + {n}, F) && OnlyTagged(g, edges, tag)
  {
    n.travtag := tag;
  }

  /** Tags n and tells the node callback, as the worklist traversal does it. */
  method ReportNode(n: Node, tag: int, rec: Recorder, ghost g: Adj, ghost edges: set<Edge>,
                    ghost B: set<Node>, ghost F: set<Edge>)
    requires Stored(g) && n in g && Marks(g, edges, tag, B, F)
    modifies n`travtag, rec`log
    ensures Stored(g) && Marks(g, edges, tag, B + {n}, F) && OnlyTagged(g, edges, tag)
    ensures rec.log == old(rec.log) + [NodeVisit(n)]
  {
    TagNode(n, tag, g, edges, B, F);
    rec.Tell(NodeVisit(n));
  }

  // --- by worklist: what is known in the course of it, as values ---

  ghost predicate Pending(g: Adj, B: set<Node>, F: set<Edge>, start: Node, st: seq<Node>) {
    forall x :: x in st ==> x in g && Reach(g, B, F, start, x)
  }

  /** Every edge out of S was tagged at the outset, or leads to a tagged or a waiting node. */
  ghost predicate Covered(g: Adj, F: set<Edge>, S: set<Node>, B': set<Node>, st: seq<Node>) {
    forall x, i :: x in S && x in g && 0 <= i < |g[x]| ==>
      g[x][i] in F || g[x][i].to in B' || g[x][i].to in st
  }

  ghost predicate WorkCalls(g: Adj, edges: set<Edge>, B: set<Node>, F: set<Edge>, log: seq<Event>,
                            B': set<Node>, F': set<Edge>, log': seq<Event>)
  {
    && (forall x :: x in g ==>
          Calls(log', NodeVisit(x)) == Calls(log, NodeVisit(x)) + if x in B' - B then 1 else 0)
    && (forall e :: e in edges ==>
          Calls(log', EdgeVisit(e)) == Calls(log, EdgeVisit(e)) + if e in F' - F then 1 else 0)
  }

  /** The calls from k on have been added to log. */
  ghost predicate Added(log: seq<Event>, log': seq<Event>, k: int) {
    k == |log| && log <= log'
  }

  /** What has been told between two pops is in worklist order. */
  ghost predicate WorkTold(g: Adj, start: Node, B: set<Node>, F: set<Edge>, S: set<Node>,
                           log: seq<Event>, log': seq<Event>, st: seq<Node>)
  {
    log <= log' && forall k {:trigger Added(log, log', k)} :: Added(log, log', k) ==>
                     ByWorklistTo(g, start, B, F, S, log'[k..], st)
  }

  /** So is what has been told after i of the out-edges of the popped node n. */
  ghost predicate WorkTelling(g: Adj, start: Node, n: Node, i: nat, B: set<Node>, F: set<Edge>, S: set<Node>,
                              log: seq<Event>, log': seq<Event>, st: seq<Node>)
  {
    log <= log' && forall k {:trigger Added(log, log', k)} :: Added(log, log', k) ==>
                     ByWorklistWith(g, start, n, i, B, F, S, log'[k..], st)
  }

  /** Between two pops. */
  ghost predicate WorkDone(g: Adj, edges: set<Edge>, start: Node, B: set<Node>, F: set<Edge>, log: seq<Event>,
                           B': set<Node>, F': set<Edge>, log': seq<Event>, st: seq<Node>)
  {
    && B <= B' && F <= F' && (start in B' || start in st)
    && Pending(g, B, F, start, st) && Reached(g, B, F, start, B' - B)
    && Covered(g, F, B' - B, B', st)
    && (forall e :: e in edges ==> (e in F' <==> e in F || e.from in B' - B))
    && WorkCalls(g, edges, B, F, log, B', F', log')
    && WorkTold(g, start, B, F, B' - B, log, log', st)
  }

  /** After i of the out-edges of the popped node n have been dealt with. */
  ghost predicate WorkPartial(g: Adj, edges: set<Edge>, start: Node, n: Node, i: nat,
                              B: set<Node>, F: set<Edge>, log: seq<Event>,
                              B': set<Node>, F': set<Edge>, log': seq<Event>, st: seq<Node>)
  {
    && n in g && i <= |g[n]| && n in B' && n !in B && (start in B' || start in st)
    && B <= B' && F <= F'
    && Pending(g, B, F, start, st) && Reached(g, B, F, start, B' - B)
    && Covered(g, F, B' - B - {n}, B', st)
    && (forall j :: 0 <= j < i ==> g[n][j] in F || g[n][j].to in B' || g[n][j].to in st)
    && (forall e :: e in edges ==>
          (e in F' <==> e in F || e.from in B' - B - {n} || (e.from == n && e in g[n][..i])))
    && WorkCalls(g, edges, B, F, log, B', F', log')
    && WorkTelling(g, start, n, i, B, F, B' - B, log, log', st)
  }

  lemma WorkBegin(g: Adj, edges: set<Edge>, start: Node, B: set<Node>, F: set<Edge>, log: seq<Event>)
    requires start in g && start !in B
    ensures WorkDone(g, edges, start, B, F, log, B, F, log, [start])
  {
    ReachSelf(g, B, F, start);
    WorklistStart(g, start, B, F);
    assert B - B == {};
    assert log[|log|..] == [];
  }

  lemma WorkSkip(g: Adj, edges: set<Edge>, start: Node, n: Node, B: set<Node>, F: set<Edge>, log: seq<Event>,
                 B': set<Node>, F': set<Edge>, log': seq<Event>, st: seq<Node>)
    requires WorkDone(g, edges, start, B, F, log, B', F', log', st + [n]) && n in B'
    ensures WorkDone(g, edges, start, B, F, log, B', F', log', st)
  {
    assert Added(log, log', |log|);
    WorklistSkip(g, start, n, B, F, B' - B, log'[|log|..], st);
  }

  lemma WorkStart(g: Adj, edges: set<Edge>, start: Node, n: Node, B: set<Node>, F: set<Edge>, log: seq<Event>,
                  B': set<Node>, F': set<Edge>, log': seq<Event>, st: seq<Node>)
    requires WellFormed(g, edges)
    requires WorkDone(g, edges, start, B, F, log, B', F', log', st + [n]) && n !in B'
    ensures WorkPartial(g, edges, start, n, 0, B, F, log, B' + {n}, F', log' + [NodeVisit(n)], st)
  {
    assert n in st + [n];
    forall x | x in st
      ensures x in g && Reach(g, B, F, start, x)
    {
      assert x in st + [n];
    }
    WorkStartOrder(g, start, n, B, F, B' - B, log, log', st);
    assert B' + {n} - B == (B' - B) + {n};
  }

  lemma WorkStartOrder(g: Adj, start: Node, n: Node, B: set<Node>, F: set<Edge>, S: set<Node>,
                       log: seq<Event>, log': seq<Event>, st: seq<Node>)
    requires WorkTold(g, start, B, F, S, log, log', st + [n]) && n in g && n !in B + S
    ensures WorkTelling(g, start, n, 0, B, F, S + {n}, log, log' + [NodeVisit(n)], st)
  {
    var d := log'[|log|..];
    assert Added(log, log', |log|);
    WorklistVisit(g, start, n, B, F, S, d, st);
    assert (log' + [NodeVisit(n)])[|log|..] == d + [NodeVisit(n)];
  }

  lemma WorkFinish(g: Adj, edges: set<Edge>, start: Node, n: Node, B: set<Node>, F: set<Edge>, log: seq<Event>,
                   B': set<Node>, F': set<Edge>, log': seq<Event>, st: seq<Node>)
    requires WellFormed(g, edges)
    requires n in g && WorkPartial(g, edges, start, n, |g[n]|, B, F, log, B', F', log', st)
    ensures WorkDone(g, edges, start, B, F, log, B', F', log', st)
  {
    assert g[n][..|g[n]|] == g[n];
    assert Added(log, log', |log|);
    WorklistFinish(g, start, n, B, F, B' - B, log'[|log|..], st);
  }

  /** One out-edge e: it is tagged and reported unless it carries the tag already, and
      then its target waits unless that is tagged. */
  lemma WorkStep(g: Adj, edges: set<Edge>, start: Node, n: Node, i: nat, B: set<Node>, F: set<Edge>, log: seq<Event>,
                 B': set<Node>, F': set<Edge>, log': seq<Event>, st: seq<Node>)
    requires WellFormed(g, edges)
    requires WorkPartial(g, edges, start, n, i, B, F, log, B', F', log', st) && i < |g[n]|
    ensures var e := g[n][i];
            WorkPartial(g, edges, start, n, i + 1, B, F, log, B', F' + {e},
                        if e in F' then log' else log' + [EdgeVisit(e)],
                        if e in F' || e.to in B' then st else st + [e.to])
  {
    var e := g[n][i];
    var st' := if e in F' || e.to in B' then st else st + [e.to];
    if e !in F' && e.to !in B' {
      ReachLast(g, B, F, start, n, i);
    }
    WorkStepEdges(g, edges, n, i, B, F, B', F');
    assert Covered(g, F, B' - B - {n}, B', st');
    WorkStepCalls(g, edges, e, B, F, log, B', F', log');
    assert B + (B' - B) == B';
    WorkStepOrder(g, start, n, i, B, F, B' - B, log, log', st);
  }

  lemma WorkStepOrder(g: Adj, start: Node, n: Node, i: nat, B: set<Node>, F: set<Edge>, S: set<Node>,
                      log: seq<Event>, log': seq<Event>, st: seq<Node>)
    requires WorkTelling(g, start, n, i, B, F, S, log, log', st) && n in g && i < |g[n]| && g[n][i].from == n
    ensures var e := g[n][i];
            WorkTelling(g, start, n, i + 1, B, F, S, log, if e in F then log' else log' + [EdgeVisit(e)],
                        if e in F || e.to in B + S then st else st + [e.to])
  {
    var e := g[n][i];
    var d := log'[|log|..];
    assert Added(log, log', |log|);
    if e in F {
      WorklistPass(g, start, n, i, B, F, S, d, st);
    } else {
      WorklistReport(g, start, n, i, B, F, S, d, st);
      assert (log' + [EdgeVisit(e)])[|log|..] == d + [EdgeVisit(e)];
    }
  }

  lemma WorkStepEdges(g: Adj, edges: set<Edge>, n: Node, i: nat, B: set<Node>, F: set<Edge>,
                      B': set<Node>, F': set<Edge>)
    requires WellFormed(g, edges) && n in g && i < |g[n]|
    requires forall e :: e in edges ==>
               (e in F' <==> e in F || e.from in B' - B - {n} || (e.from == n && e in g[n][..i]))
    ensures forall e :: e in edges ==>
              (e in F' + {g[n][i]} <==> e in F || e.from in B' - B - {n} || (e.from == n && e in g[n][..i + 1]))
    ensures g[n][i] in F' <==> g[n][i] in F
  {
    assert g[n][..i + 1] == g[n][..i] + [g[n][i]];
    assert g[n][i] !in g[n][..i];
  }

  lemma WorkStepCalls(g: Adj, edges: set<Edge>, e: Edge, B: set<Node>, F: set<Edge>, log: seq<Event>,
                      B': set<Node>, F': set<Edge>, log': seq<Event>)
    requires WorkCalls(g, edges, B, F, log, B', F', log') && F <= F'
    ensures WorkCalls(g, edges, B, F, log, B', F' + {e}, if e in F' then log' else log' + [EdgeVisit(e)])
  {
  }

  method PushNode(x: Node, st: Stack<Node>, tag: int, ghost g: Adj, ghost edges: set<Edge>,
                  ghost B: set<Node>, ghost F: set<Edge>)
    requires Stored(g) && Marks(g, edges, tag, B, F) && st.Valid()
    modifies st.data, st.data.data
    ensures Stored(g) && Marks(g, edges, tag, B, F)
    ensures st.Valid() && (st.data.data == old(st.data.data) || fresh(st.data.data))
    ensures st.Contents() == old(st.Contents()) + [x]
  {
    st.Push(x);
  }

  method BfsEdge(n: Node, i: nat, tag: int, rec: Recorder, st: Stack<Node>, ghost g: Adj, ghost edges: set<Edge>,
                 ghost B: set<Node>, ghost F: set<Edge>)
    requires WellFormed(g, edges) && Stored(g) && n in g && i < |g[n]| && Marks(g, edges, tag, B, F)
    requires st.Valid()
    modifies edges`travtag, rec`log, st.data, st.data.data
    ensures Stored(g) && Marks(g, edges, tag, B, F + {g[n][i]}) && OnlyTagged(g, edges, tag)
    ensures st.Valid() && (st.data.data == old(st.data.data) || fresh(st.data.data))
    ensures var e := g[n][i];
            && rec.log == (if e in F then old(rec.log) else old(rec.log) + [EdgeVisit(e)])
            && st.Contents() == if e in F || e.to in B then old(st.Contents()) else old(st.Contents()) + [e.to]
  {
    var e := OutEdge(n, i, g);
    if e.travtag != tag {
      ReportEdge(e, tag, rec, g, edges, B, F);
      if e.to.travtag != tag {
        PushNode(e.to, st, tag, g, edges, B, F + {e});
      }
    }
  }

  /** What the loop does with a popped node that is not tagged. */
  method BfsVisit(start: Node, n: Node, tag: int, rec: Recorder, st: Stack<Node>, ghost g: Adj, ghost edges: set<Edge>,
                  ghost B: set<Node>, ghost F: set<Edge>, ghost log: seq<Event>,
                  ghost B1: set<Node>, ghost F1: set<Edge>)
    returns (ghost F2: set<Edge>)
    requires WellFormed(g, edges) && Stored(g) && n in g && Marks(g, edges, tag, B1, F1) && st.Valid()
    requires n !in B1 && WorkDone(g, edges, start, B, F, log, B1, F1, rec.log, st.Contents() + [n])
    modifies n`travtag, edges`travtag, rec`log, st.data, st.data.data
    ensures Stored(g) && Marks(g, edges, tag, B1 + {n}, F2) && OnlyTagged(g, edges, tag)
    ensures st.Valid() && (st.data.data == old(st.data.data) || fresh(st.data.data))
    ensures WorkDone(g, edges, start, B, F, log, B1 + {n}, F2, rec.log, st.Contents())
    ensures F1 <= F2 && (F1 == F2 ==> st.Contents() == old(st.Contents()))
  {
    WorkStart(g, edges, start, n, B, F, log, B1, F1, rec.log, st.Contents());
    ReportNode(n, tag, rec, g, edges, B1, F1);
    F2 := BfsEdges(start, n, tag, rec, st, g, edges, B, F, log, B1 + {n}, F1);
  }

  method BfsStep(start: Node, n: Node, i: nat, tag: int, rec: Recorder, st: Stack<Node>,
                 ghost g: Adj, ghost edges: set<Edge>, ghost B: set<Node>, ghost F: set<Edge>, ghost log: seq<Event>,
                 ghost B2: set<Node>, ghost F2: set<Edge>)
    requires WellFormed(g, edges) && Stored(g) && Marks(g, edges, tag, B2, F2) && st.Valid()
    requires n in g && i < |g[n]|
    requires WorkPartial(g, edges, start, n, i, B, F, log, B2, F2, rec.log, st.Contents())
    modifies edges`travtag, rec`log, st.data, st.data.data
    ensures Stored(g) && Marks(g, edges, tag, B2, F2 + {g[n][i]}) && OnlyTagged(g, edges, tag)
    ensures st.Valid() && (st.data.data == old(st.data.data) || fresh(st.data.data))
    ensures WorkPartial(g, edges, start, n, i + 1, B, F, log, B2, F2 + {g[n][i]}, rec.log, st.Contents())
    ensures g[n][i] in F2 ==> st.Contents() == old(st.Contents())
  {
    WorkStep(g, edges, start, n, i, B, F, log, B2, F2, rec.log, st.Contents());
    BfsEdge(n, i, tag, rec, st, g, edges, B2, F2);
  }

  /** The loop over the out-edges of n. */
  method BfsEdges(start: Node, n: Node, tag: int, rec: Recorder, st: Stack<Node>, ghost g: Adj, ghost edges: set<Edge>,
                  ghost B: set<Node>, ghost F: set<Edge>, ghost log: seq<Event>,
                  ghost B2: set<Node>, ghost F1: set<Edge>)
    returns (ghost F2: set<Edge>)
    requires WellFormed(g, edges) && Stored(g) && Marks(g, edges, tag, B2, F1) && st.Valid()
    requires WorkPartial(g, edges, start, n, 0, B, F, log, B2, F1, rec.log, st.Contents())
    modifies edges`travtag, rec`log, st.data, st.data.data
    ensures Stored(g) && Marks(g, edges, tag, B2, F2) && OnlyTagged(g, edges, tag)
    ensures st.Valid() && (st.data.data == old(st.data.data) || fresh(st.data.data))
    ensures WorkDone(g, edges, start, B, F, log, B2, F2, rec.log, st.Contents())
    ensures F1 <= F2 && (F1 == F2 ==> st.Contents() == old(st.Contents()))
  {
    F2 := F1;
    var ec := OutCount(n, g);
    var i := 0;
    while i < ec
      invariant i <= ec == |g[n]|
      invariant Stored(g) && Marks(g, edges, tag, B2, F2) && OnlyTagged(g, edges, tag)
      invariant st.Valid() && (st.data.data == old(st.data.data) || fresh(st.data.data))
      invariant WorkPartial(g, edges, start, n, i, B, F, log, B2, F2, rec.log, st.Contents())
      invariant F1 <= F2 && (F1 == F2 ==> st.Contents() == old(st.Contents()))
    {
      BfsStep(start, n, i, tag, rec, st, g, edges, B, F, log, B2, F2);
      F2 := F2 + {g[n][i]};
      i := i + 1;
    }
    WorkFinish(g, edges, start, n, B, F, log, B2, F2, rec.log, st.Contents());
  }

  /** One round of the worklist loop; more is false when nothing was waiting. */
  method BfsRound(start: Node, tag: int, rec: Recorder, st: Stack<Node>, ghost g: Adj, ghost edges: set<Edge>,
                  ghost B: set<Node>, ghost F: set<Edge>, ghost log: seq<Event>,
                  ghost B1: set<Node>, ghost F1: set<Edge>)
    returns (more: bool, ghost B2: set<Node>, ghost F2: set<Edge>)
    requires WellFormed(g, edges) && Stored(g) && Marks(g, edges, tag, B1, F1) && st.Valid()
    requires WorkDone(g, edges, start, B, F, log, B1, F1, rec.log, st.Contents())
    modifies g.Keys`travtag, edges`travtag, rec`log, st.data, st.data.data
    ensures Stored(g) && Marks(g, edges, tag, B2, F2) && OnlyTagged(g, edges, tag)
    ensures st.Valid() && (st.data.data == old(st.data.data) || fresh(st.data.data))
    ensures WorkDone(g, edges, start, B, F, log, B2, F2, rec.log, st.Contents())
    ensures !more ==> st.Contents() == []
    ensures F1 <= F2 && (more && F1 == F2 ==> |st.Contents()| < |old(st.Contents())|)
  {
    more, B2, F2 := true, B1, F1;
    ghost var waiting := st.Contents();
    var top := PopNode(st, tag, g, edges, B1, F1);
    if top.None? {
      more := false;
      return;
    }
    var n := top.value;
    assert waiting == st.Contents() + [n] && n in waiting;
    if n.travtag == tag {
      WorkSkip(g, edges, start, n, B, F, log, B1, F1, rec.log, st.Contents());
    } else {
      F2 := BfsVisit(start, n, tag, rec, st, g, edges, B, F, log, B1, F1);
      B2 := B1 + {n};
    }
  }

  method PopNode(st: Stack<Node>, tag: int, ghost g: Adj, ghost edges: set<Edge>,
                 ghost B: set<Node>, ghost F: set<Edge>)
    returns (r: Option<Node>)
    requires Stored(g) && Marks(g, edges, tag, B, F) && st.Valid()
    modifies st.data
    ensures Stored(g) && Marks(g, edges, tag, B, F) && st.Valid() && st.data.data == old(st.data.data)
    ensures var q := old(st.Contents());
            if r.None? then q == [] && st.Contents() == [] else q == st.Contents() + [r.value]
  {
    r := st.Pop();
  }

  method TravBfs(start: Node, tag: int, rec: Recorder, ghost g: Adj, ghost edges: set<Edge>,
                 ghost B: set<Node>, ghost F: set<Edge>)
    returns (ghost B': set<Node>, ghost F': set<Edge>)
    requires WellFormed(g, edges) && Stored(g) && start in g && Marks(g, edges, tag, B, F)
    requires start.travtag != tag
    modifies g.Keys`travtag, edges`travtag, rec`log
    ensures Stored(g) && Marks(g, edges, tag, B', F') && OnlyTagged(g, edges, tag)
    ensures BfsResult(g, edges, start, B, F, old(rec.log), B', F', rec.log)
  {
    var st := new Stack<Node>(16);
    PushNode(start, st, tag, g, edges, B, F);
    WorkBegin(g, edges, start, B, F, rec.log);
    B', F' := BfsLoop(start, tag, rec, st, g, edges, B, F, rec.log);
    WorkEnd(g, edges, start, B, F, old(rec.log), B', F', rec.log);
  }

  method BfsLoop(start: Node, tag: int, rec: Recorder, st: Stack<Node>, ghost g: Adj, ghost edges: set<Edge>,
                 ghost B: set<Node>, ghost F: set<Edge>, ghost log: seq<Event>)
    returns (ghost B': set<Node>, ghost F': set<Edge>)
    requires WellFormed(g, edges) && Stored(g) && Marks(g, edges, tag, B, F) && st.Valid()
    requires WorkDone(g, edges, start, B, F, log, B, F, rec.log, st.Contents())
    modifies g.Keys`travtag, edges`travtag, rec`log, st.data, st.data.data
    ensures Stored(g) && Marks(g, edges, tag, B', F') && OnlyTagged(g, edges, tag)
    ensures WorkDone(g, edges, start, B, F, log, B', F', rec.log, [])
  {
    B', F' := B, F;
    var more := true;
    while more
      invariant Stored(g) && Marks(g, edges, tag, B', F') && OnlyTagged(g, edges, tag)
      invariant st.Valid() && (st.data.data == old(st.data.data) || fresh(st.data.data))
      invariant WorkDone(g, edges, start, B, F, log, B', F', rec.log, st.Contents())
      invariant !more ==> st.Contents() == []
      decreases more, edges - F', |st.Contents()|
    {
      more, B', F' := BfsRound(start, tag, rec, st, g, edges, B, F, log, B', F');
    }
  }

  method TravDfs(start: Node, tag: int, rec: Recorder, ghost g: Adj, ghost edges: set<Edge>,
                 ghost B: set<Node>, ghost F: set<Edge>)
    returns (ghost B': set<Node>, ghost F': set<Edge>)
    requires WellFormed(g, edges) && Stored(g) && start in g && Marks(g, edges, tag, B, F)
    requires start.travtag != tag
    modifies g.Keys`travtag, edges`travtag, rec`log
    ensures Stored(g) && Marks(g, edges, tag, B', F') && OnlyTagged(g, edges, tag)
    ensures DfsResult(g, edges, start, B, F, old(rec.log), B', F', rec.log)
  {
    ghost var d;
    B', F', d := DfsFrom(start, tag, rec, g, edges, B, F);
    DfsEnd(g, edges, start, B, F, old(rec.log), B', F', rec.log, d);
  }

  // --- what a traversal amounts to ---

  /** Depth first: with the nodes B and the edges F tagged beforehand, exactly the nodes
      that can be reached around B are visited, each once for every out-edge, and every
      untagged out-edge of theirs is reported once; and the calls come in depth-first order. */
  ghost predicate DfsResult(g: Adj, edges: set<Edge>, start: Node, B: set<Node>, F: set<Edge>, log: seq<Event>,
                            B': set<Node>, F': set<Edge>, log': seq<Event>)
  {
    && (forall x :: x in g ==> (x in B' <==> x in B || Reach(g, B, {}, start, x)))
    && (forall e :: e in edges ==> (e in F' <==> e in F || Reach(g, B, {}, start, e.from)))
    && (forall x :: x in g ==>
          Calls(log', NodeVisit(x)) == Calls(log, NodeVisit(x)) + if Reach(g, B, {}, start, x) then |g[x]| else 0)
    && (forall e :: e in edges ==>
          Calls(log', EdgeVisit(e))
          == Calls(log, EdgeVisit(e)) + if e !in F && Reach(g, B, {}, start, e.from) then 1 else 0)
    && log <= log' && DepthFirst(g, start, B, F, B' - B, log'[|log|..])
  }

  /** By worklist: exactly the nodes that can be reached around B and F are visited, each
      once, and every untagged out-edge of theirs is reported once; and the calls come in
      worklist order. */
  ghost predicate BfsResult(g: Adj, edges: set<Edge>, start: Node, B: set<Node>, F: set<Edge>, log: seq<Event>,
                            B': set<Node>, F': set<Edge>, log': seq<Event>)
  {
    && (forall x :: x in g ==> (x in B' <==> x in B || Reach(g, B, F, start, x)))
    && (forall e :: e in edges ==> (e in F' <==> e in F || Reach(g, B, F, start, e.from)))
    && (forall x :: x in g ==>
          Calls(log', NodeVisit(x)) == Calls(log, NodeVisit(x)) + if Reach(g, B, F, start, x) then 1 else 0)
    && (forall e :: e in edges ==>
          Calls(log', EdgeVisit(e))
          == Calls(log, EdgeVisit(e)) + if e !in F && Reach(g, B, F, start, e.from) then 1 else 0)
    && log <= log' && ByWorklist(g, start, B, F, B' - B, log'[|log|..])
  }

  lemma {:induction false} WalkAvoids(g: Adj, B: set<Node>, F: set<Edge>, a: Node, p: seq<nat>, b: Node)
    requires Walk(g, B, F, a, p, b)
    ensures b in g && b !in B
    decreases |p|
  {
    if p != [] {
      WalkAvoids(g, B, F, g[a][p[0]].to, p[1..], b);
    }
  }

  lemma ReachAvoids(g: Adj, B: set<Node>, F: set<Edge>, a: Node, b: Node)
    requires Reach(g, B, F, a, b)
    ensures b in g && b !in B
  {
    var p: seq<nat> :| Walk(g, B, F, a, p, b);
    WalkAvoids(g, B, F, a, p, b);
  }

  /** A set that is closed and all reached is what can be reached. */
  lemma ReachedIff(g: Adj, B: set<Node>, F: set<Edge>, start: Node, S: set<Node>)
    requires Closed(g, F, S, B + S) && Reached(g, B, F, start, S) && start in S
    ensures forall x :: x in g ==> (x in S <==> Reach(g, B, F, start, x))
  {
    ReachStays(g, B, F, S, start);
  }

  lemma DfsEnd(g: Adj, edges: set<Edge>, start: Node, B: set<Node>, F: set<Edge>, log: seq<Event>,
               B': set<Node>, F': set<Edge>, log': seq<Event>, d: seq<Event>)
    requires WellFormed(g, edges) && start !in B && F <= edges
    requires DfsVisit(g, edges, start, B, F, log, B', F', log', d)
    ensures DfsResult(g, edges, start, B, F, log, B', F', log')
  {
    assert log'[|log|..] == d;
    assert B + (B' - B) == B';
    ReachedIff(g, B, {}, start, B' - B);
  }

  lemma WorkEnd(g: Adj, edges: set<Edge>, start: Node, B: set<Node>, F: set<Edge>, log: seq<Event>,
                B': set<Node>, F': set<Edge>, log': seq<Event>)
    requires WellFormed(g, edges) && start !in B && F <= edges
    requires WorkDone(g, edges, start, B, F, log, B', F', log', [])
    ensures BfsResult(g, edges, start, B, F, log, B', F', log')
  {
    assert Added(log, log', |log|);
    assert B + (B' - B) == B';
    ReachedIff(g, B, F, start, B' - B);
  }

  // --- tags left over from earlier ---

  lemma {:induction false} WalkClean(g: Adj, B: set<Node>, F: set<Edge>, start: Node, a: Node, p: seq<nat>, b: Node)
    requires forall x :: x in g && Reach(g, {}, {}, start, x) ==>
               x !in B && forall i :: 0 <= i < |g[x]| ==> g[x][i] !in F
    requires Reach(g, {}, {}, start, a) && Walk(g, {}, {}, a, p, b)
    ensures Walk(g, B, F, a, p, b)
    decreases |p|
  {
    if p != [] {
      var next := g[a][p[0]].to;
      assert Walk(g, {}, {}, next, p[1..], b);
      ReachLast(g, {}, {}, start, a, p[0]);
      WalkClean(g, B, F, start, next, p[1..], b);
    }
  }

  lemma ReachClean(g: Adj, B: set<Node>, F: set<Edge>, start: Node, b: Node)
    requires forall x :: x in g && Reach(g, {}, {}, start, x) ==>
               x !in B && forall i :: 0 <= i < |g[x]| ==> g[x][i] !in F
    requires Reach(g, {}, {}, start, b)
    ensures Reach(g, B, F, start, b)
  {
    var p: seq<nat> :| Walk(g, {}, {}, start, p, b);
    ReachSelf(g, {}, {}, start);
    WalkClean(g, B, F, start, start, p, b);
  }

  /** Nothing that can be reached carries the tag beforehand, neither a node nor an edge. */
  ghost predicate NoneTagged(g: Adj, edges: set<Edge>, start: Node, B: set<Node>, F: set<Edge>) {
    && (forall x :: x in g && Reach(g, {}, {}, start, x) ==> x !in B)
    && (forall e :: e in edges && Reach(g, {}, {}, start, e.from) ==> e !in F)
  }

  /** Every node that can be reached is newly tagged and has been visited, and every
      out-edge of such a node has been reported once. */
  ghost predicate Complete(g: Adj, edges: set<Edge>, start: Node, B: set<Node>, log: seq<Event>, B': set<Node>,
                           log': seq<Event>, visits: Node -> nat)
  {
    && (forall x :: x in g && Reach(g, {}, {}, start, x) ==>
          x in B' - B && Calls(log', NodeVisit(x)) == Calls(log, NodeVisit(x)) + visits(x))
    && (forall e :: e in edges && Reach(g, {}, {}, start, e.from) ==>
          Calls(log', EdgeVisit(e)) == Calls(log, EdgeVisit(e)) + 1)
  }

  /** The depth-first traversal is complete exactly when nothing that can be reached carries
      the tag beforehand: the code only makes sure of the start node. */
  lemma DfsCompleteIff(g: Adj, edges: set<Edge>, start: Node, B: set<Node>, F: set<Edge>, log: seq<Event>,
                       B': set<Node>, F': set<Edge>, log': seq<Event>)
    requires WellFormed(g, edges) && start in g && DfsResult(g, edges, start, B, F, log, B', F', log')
    ensures Complete(g, edges, start, B, log, B', log', x => if x in g then |g[x]| else 0)
       <==> NoneTagged(g, edges, start, B, F)
  {
    if NoneTagged(g, edges, start, B, F) {
      forall x | x in g && Reach(g, {}, {}, start, x)
        ensures Reach(g, B, {}, start, x)
      {
        ReachClean(g, B, {}, start, x);
      }
    }
  }

  /** So is the worklist traversal, which visits each node once. */
  lemma BfsCompleteIff(g: Adj, edges: set<Edge>, start: Node, B: set<Node>, F: set<Edge>, log: seq<Event>,
                       B': set<Node>, F': set<Edge>, log': seq<Event>)
    requires WellFormed(g, edges) && start in g && BfsResult(g, edges, start, B, F, log, B', F', log')
    ensures Complete(g, edges, start, B, log, B', log', x => 1) <==> NoneTagged(g, edges, start, B, F)
  {
    if NoneTagged(g, edges, start, B, F) {
      forall x | x in g && Reach(g, {}, {}, start, x)
        ensures Reach(g, B, F, start, x)
      {
        ReachClean(g, B, F, start, x);
      }
    }
  }

  // --- edges follow their sources ---

  /** Every tagged edge has a tagged source. */
  ghost predicate Follows(edges: set<Edge>, B: set<Node>, F: set<Edge>) {
    forall e :: e in edges && e in F ==> e.from in B
  }

  lemma {:induction false} WalkFollows(g: Adj, edges: set<Edge>, B: set<Node>, F: set<Edge>,
                                       a: Node, p: seq<nat>, b: Node)
    requires WellFormed(g, edges) && Follows(edges, B, F) && Walk(g, B, {}, a, p, b)
    ensures Walk(g, B, F, a, p, b)
    decreases |p|
  {
    if p != [] {
      assert g[a][p[0]] in edges && g[a][p[0]].from == a;
      WalkFollows(g, edges, B, F, g[a][p[0]].to, p[1..], b);
    }
  }

  /** Then tagged edges hide nothing that tagged nodes do not hide. */
  lemma ReachFollows(g: Adj, edges: set<Edge>, B: set<Node>, F: set<Edge>, a: Node, b: Node)
    requires WellFormed(g, edges) && Follows(edges, B, F)
    ensures Reach(g, B, F, a, b) <==> Reach(g, B, {}, a, b)
  {
    if Reach(g, B, F, a, b) {
      ReachMono(g, B, B, F, {}, a, b);
    }
    if Reach(g, B, {}, a, b) {
      var p: seq<nat> :| Walk(g, B, {}, a, p, b);
      WalkFollows(g, edges, B, F, a, p, b);
    }
  }

  /** And both traversals tag the same nodes and edges and report the same edges, whatever
      tags are left over. */
  lemma SameTags(g: Adj, edges: set<Edge>, start: Node, B: set<Node>, F: set<Edge>, log: seq<Event>,
                 B1: set<Node>, F1: set<Edge>, log1: seq<Event>, B2: set<Node>, F2: set<Edge>, log2: seq<Event>)
    requires WellFormed(g, edges) && Follows(edges, B, F)
    requires B1 <= g.Keys && B2 <= g.Keys && F1 <= edges && F2 <= edges
    requires DfsResult(g, edges, start, B, F, log, B1, F1, log1)
    requires BfsResult(g, edges, start, B, F, log, B2, F2, log2)
    ensures B1 == B2 && F1 == F2
    ensures forall e :: e in edges ==> Calls(log1, EdgeVisit(e)) == Calls(log2, EdgeVisit(e))
  {
    forall x | x in g
      ensures Reach(g, B, F, start, x) <==> Reach(g, B, {}, start, x)
    {
      ReachFollows(g, edges, B, F, start, x);
    }
    assert forall x :: x in g ==> (x in B1 <==> x in B2);
    assert forall e :: e in edges ==> (e in F1 <==> e in F2);
  }

  /** One edge, whose target carries the tag already: the target is never visited. */
  lemma StaleTagHidesNode(a: Node, x: Node, e: Edge)
    requires a != x && e.from == a && e.to == x
    ensures var g: Adj := map[a := [e], x := []];
            WellFormed(g, {e}) && Reach(g, {}, {}, a, x) && !Reach(g, {x}, {}, a, x)
  {
    var g: Adj := map[a := [e], x := []];
    ReachSelf(g, {}, {}, x);
    ReachFirst(g, {}, {}, a, 0, x);
    if Reach(g, {x}, {}, a, x) {
      ReachAvoids(g, {x}, {}, a, x);
    }
  }

  // --- traverse() ---

  const TRAV_BFS: int := 0
  const TRAV_DFS: int := 1

  ghost function OutMap(gr: Graph): Adj
    reads gr, gr.nodes
  {
    map n | n in gr.nodes :: n.outs
  }

  ghost function TaggedNodes(gr: Graph, tag: int): set<Node>
    reads gr, gr.nodes
  {
    set n | n in gr.nodes && n.travtag == tag
  }

  ghost function TaggedEdges(gr: Graph, tag: int): set<Edge>
    reads gr, gr.live
  {
    set e | e in gr.live && e.travtag == tag
  }

  lemma GraphFits(gr: Graph)
    requires gr.Valid()
    ensures WellFormed(OutMap(gr), gr.live) && Stored(OutMap(gr))
  {
    forall n | n in gr.nodes
      ensures Holds(n.out, n.outs)
    {
      assert Holds(Arr(n, true), List(n, true));
    }
  }

  /** Nothing a traversal changes matters to the arrays of the graph. */
  twostate lemma TagsKeepGraph(gr: Graph)
    requires old(gr.Valid()) && gr.nodes == old(gr.nodes) && gr.live == old(gr.live)
    requires forall n, d :: n in gr.nodes ==>
               && Arr(n, d) == old(Arr(n, d)) && List(n, d) == old(List(n, d))
               && (Arr(n, d) != null ==> unchanged(Arr(n, d)) && unchanged(Arr(n, d).data))
    ensures gr.Valid()
  {
    forall n, d | n in gr.nodes
      ensures Holds(Arr(n, d), List(n, d))
    {
      assert old(Holds(Arr(n, d), List(n, d)));
    }
    forall n, m, d, d' | n in gr.nodes && m in gr.nodes && (n != m || d != d')
      ensures Apart(Arr(n, d), Arr(m, d'))
    {
      assert old(Apart(Arr(n, d), Arr(m, d')));
    }
    forall n | n in gr.nodes
      ensures n.outs == old(n.outs) && n.ins == old(n.ins)
    {
      assert List(n, true) == old(List(n, true)) && List(n, false) == old(List(n, false));
    }
  }

  /** In a graph whose edges carry no tag or that of their source, this is so for every
      tag but 0. */
  lemma TagsFollowMeans(gr: Graph, tag: int)
    requires gr.Valid() && gr.TagsFollow() && tag != 0
    ensures Follows(gr.live, TaggedNodes(gr, tag), TaggedEdges(gr, tag))
  {
  }

  /** A visit tags a node and then all of its out-edges, and so keeps it that way. */
  twostate lemma TagsStillFollow(gr: Graph, new tag: int)
    requires old(gr.Valid()) && old(gr.TagsFollow()) && tag != 0 && gr.nodes == old(gr.nodes) && gr.live == old(gr.live)
    requires forall n :: n in gr.nodes ==> n.travtag == tag || n.travtag == old(n.travtag)
    requires forall e :: e in gr.live ==> e.travtag == tag || e.travtag == old(e.travtag)
    requires forall e :: e in gr.live && e.from.travtag == tag && old(e.from.travtag) != tag ==> e.travtag == tag
    requires forall e :: e in gr.live && e.travtag == tag && old(e.travtag) != tag ==> e.from.travtag == tag
    ensures gr.TagsFollow()
  {
  }

  method TraverseDfs(gr: Graph, start: Node, tag: int, rec: Recorder)
    requires gr.Valid() && start in gr.nodes && start.travtag != tag && tag != 0
    modifies gr.nodes`travtag, gr.live`travtag, rec`log
    ensures gr.Valid() && OutMap(gr) == old(OutMap(gr)) && gr.live == old(gr.live)
    ensures DfsResult(OutMap(gr), gr.live, start, old(TaggedNodes(gr, tag)), old(TaggedEdges(gr, tag)), old(rec.log),
                      TaggedNodes(gr, tag), TaggedEdges(gr, tag), rec.log)
    ensures OnlyTagged(old(OutMap(gr)), old(gr.live), tag) && (old(gr.TagsFollow()) ==> gr.TagsFollow())
  {
    GraphFits(gr);
    ghost var g, edges := OutMap(gr), gr.live;
    ghost var B', F' := TravDfs(start, tag, rec, g, edges, TaggedNodes(gr, tag), TaggedEdges(gr, tag));
    TagsKeepGraph(gr);
    assert OutMap(gr) == g && TaggedNodes(gr, tag) == B' && TaggedEdges(gr, tag) == F';
    if old(gr.TagsFollow()) {
      TagsStillFollow(gr, tag);
    }
  }

  method TraverseBfs(gr: Graph, start: Node, tag: int, rec: Recorder)
    requires gr.Valid() && start in gr.nodes && start.travtag != tag && tag != 0
    modifies gr.nodes`travtag, gr.live`travtag, rec`log
    ensures gr.Valid() && OutMap(gr) == old(OutMap(gr)) && gr.live == old(gr.live)
    ensures BfsResult(OutMap(gr), gr.live, start, old(TaggedNodes(gr, tag)), old(TaggedEdges(gr, tag)), old(rec.log),
                      TaggedNodes(gr, tag), TaggedEdges(gr, tag), rec.log)
    ensures OnlyTagged(old(OutMap(gr)), old(gr.live), tag) && (old(gr.TagsFollow()) ==> gr.TagsFollow())
  {
    GraphFits(gr);
    ghost var g, edges := OutMap(gr), gr.live;
    ghost var B', F' := TravBfs(start, tag, rec, g, edges, TaggedNodes(gr, tag), TaggedEdges(gr, tag));
    TagsKeepGraph(gr);
    assert OutMap(gr) == g && TaggedNodes(gr, tag) == B' && TaggedEdges(gr, tag) == F';
    if old(gr.TagsFollow()) {
      TagsStillFollow(gr, tag);
    }
  }

  /** Nodes and edges that are not visited keep the tags they have. */
  method Traverse(gr: Graph, start: Node, travtype: int, tag: int, rec: Recorder)
    requires gr.Valid() && start in gr.nodes && tag != 0 && start.travtag != tag
    modifies gr.nodes`travtag, gr.live`travtag, rec`log
    ensures gr.Valid() && OutMap(gr) == old(OutMap(gr)) && gr.live == old(gr.live)
    ensures OnlyTagged(old(OutMap(gr)), old(gr.live), tag) && (old(gr.TagsFollow()) ==> gr.TagsFollow())
    ensures travtype == TRAV_DFS ==>
              DfsResult(OutMap(gr), gr.live, start, old(TaggedNodes(gr, tag)), old(TaggedEdges(gr, tag)), old(rec.log),
                        TaggedNodes(gr, tag), TaggedEdges(gr, tag), rec.log)
    ensures travtype == TRAV_BFS ==>
              BfsResult(OutMap(gr), gr.live, start, old(TaggedNodes(gr, tag)), old(TaggedEdges(gr, tag)), old(rec.log),
                        TaggedNodes(gr, tag), TaggedEdges(gr, tag), rec.log)
    ensures travtype != TRAV_DFS && travtype != TRAV_BFS ==>
              && rec.log == old(rec.log)
              && TaggedNodes(gr, tag) == old(TaggedNodes(gr, tag)) && TaggedEdges(gr, tag) == old(TaggedEdges(gr, tag))
  {
    if travtype == TRAV_DFS {
      TraverseDfs(gr, start, tag, rec);
    } else if travtype == TRAV_BFS {
      TraverseBfs(gr, start, tag, rec);
    }
  }

  // --- whole runs, traversals included ---

  datatype Act = Change(op: Graphs.Op) | Visit(start: nat, travtype: int)

  function Made(m: Multigraph, acts: seq<Act>): Multigraph
    decreases |acts|
  {
    if acts == [] then m
    else Made(if acts[0].Change? then Graphs.Step(m, acts[0].op) else m, acts[1..])
  }

  predicate CanAct(m: Multigraph, acts: seq<Act>)
    decreases |acts|
  {
    acts != [] ==>
      match acts[0]
      case Change(op) => Allowed(m, op) && CanAct(Graphs.Step(m, op), acts[1..])
      case Visit(start, _) => start < m.size && CanAct(m, acts[1..])
  }

  /** Drawing goes on until this holds. */
  predicate Drawable(tag: int, used: int) {
    tag != used && tag != 0
  }

  /** A traversal with any tag that can be drawn. */
  method PerformVisit(gr: Graph, start: Node, travtype: int, rec: Recorder)
    requires gr.Valid() && gr.TagsFollow() && start in gr.nodes
    modifies gr.nodes`travtag, gr.live`travtag, rec`log
    ensures gr.Valid() && gr.TagsFollow() && gr.Objects() == old(gr.Objects())
  {
    assert Drawable(start.travtag + 1, start.travtag) || Drawable(start.travtag + 2, start.travtag);
    var tag: int :| Drawable(tag, start.travtag);
    assert Drawable(tag, start.travtag);
    Traverse(gr, start, travtype, tag, rec);
    assert forall n :: n in gr.nodes ==> NodeObjs(n) == old(NodeObjs(n));
  }

  lemma NodesAmongObjects(gr: Graph)
    ensures forall n :: n in gr.nodes ==> n in gr.Objects()
  {
    forall n | n in gr.nodes
      ensures n in gr.Objects()
    {
      ArraysAmongObjects(gr, n);
    }
  }

  /** Over any run of allocations, links, drops and traversals the graph stays consistent
      and its live edges those of the multigraph, and every edge carries no tag or that of
      its source: whatever is left over, both traversals from here tag the same. */
  method Drive(acts: seq<Act>, rec: Recorder) returns (gr: Graph, ns: seq<Node>, es: seq<Edge>)
    requires CanAct(Multigraph(0, [], {}), acts)
    modifies rec`log
    ensures gr.Valid() && gr.TagsFollow()
    ensures Named(gr.nodes, gr.live, ns, es, Made(Multigraph(0, [], {}), acts))
    ensures forall tag :: tag != 0 ==> Follows(gr.live, TaggedNodes(gr, tag), TaggedEdges(gr, tag))
  {
    gr := new Graph();
    ns, es := [], [];
    ghost var m0 := Multigraph(0, [], {});
    ghost var m := m0;
    var i := 0;
    while i < |acts|
      invariant i <= |acts| && gr.Valid() && gr.TagsFollow() && forall o :: o in gr.Objects() ==> fresh(o)
      invariant Named(gr.nodes, gr.live, ns, es, m)
      invariant CanAct(m, acts[i..]) && Made(m, acts[i..]) == Made(m0, acts)
    {
      assert acts[i..][0] == acts[i] && acts[i..][1..] == acts[i + 1..];
      match acts[i] {
        case Change(op) =>
          ns, es := Graphs.Perform(gr, op, ns, es, m);
          m := Graphs.Step(m, op);
        case Visit(start, travtype) =>
          NodesAmongObjects(gr);
          PerformVisit(gr, ns[start], travtype, rec);
      }
      i := i + 1;
    }
    forall tag | tag != 0
      ensures Follows(gr.live, TaggedNodes(gr, tag), TaggedEdges(gr, tag))
    {
      TagsFollowMeans(gr, tag);
    }
  }
}
