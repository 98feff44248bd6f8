/** The order in which a traversal of a graph makes its callbacks (libsrsbsns/graph.c),
    said of the list of the calls alone. */
module CallOrders {
  import opened Graphs

  type Adj = map<Node, seq<Edge>>

  datatype Event = NodeVisit(n: Node) | EdgeVisit(e: Edge)

  ghost function Calls(log: seq<Event>, ev: Event): nat {
    multiset(log)[ev]
  }

  /** The node a call is about: the one told, or the source of the edge told. */
  ghost function About(ev: Event): Node {
    match ev
    case NodeVisit(n) => n
    case EdgeVisit(e) => e.from
  }

  ghost predicate Within(d: seq<Event>, S: set<Node>) {
    forall p :: 0 <= p < |d| ==> About(d[p]) in S
  }

  /** One of the first k calls is about x. */
  ghost predicate Seen(d: seq<Event>, x: Node, k: int) {
    exists p :: 0 <= p < k && p < |d| && About(d[p]) == x
  }

  /** The calls about x, in order. */
  ghost function Of(d: seq<Event>, x: Node): seq<Event> {
    if d == [] then []
    else if About(d[|d| - 1]) == x then Of(d[..|d| - 1], x) + [d[|d| - 1]]
    else Of(d[..|d| - 1], x)
  }

  lemma {:induction false} OfAppend(a: seq<Event>, b: seq<Event>, x: Node)
    ensures Of(a + b, x) == Of(a, x) + Of(b, x)
  {
    if b == [] {
      assert a + b == a;
    } else {
      var last := b[|b| - 1];
      assert (a + b)[..|a + b| - 1] == a + b[..|b| - 1];
      OfAppend(a, b[..|b| - 1], x);
    }
  }

  lemma {:induction false} OfNone(d: seq<Event>, x: Node)
    requires forall p :: 0 <= p < |d| ==> About(d[p]) != x
    ensures Of(d, x) == []
  {
    if d != [] {
      OfNone(d[..|d| - 1], x);
    }
  }

  lemma {:induction false} OfSeen(d: seq<Event>, x: Node)
    requires Of(d, x) != []
    ensures Seen(d, x, |d|)
  {
    if About(d[|d| - 1]) != x {
      OfSeen(d[..|d| - 1], x);
    }
  }

  lemma SeenLonger(a: seq<Event>, b: seq<Event>, x: Node, k: int, m: int)
    requires Seen(a, x, k) && k <= m
    ensures Seen(a + b, x, m)
  {
    var p :| 0 <= p < k && p < |a| && About(a[p]) == x;
    assert (a + b)[p] == a[p];
  }

  lemma SeenBefore(a: seq<Event>, b: seq<Event>, x: Node, k: int)
    requires k <= |a| && Seen(a + b, x, k)
    ensures Seen(a, x, k)
  {
    var p :| 0 <= p < k && p < |a + b| && About((a + b)[p]) == x;
    assert (a + b)[p] == a[p];
  }

  lemma SeenLater(a: seq<Event>, b: seq<Event>, x: Node, k: int)
    requires Seen(b, x, k)
    ensures Seen(a + b, x, |a| + k)
  {
    var p :| 0 <= p < k && p < |b| && About(b[p]) == x;
    assert (a + b)[|a| + p] == b[p];
  }

  // --- depth first ---

  /** What is told in the round for the out-edge e of x: the edge, unless it carries the
      tag, and then x. */
  ghost function Round(F: set<Edge>, x: Node, e: Edge): seq<Event> {
    if e in F then [NodeVisit(x)] else [EdgeVisit(e), NodeVisit(x)]
  }

  ghost function Rounds(F: set<Edge>, x: Node, es: seq<Edge>): seq<Event> {
    if es == [] then [] else Rounds(F, x, es[..|es| - 1]) + Round(F, x, es[|es| - 1])
  }

  /** The call at position p ends the round of an out-edge that leads to y. */
  ghost predicate LeadsTo(g: Adj, d: seq<Event>, p: int, y: Node) {
    && 0 <= p < |d| && d[p].NodeVisit? && d[p].n in g
    && var i := Calls(d[..p], d[p]); i < |g[d[p].n]| && g[d[p].n][i].to == y
  }

  /** The first call about any node but start comes directly after the call that ends the
      round of an edge leading to it. */
  ghost predicate Entered(g: Adj, start: Node, d: seq<Event>) {
    forall q :: 0 <= q < |d| ==> EnteredAt(g, start, d, q)
  }

  ghost predicate EnteredAt(g: Adj, start: Node, d: seq<Event>, q: nat)
    requires q < |d|
  {
    || Seen(d, About(d[q]), q)
    || if q == 0 then About(d[q]) == start else LeadsTo(g, d, q - 1, About(d[q]))
  }

  /** Where an edge leads, the calls begin directly after its round, unless they have begun
      before; or there are none to make. */
  ghost predicate Prompt(g: Adj, B: set<Node>, d: seq<Event>) {
    forall p, y :: LeadsTo(g, d, p, y) && y in g && y !in B && g[y] != [] ==> Seen(d, y, p + 2)
  }

  ghost predicate Crossing(d: seq<Event>, p: int, q: int, r: int, s: int) {
    0 <= p < q < r < s < |d| && About(d[p]) == About(d[r]) && About(d[q]) == About(d[s])
  }

  /** The calls about two nodes never interleave: those about one of them all lie between
      two calls about the other, or before them, or after them. */
  ghost predicate Nested(d: seq<Event>) {
    forall p, q, r, s :: Crossing(d, p, q, r, s) ==> About(d[p]) == About(d[q])
  }

  /** d is what visiting start tells: in rounds for every node of S, which are the nodes
      newly visited, and depth first. */
  ghost predicate DepthFirst(g: Adj, start: Node, B: set<Node>, F: set<Edge>, S: set<Node>, d: seq<Event>) {
    && Within(d, S)
    && (forall x :: x in S && x in g ==> Of(d, x) == Rounds(F, x, g[x]))
    && Entered(g, start, d) && Prompt(g, B, d) && Nested(d)
  }

  /** The same after i of the out-edges of start have been dealt with. */
  ghost predicate DepthFirstTo(g: Adj, start: Node, i: nat, B: set<Node>, F: set<Edge>, S: set<Node>, d: seq<Event>) {
    && start in g && i <= |g[start]| && Within(d, S) && Calls(d, NodeVisit(start)) == i
    && (forall x :: x in S && x in g ==> Of(d, x) == Rounds(F, x, if x == start then g[x][..i] else g[x]))
    && (d != [] ==> About(d[0]) == start)
    && Entered(g, start, d) && Prompt(g, B, d) && Nested(d)
  }

  lemma LeadsToBefore(g: Adj, a: seq<Event>, b: seq<Event>, p: nat, y: Node)
    requires p < |a|
    ensures LeadsTo(g, a + b, p, y) <==> LeadsTo(g, a, p, y)
  {
    assert (a + b)[p] == a[p] && (a + b)[..p] == a[..p];
  }

  lemma LeadsToLater(g: Adj, a: seq<Event>, b: seq<Event>, p: nat, y: Node)
    requires p < |b| && forall k :: 0 <= k < |a| ==> About(a[k]) != About(b[p])
    ensures LeadsTo(g, a + b, |a| + p, y) <==> LeadsTo(g, b, p, y)
  {
    assert (a + b)[|a| + p] == b[p] && (a + b)[..|a| + p] == a + b[..p];
    assert b[p] !in a;
  }

  /** A visit that is entered at the end of what has been told so far. */
  lemma EnteredJoin(g: Adj, start: Node, m: Node, a: seq<Event>, b: seq<Event>, A: set<Node>, V: set<Node>)
    requires Entered(g, start, a) && Entered(g, m, b) && Within(a, A) && Within(b, V) && A !! V
    requires LeadsTo(g, a, |a| - 1, m)
    ensures Entered(g, start, a + b)
  {
    forall q | 0 <= q < |a + b|
      ensures EnteredAt(g, start, a + b, q)
    {
      if q < |a| {
        EnteredBefore(g, start, a, b, q);
      } else {
        EnteredLater(g, start, m, a, b, A, V, q - |a|);
      }
    }
  }

  lemma EnteredBefore(g: Adj, start: Node, a: seq<Event>, b: seq<Event>, q: nat)
    requires Entered(g, start, a) && q < |a|
    ensures EnteredAt(g, start, a + b, q)
  {
    assert EnteredAt(g, start, a, q) && (a + b)[q] == a[q];
    if Seen(a, About(a[q]), q) {
      SeenLonger(a, b, About(a[q]), q, q);
    } else if q > 0 {
      LeadsToBefore(g, a, b, q - 1, About(a[q]));
    }
  }

  lemma EnteredLater(g: Adj, start: Node, m: Node, a: seq<Event>, b: seq<Event>, A: set<Node>, V: set<Node>, k: nat)
    requires Entered(g, m, b) && Within(a, A) && Within(b, V) && A !! V && LeadsTo(g, a, |a| - 1, m)
    requires k < |b|
    ensures EnteredAt(g, start, a + b, |a| + k)
  {
    assert EnteredAt(g, m, b, k) && (a + b)[|a| + k] == b[k];
    if Seen(b, About(b[k]), k) {
      SeenLater(a, b, About(b[k]), k);
    } else if k == 0 {
      LeadsToBefore(g, a, b, |a| - 1, m);
    } else {
      LeadsToLater(g, a, b, k - 1, About(b[k]));
    }
  }

  lemma PromptJoin(g: Adj, m: Node, B: set<Node>, B1: set<Node>, a: seq<Event>, b: seq<Event>,
                   A: set<Node>, V: set<Node>)
    requires Within(a, A) && Within(b, V) && A !! V && a != []
    requires forall p, y :: LeadsTo(g, a, p, y) && p < |a| - 1 && y in g && y !in B && g[y] != [] ==> Seen(a, y, p + 2)
    requires LeadsTo(g, a, |a| - 1, m)
    requires m in g && m !in B && g[m] != [] ==> Seen(a + b, m, |a| + 1)
    requires Prompt(g, B1, b)
    requires forall y :: y in g && y in B1 && y !in B && g[y] != [] ==> Seen(a, y, |a|)
    ensures Prompt(g, B, a + b)
  {
    var d := a + b;
    forall p, y | LeadsTo(g, d, p, y) && y in g && y !in B && g[y] != []
      ensures Seen(d, y, p + 2)
    {
      if p < |a| {
        LeadsToBefore(g, a, b, p, y);
        if p < |a| - 1 {
          SeenLonger(a, b, y, p + 2, p + 2);
        }
      } else if y in B1 {
        SeenLonger(a, b, y, |a|, p + 2);
      } else {
        LeadsToLater(g, a, b, p - |a|, y);
        SeenLater(a, b, y, p - |a| + 2);
      }
    }
  }

  lemma NestedJoin(a: seq<Event>, b: seq<Event>, A: set<Node>, V: set<Node>)
    requires Nested(a) && Nested(b) && Within(a, A) && Within(b, V) && A !! V
    ensures Nested(a + b)
  {
    var d := a + b;
    assert forall k :: 0 <= k < |d| ==> About(d[k]) in if k < |a| then A else V;
    forall p, q, r, s | Crossing(d, p, q, r, s)
      ensures About(d[p]) == About(d[q])
    {
      if s < |a| {
        assert Crossing(a, p, q, r, s);
      } else if p >= |a| {
        assert Crossing(b, p - |a|, q - |a|, r - |a|, s - |a|);
      }
    }
  }

  // --- the loop over the out-edges of start ---

  lemma DepthFirstStart(g: Adj, start: Node, B: set<Node>, F: set<Edge>)
    requires start in g
    ensures DepthFirstTo(g, start, 0, B, F, {start}, [])
  {
    assert g[start][..0] == [];
  }

  lemma DepthFirstFinish(g: Adj, start: Node, B: set<Node>, F: set<Edge>, S: set<Node>, d: seq<Event>)
    requires start in g && DepthFirstTo(g, start, |g[start]|, B, F, S, d)
    ensures DepthFirst(g, start, B, F, S, d)
  {
    assert g[start][..|g[start]|] == g[start];
  }

  /** One more call about the node that began. */
  lemma OneMore(g: Adj, start: Node, d: seq<Event>, ev: Event)
    requires Entered(g, start, d) && Nested(d) && (d != [] ==> About(d[0]) == start) && About(ev) == start
    ensures Entered(g, start, d + [ev]) && Nested(d + [ev]) && About((d + [ev])[0]) == start
  {
    var a := d + [ev];
    forall q | 0 <= q < |a|
      ensures EnteredAt(g, start, a, q)
    {
      if q < |d| {
        EnteredBefore(g, start, d, [ev], q);
      } else if q > 0 {
        assert About(a[0]) == start;
      }
    }
    forall p, q, r, s | Crossing(a, p, q, r, s)
      ensures About(a[p]) == About(a[q])
    {
      if s < |d| {
        assert Crossing(d, p, q, r, s);
      } else if About(d[p]) != start {
        assert Crossing(d, 0, p, q, r);
      }
    }
  }

  lemma RoundMore(g: Adj, start: Node, F: set<Edge>, d: seq<Event>, e: Edge)
    requires Entered(g, start, d) && Nested(d) && (d != [] ==> About(d[0]) == start) && e.from == start
    ensures var a := d + Round(F, start, e);
            Entered(g, start, a) && Nested(a) && About(a[0]) == start
  {
    if e in F {
      OneMore(g, start, d, NodeVisit(start));
    } else {
      OneMore(g, start, d, EdgeVisit(e));
      OneMore(g, start, d + [EdgeVisit(e)], NodeVisit(start));
      assert d + [EdgeVisit(e)] + [NodeVisit(start)] == d + Round(F, start, e);
    }
  }

  lemma RoundLeadsTo(g: Adj, start: Node, i: nat, F: set<Edge>, d: seq<Event>)
    requires start in g && i < |g[start]| && Calls(d, NodeVisit(start)) == i
    ensures var a := d + Round(F, start, g[start][i]);
            LeadsTo(g, a, |a| - 1, g[start][i].to) && Calls(a, NodeVisit(start)) == i + 1
  {
    var e := g[start][i];
    var a := d + Round(F, start, e);
    assert a[..|a| - 1] == if e in F then d else d + [EdgeVisit(e)];
  }

  /** Nothing is due before the end of the round but what was due already. */
  lemma RoundPrompt(g: Adj, B: set<Node>, start: Node, F: set<Edge>, d: seq<Event>, e: Edge)
    requires Prompt(g, B, d)
    ensures var a := d + Round(F, start, e);
            forall p, y :: LeadsTo(g, a, p, y) && p < |a| - 1 && y in g && y !in B && g[y] != [] ==> Seen(a, y, p + 2)
  {
    var b := Round(F, start, e);
    var a := d + b;
    assert e !in F ==> a[|d|] == EdgeVisit(e);
    forall p, y | LeadsTo(g, a, p, y) && p < |a| - 1 && y in g && y !in B && g[y] != []
      ensures Seen(a, y, p + 2)
    {
      if p < |d| {
        LeadsToBefore(g, d, b, p, y);
        SeenLonger(d, b, y, p + 2, p + 2);
      }
    }
  }

  lemma {:induction false} OfAll(d: seq<Event>, x: Node)
    requires forall p :: 0 <= p < |d| ==> About(d[p]) == x
    ensures Of(d, x) == d
  {
    if d != [] {
      OfAll(d[..|d| - 1], x);
    }
  }

  lemma {:induction false} RoundsAgree(F: set<Edge>, H: set<Edge>, x: Node, es: seq<Edge>)
    requires forall i :: 0 <= i < |es| ==> (es[i] in F <==> es[i] in H)
    ensures Rounds(F, x, es) == Rounds(H, x, es)
  {
    if es != [] {
      RoundsAgree(F, H, x, es[..|es| - 1]);
    }
  }

  lemma OfOutside(d: seq<Event>, S: set<Node>, x: Node)
    requires Within(d, S) && x !in S
    ensures Of(d, x) == []
  {
    OfNone(d, x);
  }

  lemma OfThree(d: seq<Event>, t: seq<Event>, b: seq<Event>, x: Node)
    ensures Of(d + t + b, x) == Of(d, x) + Of(t, x) + Of(b, x)
  {
    OfAppend(d + t, b, x);
    OfAppend(d, t, x);
  }

  lemma AboutRound(start: Node, F: set<Edge>, e: Edge)
    requires e.from == start
    ensures Within(Round(F, start, e), {start})
  {
  }

  lemma WithinJoin(a: seq<Event>, b: seq<Event>, A: set<Node>, V: set<Node>)
    requires Within(a, A) && Within(b, V)
    ensures Within(a + b, A + V)
  {
    var d := a + b;
    forall p | 0 <= p < |d|
      ensures About(d[p]) in A + V
    {
      assert d[p] == if p < |a| then a[p] else b[p - |a|];
    }
  }

  lemma RoundWithin(start: Node, F: set<Edge>, S: set<Node>, d: seq<Event>, e: Edge)
    requires Within(d, S) && start in S && e.from == start
    ensures Within(d + Round(F, start, e), S)
  {
    AboutRound(start, F, e);
    WithinJoin(d, Round(F, start, e), S, {start});
    assert S + {start} == S;
  }

  /** What is told about start grows by the round. */
  lemma RoundsHere(start: Node, F: set<Edge>, V: set<Node>, d: seq<Event>, b: seq<Event>, es: seq<Edge>, i: nat)
    requires i < |es| && es[i].from == start && Of(d, start) == Rounds(F, start, es[..i])
    requires Within(b, V) && start !in V
    ensures Of(d + Round(F, start, es[i]) + b, start) == Rounds(F, start, es[..i + 1])
  {
    var t := Round(F, start, es[i]);
    OfThree(d, t, b, start);
    AboutRound(start, F, es[i]);
    OfAll(t, start);
    OfOutside(b, V, start);
    RoundsOne(F, start, es, i);
  }

  lemma RoundsOne(F: set<Edge>, x: Node, es: seq<Edge>, i: nat)
    requires i < |es|
    ensures Rounds(F, x, es[..i + 1]) == Rounds(F, x, es[..i]) + Round(F, x, es[i])
  {
    assert es[..i + 1][..i] == es[..i];
  }

  /** What is told about the other nodes is what was told before and in the visit. */
  lemma RoundsElsewhere(start: Node, S: set<Node>, V: set<Node>, d: seq<Event>, t: seq<Event>, b: seq<Event>, x: Node)
    requires Within(d, S) && Within(t, {start}) && Within(b, V) && S !! V && x != start
    ensures x in S ==> Of(d + t + b, x) == Of(d, x)
    ensures x in V ==> Of(d + t + b, x) == Of(b, x)
  {
    OfThree(d, t, b, x);
    OfOutside(t, {start}, x);
    if x in S {
      OfOutside(b, V, x);
    } else if x in V {
      OfOutside(d, S, x);
    }
  }

  lemma AllSeen(g: Adj, start: Node, i: nat, B: set<Node>, F: set<Edge>, S: set<Node>, d: seq<Event>, b: seq<Event>,
                y: Node)
    requires DepthFirstTo(g, start, i, B, F, S, d) && y in S && y in g && g[y] != []
    requires b != [] && About((d + b)[0]) == start
    ensures Seen(d + b, y, |d + b|)
  {
    if y != start {
      OfSeen(d, y);
      SeenLonger(d, b, y, |d|, |d + b|);
    }
  }

  /** The calls once the round for the next out-edge has been told and its target visited. */
  lemma DepthFirstStep(g: Adj, start: Node, i: nat, B: set<Node>, F: set<Edge>, H: set<Edge>,
                       S: set<Node>, V: set<Node>, d: seq<Event>, b: seq<Event>)
    requires DepthFirstTo(g, start, i, B, F, S, d) && i < |g[start]| && start in S && g[start][i].from == start
    requires DepthFirst(g, g[start][i].to, B + S, H, V, b) && S !! V && V !! B && g[start][i].to in B + S + V
    requires forall x, j :: x in V && x in g && 0 <= j < |g[x]| ==> (g[x][j] in F <==> g[x][j] in H)
    ensures DepthFirstTo(g, start, i + 1, B, F, S + V, d + Round(F, start, g[start][i]) + b)
  {
    var e := g[start][i];
    var t := Round(F, start, e);
    var a := d + t;
    RoundMore(g, start, F, d, e);
    RoundLeadsTo(g, start, i, F, d);
    RoundWithin(start, F, S, d, e);
    WithinJoin(a, b, S, V);
    EnteredJoin(g, start, e.to, a, b, S, V);
    NestedJoin(a, b, S, V);
    StepRounds(g, start, i, B, F, H, S, V, d, b);
    StepPrompt(g, start, i, B, F, H, S, V, d, b);
    StepCount(start, V, a, b);
  }

  lemma StepRounds(g: Adj, start: Node, i: nat, B: set<Node>, F: set<Edge>, H: set<Edge>, S: set<Node>, V: set<Node>,
                   d: seq<Event>, b: seq<Event>)
    requires DepthFirstTo(g, start, i, B, F, S, d) && i < |g[start]| && start in S && g[start][i].from == start
    requires DepthFirst(g, g[start][i].to, B + S, H, V, b) && S !! V
    requires forall x, j :: x in V && x in g && 0 <= j < |g[x]| ==> (g[x][j] in F <==> g[x][j] in H)
    ensures forall x :: x in S + V && x in g ==>
              Of(d + Round(F, start, g[start][i]) + b, x) == Rounds(F, x, if x == start then g[x][..i + 1] else g[x])
  {
    var t := Round(F, start, g[start][i]);
    forall x | x in S + V && x in g
      ensures Of(d + t + b, x) == Rounds(F, x, if x == start then g[x][..i + 1] else g[x])
    {
      if x == start {
        RoundsHere(start, F, V, d, b, g[start], i);
      } else {
        RoundsElsewhere(start, S, V, d, t, b, x);
        if x in V {
          RoundsAgree(F, H, x, g[x]);
        }
      }
    }
  }

  lemma StepCount(start: Node, V: set<Node>, a: seq<Event>, b: seq<Event>)
    requires Within(b, V) && start !in V
    ensures Calls(a + b, NodeVisit(start)) == Calls(a, NodeVisit(start))
  {
    assert NodeVisit(start) !in b;
  }

  /** The visit begins where it is due. */
  lemma DueNow(g: Adj, m: Node, B: set<Node>, H: set<Edge>, V: set<Node>, a: seq<Event>, b: seq<Event>)
    requires DepthFirst(g, m, B, H, V, b) && m in V && m in g && g[m] != []
    ensures Seen(a + b, m, |a| + 1)
  {
    OfSeen(b, m);
    assert EnteredAt(g, m, b, 0) && !Seen(b, About(b[0]), 0);
    assert (a + b)[|a|] == b[0];
  }

  lemma StepPrompt(g: Adj, start: Node, i: nat, B: set<Node>, F: set<Edge>, H: set<Edge>, S: set<Node>, V: set<Node>,
                   d: seq<Event>, b: seq<Event>)
    requires DepthFirstTo(g, start, i, B, F, S, d) && i < |g[start]| && start in S && g[start][i].from == start
    requires DepthFirst(g, g[start][i].to, B + S, H, V, b) && S !! V && V !! B && g[start][i].to in B + S + V
    ensures Prompt(g, B, d + Round(F, start, g[start][i]) + b)
  {
    var e := g[start][i];
    var t := Round(F, start, e);
    var a := d + t;
    RoundMore(g, start, F, d, e);
    RoundLeadsTo(g, start, i, F, d);
    RoundPrompt(g, B, start, F, d, e);
    RoundWithin(start, F, S, d, e);
    forall y | y in g && y in B + S && y !in B && g[y] != []
      ensures Seen(a, y, |a|)
    {
      AllSeen(g, start, i, B, F, S, d, t, y);
    }
    if e.to in g && e.to !in B && g[e.to] != [] {
      if e.to in S {
        SeenLonger(a, b, e.to, |a|, |a| + 1);
      } else {
        DueNow(g, e.to, B + S, H, V, a, b);
      }
    }
    PromptJoin(g, e.to, B, B + S, a, b, S, V);
  }

  // --- by worklist ---

  /** The edges of es that do not carry the tag, in order. */
  ghost function Reports(F: set<Edge>, es: seq<Edge>): seq<Event> {
    if es == [] then []
    else if es[|es| - 1] in F then Reports(F, es[..|es| - 1])
    else Reports(F, es[..|es| - 1]) + [EdgeVisit(es[|es| - 1])]
  }

  ghost predicate Between(d: seq<Event>, p: int, q: int, r: int) {
    0 <= p < q < r < |d| && About(d[p]) == About(d[r])
  }

  /** The calls about a node come one directly after the other. */
  ghost predicate Unbroken(d: seq<Event>) {
    forall p, q, r :: Between(d, p, q, r) ==> About(d[p]) == About(d[q])
  }

  /** y carries the tag once the first q calls have been made. */
  ghost predicate TaggedBy(B: set<Node>, d: seq<Event>, q: nat, y: Node)
    requires q <= |d|
  {
    y in B || NodeVisit(y) in d[..q]
  }

  /** Of the edges told before position q, that at p is the latest one to lead to a node that
      does not carry the tag yet. */
  ghost predicate LatestOpen(B: set<Node>, d: seq<Event>, q: nat, p: nat)
    requires p < q <= |d|
  {
    && d[p].EdgeVisit? && !TaggedBy(B, d, q, d[p].e.to)
    && forall r :: p < r < q && d[r].EdgeVisit? ==> TaggedBy(B, d, q, d[r].e.to)
  }

  /** The node told at position q is start, to begin with, and from then on the one that
      the latest such edge leads to. */
  ghost predicate LatestAt(start: Node, B: set<Node>, d: seq<Event>, q: nat)
    requires q < |d|
  {
    d[q].NodeVisit? ==>
      if q == 0 then d[q].n == start
      else exists p: nat :: p < q && LatestOpen(B, d, q, p) && d[p].e.to == d[q].n
  }

  ghost predicate LatestFirst(start: Node, B: set<Node>, d: seq<Event>) {
    forall q :: 0 <= q < |d| ==> LatestAt(start, B, d, q)
  }

  /** d is what the traversal by worklist tells: every node of S, which are the nodes newly
      visited, with its out-edges right behind it, the latest first. */
  ghost predicate ByWorklist(g: Adj, start: Node, B: set<Node>, F: set<Edge>, S: set<Node>, d: seq<Event>) {
    && Within(d, S)
    && (forall x :: x in S && x in g ==> Of(d, x) == [NodeVisit(x)] + Reports(F, g[x]))
    && Unbroken(d) && LatestFirst(start, B, d)
  }

  ghost function Targets(d: seq<Event>): seq<Node> {
    if d == [] then []
    else if d[|d| - 1].NodeVisit? then Targets(d[..|d| - 1])
    else Targets(d[..|d| - 1]) + [d[|d| - 1].e.to]
  }

  /** The nodes of s outside B, in order. */
  ghost function Open(B: set<Node>, s: seq<Node>): seq<Node> {
    if s == [] then []
    else if s[|s| - 1] in B then Open(B, s[..|s| - 1])
    else Open(B, s[..|s| - 1]) + [s[|s| - 1]]
  }

  /** What is known between two pops: of what waits, the untagged nodes are those that the
      edges told so far lead to, in order. */
  ghost predicate ByWorklistTo(g: Adj, start: Node, B: set<Node>, F: set<Edge>, S: set<Node>, d: seq<Event>,
                               st: seq<Node>)
  {
    && ByWorklist(g, start, B, F, S, d)
    && (d != [] ==> start in S) && (forall x :: x in S ==> NodeVisit(x) in d)
    && Open(B + S, st) == Open(B + S, [start] + Targets(d))
  }

  /** The same after i of the out-edges of the node n just visited. */
  ghost predicate ByWorklistWith(g: Adj, start: Node, n: Node, i: nat, B: set<Node>, F: set<Edge>, S: set<Node>,
                                 d: seq<Event>, st: seq<Node>)
  {
    && n in g && i <= |g[n]| && n in S && Within(d, S)
    && (forall x :: x in S && x in g ==>
          Of(d, x) == [NodeVisit(x)] + Reports(F, if x == n then g[x][..i] else g[x]))
    && Unbroken(d) && LatestFirst(start, B, d)
    && d != [] && About(d[|d| - 1]) == n && start in S && (forall x :: x in S ==> NodeVisit(x) in d)
    && Open(B + S, st) == Open(B + S, [start] + Targets(d))
  }

  lemma OpenOne(B: set<Node>, s: seq<Node>, x: Node)
    ensures Open(B, s + [x]) == if x in B then Open(B, s) else Open(B, s) + [x]
  {
    assert (s + [x])[..|s|] == s;
  }

  lemma TargetsOne(d: seq<Event>, ev: Event)
    ensures Targets(d + [ev]) == if ev.NodeVisit? then Targets(d) else Targets(d) + [ev.e.to]
  {
    assert (d + [ev])[..|d|] == d;
  }

  /** Filtering twice is filtering once. */
  lemma {:induction false} OpenTwice(B: set<Node>, C: set<Node>, s: seq<Node>)
    requires B <= C
    ensures Open(C, Open(B, s)) == Open(C, s)
  {
    if s != [] {
      OpenTwice(B, C, s[..|s| - 1]);
      if s[|s| - 1] !in B {
        OpenOne(C, Open(B, s[..|s| - 1]), s[|s| - 1]);
      }
    }
  }

  lemma OpenTargets(start: Node, C: set<Node>, d: seq<Event>)
    requires start in C
    ensures d == [] ==> Open(C, [start] + Targets(d)) == []
    ensures d != [] ==>
              var ev, before := d[|d| - 1], Open(C, [start] + Targets(d[..|d| - 1]));
              Open(C, [start] + Targets(d)) == if ev.EdgeVisit? && ev.e.to !in C then before + [ev.e.to] else before
  {
    if d == [] {
      OpenOne(C, [], start);
      assert [start] + Targets(d) == [] + [start];
    } else {
      var ev, s := d[|d| - 1], [start] + Targets(d[..|d| - 1]);
      if ev.EdgeVisit? {
        OpenOne(C, s, ev.e.to);
        assert [start] + Targets(d) == s + [ev.e.to];
      }
    }
  }

  /** The last untagged target is that of the latest edge told that leads to such a node. */
  lemma {:induction false} LastOpen(start: Node, B: set<Node>, C: set<Node>, d: seq<Event>, all: seq<Event>, n: Node)
    returns (p: nat)
    requires d <= all && start in C && forall x :: x in C <==> TaggedBy(B, all, |all|, x)
    requires var open := Open(C, [start] + Targets(d)); open != [] && open[|open| - 1] == n
    requires forall r :: |d| <= r < |all| && all[r].EdgeVisit? ==> TaggedBy(B, all, |all|, all[r].e.to)
    ensures p < |all| && LatestOpen(B, all, |all|, p) && all[p].e.to == n
  {
    OpenTargets(start, C, d);
    var k := |d| - 1;
    if d[k].EdgeVisit? && d[k].e.to !in C {
      p := k;
    } else {
      p := LastOpen(start, B, C, d[..k], all, n);
    }
  }

  lemma LatestLonger(start: Node, B: set<Node>, d: seq<Event>, ev: Event, q: nat)
    requires q < |d| && LatestAt(start, B, d, q)
    ensures LatestAt(start, B, d + [ev], q)
  {
    if d[q].NodeVisit? && q > 0 {
      var p: nat :| p < q && LatestOpen(B, d, q, p) && d[p].e.to == d[q].n;
      OpenLonger(B, d, [ev], q, p);
    }
  }

  lemma OpenLonger(B: set<Node>, d: seq<Event>, more: seq<Event>, q: nat, p: nat)
    requires p < q <= |d| && LatestOpen(B, d, q, p)
    ensures LatestOpen(B, d + more, q, p)
  {
    var a := d + more;
    assert a[..q] == d[..q];
    forall r | p < r < q && a[r].EdgeVisit?
      ensures TaggedBy(B, a, q, a[r].e.to)
    {
      assert a[r] == d[r];
    }
  }

  /** One more call: about a node that none has been about, or that the last one was about. */
  lemma OneMoreCall(start: Node, B: set<Node>, d: seq<Event>, ev: Event)
    requires Unbroken(d) && LatestFirst(start, B, d) && LatestAt(start, B, d + [ev], |d|)
    requires (d != [] && About(d[|d| - 1]) == About(ev)) || !Seen(d, About(ev), |d|)
    ensures Unbroken(d + [ev]) && LatestFirst(start, B, d + [ev])
  {
    var a := d + [ev];
    forall p, q, r | Between(a, p, q, r)
      ensures About(a[p]) == About(a[q])
    {
      if r < |d| {
        assert Between(d, p, q, r);
      } else if q < |d| - 1 {
        assert Between(d, p, q, |d| - 1);
      }
    }
    forall q | 0 <= q < |a|
      ensures LatestAt(start, B, a, q)
    {
      if q < |d| {
        LatestLonger(start, B, d, ev, q);
      }
    }
  }

  lemma WorklistStart(g: Adj, start: Node, B: set<Node>, F: set<Edge>)
    ensures ByWorklistTo(g, start, B, F, {}, [], [start])
  {
    assert [start] + Targets([]) == [start];
  }

  /** A tagged node is popped. */
  lemma WorklistSkip(g: Adj, start: Node, n: Node, B: set<Node>, F: set<Edge>, S: set<Node>, d: seq<Event>,
                     st: seq<Node>)
    requires ByWorklistTo(g, start, B, F, S, d, st + [n]) && n in B + S
    ensures ByWorklistTo(g, start, B, F, S, d, st)
  {
    OpenOne(B + S, st, n);
  }

  /** An untagged node on top is the one that the latest open edge leads to. */
  lemma PoppedIsLatest(g: Adj, start: Node, n: Node, B: set<Node>, F: set<Edge>, S: set<Node>, d: seq<Event>,
                       st: seq<Node>)
    requires ByWorklistTo(g, start, B, F, S, d, st + [n]) && n !in B + S
    ensures LatestAt(start, B, d + [NodeVisit(n)], |d|)
  {
    OpenOne(B + S, st, n);
    if d == [] {
      OpenOne(B + S, [], start);
      assert [start] + Targets([]) == [] + [start];
    } else {
      assert d[..|d|] == d;
      forall x
        ensures x in B + S <==> TaggedBy(B, d, |d|, x)
      {
        if NodeVisit(x) in d {
          var k :| 0 <= k < |d| && d[k] == NodeVisit(x);
          assert About(d[k]) in S;
        }
      }
      var p := LastOpen(start, B, B + S, d, d, n);
      OpenLonger(B, d, [NodeVisit(n)], |d|, p);
    }
  }

  /** What still waits, and what the edges told lead to, once n is tagged. */
  lemma OpenWithout(C: set<Node>, n: Node, st: seq<Node>, s: seq<Node>)
    requires Open(C, st + [n]) == Open(C, s)
    ensures Open(C + {n}, st) == Open(C + {n}, s)
  {
    OpenTwice(C, C + {n}, st + [n]);
    OpenTwice(C, C + {n}, s);
    OpenOne(C + {n}, st, n);
  }

  lemma WorklistVisit(g: Adj, start: Node, n: Node, B: set<Node>, F: set<Edge>, S: set<Node>, d: seq<Event>,
                      st: seq<Node>)
    requires ByWorklistTo(g, start, B, F, S, d, st + [n]) && n !in B + S && n in g
    ensures ByWorklistWith(g, start, n, 0, B, F, S + {n}, d + [NodeVisit(n)], st)
  {
    var ev := NodeVisit(n);
    PoppedIsLatest(g, start, n, B, F, S, d, st);
    OneMoreCall(start, B, d, ev);
    WithinJoin(d, [ev], S, {n});
    OpenWithout(B + S, n, st, [start] + Targets(d));
    assert B + (S + {n}) == B + S + {n};
    TargetsOne(d, ev);
    OfOutside(d, S, n);
    forall x | x in S + {n} && x in g
      ensures Of(d + [ev], x) == [NodeVisit(x)] + Reports(F, if x == n then g[x][..0] else g[x])
    {
      OfAppend(d, [ev], x);
    }
    assert LatestAt(start, B, d + [ev], 0);
  }

  lemma WorklistPass(g: Adj, start: Node, n: Node, i: nat, B: set<Node>, F: set<Edge>, S: set<Node>, d: seq<Event>,
                     st: seq<Node>)
    requires ByWorklistWith(g, start, n, i, B, F, S, d, st) && i < |g[n]| && g[n][i] in F
    ensures ByWorklistWith(g, start, n, i + 1, B, F, S, d, st)
  {
    assert g[n][..i + 1][..i] == g[n][..i];
  }

  lemma WorklistReport(g: Adj, start: Node, n: Node, i: nat, B: set<Node>, F: set<Edge>, S: set<Node>, d: seq<Event>,
                       st: seq<Node>)
    requires ByWorklistWith(g, start, n, i, B, F, S, d, st) && i < |g[n]| && g[n][i] !in F && g[n][i].from == n
    ensures var e := g[n][i];
            ByWorklistWith(g, start, n, i + 1, B, F, S, d + [EdgeVisit(e)], if e.to in B + S then st else st + [e.to])
  {
    var e := g[n][i];
    var ev := EdgeVisit(e);
    OneMoreCall(start, B, d, ev);
    WithinJoin(d, [ev], S, {n});
    assert S + {n} == S;
    OpenReport(start, B + S, d, e, st);
    forall x | x in S && x in g
      ensures Of(d + [ev], x) == [NodeVisit(x)] + Reports(F, if x == n then g[x][..i + 1] else g[x])
    {
      OfReport(F, n, g[n], i, d, x);
    }
  }

  lemma OfReport(F: set<Edge>, n: Node, es: seq<Edge>, i: nat, d: seq<Event>, x: Node)
    requires i < |es| && es[i] !in F && es[i].from == n
    ensures x != n ==> Of(d + [EdgeVisit(es[i])], x) == Of(d, x)
    ensures x == n && Of(d, x) == [NodeVisit(x)] + Reports(F, es[..i]) ==>
              Of(d + [EdgeVisit(es[i])], x) == [NodeVisit(x)] + Reports(F, es[..i + 1])
  {
    assert (d + [EdgeVisit(es[i])])[..|d|] == d;
    assert es[..i + 1][..i] == es[..i];
  }

  lemma OpenReport(start: Node, C: set<Node>, d: seq<Event>, e: Edge, st: seq<Node>)
    requires Open(C, st) == Open(C, [start] + Targets(d))
    ensures Open(C, if e.to in C then st else st + [e.to]) == Open(C, [start] + Targets(d + [EdgeVisit(e)]))
  {
    TargetsOne(d, EdgeVisit(e));
    assert [start] + Targets(d + [EdgeVisit(e)]) == [start] + Targets(d) + [e.to];
    OpenOne(C, [start] + Targets(d), e.to);
    OpenOne(C, st, e.to);
  }

  lemma WorklistFinish(g: Adj, start: Node, n: Node, B: set<Node>, F: set<Edge>, S: set<Node>, d: seq<Event>,
                       st: seq<Node>)
    requires n in g && ByWorklistWith(g, start, n, |g[n]|, B, F, S, d, st)
    ensures ByWorklistTo(g, start, B, F, S, d, st)
  {
    assert g[n][..|g[n]|] == g[n];
  }

  // --- the order leaves no choice ---

  /** The call at position k is the next one about its node. */
  lemma NextOf(d: seq<Event>, k: nat)
    requires k < |d|
    ensures var x := About(d[k]);
            var i := |Of(d[..k], x)|;
            i < |Of(d, x)| && Of(d, x)[i] == d[k]
  {
    var x := About(d[k]);
    assert d == d[..k + 1] + d[k + 1..] && d[..k + 1][..k] == d[..k];
    OfAppend(d[..k + 1], d[k + 1..], x);
  }

  lemma MoreOf(d: seq<Event>, k: nat, x: Node) returns (m: nat)
    requires k <= |d| && |Of(d[..k], x)| < |Of(d, x)|
    ensures k <= m < |d| && About(d[m]) == x
  {
    assert d == d[..k] + d[k..];
    OfAppend(d[..k], d[k..], x);
    OfSeen(d[k..], x);
    m :| 0 <= m < |d[k..]| && About(d[k..][m]) == x;
    m := k + m;
  }

  /** A node entered now in one log is entered now in the other. */
  lemma EnteredBoth(g: Adj, start: Node, B: set<Node>, F: set<Edge>, S: set<Node>,
                    d: seq<Event>, d': seq<Event>, k: nat)
    requires DepthFirst(g, start, B, F, S, d) && DepthFirst(g, start, B, F, S, d') && S <= g.Keys && S !! B
    requires k < |d| && k < |d'| && d[..k] == d'[..k] && !Seen(d, About(d[k]), k)
    ensures About(d'[k]) == About(d[k])
  {
    var x := About(d[k]);
    assert EnteredAt(g, start, d, k) && EnteredAt(g, start, d', 0);
    if k > 0 {
      LeadsToBoth(g, d, d', k, x);
      NextOf(d, k);
      assert g[x] != [];
      SameSoFar(d, d', k);
      var p :| 0 <= p < k + 1 && p < |d'| && About(d'[p]) == x;
      assert p == k;
    }
  }

  lemma SameSoFar(d: seq<Event>, d': seq<Event>, k: nat)
    requires k <= |d| && k <= |d'| && d[..k] == d'[..k]
    ensures forall i :: 0 <= i < k ==> d[i] == d'[i]
  {
    forall i | 0 <= i < k
      ensures d[i] == d'[i]
    {
      assert d[..k][i] == d'[..k][i];
    }
  }

  lemma LeadsToBoth(g: Adj, d: seq<Event>, d': seq<Event>, k: nat, y: Node)
    requires 0 < k <= |d| && k <= |d'| && d[..k] == d'[..k] && LeadsTo(g, d, k - 1, y)
    ensures LeadsTo(g, d', k - 1, y)
  {
    assert d == d[..k] + d[k..] && d' == d'[..k] + d'[k..];
    LeadsToBefore(g, d[..k], d[k..], k - 1, y);
    LeadsToBefore(g, d'[..k], d'[k..], k - 1, y);
  }

  lemma SeenBoth(d: seq<Event>, d': seq<Event>, k: nat, x: Node) returns (p: nat)
    requires k <= |d| && k <= |d'| && d[..k] == d'[..k] && Seen(d, x, k)
    ensures p < k && About(d[p]) == x && About(d'[p]) == x
  {
    p :| 0 <= p < k && p < |d| && About(d[p]) == x;
    SameSoFar(d, d', k);
  }

  lemma NotCrossing(d: seq<Event>, p: int, q: int, r: int, s: int)
    requires Nested(d) && 0 <= p < q < r < s < |d| && About(d[p]) == About(d[r]) && About(d[q]) == About(d[s])
    ensures About(d[p]) == About(d[q])
  {
    assert Crossing(d, p, q, r, s);
  }

  /** Of two nodes told about before k and from k on, it is fixed which comes next. */
  lemma NoTie(d: seq<Event>, d': seq<Event>, k: nat, m: nat, n: nat)
    requires Nested(d) && Nested(d') && k <= n < |d| && k <= m < |d'| && d[..k] == d'[..k]
    requires Seen(d, About(d[k]), k) && About(d'[m]) == About(d[k])
    requires Seen(d', About(d'[k]), k) && About(d[n]) == About(d'[k])
    ensures About(d[k]) == About(d'[k])
  {
    var p := SeenBoth(d, d', k, About(d[k]));
    var q := SeenBoth(d', d, k, About(d'[k]));
    if About(d[k]) != About(d'[k]) {
      if p < q {
        NotCrossing(d, p, q, k, n);
      } else {
        NotCrossing(d', q, p, k, m);
      }
    }
  }

  /** Two depth-first logs that agree so far agree in the next call. */
  lemma DepthFirstNext(g: Adj, start: Node, B: set<Node>, F: set<Edge>, S: set<Node>,
                       d: seq<Event>, d': seq<Event>, k: nat)
    requires DepthFirst(g, start, B, F, S, d) && DepthFirst(g, start, B, F, S, d') && S <= g.Keys && S !! B
    requires k < |d| && k <= |d'| && d[..k] == d'[..k]
    ensures k < |d'| && d'[k] == d[k]
  {
    var x := About(d[k]);
    NextOf(d, k);
    var m := MoreOf(d', k, x);
    var y := About(d'[k]);
    NextOf(d', k);
    if x != y {
      if !Seen(d, x, k) {
        EnteredBoth(g, start, B, F, S, d, d', k);
      } else if !Seen(d', y, k) {
        EnteredBoth(g, start, B, F, S, d', d, k);
      } else {
        var n := MoreOf(d, k, y);
        NoTie(d, d', k, m, n);
      }
    }
  }

  lemma {:induction false} DepthFirstPrefix(g: Adj, start: Node, B: set<Node>, F: set<Edge>, S: set<Node>,
                                            d: seq<Event>, d': seq<Event>, k: nat)
    requires DepthFirst(g, start, B, F, S, d) && DepthFirst(g, start, B, F, S, d') && S <= g.Keys && S !! B
    requires k <= |d|
    ensures k <= |d'| && d[..k] == d'[..k]
  {
    if k > 0 {
      DepthFirstPrefix(g, start, B, F, S, d, d', k - 1);
      DepthFirstNext(g, start, B, F, S, d, d', k - 1);
    }
  }

  /** Which nodes are newly visited and what carried the tag beforehand leave only one
      depth-first order of the calls. */
  lemma OneDepthFirst(g: Adj, start: Node, B: set<Node>, F: set<Edge>, S: set<Node>, d: seq<Event>, d': seq<Event>)
    requires DepthFirst(g, start, B, F, S, d) && DepthFirst(g, start, B, F, S, d') && S <= g.Keys && S !! B
    ensures d == d'
  {
    DepthFirstPrefix(g, start, B, F, S, d, d', |d|);
    DepthFirstPrefix(g, start, B, F, S, d', d, |d'|);
    assert d[..|d|] == d && d'[..|d'|] == d';
  }

  /** A call about a node that has been told about continues what came directly before. */
  lemma Continued(d: seq<Event>, k: nat)
    requires Unbroken(d) && k < |d| && Seen(d, About(d[k]), k)
    ensures k > 0 && About(d[k - 1]) == About(d[k])
  {
    var p :| 0 <= p < k && About(d[p]) == About(d[k]);
    if p < k - 1 {
      assert Between(d, p, k - 1, k);
    }
  }

  lemma NotBroken(d: seq<Event>, p: int, q: int, r: int)
    requires Unbroken(d) && 0 <= p < q < r < |d| && About(d[p]) == About(d[r])
    ensures About(d[p]) == About(d[q])
  {
    assert Between(d, p, q, r);
  }

  /** A node that has not been told about is told itself first. */
  lemma NodeFirst(g: Adj, start: Node, B: set<Node>, F: set<Edge>, S: set<Node>, d: seq<Event>, k: nat)
    requires ByWorklist(g, start, B, F, S, d) && S <= g.Keys && k < |d| && !Seen(d, About(d[k]), k)
    ensures d[k] == NodeVisit(About(d[k]))
  {
    NextOf(d, k);
    OfNone(d[..k], About(d[k]));
  }

  /** A node visited now in one log is visited now in the other. */
  lemma VisitedBoth(start: Node, B: set<Node>, d: seq<Event>, d': seq<Event>, k: nat)
    requires k < |d| && k < |d'| && d[..k] == d'[..k] && d[k].NodeVisit? && d'[k].NodeVisit?
    requires LatestAt(start, B, d, k) && LatestAt(start, B, d', k)
    ensures d[k] == d'[k]
  {
    if k > 0 {
      SameSoFar(d, d', k);
      var p: nat :| p < k && LatestOpen(B, d, k, p) && d[p].e.to == d[k].n;
      var p': nat :| p' < k && LatestOpen(B, d', k, p') && d'[p'].e.to == d'[k].n;
      assert d[p] == d'[p] && d[p'] == d'[p'];
    }
  }

  /** Two worklist logs that agree so far agree in the next call. */
  lemma WorklistNext(g: Adj, start: Node, B: set<Node>, F: set<Edge>, S: set<Node>,
                     d: seq<Event>, d': seq<Event>, k: nat)
    requires ByWorklist(g, start, B, F, S, d) && ByWorklist(g, start, B, F, S, d') && S <= g.Keys
    requires k < |d| && k <= |d'| && d[..k] == d'[..k]
    ensures k < |d'| && d'[k] == d[k]
  {
    var x := About(d[k]);
    NextOf(d, k);
    var m := MoreOf(d', k, x);
    var y := About(d'[k]);
    NextOf(d', k);
    SameSoFar(d, d', k);
    if x != y {
      if Seen(d, x, k) {
        Continued(d, k);
        NotBroken(d', k - 1, k, m);
      } else if Seen(d', y, k) {
        var n := MoreOf(d, k, y);
        Continued(d', k);
        NotBroken(d, k - 1, k, n);
      } else {
        NodeFirst(g, start, B, F, S, d, k);
        NodeFirst(g, start, B, F, S, d', k);
        VisitedBoth(start, B, d, d', k);
      }
    }
  }

  lemma {:induction false} WorklistPrefix(g: Adj, start: Node, B: set<Node>, F: set<Edge>, S: set<Node>,
                                          d: seq<Event>, d': seq<Event>, k: nat)
    requires ByWorklist(g, start, B, F, S, d) && ByWorklist(g, start, B, F, S, d') && S <= g.Keys
    requires k <= |d|
    ensures k <= |d'| && d[..k] == d'[..k]
  {
    if k > 0 {
      WorklistPrefix(g, start, B, F, S, d, d', k - 1);
      WorklistNext(g, start, B, F, S, d, d', k - 1);
    }
  }

  /** And only one order of the calls by worklist. */
  lemma OneByWorklist(g: Adj, start: Node, B: set<Node>, F: set<Edge>, S: set<Node>, d: seq<Event>, d': seq<Event>)
    requires ByWorklist(g, start, B, F, S, d) && ByWorklist(g, start, B, F, S, d') && S <= g.Keys
    ensures d == d'
  {
    WorklistPrefix(g, start, B, F, S, d, d', |d|);
    WorklistPrefix(g, start, B, F, S, d', d, |d'|);
    assert d[..|d|] == d && d'[..|d'|] == d';
  }
}
