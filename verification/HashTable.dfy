/** What the chained hash map (libsrsbsns/hashmap.c) holds, as a value: for every bucket
    a list of keys and, in step with it, a list of values. */
module HashTables {
  import opened Prelude

  /** The callbacks the map is set up with, and its number of buckets. */
  datatype Config<!K> = Config(hash: K -> nat, eq: (K, K) -> bool, dup: K -> K, n: nat)

  /** What the callers promise: eq is an equivalence, equal keys hash alike, and a
      duplicated key equals the original. */
  ghost predicate Sound<K(!new)>(c: Config<K>) {
    && c.n > 0
    && (forall x :: c.eq(x, x))
    && (forall x, y :: c.eq(x, y) ==> c.eq(y, x) && c.hash(x) == c.hash(y))
    && (forall x, y, z {:trigger Linked(x, y, z)} :: Linked(x, y, z) && c.eq(x, y) && c.eq(y, z) ==> c.eq(x, z))
    && (forall x :: c.eq(x, c.dup(x)))
  }

  /** Always true; names three keys of a transitivity step. */
  ghost predicate Linked<K>(x: K, y: K, z: K) { true }

  function BucketOf<K>(c: Config<K>, k: K): (i: nat)
    requires c.n > 0
    ensures i < c.n
  {
    c.hash(k) % c.n
  }

  datatype Table<K, V> = Table(ks: seq<seq<K>>, vs: seq<seq<V>>)

  // --- one bucket ---

  /** The first position whose key equals k, or |kl|. */
  function IndexIn<K>(c: Config<K>, kl: seq<K>, k: K): (i: nat)
    ensures i <= |kl|
  {
    if kl == [] || c.eq(kl[0], k) then 0 else 1 + IndexIn(c, kl[1..], k)
  }

  lemma {:induction false} IndexInMeaning<K>(c: Config<K>, kl: seq<K>, k: K)
    ensures var i := IndexIn(c, kl, k);
            && (i < |kl| ==> c.eq(kl[i], k))
            && forall j :: 0 <= j < i ==> !c.eq(kl[j], k)
  {
    if kl != [] && !c.eq(kl[0], k) {
      IndexInMeaning(c, kl[1..], k);
      forall j | 0 <= j < IndexIn(c, kl, k)
        ensures !c.eq(kl[j], k)
      {
        if j > 0 { assert kl[j] == kl[1..][j - 1]; }
      }
    }
  }

  lemma IndexIs<K>(c: Config<K>, kl: seq<K>, k: K, i: nat)
    requires i <= |kl| && (i < |kl| ==> c.eq(kl[i], k))
    requires forall j :: 0 <= j < i ==> !c.eq(kl[j], k)
    ensures IndexIn(c, kl, k) == i
  {
    IndexInMeaning(c, kl, k);
  }

  // --- the table ---

  function Empty<K, V>(n: nat): Table<K, V> {
    Table(seq(n, _ => []), seq(n, _ => []))
  }

  ghost predicate Shaped<K, V>(c: Config<K>, t: Table<K, V>) {
    && c.n > 0 && |t.ks| == |t.vs| == c.n
    && forall i :: 0 <= i < c.n ==> |t.ks[i]| == |t.vs[i]|
  }

  /** Keys are in the bucket they hash to, and no two keys of a bucket are equal. */
  ghost predicate Ok<K, V>(c: Config<K>, t: Table<K, V>) {
    && Shaped(c, t)
    && (forall i, j :: 0 <= i < c.n && 0 <= j < |t.ks[i]| ==> BucketOf(c, t.ks[i][j]) == i)
    && (forall i, j, l :: 0 <= i < c.n && 0 <= j < l < |t.ks[i]| ==> !c.eq(t.ks[i][j], t.ks[i][l]))
  }

  function Get<K, V>(c: Config<K>, t: Table<K, V>, k: K): Option<V>
    requires Shaped(c, t)
  {
    var b := BucketOf(c, k);
    var i := IndexIn(c, t.ks[b], k);
    if i < |t.ks[b]| then Some(t.vs[b][i]) else None
  }

  /** A new key goes to the front of its bucket; an equal key keeps its place and its
      first spelling. */
  function Put<K, V>(c: Config<K>, t: Table<K, V>, k: K, v: V): Table<K, V>
    requires Shaped(c, t)
  {
    var b := BucketOf(c, k);
    var i := IndexIn(c, t.ks[b], k);
    if i < |t.ks[b]| then Table(t.ks, t.vs[b := t.vs[b][i := v]])
    else Table(t.ks[b := [c.dup(k)] + t.ks[b]], t.vs[b := [v] + t.vs[b]])
  }

  function Del<K, V>(c: Config<K>, t: Table<K, V>, k: K): Table<K, V>
    requires Shaped(c, t)
  {
    var b := BucketOf(c, k);
    var i := IndexIn(c, t.ks[b], k);
    if i < |t.ks[b]| then Table(t.ks[b := Without(t.ks[b], i)], t.vs[b := Without(t.vs[b], i)])
    else t
  }

  // --- it is a finite map up to key equality ---

  lemma PutKeepsOk<K(!new), V>(c: Config<K>, t: Table<K, V>, k: K, v: V)
    requires Sound(c) && Ok(c, t)
    ensures Ok(c, Put(c, t, k, v))
  {
    var b := BucketOf(c, k);
    IndexInMeaning(c, t.ks[b], k);
    var t' := Put(c, t, k, v);
    if IndexIn(c, t.ks[b], k) == |t.ks[b]| {
      forall l | 1 <= l < |t'.ks[b]|
        ensures !c.eq(t'.ks[b][0], t'.ks[b][l])
      {
        assert !c.eq(t.ks[b][l - 1], k);
        if c.eq(c.dup(k), t.ks[b][l - 1]) {
          assert Linked(k, c.dup(k), t.ks[b][l - 1]);
        }
      }
      forall i, j, l | 0 <= i < c.n && 0 <= j < l < |t'.ks[i]|
        ensures !c.eq(t'.ks[i][j], t'.ks[i][l])
      {
        if i == b && j > 0 {
          assert t'.ks[i][j] == t.ks[i][j - 1] && t'.ks[i][l] == t.ks[i][l - 1];
        }
      }
    }
  }

  lemma DelKeepsOk<K(!new), V>(c: Config<K>, t: Table<K, V>, k: K)
    requires Ok(c, t)
    ensures Ok(c, Del(c, t, k))
  {
    var b := BucketOf(c, k);
    var x := IndexIn(c, t.ks[b], k);
    var t' := Del(c, t, k);
    if x < |t.ks[b]| {
      forall j | 0 <= j < |t'.ks[b]|
        ensures t'.ks[b][j] == t.ks[b][if j < x then j else j + 1]
      {
      }
    }
  }

  /** Which key is found depends on the key searched for only up to equality. */
  lemma {:induction false} IndexSame<K(!new)>(c: Config<K>, kl: seq<K>, k: K, k': K)
    requires Sound(c) && c.eq(k, k')
    ensures IndexIn(c, kl, k) == IndexIn(c, kl, k')
  {
    if kl != [] {
      assert Linked(kl[0], k, k') && Linked(kl[0], k', k);
      IndexSame(c, kl[1..], k, k');
    }
  }

  lemma GetPut<K(!new), V>(c: Config<K>, t: Table<K, V>, k: K, v: V, k': K)
    requires Sound(c) && Ok(c, t)
    ensures Shaped(c, Put(c, t, k, v))
    ensures Get(c, Put(c, t, k, v), k') == if c.eq(k, k') then Some(v) else Get(c, t, k')
  {
    PutKeepsOk(c, t, k, v);
    var b := BucketOf(c, k);
    var kl := t.ks[b];
    IndexInMeaning(c, kl, k);
    var i := IndexIn(c, kl, k);
    if c.eq(k, k') {
      IndexSame(c, kl, k, k');
      if i == |kl| {
        assert Linked(c.dup(k), k, k');
      }
    } else if BucketOf(c, k') == b {
      if i == |kl| {
        assert Linked(k, c.dup(k), k');
        assert ([c.dup(k)] + kl)[1..] == kl;
      } else {
        IndexInMeaning(c, kl, k');
        assert Linked(k, kl[i], k');
      }
    }
  }

  lemma {:induction false} IndexWithout<K(!new)>(c: Config<K>, kl: seq<K>, i: nat, k: K)
    requires i < |kl| && !c.eq(kl[i], k)
    ensures var x, y := IndexIn(c, kl, k), IndexIn(c, Without(kl, i), k);
            y == if x < i then x else x - 1
  {
    if !c.eq(kl[0], k) {
      if i == 0 {
        assert Without(kl, 0) == kl[1..];
      } else {
        assert Without(kl, i)[1..] == Without(kl[1..], i - 1);
        IndexWithout(c, kl[1..], i - 1, k);
      }
    }
  }

  lemma GetDel<K(!new), V>(c: Config<K>, t: Table<K, V>, k: K, k': K)
    requires Sound(c) && Ok(c, t)
    ensures Shaped(c, Del(c, t, k))
    ensures Get(c, Del(c, t, k), k') == if c.eq(k, k') then None else Get(c, t, k')
  {
    DelKeepsOk(c, t, k);
    var b := BucketOf(c, k);
    var kl := t.ks[b];
    IndexInMeaning(c, kl, k);
    var i := IndexIn(c, kl, k);
    if c.eq(k, k') {
      IndexSame(c, kl, k, k');
      if i < |kl| {
        OnlyOnce(c, kl, i, k);
        IndexSame(c, Without(kl, i), k, k');
      }
    } else if BucketOf(c, k') == b && i < |kl| {
      assert Linked(k, kl[i], k');
      IndexInMeaning(c, kl, k');
      IndexWithout(c, kl, i, k');
    }
  }

  /** Once the match is gone there is no other. */
  lemma OnlyOnce<K(!new)>(c: Config<K>, kl: seq<K>, i: nat, k: K)
    requires Sound(c) && i < |kl| && IndexIn(c, kl, k) == i
    requires forall j, l :: 0 <= j < l < |kl| ==> !c.eq(kl[j], kl[l])
    ensures IndexIn(c, Without(kl, i), k) == |kl| - 1
  {
    IndexInMeaning(c, kl, k);
    var w := Without(kl, i);
    forall j | 0 <= j < |w|
      ensures !c.eq(w[j], k)
    {
      if j >= i {
        assert w[j] == kl[j + 1];
        assert Linked(kl[i], k, kl[j + 1]);
      }
    }
    IndexIs(c, w, k, |w|);
  }

  lemma GetEmpty<K, V>(c: Config<K>, k: K)
    requires c.n > 0
    ensures Ok(c, Empty<K, V>(c.n)) && Get(c, Empty<K, V>(c.n), k) == None
  {
  }

  // --- whole runs against what was done last ---

  datatype Op<K, V> = PutOp(k: K, v: V) | DelOp(k: K) | ClearOp

  function Step<K, V>(c: Config<K>, t: Table<K, V>, op: Op<K, V>): Table<K, V>
    requires Shaped(c, t)
  {
    match op
    case PutOp(k, v) => Put(c, t, k, v)
    case DelOp(k) => Del(c, t, k)
    case ClearOp => Empty(c.n)
  }

  ghost predicate IsRun<K, V>(c: Config<K>, ts: seq<Table<K, V>>, ops: seq<Op<K, V>>) {
    && c.n > 0 && |ts| == |ops| + 1 && ts[0] == Empty<K, V>(c.n)
    && forall i :: 0 <= i < |ops| ==> Shaped(c, ts[i]) && ts[i + 1] == Step(c, ts[i], ops[i])
  }

  /** The value of k after a history: what the last operation on an equal key left. */
  function LastValue<K, V>(c: Config<K>, ops: seq<Op<K, V>>, k: K): Option<V> {
    if ops == [] then None
    else
      match ops[|ops| - 1]
      case ClearOp => None
      case PutOp(k', v) => if c.eq(k', k) then Some(v) else LastValue(c, ops[..|ops| - 1], k)
      case DelOp(k') => if c.eq(k', k) then None else LastValue(c, ops[..|ops| - 1], k)
  }

  lemma {:induction false} RunRefinesMap<K(!new), V>(c: Config<K>, ts: seq<Table<K, V>>, ops: seq<Op<K, V>>, k: K)
    requires Sound(c) && IsRun(c, ts, ops)
    ensures Ok(c, ts[|ops|]) && Get(c, ts[|ops|], k) == LastValue(c, ops, k)
  {
    if ops == [] {
      GetEmpty<K, V>(c, k);
    } else {
      var n := |ops| - 1;
      RunRefinesMap(c, ts[..n + 1], ops[..n], k);
      StepRefinesMap(c, ts[n], ops[n], k);
    }
  }

  lemma StepRefinesMap<K(!new), V>(c: Config<K>, t: Table<K, V>, op: Op<K, V>, k: K)
    requires Sound(c) && Ok(c, t)
    ensures Ok(c, Step(c, t, op))
    ensures Get(c, Step(c, t, op), k) ==
            match op
            case ClearOp => None
            case PutOp(k', v) => if c.eq(k', k) then Some(v) else Get(c, t, k)
            case DelOp(k') => if c.eq(k', k) then None else Get(c, t, k)
  {
    match op
    case PutOp(k', v) =>
      PutKeepsOk(c, t, k', v);
      GetPut(c, t, k', v, k);
    case DelOp(k') =>
      DelKeepsOk(c, t, k');
      GetDel(c, t, k', k);
    case ClearOp =>
      GetEmpty<K, V>(c, k);
  }

  // --- which spelling of a key is stored ---

  /** The key stored for the keys equal to k. */
  function StoredKey<K, V>(c: Config<K>, t: Table<K, V>, k: K): Option<K>
    requires Shaped(c, t)
  {
    var kl := t.ks[BucketOf(c, k)];
    var i := IndexIn(c, kl, k);
    if i < |kl| then Some(kl[i]) else None
  }

  /** The spelling of k that a history leaves behind: the key of the first put of an equal
      key since one was last deleted or the map was cleared. */
  function FirstSpelling<K, V>(c: Config<K>, ops: seq<Op<K, V>>, k: K): Option<K> {
    if ops == [] then None
    else
      var before := FirstSpelling(c, ops[..|ops| - 1], k);
      match ops[|ops| - 1]
      case ClearOp => None
      case PutOp(k', v) => if c.eq(k', k) && before.None? then Some(k') else before
      case DelOp(k') => if c.eq(k', k) then None else before
  }

  lemma StoredPut<K(!new), V>(c: Config<K>, t: Table<K, V>, k: K, v: V, k': K)
    requires Sound(c) && Ok(c, t) && Shaped(c, Put(c, t, k, v))
    ensures StoredKey(c, Put(c, t, k, v), k') ==
            if c.eq(k, k') && StoredKey(c, t, k').None? then Some(c.dup(k)) else StoredKey(c, t, k')
  {
    var b := BucketOf(c, k);
    var kl := t.ks[b];
    if c.eq(k, k') {
      IndexSame(c, kl, k, k');
      if IndexIn(c, kl, k) == |kl| {
        assert Linked(c.dup(k), k, k');
      }
    } else if BucketOf(c, k') == b && IndexIn(c, kl, k) == |kl| {
      assert Linked(k, c.dup(k), k');
      assert ([c.dup(k)] + kl)[1..] == kl;
    }
  }

  lemma StoredDel<K(!new), V>(c: Config<K>, t: Table<K, V>, k: K, k': K)
    requires Sound(c) && Ok(c, t) && Shaped(c, Del(c, t, k))
    ensures StoredKey(c, Del(c, t, k), k') == if c.eq(k, k') then None else StoredKey(c, t, k')
  {
    var b := BucketOf(c, k);
    var kl := t.ks[b];
    IndexInMeaning(c, kl, k);
    var i := IndexIn(c, kl, k);
    if c.eq(k, k') {
      IndexSame(c, kl, k, k');
      if i < |kl| {
        OnlyOnce(c, kl, i, k);
        IndexSame(c, Without(kl, i), k, k');
      }
    } else if BucketOf(c, k') == b && i < |kl| {
      assert Linked(k, kl[i], k');
      IndexInMeaning(c, kl, k');
      IndexWithout(c, kl, i, k');
    }
  }

  /** After any run the key stored is the duplicate of the first spelling. */
  lemma {:induction false} RunKeepsFirstSpelling<K(!new), V>(c: Config<K>, ts: seq<Table<K, V>>,
                                                              ops: seq<Op<K, V>>, k: K)
    requires Sound(c) && IsRun(c, ts, ops)
    ensures Ok(c, ts[|ops|])
    ensures var first := FirstSpelling(c, ops, k);
            StoredKey(c, ts[|ops|], k) == if first.Some? then Some(c.dup(first.value)) else None
  {
    if ops == [] {
      GetEmpty<K, V>(c, k);
    } else {
      var n := |ops| - 1;
      RunKeepsFirstSpelling(c, ts[..n + 1], ops[..n], k);
      StepRefinesMap(c, ts[n], ops[n], k);
      match ops[n]
      case PutOp(k', v) => StoredPut(c, ts[n], k', v, k);
      case DelOp(k') => StoredDel(c, ts[n], k', k);
      case ClearOp =>
    }
  }

  // --- how many entries there are, and listing them ---

  function Total<A>(xs: seq<seq<A>>): nat {
    if xs == [] then 0 else |xs[0]| + Total(xs[1..])
  }

  lemma {:induction false} TotalUpdate<A>(xs: seq<seq<A>>, b: nat, x: seq<A>)
    requires b < |xs|
    ensures Total(xs[b := x]) + |xs[b]| == Total(xs) + |x|
  {
    if b > 0 {
      assert xs[b := x][1..] == xs[1..][b - 1 := x];
      TotalUpdate(xs[1..], b - 1, x);
    }
  }

  lemma {:induction false} TotalEmpty<A>(xs: seq<seq<A>>)
    requires forall i :: 0 <= i < |xs| ==> xs[i] == []
    ensures Total(xs) == 0
  {
    if xs != [] {
      TotalEmpty(xs[1..]);
    }
  }

  /** The count goes up by one for a new key only, and down by one for a present key only. */
  lemma CountChanges<K, V>(c: Config<K>, t: Table<K, V>, k: K, v: V)
    requires Shaped(c, t)
    ensures Total(Put(c, t, k, v).ks) == Total(t.ks) + if Get(c, t, k).None? then 1 else 0
    ensures Total(Del(c, t, k).ks) == Total(t.ks) - if Get(c, t, k).None? then 0 else 1
  {
    var b := BucketOf(c, k);
    var i := IndexIn(c, t.ks[b], k);
    if i < |t.ks[b]| {
      TotalUpdate(t.ks, b, Without(t.ks[b], i));
    } else {
      TotalUpdate(t.ks, b, [c.dup(k)] + t.ks[b]);
    }
  }

  function Zip<K, V>(kl: seq<K>, vl: seq<V>): (r: seq<(K, V)>)
    requires |kl| == |vl|
    ensures |r| == |kl|
  {
    seq(|kl|, i requires 0 <= i < |kl| => (kl[i], vl[i]))
  }

  /** All bindings, bucket by bucket. */
  function Entries<K, V>(ks: seq<seq<K>>, vs: seq<seq<V>>): (r: seq<(K, V)>)
    requires |ks| == |vs| && forall i :: 0 <= i < |ks| ==> |ks[i]| == |vs[i]|
    ensures |r| == Total(ks)
  {
    if ks == [] then [] else Zip(ks[0], vs[0]) + Entries(ks[1..], vs[1..])
  }

  /** The position of the l-th entry of bucket b in the listing. */
  function Position<A>(ks: seq<seq<A>>, b: nat, l: nat): nat
    requires b <= |ks|
  {
    if b == 0 then l else |ks[0]| + Position(ks[1..], b - 1, l)
  }

  lemma {:induction false} EntryAt<K, V>(ks: seq<seq<K>>, vs: seq<seq<V>>, b: nat, l: nat)
    requires |ks| == |vs| && forall i :: 0 <= i < |ks| ==> |ks[i]| == |vs[i]|
    requires b < |ks| && l < |ks[b]|
    ensures Position(ks, b, l) < Total(ks)
    ensures Entries(ks, vs)[Position(ks, b, l)] == (ks[b][l], vs[b][l])
  {
    if b > 0 {
      EntryAt(ks[1..], vs[1..], b - 1, l);
    }
  }

  lemma {:induction false} EntryFrom<K>(ks: seq<seq<K>>, p: nat) returns (b: nat, l: nat)
    requires p < Total(ks)
    ensures b < |ks| && l < |ks[b]| && Position(ks, b, l) == p
  {
    if p < |ks[0]| {
      b, l := 0, p;
    } else {
      b, l := EntryFrom(ks[1..], p - |ks[0]|);
      b := b + 1;
    }
  }

  /** Past the end of bucket b comes the start of bucket b + 1. */
  lemma {:induction false} PositionNext<A>(ks: seq<seq<A>>, b: nat)
    requires b < |ks|
    ensures Position(ks, b, |ks[b]|) == Position(ks, b + 1, 0)
  {
    if b > 0 {
      PositionNext(ks[1..], b - 1);
    }
  }

  lemma {:induction false} PositionStep<A>(ks: seq<seq<A>>, b: nat, l: nat)
    requires b <= |ks|
    ensures Position(ks, b, l + 1) == Position(ks, b, l) + 1
  {
    if b > 0 {
      PositionStep(ks[1..], b - 1, l);
    }
  }

  /** The l-th entry of bucket b in the listing, and where the one after it comes. */
  lemma EntryHere<K, V>(c: Config<K>, t: Table<K, V>, b: nat, l: nat)
    requires Shaped(c, t) && b < c.n && l < |t.ks[b]|
    ensures var q, p := Entries(t.ks, t.vs), Position(t.ks, b, l);
            && p < |q| && q[p].0 == t.ks[b][l] && q[p].1 == t.vs[b][l]
            && Position(t.ks, b, l + 1) == p + 1
  {
    EntryAt(t.ks, t.vs, b, l);
    PositionStep(t.ks, b, l);
  }

  lemma {:induction false} PositionEnd<A>(ks: seq<seq<A>>)
    ensures Position(ks, |ks|, 0) == Total(ks)
  {
    if ks != [] {
      PositionEnd(ks[1..]);
    }
  }

  /** The listing has every binding once: its keys are pairwise unequal, each entry is
      what a lookup of its key gives, and each successful lookup comes from an entry. */
  lemma EntriesAreBindings<K(!new), V>(c: Config<K>, t: Table<K, V>)
    requires Sound(c) && Ok(c, t)
    ensures var q := Entries(t.ks, t.vs);
            && (forall i, j :: 0 <= i < j < |q| ==> !c.eq(q[i].0, q[j].0))
            && (forall i :: 0 <= i < |q| ==> Get(c, t, q[i].0) == Some(q[i].1))
            && (forall k :: Get(c, t, k).Some? ==>
                  exists i :: 0 <= i < |q| && c.eq(q[i].0, k) && Get(c, t, k) == Some(q[i].1))
  {
    var q := Entries(t.ks, t.vs);
    forall i, j | 0 <= i < j < |q|
      ensures !c.eq(q[i].0, q[j].0)
    {
      EntriesDiffer(c, t, i, j);
    }
    forall i | 0 <= i < |q|
      ensures Get(c, t, q[i].0) == Some(q[i].1)
    {
      EntryIsFound(c, t, i);
    }
    forall k | Get(c, t, k).Some?
      ensures exists i :: 0 <= i < |q| && c.eq(q[i].0, k) && Get(c, t, k) == Some(q[i].1)
    {
      var b := BucketOf(c, k);
      var l := IndexIn(c, t.ks[b], k);
      IndexInMeaning(c, t.ks[b], k);
      EntryAt(t.ks, t.vs, b, l);
      assert c.eq(q[Position(t.ks, b, l)].0, k);
    }
  }

  lemma EntriesDiffer<K(!new), V>(c: Config<K>, t: Table<K, V>, i: nat, j: nat)
    requires Sound(c) && Ok(c, t) && i < j < Total(t.ks)
    ensures !c.eq(Entries(t.ks, t.vs)[i].0, Entries(t.ks, t.vs)[j].0)
  {
    var b, l := EntryFrom(t.ks, i);
    var b', l' := EntryFrom(t.ks, j);
    EntryAt(t.ks, t.vs, b, l);
    EntryAt(t.ks, t.vs, b', l');
    if b != b' {
      assert BucketOf(c, t.ks[b][l]) == b && BucketOf(c, t.ks[b'][l']) == b';
    } else if l < l' {
      assert !c.eq(t.ks[b][l], t.ks[b][l']);
    } else if l' < l {
      assert !c.eq(t.ks[b][l'], t.ks[b][l]);
    }
  }

  /** Keys are listed as they are stored. */
  lemma EntryIsStored<K(!new), V>(c: Config<K>, t: Table<K, V>, i: nat)
    requires Sound(c) && Ok(c, t) && i < Total(t.ks)
    ensures var q := Entries(t.ks, t.vs); StoredKey(c, t, q[i].0) == Some(q[i].0)
  {
    var b, l := EntryFrom(t.ks, i);
    EntryAt(t.ks, t.vs, b, l);
    var k := t.ks[b][l];
    assert BucketOf(c, k) == b;
    IndexIs(c, t.ks[b], k, l);
  }

  /** After any run every listed key is the duplicate of the first spelling of the keys
      equal to it. */
  lemma ListedKeysAreFirstSpellings<K(!new), V>(c: Config<K>, ts: seq<Table<K, V>>, ops: seq<Op<K, V>>, i: nat)
    requires Sound(c) && IsRun(c, ts, ops)
    requires Ok(c, ts[|ops|]) && i < Total(ts[|ops|].ks)
    ensures var k := Entries(ts[|ops|].ks, ts[|ops|].vs)[i].0;
            FirstSpelling(c, ops, k).Some? && k == c.dup(FirstSpelling(c, ops, k).value)
  {
    var t := ts[|ops|];
    EntryIsStored(c, t, i);
    RunKeepsFirstSpelling(c, ts, ops, Entries(t.ks, t.vs)[i].0);
  }

  /** The bucket of a listed key is the remainder of its hash. */
  lemma KeysLieWhereTheyHash<K, V>(c: Config<K>, t: Table<K, V>, b: nat, l: nat)
    requires Ok(c, t) && b < c.n && l < |t.ks[b]|
    ensures c.hash(t.ks[b][l]) % c.n == b
  {
    assert BucketOf(c, t.ks[b][l]) == b;
  }

  lemma EntryIsFound<K(!new), V>(c: Config<K>, t: Table<K, V>, i: nat)
    requires Sound(c) && Ok(c, t) && i < Total(t.ks)
    ensures var q := Entries(t.ks, t.vs); Get(c, t, q[i].0) == Some(q[i].1)
  {
    var b, l := EntryFrom(t.ks, i);
    EntryAt(t.ks, t.vs, b, l);
    var k := t.ks[b][l];
    assert BucketOf(c, k) == b;
    IndexIs(c, t.ks[b], k, l);
  }
}
