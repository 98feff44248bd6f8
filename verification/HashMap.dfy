/** The chained hash map (libsrsbsns/hashmap.c): an array of key lists and, in step with
    it, an array of value lists, proved against the tables of HashTables. */
module HashMaps {
  import opened Prelude
  import opened PtrLists
  import opened HashTables

  // --- an array of lists, and which list an object belongs to ---

  ghost predicate Owned(owner: map<object, int>, o: object, who: int) {
    o in owner && owner[o] == who
  }

  /** The list l, which may be missing, holds s; it and its nodes belong to who. */
  ghost predicate BucketList<A>(l: PtrList?<A>, s: seq<A>, owner: map<object, int>, who: int)
    reads owner.Keys
  {
    && (l == null ==> s == [])
    && (l != null ==>
          && Owned(owner, l, who)
          && (forall i {:trigger l.nodes[i]} :: 0 <= i < |l.nodes| ==> Owned(owner, l.nodes[i], who))
          && l.Valid() && l.Contents() == s)
  }

  ghost function Who(i: int, off: int): int { 2 * i + off }

  /** Every bucket's list holds what s says, each with an owner number of its own: an even
      one if off is 0, an odd one if it is 1. */
  ghost predicate BucketLists<A>(a: array<PtrList?<A>>, s: seq<seq<A>>, owner: map<object, int>, off: int)
    reads a, owner.Keys
  {
    && a.Length == |s| && (a as object) !in owner && 0 <= off <= 1
    && forall i {:trigger a[i]} {:trigger s[i]} :: 0 <= i < |s| ==> BucketList(a[i], s[i], owner, Who(i, off))
  }

  /** Of the objects that have an owner, only those of who have changed. */
  twostate predicate OnlyTouched(owner: map<object, int>, new who: int)
    reads *
  {
    forall o: object :: o in owner && owner[o] != who ==> unchanged(o)
  }

  ghost predicate Extends(owner: map<object, int>, owner': map<object, int>) {
    forall o: object :: o in owner ==> o in owner' && owner'[o] == owner[o]
  }

  /** An array of lists with all that BucketLists says of it. */
  datatype Shelf<!A> = Shelf(a: array<PtrList?<A>>, s: seq<seq<A>>, owner: map<object, int>, off: int) {
    ghost predicate Filled()
      reads a, owner.Keys
    {
      BucketLists(a, s, owner, off)
    }
  }

  /** A list whose owner is not the one that changed still holds the same. */
  twostate lemma ListKept<A>(h: Shelf<A>, new i: int, new owner': map<object, int>, new who: int)
    requires old(h.Filled()) && 0 <= i < |h.s| && Who(i, h.off) != who
    requires OnlyTouched(h.owner, who) && Extends(h.owner, owner')
    ensures BucketList(old(h.a[i]), h.s[i], owner', Who(i, h.off))
  {
    var l, s, it := old(h.a[i]), h.s[i], Who(i, h.off);
    assert old(BucketList(l, s, h.owner, it));
    if l != null {
      assert unchanged(l);
      forall j | 0 <= j < |l.nodes|
        ensures Owned(owner', l.nodes[j], it) && unchanged(l.nodes[j])
      {
        assert Owned(h.owner, l.nodes[j], it);
      }
      assert forall j :: 0 <= j < |s| ==> l.Contents()[j] == old(l.Contents())[j];
    }
  }

  /** A change to the lists of the other array leaves the lists of this one alone. */
  twostate lemma OthersKept<A>(h: Shelf<A>, new owner': map<object, int>, new b: int)
    requires old(h.Filled()) && unchanged(h.a) && (h.a as object) !in owner'
    requires OnlyTouched(h.owner, Who(b, 1 - h.off)) && Extends(h.owner, owner')
    ensures BucketLists(h.a, h.s, owner', h.off)
  {
    forall i | 0 <= i < |h.s|
      ensures BucketList(h.a[i], h.s[i], owner', Who(i, h.off))
    {
      ListKept(h, i, owner', Who(b, 1 - h.off));
    }
  }

  /** A change to bucket b alone. */
  twostate lemma OneChanged<A>(h: Shelf<A>, new owner': map<object, int>, new b: nat, new x: seq<A>)
    requires old(h.Filled()) && (h.a as object) !in owner' && b < |h.s|
    requires forall i :: 0 <= i < |h.s| && i != b ==> h.a[i] == old(h.a[i])
    requires OnlyTouched(h.owner, Who(b, h.off)) && Extends(h.owner, owner')
    requires BucketList(h.a[b], x, owner', Who(b, h.off))
    ensures BucketLists(h.a, h.s[b := x], owner', h.off)
  {
    forall i | 0 <= i < |h.s|
      ensures BucketList(h.a[i], h.s[b := x][i], owner', Who(i, h.off))
    {
      if i != b {
        ListKept(h, i, owner', Who(b, h.off));
      }
    }
  }

  // --- what the map does to one list ---

  method MakeList<A>(a: array<PtrList?<A>>, b: nat, ghost s: seq<seq<A>>, ghost owner: map<object, int>, ghost off: int)
    returns (ghost owner': map<object, int>)
    requires BucketLists(a, s, owner, off) && b < |s| && a[b] == null
    modifies a
    ensures BucketLists(a, s, owner', off) && a[b] != null
    ensures forall i :: 0 <= i < |s| && i != b ==> a[i] == old(a[i])
    ensures OnlyTouched(owner, Who(b, off)) && Extends(owner, owner') && fresh(owner'.Keys - owner.Keys)
  {
    assert BucketList(a[b], s[b], owner, Who(b, off));
    var l := new PtrList<A>();
    a[b] := l;
    owner' := owner[l := Who(b, off)];
    assert s[b := []] == s;
    OneChanged(Shelf(a, s, owner, off), owner', b, []);
  }

  /** The nodes come to belong to who. */
  ghost function Adopt<A>(owner: map<object, int>, nodes: seq<PlNode<A>>, who: int): (r: map<object, int>)
    requires forall i :: 0 <= i < |nodes| && (nodes[i] as object) in owner ==> owner[nodes[i]] == who
    ensures Extends(owner, r)
    ensures forall i :: 0 <= i < |nodes| ==> Owned(r, nodes[i], who)
    ensures forall o :: o in r ==> o in owner || exists i :: 0 <= i < |nodes| && nodes[i] == o
  {
    if nodes == [] then owner
    else
      var r := Adopt(owner, nodes[1..], who);
      r[nodes[0] := who]
  }

  method InsertFront<A>(l: PtrList<A>, x: A, ghost s: seq<A>, ghost owner: map<object, int>, ghost who: int)
    requires BucketList(l, s, owner, who)
    modifies l, l.nodes
    ensures l.Valid() && l.Contents() == [x] + s && OnlyTouched(owner, who)
    ensures forall i :: 0 <= i < |l.nodes| ==> Owned(owner, l.nodes[i], who) || fresh(l.nodes[i])
  {
    var ok := l.Insert(0, Some(x));
    ghost var node :| fresh(node) && l.nodes == InsertedAt(old(l.nodes), 0, node);
    forall i | 0 <= i < |l.nodes|
      ensures Owned(owner, l.nodes[i], who) || fresh(l.nodes[i])
    {
      if 0 < i {
        assert l.nodes[i] == old(l.nodes)[i - 1];
      }
    }
  }

  method PushFront<A>(a: array<PtrList?<A>>, b: nat, x: A, ghost s: seq<seq<A>>, ghost owner: map<object, int>,
                      ghost off: int)
    returns (ghost owner': map<object, int>)
    requires BucketLists(a, s, owner, off) && b < |s| && a[b] != null
    modifies a[b], a[b].nodes
    ensures BucketLists(a, s[b := [x] + s[b]], owner', off)
    ensures OnlyTouched(owner, Who(b, off)) && Extends(owner, owner') && fresh(owner'.Keys - owner.Keys)
  {
    var l := a[b];
    assert BucketList(l, s[b], owner, Who(b, off));
    InsertFront(l, x, s[b], owner, Who(b, off));
    owner' := Adopt(owner, l.nodes, Who(b, off));
    OneChanged(Shelf(a, s, owner, off), owner', b, [x] + s[b]);
  }

  method ReplaceIn<A>(a: array<PtrList?<A>>, b: nat, i: nat, x: A, ghost s: seq<seq<A>>, ghost owner: map<object, int>,
                      ghost off: int)
    requires BucketLists(a, s, owner, off) && b < |s| && i < |s[b]|
    modifies if a[b] == null then [] else a[b].nodes
    ensures BucketLists(a, s[b := s[b][i := x]], owner, off)
    ensures OnlyTouched(owner, Who(b, off))
  {
    var l := a[b];
    assert BucketList(l, s[b], owner, Who(b, off));
    var ok := l.Replace(i, Some(x));
    OneChanged(Shelf(a, s, owner, off), owner, b, s[b][i := x]);
  }

  method RemoveFrom<A>(a: array<PtrList?<A>>, b: nat, i: nat, ghost s: seq<seq<A>>, ghost owner: map<object, int>,
                       ghost off: int)
    requires BucketLists(a, s, owner, off) && b < |s| && i < |s[b]| && a[b] != null
    modifies a[b], a[b].nodes
    ensures BucketLists(a, s[b := Without(s[b], i)], owner, off)
    ensures OnlyTouched(owner, Who(b, off))
  {
    var l := a[b];
    assert BucketList(l, s[b], owner, Who(b, off));
    var ok := l.Remove(i);
    forall j | 0 <= j < |l.nodes|
      ensures Owned(owner, l.nodes[j], Who(b, off))
    {
      assert l.nodes[j] in l.nodes;
    }
    OneChanged(Shelf(a, s, owner, off), owner, b, Without(s[b], i));
  }

  class HashMap<K(!new), V> {
    const cfg: Config<K>
    var keybucket: array<PtrList?<K>>
    var valbucket: array<PtrList?<V>>
    var bucketsz: nat
    var count: nat
    var iterating: bool
    var buckiter: nat
    var listiter: nat
    ghost var t: Table<K, V>
    ghost var owner: map<object, int>

    /** The two arrays hold the lists of t. */
    ghost predicate Lists()
      reads this`keybucket, this`valbucket, this`bucketsz, this`t, this`owner, keybucket, valbucket, owner.Keys
    {
      && bucketsz == cfg.n == |t.ks| == |t.vs|
      && (this as object) !in owner && (keybucket as object) != valbucket
      && BucketLists(keybucket, t.ks, owner, 0) && BucketLists(valbucket, t.vs, owner, 1)
      && forall i :: 0 <= i < bucketsz ==> (keybucket[i] == null <==> valbucket[i] == null)
    }

    ghost predicate Sane()
      reads this`keybucket, this`valbucket, this`bucketsz, this`t, this`owner, keybucket, valbucket, owner.Keys
      reads this`count
    {
      Sound(cfg) && Ok(cfg, t) && Lists() && count == Total(t.ks)
    }

    ghost predicate Valid()
      reads this, keybucket, valbucket, owner.Keys
    {
      Sane() && (iterating ==> buckiter < bucketsz)
    }

    constructor (cfg: Config<K>)
      requires Sound(cfg)
      ensures Valid() && t == Empty(cfg.n) && this.cfg == cfg && !iterating
      ensures fresh(keybucket) && fresh(valbucket) && fresh(owner.Keys)
    {
      this.cfg, bucketsz, count, iterating, buckiter, listiter := cfg, cfg.n, 0, false, 0, 0;
      keybucket := new PtrList?<K>[cfg.n](_ => null);
      valbucket := new PtrList?<V>[cfg.n](_ => null);
      t, owner := Empty(cfg.n), map[];
      new;
      TotalEmpty(t.ks);
    }

    method Clear()
      requires Valid()
      modifies this, keybucket, valbucket
      ensures Valid() && t == Empty(cfg.n) && count == 0
      ensures keybucket == old(keybucket) && valbucket == old(valbucket) && owner == old(owner)
    {
      var i := 0;
      while i < bucketsz
        invariant 0 <= i <= bucketsz
        invariant forall j :: 0 <= j < i ==> keybucket[j] == null && valbucket[j] == null
        modifies keybucket, valbucket
      {
        keybucket[i] := null;
        valbucket[i] := null;
        i := i + 1;
      }
      count := 0;
      t := Empty(cfg.n);
      TotalEmpty(t.ks);
    }

    method Find(ind: nat, key: K) returns (i: int)
      requires Lists() && ind < bucketsz && keybucket[ind] != null
      ensures i == var x := IndexIn(cfg, t.ks[ind], key); if x < |t.ks[ind]| then x else -1
    {
      assert BucketList(keybucket[ind], t.ks[ind], owner, Who(ind, 0));
      i := keybucket[ind].FindEqFn(cfg.eq, key);
      IndexIs(cfg, t.ks[ind], key, if i < 0 then |t.ks[ind]| else i);
    }

    method Get(key: K) returns (r: Option<V>)
      requires Valid()
      ensures r == HashTables.Get(cfg, t, key)
    {
      var ind := BucketOf(cfg, key);
      assert BucketList(keybucket[ind], t.ks[ind], owner, Who(ind, 0));
      if keybucket[ind] == null {
        return None;
      }
      var i := Find(ind, key);
      if i == -1 {
        return None;
      }
      assert BucketList(valbucket[ind], t.vs[ind], owner, Who(ind, 1));
      r := valbucket[ind].Get(i);
    }

    method Put(key: Option<K>, elem: Option<V>)
      requires Valid()
      modifies this, keybucket, valbucket, owner.Keys
      ensures Valid() && keybucket == old(keybucket) && valbucket == old(valbucket)
      ensures fresh(owner.Keys - old(owner.Keys))
      ensures t == if key.Some? && elem.Some? then HashTables.Put(cfg, old(t), key.value, elem.value) else old(t)
    {
      if key.None? || elem.None? {
        return;
      }
      PutKeepsOk(cfg, t, key.value, elem.value);
      CountChanges(cfg, t, key.value, elem.value);
      PutPair(key.value, elem.value);
    }

    /** Put of a key and a value that are not NULL. */
    method PutPair(key: K, elem: V)
      requires Lists() && Shaped(cfg, t)
      modifies this`owner, this`t, this`count, keybucket, valbucket, owner.Keys
      ensures Lists() && fresh(owner.Keys - old(owner.Keys))
      ensures t == HashTables.Put(cfg, old(t), key, elem)
      ensures count == old(count) + if old(HashTables.Get(cfg, t, key)).None? then 1 else 0
    {
      var ind := BucketOf(cfg, key);
      if keybucket[ind] == null {
        MakeLists(ind);
      }
      Store(ind, key, elem);
    }

    /** The rest of Put, once the bucket has its lists. */
    method Store(ind: nat, key: K, elem: V)
      requires Lists() && Shaped(cfg, t) && ind == BucketOf(cfg, key) && keybucket[ind] != null
      modifies this`owner, this`t, this`count, owner.Keys
      ensures Lists() && fresh(owner.Keys - old(owner.Keys))
      ensures t == HashTables.Put(cfg, old(t), key, elem)
      ensures count == old(count) + if old(HashTables.Get(cfg, t, key)).None? then 1 else 0
    {
      var i := Find(ind, key);
      if i == -1 {
        AddEntry(ind, cfg.dup(key), elem);
      } else {
        ReplaceValue(ind, i, elem);
      }
    }

    method MakeLists(ind: nat)
      requires Lists() && ind < bucketsz && keybucket[ind] == null
      modifies this`owner, keybucket, valbucket
      ensures Lists() && keybucket[ind] != null && fresh(owner.Keys - old(owner.Keys))
    {
      owner := MakeList(keybucket, ind, t.ks, owner, 0);
      OthersKept(Shelf(valbucket, t.vs, old(owner), 1), owner, ind);
      label L:
      owner := MakeList(valbucket, ind, t.vs, owner, 1);
      OthersKept@L(Shelf(keybucket, t.ks, old@L(owner), 0), owner, ind);
    }

    method PushKey(ind: nat, k: K)
      requires Lists() && ind < bucketsz && keybucket[ind] != null
      modifies this`owner, this`t, owner.Keys
      ensures Lists() && fresh(owner.Keys - old(owner.Keys))
      ensures t == old(Table(t.ks[ind := [k] + t.ks[ind]], t.vs))
    {
      assert BucketList(keybucket[ind], t.ks[ind], owner, Who(ind, 0));
      ghost var owner' := PushFront(keybucket, ind, k, t.ks, owner, 0);
      OthersKept(Shelf(valbucket, t.vs, owner, 1), owner', ind);
      owner, t := owner', Table(t.ks[ind := [k] + t.ks[ind]], t.vs);
    }

    method PushValue(ind: nat, v: V)
      requires Lists() && ind < bucketsz && valbucket[ind] != null
      modifies this`owner, this`t, owner.Keys
      ensures Lists() && fresh(owner.Keys - old(owner.Keys))
      ensures t == old(Table(t.ks, t.vs[ind := [v] + t.vs[ind]]))
    {
      assert BucketList(valbucket[ind], t.vs[ind], owner, Who(ind, 1));
      ghost var owner' := PushFront(valbucket, ind, v, t.vs, owner, 1);
      OthersKept(Shelf(keybucket, t.ks, owner, 0), owner', ind);
      owner, t := owner', Table(t.ks, t.vs[ind := [v] + t.vs[ind]]);
    }

    method AddEntry(ind: nat, k: K, v: V)
      requires Lists() && ind < bucketsz && keybucket[ind] != null
      modifies this`owner, this`t, this`count, owner.Keys
      ensures Lists() && fresh(owner.Keys - old(owner.Keys)) && count == old(count) + 1
      ensures t == old(Table(t.ks[ind := [k] + t.ks[ind]], t.vs[ind := [v] + t.vs[ind]]))
    {
      PushKey(ind, k);
      PushValue(ind, v);
      count := count + 1;
    }

    method ReplaceValue(ind: nat, i: nat, v: V)
      requires Lists() && ind < bucketsz && i < |t.vs[ind]|
      modifies this`t, owner.Keys
      ensures Lists() && t == old(Table(t.ks, t.vs[ind := t.vs[ind][i := v]]))
    {
      assert BucketList(valbucket[ind], t.vs[ind], owner, Who(ind, 1));
      ReplaceIn(valbucket, ind, i, v, t.vs, owner, 1);
      OthersKept(Shelf(keybucket, t.ks, owner, 0), owner, ind);
      t := Table(t.ks, t.vs[ind := t.vs[ind][i := v]]);
    }

    method Del(key: K) returns (ok: bool)
      requires Valid()
      modifies this, owner.Keys
      ensures Valid() && keybucket == old(keybucket) && valbucket == old(valbucket) && owner == old(owner)
      ensures ok == old(HashTables.Get(cfg, t, key)).Some? && t == HashTables.Del(cfg, old(t), key)
    {
      DelKeepsOk(cfg, t, key);
      ok := DelKey(key);
    }

    method DelKey(key: K) returns (ok: bool)
      requires Lists() && Shaped(cfg, t) && count == Total(t.ks)
      modifies this`t, this`count, owner.Keys
      ensures Lists() && count == Total(t.ks)
      ensures ok == old(HashTables.Get(cfg, t, key)).Some? && t == HashTables.Del(cfg, old(t), key)
    {
      var ind := BucketOf(cfg, key);
      assert BucketList(keybucket[ind], t.ks[ind], owner, Who(ind, 0));
      if keybucket[ind] == null {
        return false;
      }
      var i := Find(ind, key);
      if i == -1 {
        return false;
      }
      TotalUpdate(t.ks, ind, Without(t.ks[ind], i));
      DropEntry(ind, i);
      ok := true;
    }

    method RemoveKey(ind: nat, i: nat)
      requires Lists() && ind < bucketsz && i < |t.ks[ind]|
      modifies this`t, owner.Keys
      ensures Lists() && t == old(Table(t.ks[ind := Without(t.ks[ind], i)], t.vs))
    {
      assert BucketList(keybucket[ind], t.ks[ind], owner, Who(ind, 0));
      RemoveFrom(keybucket, ind, i, t.ks, owner, 0);
      OthersKept(Shelf(valbucket, t.vs, owner, 1), owner, ind);
      t := Table(t.ks[ind := Without(t.ks[ind], i)], t.vs);
    }

    method RemoveValue(ind: nat, i: nat)
      requires Lists() && ind < bucketsz && i < |t.vs[ind]|
      modifies this`t, owner.Keys
      ensures Lists() && t == old(Table(t.ks, t.vs[ind := Without(t.vs[ind], i)]))
    {
      assert BucketList(valbucket[ind], t.vs[ind], owner, Who(ind, 1));
      RemoveFrom(valbucket, ind, i, t.vs, owner, 1);
      OthersKept(Shelf(keybucket, t.ks, owner, 0), owner, ind);
      t := Table(t.ks, t.vs[ind := Without(t.vs[ind], i)]);
    }

    method DropEntry(ind: nat, i: nat)
      requires Lists() && ind < bucketsz && i < |t.ks[ind]| && i < |t.vs[ind]| && count > 0
      modifies this`t, this`count, owner.Keys
      ensures Lists() && count == old(count) - 1
      ensures t == old(Table(t.ks[ind := Without(t.ks[ind], i)], t.vs[ind := Without(t.vs[ind], i)]))
    {
      RemoveKey(ind, i);
      RemoveValue(ind, i);
      count := count - 1;
    }

    // --- iteration ---

    method Count() returns (c: nat)
      requires Valid()
      ensures c == |Entries(t.ks, t.vs)|
    {
      c := count;
    }

    /** Where in the listing of all bindings the iterator stands: the next entry to be
        handed out. An iterator past the end of its bucket, as after a deletion, stands
        at the start of the next one. */
    ghost function Cursor(): (p: nat)
      requires Shaped(cfg, t) && buckiter < cfg.n
      reads this
    {
      Position(t.ks, buckiter, Min(listiter, |t.ks[buckiter]|))
    }

    /** Skips the buckets that have no list or an empty one. */
    method SkipEmpty()
      requires Lists() && Shaped(cfg, t) && buckiter <= bucketsz
      modifies this`buckiter
      ensures old(buckiter) <= buckiter <= bucketsz
      ensures Position(t.ks, buckiter, 0) == old(Position(t.ks, buckiter, 0))
      ensures buckiter < bucketsz ==> keybucket[buckiter] != null && t.ks[buckiter] != []
    {
      while buckiter < bucketsz
        invariant old(buckiter) <= buckiter <= bucketsz
        invariant Position(t.ks, buckiter, 0) == old(Position(t.ks, buckiter, 0))
        modifies this`buckiter
      {
        assert BucketList(keybucket[buckiter], t.ks[buckiter], owner, Who(buckiter, 0));
        if keybucket[buckiter] != null {
          var c := keybucket[buckiter].Count();
          if c != 0 {
            break;
          }
        }
        PositionNext(t.ks, buckiter);
        buckiter := buckiter + 1;
      }
    }

    /** The key and the value at position listiter of the current bucket, if there are. */
    method Current() returns (k: Option<K>, v: Option<V>)
      requires Lists() && Shaped(cfg, t) && buckiter < bucketsz
      ensures if listiter < |t.ks[buckiter]|
              then k == Some(t.ks[buckiter][listiter]) && v == Some(t.vs[buckiter][listiter])
              else k == None && v == None
    {
      k, v := None, None;
      assert BucketList(keybucket[buckiter], t.ks[buckiter], owner, Who(buckiter, 0));
      assert BucketList(valbucket[buckiter], t.vs[buckiter], owner, Who(buckiter, 1));
      if keybucket[buckiter] != null {
        k := keybucket[buckiter].Get(listiter);
        v := valbucket[buckiter].Get(listiter);
      }
    }

    /** What is handed out, and where the iterator then stands, when it stood at p. */
    ghost predicate HandedOut(p: nat, ok: bool, key: Option<K>, val: Option<V>)
      requires Shaped(cfg, t)
      reads this
    {
      && iterating == ok
      && var q := Entries(t.ks, t.vs);
         if p < |q| then ok && AtEntry(p + 1) && key == Some(q[p].0) && val == Some(q[p].1)
         else !ok && key == None && val == None
    }

    ghost predicate AtEntry(p: nat)
      requires Shaped(cfg, t)
      reads this
    {
      buckiter < cfg.n && Cursor() == p
    }

    /** The iterator's fields do not matter to what is stored. */
    twostate lemma IterationOnly()
      requires old(Sane()) && unchanged(this`keybucket, this`valbucket, this`bucketsz, this`t, this`owner, this`count)
      requires unchanged(keybucket, valbucket, owner.Keys)
      ensures Sane()
    {
    }

    method First() returns (ok: bool, key: Option<K>, val: Option<V>)
      requires Valid()
      modifies this`buckiter, this`listiter, this`iterating
      ensures Valid() && HandedOut(0, ok, key, val)
    {
      buckiter := 0;
      ok, key, val := NextBucket();
      IterationOnly();
    }

    /** Every call hands out the entry at the cursor and moves the cursor on by one, and
        says false at the end of the listing, where the iteration stops. When there is no
        iteration the caller's variables are left alone. */
    method Next(key0: Option<K>, val0: Option<V>) returns (ok: bool, key: Option<K>, val: Option<V>)
      requires Valid()
      modifies this`buckiter, this`listiter, this`iterating
      ensures Valid()
      ensures if old(iterating) then HandedOut(old(Cursor()), ok, key, val)
              else !ok && key == key0 && val == val0 && unchanged(this)
    {
      if !iterating {
        return false, key0, val0;
      }
      ok, key, val := NextEntry();
    }

    method NextEntry() returns (ok: bool, key: Option<K>, val: Option<V>)
      requires Lists() && Shaped(cfg, t) && iterating && buckiter < bucketsz
      modifies this`buckiter, this`listiter, this`iterating
      ensures HandedOut(old(Cursor()), ok, key, val)
    {
      key, val := Current();
      if key.None? {
        LeaveBucket();
        ok, key, val := NextBucket();
      } else {
        MovePast(key, val);
        ok := true;
      }
    }

    /** On from a bucket that has been handed out. */
    method LeaveBucket()
      requires Lists() && Shaped(cfg, t) && buckiter < bucketsz && listiter >= |t.ks[buckiter]|
      modifies this`buckiter, this`listiter
      ensures Lists() && buckiter <= bucketsz && Position(t.ks, buckiter, 0) == old(Cursor())
    {
      PositionNext(t.ks, buckiter);
      buckiter, listiter := buckiter + 1, 0;
    }

    /** The entry at the iterator has been read: on to the one after it. */
    method MovePast(key: Option<K>, val: Option<V>)
      requires Shaped(cfg, t) && buckiter < cfg.n && listiter < |t.ks[buckiter]|
      requires key == Some(t.ks[buckiter][listiter]) && val == Some(t.vs[buckiter][listiter])
      modifies this`listiter, this`iterating
      ensures HandedOut(old(Position(t.ks, buckiter, listiter)), true, key, val)
    {
      EntryHere(cfg, t, buckiter, listiter);
      listiter := listiter + 1;
      iterating := true;
    }

    /** The first entry from the current bucket on. */
    method NextBucket() returns (ok: bool, key: Option<K>, val: Option<V>)
      requires Lists() && Shaped(cfg, t) && buckiter <= bucketsz
      modifies this`buckiter, this`listiter, this`iterating
      ensures HandedOut(old(Position(t.ks, buckiter, 0)), ok, key, val)
    {
      SkipEmpty();
      if buckiter == bucketsz {
        PositionEnd(t.ks);
        iterating := false;
        return false, None, None;
      }
      listiter := 0;
      key, val := Current();
      MovePast(key, val);
      ok := true;
    }

    /** One round of a caller's loop: out is the listing so far. */
    method Gather(out: seq<(K, V)>, k: Option<K>, v: Option<V>)
      returns (out': seq<(K, V)>, ok: bool, k': Option<K>, v': Option<V>)
      requires Valid() && ListedSoFar(out, true, k, v)
      modifies this`buckiter, this`listiter, this`iterating
      ensures Valid() && ListedSoFar(out', ok, k', v') && |out'| == |out| + 1
    {
      out' := out + [(k.value, v.value)];
      assert out' == Entries(t.ks, t.vs)[..|out'|];
      ok, k', v' := Next(k, v);
    }

    ghost predicate ListedSoFar(out: seq<(K, V)>, ok: bool, k: Option<K>, v: Option<V>)
      requires Shaped(cfg, t)
      reads this
    {
      out <= Entries(t.ks, t.vs) && HandedOut(|out|, ok, k, v)
    }

    /** First and then Next until it says false: every binding once, in listing order. */
    method IterateAll() returns (out: seq<(K, V)>)
      requires Valid()
      modifies this`buckiter, this`listiter, this`iterating
      ensures Valid() && !iterating && out == Entries(t.ks, t.vs) && |out| == count
    {
      out := [];
      var ok, k, v := First();
      while ok
        invariant Valid() && ListedSoFar(out, ok, k, v)
        decreases |Entries(t.ks, t.vs)| - |out|, ok
      {
        out, ok, k, v := Gather(out, k, v);
      }
    }

    method Perform(op: Op<K, V>)
      requires Valid()
      modifies this, keybucket, valbucket, owner.Keys
      ensures Valid() && t == Step(cfg, old(t), op) && fresh(owner.Keys - old(owner.Keys))
      ensures keybucket == old(keybucket) && valbucket == old(valbucket)
    {
      match op
      case PutOp(k, v) => Put(Some(k), Some(v));
      case DelOp(k) =>
        var found := Del(k);
      case ClearOp => Clear();
    }
  }

  /** After any run of puts, deletions and clears, a lookup gives what the last operation
      on an equal key left there, and the keys listed are the duplicates of the first
      spellings. */
  method Drive<K(!new), V>(cfg: Config<K>, ops: seq<Op<K, V>>) returns (h: HashMap<K, V>)
    requires Sound(cfg)
    ensures h.Valid() && h.cfg == cfg
    ensures forall k :: HashTables.Get(cfg, h.t, k) == LastValue(cfg, ops, k)
    ensures forall x :: x in Entries(h.t.ks, h.t.vs) ==>
              var first := FirstSpelling(cfg, ops, x.0); first.Some? && x.0 == cfg.dup(first.value)
  {
    h := new HashMap<K, V>(cfg);
    ghost var ts := [h.t];
    var i := 0;
    while i < |ops|
      invariant 0 <= i <= |ops| && h.Valid() && h.cfg == cfg && fresh(h)
      invariant fresh(h.keybucket) && fresh(h.valbucket) && fresh(h.owner.Keys)
      invariant IsRun(cfg, ts, ops[..i]) && ts[i] == h.t
    {
      h.Perform(ops[i]);
      ts := RunOn(cfg, ts, ops, i);
      i := i + 1;
    }
    assert ops[..i] == ops;
    forall k
      ensures HashTables.Get(cfg, h.t, k) == LastValue(cfg, ops, k)
    {
      RunRefinesMap(cfg, ts, ops, k);
    }
    forall x | x in Entries(h.t.ks, h.t.vs)
      ensures var first := FirstSpelling(cfg, ops, x.0); first.Some? && x.0 == cfg.dup(first.value)
    {
      var j :| 0 <= j < |Entries(h.t.ks, h.t.vs)| && Entries(h.t.ks, h.t.vs)[j] == x;
      ListedKeysAreFirstSpellings(cfg, ts, ops, j);
    }
  }

  lemma RunOn<K, V>(c: Config<K>, ts: seq<Table<K, V>>, ops: seq<Op<K, V>>, i: nat) returns (ts': seq<Table<K, V>>)
    requires i < |ops| && IsRun(c, ts, ops[..i]) && Shaped(c, ts[i])
    ensures IsRun(c, ts', ops[..i + 1]) && ts'[i + 1] == Step(c, ts[i], ops[i])
  {
    ts' := ts + [Step(c, ts[i], ops[i])];
    forall j | 0 <= j <= i
      ensures Shaped(c, ts'[j]) && ts'[j + 1] == Step(c, ts'[j], ops[..i + 1][j])
    {
      if j < i {
        assert ops[..i][j] == ops[j];
      }
    }
  }
}
