/** The singly linked list of non-NULL pointers (libsrsbsns/ptrlist.c), as far as the
    hash map uses it. */
module PtrLists {
  import opened Prelude

  class PlNode<T> {
    var data: T
    var next: PlNode?<T>

    constructor (data: T)
      ensures this.data == data && next == null
    {
      this.data, next := data, null;
    }
  }

  /** Insertion before position i; a position that is negative or past the last element
      means at the end. */
  function InsertedAt<T>(s: seq<T>, i: int, x: T): seq<T> {
    Spliced(s, if 0 <= i < |s| then i else |s|, x)
  }

  function Spliced<T>(s: seq<T>, k: nat, x: T): (r: seq<T>)
    requires k <= |s|
    ensures |r| == |s| + 1
    ensures forall j :: 0 <= j < |r| ==> r[j] == if j < k then s[j] else if j == k then x else s[j - 1]
  {
    s[..k] + [x] + s[k..]
  }

  ghost predicate Distinct<T>(s: seq<T>) {
    forall i, j :: 0 <= i < j < |s| ==> s[i] != s[j]
  }

  /** The node at position i, NULL past the end. */
  ghost function At<T>(ns: seq<PlNode<T>>, i: nat): PlNode?<T> {
    if i < |ns| then ns[i] else null
  }

  class PtrList<T> {
    var head: PlNode?<T>
    var iter: PlNode?<T>
    ghost var nodes: seq<PlNode<T>>

    ghost predicate Valid()
      reads this, nodes
    {
      && head == At(nodes, 0)
      && (forall i {:trigger nodes[i].next} :: 0 <= i < |nodes| ==> nodes[i].next == At(nodes, i + 1))
      && Distinct(nodes)
    }

    ghost function Contents(): (s: seq<T>)
      reads this, nodes
      ensures |s| == |nodes|
    {
      seq(|nodes|, i requires 0 <= i < |nodes| reads this, nodes => nodes[i].data)
    }

    constructor ()
      ensures Valid() && Contents() == [] && nodes == []
    {
      head, iter, nodes := null, null, [];
    }

    method Count() returns (c: nat)
      requires Valid()
      ensures c == |Contents()|
    {
      if head == null {
        return 0;
      }
      var n := head;
      c := 1;
      while n.next != null
        invariant 1 <= c <= |nodes| && n == nodes[c - 1]
        decreases |nodes| - c
      {
        n := n.next;
        c := c + 1;
      }
    }

    method Clear()
      requires Valid()
      modifies this`head, this`nodes
      ensures Valid() && Contents() == [] && nodes == []
    {
      head, nodes := null, [];
    }

    /** Walks to position i, or to the last node if there is no such position. */
    method Seek(i: int) returns (n: PlNode<T>, prev: PlNode?<T>, left: int, ghost k: nat)
      requires Valid() && head != null
      ensures k < |nodes| && n == nodes[k] && left == i - k
      ensures prev == if k == 0 then null else nodes[k - 1]
      ensures if 0 <= i < |nodes| then k == i else k == |nodes| - 1
      ensures left == 0 <==> 0 <= i < |nodes|
    {
      n, prev, left, k := head, null, i, 0;
      while n.next != null && left != 0
        invariant k < |nodes| && n == nodes[k] && left == i - k
        invariant prev == if k == 0 then null else nodes[k - 1]
        invariant 0 <= i ==> k <= i
        decreases |nodes| - k
      {
        left := left - 1;
        prev := n;
        n := n.next;
        k := k + 1;
      }
    }

    method Insert(i: int, data: Option<T>) returns (ok: bool)
      requires Valid()
      modifies this`head, this`nodes, nodes
      ensures Valid() && ok == data.Some?
      ensures Contents() == if ok then InsertedAt(old(Contents()), i, data.value) else old(Contents())
      ensures ok ==> exists node :: fresh(node) && nodes == InsertedAt(old(nodes), i, node)
      ensures !ok ==> nodes == old(nodes)
    {
      if data.None? {
        return false;
      }
      ok := true;
      var newnode := new PlNode(data.value);
      if head == null {
        head := newnode;
        nodes := [newnode];
        assert nodes == InsertedAt(old(nodes), i, newnode);
        return;
      }
      ghost var k;
      var n, prev, left;
      n, prev, left, k := Seek(i);
      ghost var was, held := nodes, Contents();
      if left != 0 {
        n.next := newnode;
        k := |was|;
      } else {
        newnode.next := n;
        if prev != null {
          prev.next := newnode;
        } else {
          head := newnode;
        }
      }
      nodes := Spliced(was, k, newnode);
      assert nodes == InsertedAt(old(nodes), i, newnode);
      Relinked(was, held, k, newnode);
    }

    /** The chain that was, with a new node hung in before position k. */
    lemma Relinked(was: seq<PlNode<T>>, held: seq<T>, k: nat, newnode: PlNode<T>)
      requires k <= |was| == |held| && nodes == Spliced(was, k, newnode)
      requires Distinct(was) && newnode !in was
      requires newnode.next == At(was, k)
      requires forall i {:trigger was[i].data} :: 0 <= i < |was| ==> was[i].data == held[i]
      requires forall i {:trigger was[i].next} :: 0 <= i < |was| ==>
                 was[i].next == if i + 1 == k then newnode else At(was, i + 1)
      requires head == if k == 0 then newnode else At(was, 0)
      ensures Valid() && Contents() == Spliced(held, k, newnode.data)
    {
      forall i | 0 <= i < |nodes|
        ensures nodes[i].next == At(nodes, i + 1)
      {
        if i < k { assert nodes[i] == was[i]; }
        else if i > k { assert nodes[i] == was[i - 1]; }
      }
      forall i, j | 0 <= i < j < |nodes|
        ensures nodes[i] != nodes[j]
      {
      }
    }

    method Replace(i: nat, data: Option<T>) returns (ok: bool)
      requires Valid()
      modifies nodes
      ensures Valid() && ok == (data.Some? && i < |old(Contents())|)
      ensures Contents() == if ok then old(Contents())[i := data.value] else old(Contents())
    {
      if head == null || data.None? {
        return false;
      }
      ghost var k;
      var n, prev, left;
      n, prev, left, k := Seek(i);
      if left > 0 {
        return false;
      }
      n.data := data.value;
      ok := true;
    }

    method Remove(i: nat) returns (ok: bool)
      requires Valid()
      modifies this`head, this`nodes, nodes
      ensures Valid() && ok == (i < |old(Contents())|)
      ensures Contents() == if ok then Without(old(Contents()), i) else old(Contents())
      ensures forall n :: n in nodes ==> n in old(nodes)
    {
      if head == null {
        return false;
      }
      ghost var k;
      var n, prev, left;
      n, prev, left, k := Seek(i);
      if left > 0 {
        return false;
      }
      ghost var was, held := nodes, Contents();
      if prev == null {
        head := n.next;
      } else {
        prev.next := n.next;
      }
      nodes := Without(was, k);
      Unlinked(was, held, k);
      ok := true;
    }

    /** The chain that was, with position k bypassed. */
    lemma Unlinked(was: seq<PlNode<T>>, held: seq<T>, k: nat)
      requires k < |was| == |held| && nodes == Without(was, k)
      requires Distinct(was)
      requires forall i {:trigger was[i].data} :: 0 <= i < |was| ==> was[i].data == held[i]
      requires forall i {:trigger was[i].next} :: 0 <= i < |was| ==>
                 was[i].next == if i + 1 == k then At(was, k + 1) else At(was, i + 1)
      requires head == if k == 0 then At(was, 1) else was[0]
      ensures Valid() && Contents() == Without(held, k)
    {
      forall i | 0 <= i < |nodes|
        ensures nodes[i].next == At(nodes, i + 1)
      {
        if i < k { assert nodes[i] == was[i]; }
        else { assert nodes[i] == was[i + 1]; }
      }
      forall i, j | 0 <= i < j < |nodes|
        ensures nodes[i] != nodes[j]
      {
      }
    }

    method Get(i: nat) returns (r: Option<T>)
      requires Valid()
      ensures r == if i < |Contents()| then Some(Contents()[i]) else None
    {
      if head == null {
        return None;
      }
      ghost var k;
      var n, prev, left;
      n, prev, left, k := Seek(i);
      if left > 0 {
        return None;
      }
      r := Some(n.data);
    }

    /** The first position whose element is related to the needle, or -1. */
    method FindEqFn<U>(eqfn: (T, U) -> bool, needle: U) returns (r: int)
      requires Valid()
      ensures -1 <= r < |Contents()|
      ensures r >= 0 ==> eqfn(Contents()[r], needle) && forall j :: 0 <= j < r ==> !eqfn(Contents()[j], needle)
      ensures r == -1 ==> forall j :: 0 <= j < |Contents()| ==> !eqfn(Contents()[j], needle)
    {
      if head == null {
        return -1;
      }
      var c := 0;
      var n := head;
      while n != null
        invariant 0 <= c <= |nodes| && n == At(nodes, c)
        invariant forall j :: 0 <= j < c ==> !eqfn(Contents()[j], needle)
        decreases |nodes| - c
      {
        if eqfn(n.data, needle) {
          return c;
        }
        c := c + 1;
        n := n.next;
      }
      r := -1;
    }
  }
}
