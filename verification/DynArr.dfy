/** The growing array (libsrsbsns/dynarr.c).  Cells hold pointers that may be NULL; a
    "nulling" array keeps NULL in every cell that is not in use. */
module DynArrays {
  import opened Prelude

  /** The logarithm to base 2, cut down to a whole number. */
  function Log2(n: nat): (k: nat)
    requires n > 0
    ensures Pow2(k) <= n < 2 * Pow2(k)
  {
    if n == 1 then 0 else 1 + Log2(n / 2)
  }

  /** The size chosen to hold index: a power of two strictly above it. */
  function SizeFor(index: nat): (n: nat)
    ensures n > index && (index > 0 ==> n <= 2 * index) && exists k: nat :: n == Pow2(k)
  {
    if index == 0 then Pow2(0) else Pow2(Log2(index) + 1)
  }

  class DynArr<T(==)> {
    var nelem: nat
    var nused: nat
    var iter: nat
    var data: array<Option<T>>
    const nulling: bool

    ghost predicate Valid()
      reads this, data
    {
      && nelem == data.Length
      && nused <= nelem
      && (nulling ==> forall i :: nused <= i < nelem ==> data[i] == None)
    }

    ghost function Contents(): seq<Option<T>>
      requires Valid()
      reads this, data
    {
      data[..nused]
    }

    /** All cells of a new array count as used. */
    constructor (initsize: nat, nulling: bool)
      ensures Valid() && this.nulling == nulling && nused == initsize && fresh(data)
      ensures nulling ==> forall i :: 0 <= i < initsize ==> Contents()[i] == None
    {
      this.nulling := nulling;
      nelem, nused, iter := initsize, initsize, 0;
      data := new Option<T>[initsize];
      new;
      if nulling {
        NullRange(data, 0, initsize);
      }
    }

    static method NullRange(d: array<Option<T>>, off: nat, num: nat)
      requires off + num <= d.Length
      modifies d
      ensures forall i :: 0 <= i < d.Length ==>
                d[i] == if off <= i < off + num then None else old(d[i])
    {
      for i := 0 to num
        invariant forall k :: 0 <= k < d.Length ==>
                    d[k] == if off <= k < off + i then None else old(d[k])
      {
        d[i + off] := None;
      }
    }

    function Count(): (n: nat)
      requires Valid()
      reads this, data
      ensures n == |Contents()|
    {
      nused
    }

    /** The new block holds as much of the old contents as fits. */
    method Resize(newsz: nat)
      requires Valid()
      modifies this`nelem, this`nused, this`data
      ensures Valid() && nelem == newsz && fresh(data)
      ensures Contents() == old(Contents())[..Min(newsz, |old(Contents())|)]
    {
      var newloc := new Option<T>[newsz];
      var min := if newsz < nused then newsz else nused;
      forall i | 0 <= i < min {
        newloc[i] := data[i];
      }
      assert newloc[..min] == data[..min];
      if nulling {
        NullRange(newloc, min, newsz - min);
      }
      assert newloc[..min] == data[..nused][..min];
      data := newloc;
      nelem := newsz;
      nused := min;
    }

    method ProvideIndex(index: nat)
      requires Valid()
      modifies if index < nelem then {} else {this}
      ensures Valid() && index < nelem && Contents() == old(Contents())
      ensures if index < old(nelem) then data == old(data) else fresh(data) && nelem == SizeFor(index)
      ensures iter == old(iter)
    {
      if index >= nelem {
        Resize(SizeFor(index));
      }
    }

    method Push(x: Option<T>)
      requires Valid()
      modifies this, data
      ensures Valid() && Contents() == old(Contents()) + [x]
      ensures data == old(data) || fresh(data)
    {
      ProvideIndex(nused);
      data[nused] := x;
      nused := nused + 1;
    }

    /** Reading past the used part may grow the block but changes no contents. */
    method Get(index: nat) returns (r: Option<T>)
      requires Valid()
      modifies if index < nelem then {} else {this}
      ensures Valid() && Contents() == old(Contents()) && (data == old(data) || fresh(data))
      ensures index < |Contents()| ==> r == Contents()[index]
      ensures index >= |Contents()| && nulling ==> r == None
    {
      ProvideIndex(index);
      r := data[index];
    }

    method Put(index: nat, x: Option<T>)
      requires Valid()
      modifies this, data
      ensures Valid() && (data == old(data) || fresh(data))
      ensures |Contents()| == Max(|old(Contents())|, index + 1) && Contents()[index] == x
      ensures forall i :: 0 <= i < |old(Contents())| && i != index ==> Contents()[i] == old(Contents())[i]
      ensures nulling ==> forall i :: |old(Contents())| <= i < index ==> Contents()[i] == None
    {
      ghost var c := Contents();
      ProvideIndex(index);
      assert forall i :: 0 <= i < |c| ==> data[i] == c[i];
      data[index] := x;
      if index >= nused {
        nused := index + 1;
      }
    }

    method Truncate(fromindex: nat)
      requires Valid() && fromindex <= nelem
      modifies this`nused, data
      ensures Valid() && |Contents()| == fromindex
      ensures forall i :: 0 <= i < Min(fromindex, |old(Contents())|) ==> Contents()[i] == old(Contents())[i]
      ensures nulling ==> forall i :: |old(Contents())| <= i < fromindex ==> Contents()[i] == None
    {
      nused := fromindex;
      if nulling {
        NullRange(data, fromindex, nelem - fromindex);
      }
    }

    /** The first index that holds x, or -1. */
    method FindRaw(x: Option<T>) returns (r: int)
      requires Valid()
      ensures -1 <= r < |Contents()|
      ensures r >= 0 ==> Contents()[r] == x && x !in Contents()[..r]
      ensures r == -1 ==> x !in Contents()
    {
      for i := 0 to nused
        invariant x !in data[..i]
      {
        if data[i] == x {
          assert Contents()[..i] == data[..i];
          return i;
        }
        assert data[..i + 1] == data[..i] + [data[i]];
      }
      r := -1;
    }

    // --- iteration ---

    method First() returns (ok: bool, x: Option<T>)
      requires Valid()
      modifies this`iter
      ensures Valid() && Contents() == old(Contents())
      ensures ok <==> Contents() != []
      ensures ok ==> x == Contents()[0] && iter == 1
    {
      iter := 0;
      ok, x := Next();
    }

    /** x is only meaningful when ok. */
    method Next() returns (ok: bool, x: Option<T>)
      requires Valid()
      modifies this`iter
      ensures Valid() && Contents() == old(Contents())
      ensures ok <==> old(iter) < |Contents()|
      ensures ok ==> x == Contents()[old(iter)] && iter == old(iter) + 1
      ensures !ok ==> iter == old(iter)
    {
      if iter >= nused {
        return false, None;
      }
      x := data[iter];
      iter := iter + 1;
      ok := true;
    }
  }
}
